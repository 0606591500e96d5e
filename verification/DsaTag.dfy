/** The HMS DSA tag: a VLAN tag (clause 9.6 of IEEE 802.1Q) whose VID names the switch port
    a frame came from. Classification in the BPF programs and parsing in userspace. */
module DsaTag {
  import opened Bytes
  import opened Wrappers

  const TPID_C: bv16 := 0x8100
  const TPID_S: bv16 := 0x88A8
  const META_ETHERTYPE: bv16 := 0xDADC
  const ETH_HLEN := 14
  const TAG_LEN := 4

  datatype Tag = Tag(port: byte, switchId: byte, ipv: byte)

  datatype Action = Pass | Redirect

  function Be16(hi: byte, lo: byte): bv16 { ((hi as bv16) << 8) | (lo as bv16) }

  /** Port, switch and priority, for a VID whose reserved bits mark it as a DSA one. */
  function DecodeTci(tci: bv16): Option<Tag> {
    var vid := tci & 0x0FFF;
    if (vid >> 10) & 0x03 != 3 then None
    else Some(Tag((vid & 0x0F) as byte, ((vid >> 6) & 0x07) as byte, ((tci >> 13) & 0x07) as byte))
  }

  /** PCP[15:13] DEI[12] RSV[11:10] VBID[9] SWITCH_ID[8:6] VBID[5:4] PORT[3:0]. */
  function EncodeTci(tag: Tag, dei: bool, vbidHigh: bv16, vbidLow: bv16): bv16 {
    ((tag.ipv as bv16) << 13) | (if dei then 0x1000 else 0) | 0x0C00 | ((vbidHigh & 1) << 9)
    | ((tag.switchId as bv16) << 6) | ((vbidLow & 3) << 4) | (tag.port as bv16)
  }

  /** The decoder recovers what the switch encoded, whatever the bits it does not look at. */
  lemma DecodeEncodedTci(tag: Tag, dei: bool, vbidHigh: bv16, vbidLow: bv16)
    requires tag.port < 16 && tag.switchId < 8 && tag.ipv < 8
    ensures DecodeTci(EncodeTci(tag, dei, vbidHigh, vbidLow)) == Some(tag)
  {
  }

  /** Nothing else decodes: a TCI is accepted only if it is the encoding of its own fields. */
  lemma DecodedTciIsEncoded(tci: bv16)
    ensures match DecodeTci(tci)
            case None => tci & 0x0C00 != 0x0C00
            case Some(tag) =>
              && tag.port < 16 && tag.switchId < 8 && tag.ipv < 8
              && tci == EncodeTci(tag, tci & 0x1000 != 0, tci >> 9, tci >> 4)
  {
  }

  function EtherType(frame: seq<byte>): bv16
    requires |frame| >= ETH_HLEN
  {
    Be16(frame[12], frame[13])
  }

  /** Slow protocols and PTP stay with the kernel. */
  predicate IsLinkLocal(frame: seq<byte>)
    requires |frame| >= ETH_HLEN
  {
    var hi, mid := Be16(frame[0], frame[1]), Be16(frame[2], frame[3]);
    (hi == 0x0180 && mid == 0xC200) || (hi == 0x011B && mid == 0x1900)
  }

  /** The three octets that the comments beside the test name: 01:80:C2 and 01:1B:19. */
  predicate HasLinkLocalPrefix(frame: seq<byte>)
    requires |frame| >= ETH_HLEN
  {
    frame[..3] == [0x01, 0x80, 0xC2] || frame[..3] == [0x01, 0x1B, 0x19]
  }

  lemma Be16Halves(a: byte, b: byte, c: byte, d: byte)
    ensures Be16(a, b) == Be16(c, d) <==> a == c && b == d
  {
  }

  lemma Constants()
    ensures Be16(0x01, 0x80) == 0x0180 && Be16(0xC2, 0) == 0xC200
    ensures Be16(0x01, 0x1B) == 0x011B && Be16(0x19, 0) == 0x1900
  {
  }

  /** The test compares four octets, not three: it is the announced one exactly on addresses
      whose fourth octet is zero, or that do not have the prefix in the first place. */
  lemma LinkLocalExact(frame: seq<byte>)
    requires |frame| >= ETH_HLEN
    ensures IsLinkLocal(frame) <==> HasLinkLocalPrefix(frame) && frame[3] == 0
    ensures IsLinkLocal(frame) == HasLinkLocalPrefix(frame) <==> !HasLinkLocalPrefix(frame) || frame[3] == 0
  {
    hide Be16;
    assert Be16(0x01, 0x80) == 0x0180 && Be16(0xC2, 0) == 0xC200 by { Constants(); }
    assert Be16(0x01, 0x1B) == 0x011B && Be16(0x19, 0) == 0x1900 by { Constants(); }
    Be16Halves(frame[0], frame[1], 0x01, 0x80);
    Be16Halves(frame[2], frame[3], 0xC2, 0);
    Be16Halves(frame[0], frame[1], 0x01, 0x1B);
    Be16Halves(frame[2], frame[3], 0x19, 0);
    assert frame[..3] == [frame[0], frame[1], frame[2]];
  }

  /** A slow-protocol address that the test lets through to the data path. */
  lemma PrefixMissed()
    ensures var frame: seq<byte> := [0x01, 0x80, 0xC2, 1, 0, 0, 2, 0, 0, 0, 0, 1, 0x81, 0x00, 0x0C, 0x01, 0x08, 0x00];
            HasLinkLocalPrefix(frame) && !IsLinkLocal(frame)
  {
    var frame: seq<byte> := [0x01, 0x80, 0xC2, 1, 0, 0, 2, 0, 0, 0, 0, 1, 0x81, 0x00, 0x0C, 0x01, 0x08, 0x00];
    assert frame[..3] == [0x01, 0x80, 0xC2];
    LinkLocalExact(frame);
  }

  /** Whether a BPF program takes the frame, and with which tag. */
  function Classify(frame: seq<byte>): (r: Option<Tag>)
    ensures r.Some? ==> |frame| >= ETH_HLEN + 2
  {
    if |frame| < ETH_HLEN then None
    else if EtherType(frame) == META_ETHERTYPE then None
    else if IsLinkLocal(frame) then None
    else if EtherType(frame) != TPID_C && EtherType(frame) != TPID_S then None
    else if |frame| < ETH_HLEN + 2 then None
    else DecodeTci(Be16(frame[14], frame[15]))
  }

  /** The program that only redirects; an unbound queue falls back to the kernel. */
  function XdpRedirectXsk(frame: seq<byte>, bound: bool): Action {
    if Classify(frame).Some? && bound then Redirect else Pass
  }

  /** The parser in userspace. It does not look at the destination address. */
  function ParseHmsTag(frame: seq<byte>): Option<(byte, byte)> {
    if |frame| < ETH_HLEN + 2 then None
    else if EtherType(frame) != TPID_C && EtherType(frame) != TPID_S then None
    else match DecodeTci(Be16(frame[14], frame[15]))
         case None => None
         case Some(tag) => Some((tag.port, tag.switchId))
  }

  /** The two sides agree except on link-local frames, which never reach userspace. */
  lemma ParserAgreesWithClassifier(frame: seq<byte>)
    ensures Classify(frame).Some? <==> ParseHmsTag(frame).Some? && !IsLinkLocal(frame)
    ensures Classify(frame).Some? ==> ParseHmsTag(frame) == Some((Classify(frame).value.port, Classify(frame).value.switchId))
  {
    hide DecodeTci, IsLinkLocal, Be16;
  }

  // ----- On the octets of a frame ------------------------------------------------------------

  /** The frame has a VLAN tag whose VID has both reserved bits set. */
  predicate TaggedFrame(frame: seq<byte>) {
    |frame| >= 16 && (frame[12..14] == [0x81, 0x00] || frame[12..14] == [0x88, 0xA8]) && frame[14] & 0x0C == 0x0C
  }

  /** It begins with one of the two link-local addresses, the fourth octet of which is zero. */
  predicate LinkLocalFrame(frame: seq<byte>) {
    |frame| >= 4 && (frame[..4] == [0x01, 0x80, 0xC2, 0x00] || frame[..4] == [0x01, 0x1B, 0x19, 0x00])
  }

  predicate TakenFrame(frame: seq<byte>) { TaggedFrame(frame) && !LinkLocalFrame(frame) }

  function SourcePort(frame: seq<byte>): byte
    requires TaggedFrame(frame)
  {
    frame[15] & 0x0F
  }

  /** One bit of the upper octet and two of the lower one. */
  function SwitchId(frame: seq<byte>): byte
    requires TaggedFrame(frame)
  {
    ((frame[14] & 0x01) << 2) | (frame[15] >> 6)
  }

  function Priority(frame: seq<byte>): byte
    requires TaggedFrame(frame)
  {
    frame[14] >> 5
  }

  lemma TciOctets(hi: byte, lo: byte)
    ensures DecodeTci(Be16(hi, lo)) ==
              if hi & 0x0C == 0x0C then Some(Tag(lo & 0x0F, ((hi & 0x01) << 2) | (lo >> 6), hi >> 5)) else None
  {
  }

  lemma TpidOctets()
    ensures Be16(0x81, 0x00) == 0x8100 && Be16(0x88, 0xA8) == 0x88A8 && Be16(0xDA, 0xDC) == 0xDADC
  {
  }

  lemma TpidExact(frame: seq<byte>)
    requires |frame| >= ETH_HLEN
    ensures EtherType(frame) == TPID_C <==> frame[12..14] == [0x81, 0x00]
    ensures EtherType(frame) == TPID_S <==> frame[12..14] == [0x88, 0xA8]
  {
    hide Be16;
    TpidOctets();
    Be16Halves(frame[12], frame[13], 0x81, 0x00);
    Be16Halves(frame[12], frame[13], 0x88, 0xA8);
    assert frame[12..14] == [frame[12], frame[13]];
  }

  lemma LinkLocalOctets(frame: seq<byte>)
    requires |frame| >= ETH_HLEN
    ensures IsLinkLocal(frame) <==> LinkLocalFrame(frame)
  {
    hide IsLinkLocal;
    LinkLocalExact(frame);
    assert frame[..4] == frame[..3] + [frame[3]];
  }

  /** Which frames are taken, and with which tag. */
  lemma ClassifyExact(frame: seq<byte>)
    ensures Classify(frame) ==
              if TakenFrame(frame) then Some(Tag(SourcePort(frame), SwitchId(frame), Priority(frame))) else None
  {
    hide Be16, DecodeTci, IsLinkLocal, EtherType;
    if |frame| >= ETH_HLEN {
      TpidExact(frame);
      LinkLocalOctets(frame);
    }
    if |frame| >= 16 { TciOctets(frame[14], frame[15]); }
  }

  /** Which frames the redirecting program takes. */
  lemma RedirectExact(frame: seq<byte>, bound: bool)
    ensures XdpRedirectXsk(frame, bound) == Redirect <==> TakenFrame(frame) && bound
  {
    hide Classify;
    ClassifyExact(frame);
  }

  /** Which frames the userspace parser knows, and what it reads off them. */
  lemma ParseExact(frame: seq<byte>)
    ensures ParseHmsTag(frame) == if TaggedFrame(frame) then Some((SourcePort(frame), SwitchId(frame))) else None
  {
    hide Be16, DecodeTci, EtherType;
    if |frame| >= ETH_HLEN { TpidExact(frame); }
    if |frame| >= 16 { TciOctets(frame[14], frame[15]); }
  }
}
