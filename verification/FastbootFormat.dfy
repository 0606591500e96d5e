/** The entries file of the multicore fastboot tool: its layout, what the reader, the dumper
    and the embedder make of a file, and how the four fit together. */
module FastbootFormat {
  import opened Bytes
  import opened Crc32

  const MAGIC: u32 := 0x5442_5346
  const VERSION: u16 := 1
  const MAX_ENTRIES := 16
  const HEADER_SIZE := 40
  const ENTRY_SIZE := 20

  datatype Entry = Entry(coreId: u32, entryAddr: u64, flags: u32, reserved: u32)

  datatype Header = Header(magic: u32, totalSize: u32, version: u16, entryCount: u16,
                           headerSize: u32, entrySize: u32, checksum: u32, reserved: seq<byte>)

  datatype Error =
    | ShortHeader | BadMagic | BadHeaderSize | BadEntrySize | BadFileSize
    | DuplicateCore | TooManyEntries | ShortEntries | BadChecksum
    | OffsetBeyondEnd | NoReservation | ReservationTooSmall | ReservationBeyondEnd
    | EmptyEntriesFile | EmptyTarget | OffsetOverflow

  datatype Result<+T> = Ok(value: T) | Err(error: Error)

  // ----- Layout ------------------------------------------------------------------------

  lemma Widths()
    ensures Pow256(2) == 0x1_0000 && Pow256(4) == 0x1_0000_0000
    ensures Pow256(8) == 0x1_0000_0000_0000_0000
  {
    assert Pow256(4) == 0x1_0000_0000;
    assert Pow256(6) == 0x1_0000_0000_0000;
  }

  function Word16(s: seq<byte>): u16
    requires |s| == 2
  {
    Widths(); FromLE(s)
  }

  function Word32(s: seq<byte>): u32
    requires |s| == 4
  {
    Widths(); FromLE(s)
  }

  function Word64(s: seq<byte>): u64
    requires |s| == 8
  {
    Widths(); FromLE(s)
  }

  function EncodeHeader(h: Header): (s: seq<byte>)
    requires |h.reserved| == 16
    ensures |s| == HEADER_SIZE
  {
    ToLE(h.magic, 4) + ToLE(h.totalSize, 4) + ToLE(h.version, 2) + ToLE(h.entryCount, 2)
    + ToLE(h.headerSize, 4) + ToLE(h.entrySize, 4) + ToLE(h.checksum, 4) + h.reserved
  }

  function DecodeHeader(s: seq<byte>): (h: Header)
    requires |s| == HEADER_SIZE
    ensures |h.reserved| == 16
  {
    Header(Word32(s[0..4]), Word32(s[4..8]), Word16(s[8..10]), Word16(s[10..12]),
           Word32(s[12..16]), Word32(s[16..20]), Word32(s[20..24]), s[24..40])
  }

  function EncodeEntry(e: Entry): (s: seq<byte>)
    ensures |s| == ENTRY_SIZE
  {
    ToLE(e.coreId, 4) + ToLE(e.entryAddr, 8) + ToLE(e.flags, 4) + ToLE(e.reserved, 4)
  }

  function DecodeEntry(s: seq<byte>): Entry
    requires |s| == ENTRY_SIZE
  {
    Entry(Word32(s[0..4]), Word64(s[4..12]), Word32(s[12..16]), Word32(s[16..20]))
  }

  function EncodeEntries(es: seq<Entry>): (s: seq<byte>)
    ensures |s| == ENTRY_SIZE * |es|
  {
    if es == [] then [] else EncodeEntry(es[0]) + EncodeEntries(es[1..])
  }

  function DecodeEntries(s: seq<byte>, n: nat): (es: seq<Entry>)
    requires |s| == ENTRY_SIZE * n
    ensures |es| == n
    decreases n
  {
    if n == 0 then [] else [DecodeEntry(s[..ENTRY_SIZE])] + DecodeEntries(s[ENTRY_SIZE..], n - 1)
  }

  function Checksum(body: seq<byte>): u32 { Crc(body) as int }

  const ZEROS: seq<byte> := [0, 0, 0, 0, 0, 0, 0, 0, 0, 0, 0, 0, 0, 0, 0, 0]

  function HeaderOf(es: seq<Entry>): (h: Header)
    requires |es| <= MAX_ENTRIES
    ensures |h.reserved| == 16
  {
    Header(MAGIC, HEADER_SIZE + ENTRY_SIZE * |es|, VERSION, |es|, HEADER_SIZE, ENTRY_SIZE,
           if es == [] then 0 else Checksum(EncodeEntries(es)), ZEROS)
  }

  /** The file written for a table that holds `es` in this order. */
  function FileOf(es: seq<Entry>): (s: seq<byte>)
    requires |es| <= MAX_ENTRIES
    ensures |s| == HEADER_SIZE + ENTRY_SIZE * |es|
  {
    EncodeHeader(HeaderOf(es)) + EncodeEntries(es)
  }

  lemma LittleWord(a: byte, b: byte, c: byte, d: byte)
    ensures Word32([a, b, c, d]) == OctetValue(a) + 0x100 * OctetValue(b) + 0x1_0000 * OctetValue(c) + 0x100_0000 * OctetValue(d)
  {
    hide OctetValue;
    FourOctetValue(a, b, c, d);
  }

  lemma Words32(n: u32, s: seq<byte>)
    requires |s| == 4
    ensures Word32(ToLE(n, 4)) == n
    ensures ToLE(Word32(s), 4) == s
  {
    Widths();
    LERoundTrip(n, 4);
    LEUnique(s);
  }

  lemma Words16(n: u16, s: seq<byte>)
    requires |s| == 2
    ensures Word16(ToLE(n, 2)) == n
    ensures ToLE(Word16(s), 2) == s
  {
    Widths();
    LERoundTrip(n, 2);
    LEUnique(s);
  }

  lemma Words64(n: u64, s: seq<byte>)
    requires |s| == 8
    ensures Word64(ToLE(n, 8)) == n
    ensures ToLE(Word64(s), 8) == s
  {
    Widths();
    LERoundTrip(n, 8);
    LEUnique(s);
  }

  lemma HeaderRoundTrip(h: Header)
    requires |h.reserved| == 16
    ensures DecodeHeader(EncodeHeader(h)) == h
  {
    hide ToLE, Word16, Word32, Octet, OctetValue;
    var s := EncodeHeader(h);
    assert s[0..4] == ToLE(h.magic, 4) && s[4..8] == ToLE(h.totalSize, 4);
    assert s[8..10] == ToLE(h.version, 2) && s[10..12] == ToLE(h.entryCount, 2);
    assert s[12..16] == ToLE(h.headerSize, 4) && s[16..20] == ToLE(h.entrySize, 4);
    assert s[20..24] == ToLE(h.checksum, 4);
    assert |s| == HEADER_SIZE && s[24..] == h.reserved;
    assert s[24..40] == s[24..];
    Words32(h.magic, s[0..4]);
    Words32(h.totalSize, s[0..4]);
    Words16(h.version, s[0..2]);
    Words16(h.entryCount, s[0..2]);
    Words32(h.headerSize, s[0..4]);
    Words32(h.entrySize, s[0..4]);
    Words32(h.checksum, s[0..4]);
  }

  lemma HeaderUnique(s: seq<byte>)
    requires |s| == HEADER_SIZE
    ensures EncodeHeader(DecodeHeader(s)) == s
  {
    hide ToLE, Word16, Word32, Octet, OctetValue;
    Words32(0, s[0..4]);
    Words32(0, s[4..8]);
    Words16(0, s[8..10]);
    Words16(0, s[10..12]);
    Words32(0, s[12..16]);
    Words32(0, s[16..20]);
    Words32(0, s[20..24]);
    assert s == s[0..4] + s[4..8] + s[8..10] + s[10..12] + s[12..16] + s[16..20] + s[20..24] + s[24..40];
  }

  lemma EntryRoundTrip(e: Entry)
    ensures DecodeEntry(EncodeEntry(e)) == e
  {
    hide ToLE, Word64, Word32, Octet, OctetValue;
    var s := EncodeEntry(e);
    assert s[0..4] == ToLE(e.coreId, 4) && s[4..12] == ToLE(e.entryAddr, 8);
    assert s[12..16] == ToLE(e.flags, 4);
    assert |s| == ENTRY_SIZE && s[16..] == ToLE(e.reserved, 4);
    assert s[16..20] == s[16..];
    Words32(e.coreId, s[0..4]);
    Words64(e.entryAddr, s[0..8]);
    Words32(e.flags, s[0..4]);
    Words32(e.reserved, s[0..4]);
  }

  lemma EntryUnique(s: seq<byte>)
    requires |s| == ENTRY_SIZE
    ensures EncodeEntry(DecodeEntry(s)) == s
  {
    hide ToLE, Word64, Word32, Octet, OctetValue;
    Words32(0, s[0..4]);
    Words64(0, s[4..12]);
    Words32(0, s[12..16]);
    Words32(0, s[16..20]);
    assert s == s[0..4] + s[4..12] + s[12..16] + s[16..20];
  }

  lemma {:induction false} EntriesRoundTrip(es: seq<Entry>)
    ensures DecodeEntries(EncodeEntries(es), |es|) == es
  {
    hide EncodeEntry, DecodeEntry;
    if es != [] {
      var s := EncodeEntries(es);
      assert s[..ENTRY_SIZE] == EncodeEntry(es[0]) && s[ENTRY_SIZE..] == EncodeEntries(es[1..]);
      EntryRoundTrip(es[0]);
      EntriesRoundTrip(es[1..]);
    }
  }

  lemma {:induction false} EntriesUnique(s: seq<byte>, n: nat)
    requires |s| == ENTRY_SIZE * n
    ensures EncodeEntries(DecodeEntries(s, n)) == s
    decreases n
  {
    hide EncodeEntry, DecodeEntry;
    if n > 0 {
      EntryUnique(s[..ENTRY_SIZE]);
      EntriesUnique(s[ENTRY_SIZE..], n - 1);
      assert DecodeEntries(s, n)[1..] == DecodeEntries(s[ENTRY_SIZE..], n - 1);
      assert s == s[..ENTRY_SIZE] + s[ENTRY_SIZE..];
    }
  }

  // ----- The octets of a file ----------------------------------------------------------

  const FSBT: seq<byte> := [0x46, 0x53, 0x42, 0x54]

  /** The magic number is the four letters FSBT. */
  lemma MagicOctets(s: seq<byte>)
    requires |s| == 4
    ensures Word32(s) == MAGIC <==> s == FSBT
  {
    hide Word32, ToLE;
    LittleWord(0x46, 0x53, 0x42, 0x54);
    assert Word32(FSBT) == MAGIC;
    Words32(0, s);
    Words32(0, FSBT);
  }

  /** The entry whose octets begin at `at`: core, address, flags, reserved word. */
  function EntryAt(file: seq<byte>, at: nat): Entry
    requires at + 20 <= |file|
  {
    Entry(Word32(file[at..at + 4]), Word64(file[at + 4..at + 12]), Word32(file[at + 12..at + 16]), Word32(file[at + 16..at + 20]))
  }

  lemma Part(s: seq<byte>, i: nat, n: nat, a: nat, b: nat)
    requires a <= b <= n && i + n <= |s|
    ensures s[i..i + n][a..b] == s[i + a..i + b]
  {
    var x, y := s[i..i + n][a..b], s[i + a..i + b];
    assert |x| == |y| && forall k :: 0 <= k < |x| ==> x[k] == y[k];
  }

  lemma EntryParts(s: seq<byte>, i: nat)
    requires i + ENTRY_SIZE <= |s|
    ensures EntryAt(s, i) == DecodeEntry(s[i..i + ENTRY_SIZE])
  {
    hide Word32, Word64;
    var x := s[i..i + 20];
    assert x[0..4] == s[i..i + 4] by { Part(s, i, 20, 0, 4); }
    assert x[4..12] == s[i + 4..i + 12] by { Part(s, i, 20, 4, 12); }
    assert x[12..16] == s[i + 12..i + 16] by { Part(s, i, 20, 12, 16); }
    assert x[16..20] == s[i + 16..i + 20] by { Part(s, i, 20, 16, 20); }
    assert s[i..i + ENTRY_SIZE] == x;
  }

  lemma Behind(s: seq<byte>, k: nat, a: nat, b: nat)
    requires a <= b && k + b <= |s|
    ensures s[k..][a..b] == s[k + a..k + b]
  {
    var x, y := s[k..][a..b], s[k + a..k + b];
    assert |x| == |y| && forall i :: 0 <= i < |x| ==> x[i] == y[i];
  }

  lemma {:induction false} EntryPlace(body: seq<byte>, n: nat, i: nat)
    requires |body| == ENTRY_SIZE * n && i < n
    ensures DecodeEntries(body, n)[i] == DecodeEntry(body[ENTRY_SIZE * i..ENTRY_SIZE * i + ENTRY_SIZE])
    decreases n
  {
    hide DecodeEntry;
    if i > 0 {
      var rest := body[ENTRY_SIZE..];
      EntryPlace(rest, n - 1, i - 1);
      Behind(body, ENTRY_SIZE, ENTRY_SIZE * (i - 1), ENTRY_SIZE * (i - 1) + ENTRY_SIZE);
    }
  }

  /** Entry `i` of a table of `n`, read off the file. */
  lemma EntryInFile(file: seq<byte>, start: nat, n: nat, i: nat)
    requires start + 40 + 20 * n <= |file| && i < n
    ensures DecodeEntries(file[start..][HEADER_SIZE..][..ENTRY_SIZE * n], n)[i] == EntryAt(file, start + 40 + 20 * i)
  {
    hide DecodeEntries, DecodeEntry, EntryAt;
    var body, at := file[start..][HEADER_SIZE..][..ENTRY_SIZE * n], start + 40 + 20 * i;
    EntryPlace(body, n, i);
    EntryParts(file, at);
    assert body[ENTRY_SIZE * i..ENTRY_SIZE * i + ENTRY_SIZE] == file[at..at + ENTRY_SIZE];
  }

  lemma HeaderParts(s: seq<byte>)
    requires |s| == HEADER_SIZE
    ensures var h := DecodeHeader(s);
            && h.magic == Word32(s[0..4]) && h.totalSize == Word32(s[4..8]) && h.version == Word16(s[8..10])
            && h.entryCount == Word16(s[10..12]) && h.headerSize == Word32(s[12..16])
            && h.entrySize == Word32(s[16..20]) && h.checksum == Word32(s[20..24]) && h.reserved == s[24..40]
  {
  }

  /** The header of a file octet by octet: letters, length, version, count, the sizes of header
      and entry, the checksum of what follows, sixteen zeros. */
  predicate HasHeader(file: seq<byte>, total: nat, version: nat, count: nat, sum: nat) {
    && |file| >= 40 && file[0..4] == FSBT && Word32(file[4..8]) == total
    && Word16(file[8..10]) == version && Word16(file[10..12]) == count
    && Word32(file[12..16]) == 40 && Word32(file[16..20]) == 20 && Word32(file[20..24]) == sum
    && forall i :: 24 <= i < 40 ==> file[i] == 0
  }

  /** A written file: version one, its length, and twenty octets for each entry. */
  lemma FileLayout(es: seq<Entry>)
    requires |es| <= MAX_ENTRIES
    ensures |FileOf(es)| == 40 + 20 * |es|
    ensures HasHeader(FileOf(es), 40 + 20 * |es|, 1, |es|, if es == [] then 0 else Crc(FileOf(es)[40..]) as int)
    ensures forall i :: 0 <= i < |es| ==> EntryAt(FileOf(es), 40 + 20 * i) == es[i]
  {
    hide EncodeHeader, DecodeHeader, EncodeEntries, DecodeEntries, EntryAt, Word16, Word32, Word64, Crc;
    var file, h := FileOf(es), HeaderOf(es);
    var head := file[..HEADER_SIZE];
    assert head == EncodeHeader(h);
    HeaderRoundTrip(h);
    HeaderParts(head);
    MagicOctets(head[0..4]);
    assert file[0..4] == head[0..4] && file[4..8] == head[4..8] && file[8..10] == head[8..10] && file[10..12] == head[10..12];
    assert file[12..16] == head[12..16] && file[16..20] == head[16..20] && file[20..24] == head[20..24];
    forall i | 24 <= i < 40 ensures file[i] == 0 { assert file[i] == head[24..40][i - 24] == ZEROS[i - 24]; }
    assert file[40..] == EncodeEntries(es);
    EntriesRoundTrip(es);
    assert file[0..][HEADER_SIZE..][..ENTRY_SIZE * |es|] == file[40..];
    forall i | 0 <= i < |es| ensures EntryAt(file, 40 + 20 * i) == es[i] { EntryInFile(file, 0, |es|, i); }
  }

  // ----- Reading -----------------------------------------------------------------------

  /** The entries a validating read of `file` stores, or why it refuses. A foreign version
      only draws a warning, and the checksum of an empty table is not looked at. */
  function ReadFile(file: seq<byte>): (r: Result<seq<Entry>>)
    ensures r.Ok? ==> |r.value| <= MAX_ENTRIES
  {
    if |file| < HEADER_SIZE then Err(ShortHeader) else
    var h := DecodeHeader(file[..HEADER_SIZE]);
    if h.magic != MAGIC then Err(BadMagic)
    else if h.headerSize != HEADER_SIZE then Err(BadHeaderSize)
    else if h.entrySize != ENTRY_SIZE then Err(BadEntrySize)
    else if |file| != h.totalSize then Err(BadFileSize)
    else if h.entryCount > MAX_ENTRIES then Err(TooManyEntries)
    else if h.entryCount == 0 then Ok([])
    else if |file| - HEADER_SIZE < ENTRY_SIZE * h.entryCount then Err(ShortEntries)
    else
      var body := file[HEADER_SIZE..][..ENTRY_SIZE * h.entryCount];
      if Checksum(body) != h.checksum then Err(BadChecksum)
      else Ok(DecodeEntries(body, h.entryCount))
  }

  /** Whatever is written reads back with every field intact. */
  lemma ReadBack(es: seq<Entry>)
    requires |es| <= MAX_ENTRIES
    ensures ReadFile(FileOf(es)) == Ok(es)
  {
    hide EncodeHeader, DecodeHeader, EncodeEntries, DecodeEntries, Checksum;
    var file := FileOf(es);
    assert file[..HEADER_SIZE] == EncodeHeader(HeaderOf(es));
    assert file[HEADER_SIZE..][..ENTRY_SIZE * |es|] == EncodeEntries(es);
    HeaderRoundTrip(HeaderOf(es));
    EntriesRoundTrip(es);
  }

  /** The reader accepts more than the writer emits; this is exactly how much more. */
  lemma AcceptedFileIsWritten(file: seq<byte>, es: seq<Entry>)
    requires ReadFile(file) == Ok(es)
    ensures file == FileOf(es) <==>
              var h := DecodeHeader(file[..HEADER_SIZE]);
              h.version == VERSION && h.reserved == ZEROS
              && |file| == HEADER_SIZE + ENTRY_SIZE * |es| && (es == [] ==> h.checksum == 0)
  {
    hide EncodeHeader, DecodeHeader, EncodeEntries, DecodeEntries, Checksum;
    var h := DecodeHeader(file[..HEADER_SIZE]);
    HeaderRoundTrip(HeaderOf(es));
    assert FileOf(es)[..HEADER_SIZE] == EncodeHeader(HeaderOf(es));
    if |file| == HEADER_SIZE + ENTRY_SIZE * |es| && h == HeaderOf(es) {
      var body := file[HEADER_SIZE..];
      assert body[..ENTRY_SIZE * |es|] == body;
      HeaderUnique(file[..HEADER_SIZE]);
      EntriesUnique(body, |es|);
      assert file == file[..HEADER_SIZE] + body;
      assert es == [] ==> body == [] == EncodeEntries(es);
    }
    if es != [] && |file| == HEADER_SIZE + ENTRY_SIZE * |es| {
      assert file[HEADER_SIZE..][..ENTRY_SIZE * |es|] == file[HEADER_SIZE..];
      EntriesUnique(file[HEADER_SIZE..], |es|);
    }
  }

  /** Exactly these files are accepted, and this is what they are taken for. Version, reserved
      words and what lies behind the entries are not looked at. */
  lemma ReadFileExact(file: seq<byte>)
    ensures ReadFile(file).Ok? <==>
              && |file| >= 40 && file[0..4] == FSBT && Word32(file[4..8]) == |file|
              && Word32(file[12..16]) == 40 && Word32(file[16..20]) == 20
              && var n := Word16(file[10..12]);
                 n <= 16 && (n > 0 ==> |file| >= 40 + 20 * n && Word32(file[20..24]) == Crc(file[40..40 + 20 * n]) as int)
    ensures ReadFile(file).Ok? ==>
              var es := ReadFile(file).value;
              |es| == Word16(file[10..12]) && forall i :: 0 <= i < |es| ==> 60 + 20 * i <= |file| && es[i] == EntryAt(file, 40 + 20 * i)
  {
    hide DecodeHeader, DecodeEntries, Word16, Word32, Word64, Crc, EntryAt;
    if |file| >= HEADER_SIZE {
      var head := file[..HEADER_SIZE];
      HeaderParts(head);
      MagicOctets(head[0..4]);
      assert file[0..4] == head[0..4] && file[4..8] == head[4..8] && file[10..12] == head[10..12];
      assert file[12..16] == head[12..16] && file[16..20] == head[16..20] && file[20..24] == head[20..24];
      var n: nat := DecodeHeader(head).entryCount;
      if |file| >= 40 + 20 * n {
        assert file[0..] == file;
        assert file[HEADER_SIZE..][..ENTRY_SIZE * n] == file[40..40 + 20 * n];
        var es := DecodeEntries(file[0..][HEADER_SIZE..][..ENTRY_SIZE * n], n);
        if ReadFile(file).Ok? && n > 0 { assert ReadFile(file).value == es; }
        forall i | 0 <= i < n ensures es[i] == EntryAt(file, 40 + 20 * i) { EntryInFile(file, 0, n, i); }
      }
    }
  }

  lemma WordValueInjective(x: bv32, y: bv32)
    requires x as int == y as int
    ensures x == y
  {
    assert (x as int) as bv32 == x && (y as int) as bv32 == y;
  }

  function Body(file: seq<byte>, n: nat): (s: seq<byte>)
    requires |file| >= HEADER_SIZE + ENTRY_SIZE * n
    ensures |s| == ENTRY_SIZE * n
  {
    file[HEADER_SIZE..][..ENTRY_SIZE * n]
  }

  /** A good file whose entry bytes are damaged within 32 consecutive bits is refused. */
  lemma DamagedEntriesRefused(file: seq<byte>, es: seq<Entry>, damaged: seq<byte>, from: nat)
    requires ReadFile(file) == Ok(es) && es != []
    requires |damaged| == |file| && damaged[..HEADER_SIZE] == file[..HEADER_SIZE]
    requires Body(damaged, |es|) != Body(file, |es|)
    requires DifferInBurst(Body(file, |es|), Body(damaged, |es|), from)
    ensures ReadFile(damaged) == Err(BadChecksum)
  {
    hide DecodeHeader, DecodeEntries, Crc;
    var a, b := Body(file, |es|), Body(damaged, |es|);
    BurstDetected(a, b, from);
    if Crc(a) as int == Crc(b) as int { WordValueInjective(Crc(a), Crc(b)); }
  }

  /** The same for any change that fits in four consecutive octets. */
  lemma DamagedOctetsRefused(file: seq<byte>, es: seq<Entry>, damaged: seq<byte>, from: nat)
    requires ReadFile(file) == Ok(es) && es != []
    requires |damaged| == |file| && damaged != file
    requires HEADER_SIZE <= from && from + 4 <= HEADER_SIZE + ENTRY_SIZE * |es|
    requires forall i :: 0 <= i < |file| && (i < from || i >= from + 4) ==> damaged[i] == file[i]
    ensures ReadFile(damaged) == Err(BadChecksum)
  {
    hide DecodeHeader, DecodeEntries, Crc;
    assert damaged[..HEADER_SIZE] == file[..HEADER_SIZE];
    var a, b := Body(file, |es|), Body(damaged, |es|);
    var k :| 0 <= k < |file| && damaged[k] != file[k];
    assert a[k - HEADER_SIZE] != b[k - HEADER_SIZE];
    FourOctetsDetected(a, b, from - HEADER_SIZE);
    if Crc(a) as int == Crc(b) as int { WordValueInjective(Crc(a), Crc(b)); }
  }

  // ----- Dumping -----------------------------------------------------------------------

  datatype ChecksumStatus = NotChecked | Matches | Differs

  datatype Dump = Dump(header: Header, entries: seq<Entry>, status: ChecksumStatus)

  /** What a dump at `offset` shows. Only the magic and the entry count can stop it. */
  function DumpFile(file: seq<byte>, offset: nat): Result<Dump> {
    if offset >= |file| then Err(OffsetBeyondEnd)
    else if |file| - offset < HEADER_SIZE then Err(ShortHeader) else
    var h := DecodeHeader(file[offset..][..HEADER_SIZE]);
    if h.magic != MAGIC then Err(BadMagic)
    else if h.entryCount > MAX_ENTRIES then Err(TooManyEntries)
    else if h.entryCount == 0 then Ok(Dump(h, [], NotChecked))
    else if |file| - offset - HEADER_SIZE < ENTRY_SIZE * h.entryCount then Err(ShortEntries)
    else
      var body := file[offset..][HEADER_SIZE..][..ENTRY_SIZE * h.entryCount];
      Ok(Dump(h, DecodeEntries(body, h.entryCount),
              if Checksum(body) == h.checksum then Matches else Differs))
  }

  /** A written file is dumped faithfully wherever it lies in a larger image. */
  lemma DumpBack(image: seq<byte>, offset: nat, es: seq<Entry>)
    requires |es| <= MAX_ENTRIES && offset + |FileOf(es)| <= |image|
    requires image[offset..][..|FileOf(es)|] == FileOf(es)
    ensures DumpFile(image, offset) ==
              Ok(Dump(HeaderOf(es), es, if es == [] then NotChecked else Matches))
  {
    hide EncodeHeader, DecodeHeader, EncodeEntries, DecodeEntries, Checksum;
    var tail, n := image[offset..], ENTRY_SIZE * |es|;
    assert tail[..HEADER_SIZE] == FileOf(es)[..HEADER_SIZE] == EncodeHeader(HeaderOf(es));
    assert tail[HEADER_SIZE..][..n] == FileOf(es)[HEADER_SIZE..] == EncodeEntries(es);
    HeaderRoundTrip(HeaderOf(es));
    EntriesRoundTrip(es);
  }

  /** What is dumped, and what is said of the checksum. Sizes and version are shown as they are. */
  lemma DumpFileExact(file: seq<byte>, offset: nat)
    ensures DumpFile(file, offset).Ok? <==>
              && offset + 40 <= |file| && file[offset..offset + 4] == FSBT
              && var n := Word16(file[offset + 10..offset + 12]);
                 n <= 16 && offset + 40 + 20 * n <= |file|
    ensures DumpFile(file, offset).Ok? ==>
              var d, n := DumpFile(file, offset).value, Word16(file[offset + 10..offset + 12]);
              && |d.entries| == n && (forall i :: 0 <= i < n ==> d.entries[i] == EntryAt(file, offset + 40 + 20 * i))
              && d.header == DecodeHeader(file[offset..offset + 40])
              && d.status == if n == 0 then NotChecked
                             else if Word32(file[offset + 20..offset + 24]) == Crc(file[offset + 40..offset + 40 + 20 * n]) as int then Matches
                             else Differs
  {
    hide DecodeHeader, DecodeEntries, Word16, Word32, Word64, Crc, EntryAt;
    if offset + HEADER_SIZE <= |file| {
      var head := file[offset..][..HEADER_SIZE];
      HeaderParts(head);
      MagicOctets(head[0..4]);
      assert file[offset..offset + 40] == head;
      assert file[offset..offset + 4] == head[0..4] && file[offset + 10..offset + 12] == head[10..12];
      assert file[offset + 20..offset + 24] == head[20..24];
      var n: nat := DecodeHeader(head).entryCount;
      if offset + 40 + 20 * n <= |file| {
        assert file[offset..][HEADER_SIZE..][..ENTRY_SIZE * n] == file[offset + 40..offset + 40 + 20 * n];
        var es := DecodeEntries(file[offset..][HEADER_SIZE..][..ENTRY_SIZE * n], n);
        if DumpFile(file, offset).Ok? && n > 0 { assert DumpFile(file, offset).value.entries == es; }
        forall i | 0 <= i < n ensures es[i] == EntryAt(file, offset + 40 + 20 * i) { EntryInFile(file, offset, n, i); }
      }
    }
  }

  /** A dump shows damage to the entries within 32 consecutive bits, and shows what is left. */
  lemma DamagedEntriesShown(file: seq<byte>, offset: nat, damaged: seq<byte>, from: nat)
    requires DumpFile(file, offset).Ok? && DumpFile(file, offset).value.status == Matches
    requires |damaged| == |file| && damaged[offset..][..HEADER_SIZE] == file[offset..][..HEADER_SIZE]
    requires var n := |DumpFile(file, offset).value.entries|;
             offset + HEADER_SIZE + ENTRY_SIZE * n <= |file|
             && Body(damaged[offset..], n) != Body(file[offset..], n)
             && DifferInBurst(Body(file[offset..], n), Body(damaged[offset..], n), from)
    ensures DumpFile(damaged, offset).Ok? && DumpFile(damaged, offset).value.status == Differs
    ensures DumpFile(damaged, offset).value.header == DumpFile(file, offset).value.header
  {
    hide DecodeHeader, DecodeEntries, Crc;
    var n := |DumpFile(file, offset).value.entries|;
    var a, b := Body(file[offset..], n), Body(damaged[offset..], n);
    BurstDetected(a, b, from);
    if Crc(a) as int == Crc(b) as int { WordValueInjective(Crc(a), Crc(b)); }
  }

  // ----- Embedding ---------------------------------------------------------------------

  /** The second word of a reservation: its size before an embed, `totalSize` after. */
  function Capacity(image: seq<byte>, offset: nat): u32
    requires offset + 8 <= |image|
  {
    Word32(image[offset + 4..offset + 8])
  }

  function Overlay(image: seq<byte>, offset: nat, blob: seq<byte>): (s: seq<byte>)
    requires offset + |blob| <= |image|
    ensures |s| == |image|
  {
    image[..offset] + blob + image[offset + |blob|..]
  }

  /** The tool's own bounds test on a 64-bit offset, whose sum wraps around. */
  predicate PassesTest(offset: u64, size: nat) { (offset + 8) % 0x1_0000_0000_0000_0000 <= size }

  /** What it is there to say: magic and capacity are inside the image. */
  predicate WordsInside(offset: u64, size: nat) { offset + 8 <= size }

  /** The two agree if and only if the sum does not wrap around to a place inside the image. */
  lemma OffsetTestExact(offset: u64, size: nat)
    requires size < 0x8000_0000_0000_0000
    ensures WordsInside(offset, size) ==> PassesTest(offset, size)
    ensures PassesTest(offset, size) == WordsInside(offset, size)
            <==> offset < 0xFFFF_FFFF_FFFF_FFF8 || size < offset - 0xFFFF_FFFF_FFFF_FFF8
  {
  }

  /** An image of one byte and an offset seven short of 2^64. */
  lemma OffsetWraps()
    ensures PassesTest(0xFFFF_FFFF_FFFF_FFF9, 1) && !WordsInside(0xFFFF_FFFF_FFFF_FFF9, 1)
  {
  }

  /** The image an embed writes out. An offset that passes the bounds test only because the sum
      wraps around points outside the image. */
  function Embed(image: seq<byte>, blob: seq<byte>, offset: u64): (r: Result<seq<byte>>)
    ensures r.Ok? ==> |r.value| == |image|
  {
    if !PassesTest(offset, |image|) then Err(OffsetBeyondEnd)
    else if image == [] then Err(EmptyTarget)
    else if !WordsInside(offset, |image|) then Err(OffsetOverflow)
    else if Word32(image[offset..offset + 4]) != MAGIC then Err(NoReservation)
    else if Capacity(image, offset) < |blob| then Err(ReservationTooSmall)
    else if offset + Capacity(image, offset) > |image| then Err(ReservationBeyondEnd)
    else if blob == [] then Err(EmptyEntriesFile)
    else Ok(Overlay(image, offset, blob))
  }

  /** So the embedder goes astray exactly where the two disagree and there is an image at all. */
  lemma OverflowExact(image: seq<byte>, blob: seq<byte>, offset: u64)
    requires |image| < 0x8000_0000_0000_0000
    ensures Embed(image, blob, offset) == Err(OffsetOverflow)
            <==> image != [] && offset >= 0xFFFF_FFFF_FFFF_FFF8 && offset - 0xFFFF_FFFF_FFFF_FFF8 <= |image|
  {
    OffsetTestExact(offset, |image|);
  }

  /** An image has a reservation here: its letters and its capacity are inside. */
  predicate Reserved(image: seq<byte>, offset: nat) {
    offset + 8 <= |image| && image[offset..offset + 4] == FSBT
  }

  /** Exactly when an embed goes through and what it gives, and for each refusal which it is. */
  lemma EmbedExact(image: seq<byte>, blob: seq<byte>, offset: u64)
    requires |image| < 0x8000_0000_0000_0000
    ensures Embed(image, blob, offset).Ok? <==>
              && offset + 8 <= |image| && image[offset..offset + 4] == [0x46, 0x53, 0x42, 0x54]
              && 0 < |blob| <= Word32(image[offset + 4..offset + 8]) && offset + Word32(image[offset + 4..offset + 8]) <= |image|
    ensures Embed(image, blob, offset).Ok? ==>
              Embed(image, blob, offset) == Ok(image[..offset] + blob + image[offset + |blob|..])
    ensures Embed(image, blob, offset) == Err(OffsetBeyondEnd) <==> (offset + 8) % 0x1_0000_0000_0000_0000 > |image|
    ensures Embed(image, blob, offset) == Err(EmptyTarget) <==> image == [] && offset == 0xFFFF_FFFF_FFFF_FFF8
    ensures Embed(image, blob, offset) == Err(NoReservation) <==>
              offset + 8 <= |image| && image[offset..offset + 4] != [0x46, 0x53, 0x42, 0x54]
    ensures Embed(image, blob, offset) == Err(ReservationTooSmall) <==>
              Reserved(image, offset) && Word32(image[offset + 4..offset + 8]) < |blob|
    ensures Embed(image, blob, offset) == Err(ReservationBeyondEnd) <==>
              Reserved(image, offset) && |blob| <= Word32(image[offset + 4..offset + 8]) && offset + Word32(image[offset + 4..offset + 8]) > |image|
    ensures Embed(image, blob, offset) == Err(EmptyEntriesFile) <==>
              Reserved(image, offset) && offset + Word32(image[offset + 4..offset + 8]) <= |image| && blob == []
  {
    hide Word32;
    if offset + 8 <= |image| { MagicOctets(image[offset..offset + 4]); }
  }

  lemma OverlayBytes(image: seq<byte>, offset: nat, blob: seq<byte>)
    requires offset + |blob| <= |image|
    ensures Overlay(image, offset, blob)[offset..][..|blob|] == blob
    ensures forall i :: 0 <= i < |image| && (i < offset || i >= offset + |blob|)
              ==> Overlay(image, offset, blob)[i] == image[i]
  {
  }

  /** A written file begins with the magic and its own length, so it is again a reservation. */
  lemma FileIsReservation(image: seq<byte>, offset: nat, es: seq<Entry>)
    requires |es| <= MAX_ENTRIES && offset + |FileOf(es)| <= |image|
    requires image[offset..][..|FileOf(es)|] == FileOf(es)
    ensures Word32(image[offset..offset + 4]) == MAGIC
    ensures Capacity(image, offset) == |FileOf(es)|
  {
    hide ToLE, Word16, Word32, EncodeEntries, Checksum;
    var file, h := FileOf(es), HeaderOf(es);
    assert image[offset..offset + 4] == file[0..4] == EncodeHeader(h)[0..4] == ToLE(h.magic, 4);
    assert image[offset + 4..offset + 8] == file[4..8] == EncodeHeader(h)[4..8] == ToLE(h.totalSize, 4);
    Words32(h.magic, file[0..4]);
    Words32(h.totalSize, file[0..4]);
  }

  /** The second word of the place where a file of any length was laid over the image. */
  function SecondWord(image: seq<byte>, offset: nat, blob: seq<byte>): (w: u32)
    requires offset + 8 <= |image|
    ensures |blob| <= 4 ==> w == Capacity(image, offset)
    ensures |blob| >= 8 ==> w == Word32(blob[4..8])
  {
    if |blob| <= 4 then Capacity(image, offset)
    else if |blob| < 8 then Word32(blob[4..] + image[offset + |blob|..offset + 8])
    else Word32(blob[4..8])
  }

  /** Nothing ties the capacity left behind to the one found: it is whatever the embedded file
      has in its second word, as far as the file reaches. Only a written file is sure to have
      its own length there. */
  lemma CapacityAfterBlob(image: seq<byte>, blob: seq<byte>, offset: u64)
    requires |image| < 0x8000_0000_0000_0000
    requires Embed(image, blob, offset).Ok?
    ensures offset + 8 <= |image|
    ensures Capacity(Embed(image, blob, offset).value, offset) == SecondWord(image, offset, blob)
  {
    hide Word32;
    var out := Embed(image, blob, offset).value;
    var word := out[offset + 4..offset + 8];
    if |blob| <= 4 {
      assert word == image[offset + 4..offset + 8];
    } else if |blob| < 8 {
      assert word == blob[4..] + image[offset + |blob|..offset + 8];
    } else {
      assert word == blob[4..8];
    }
  }

  /** A file of eight bytes that claims more room than there was: the capacity grows. */
  lemma CapacityCanGrow()
    ensures var image: seq<byte> := [0x46, 0x53, 0x42, 0x54, 8, 0, 0, 0];
            var blob: seq<byte> := [0, 0, 0, 0, 9, 0, 0, 0];
            Embed(image, blob, 0) == Ok(blob) && Capacity(image, 0) == 8 && Capacity(blob, 0) == 9
  {
    var image: seq<byte> := [0x46, 0x53, 0x42, 0x54, 8, 0, 0, 0];
    var blob: seq<byte> := [0, 0, 0, 0, 9, 0, 0, 0];
    assert image[0..4] == [0x46, 0x53, 0x42, 0x54] && image[4..8] == [8, 0, 0, 0] && blob[4..8] == [9, 0, 0, 0];
    LittleWord(0x46, 0x53, 0x42, 0x54);
    LittleWord(8, 0, 0, 0);
    LittleWord(9, 0, 0, 0);
    assert Overlay(image, 0, blob) == blob;
  }

  /** What one embed of a written file leaves behind. */
  lemma EmbedOnce(image: seq<byte>, offset: u64, es: seq<Entry>)
    requires |image| < 0x8000_0000_0000_0000 && |es| <= MAX_ENTRIES
    requires Embed(image, FileOf(es), offset).Ok?
    ensures var out := Embed(image, FileOf(es), offset).value;
            && offset + 8 <= |image|
            && out[offset..][..|FileOf(es)|] == FileOf(es)
            && Capacity(out, offset) == |FileOf(es)| <= Capacity(image, offset)
            && (forall i :: 0 <= i < |image| && (i < offset || i >= offset + |FileOf(es)|) ==> out[i] == image[i])
            && DumpFile(out, offset) == Ok(Dump(HeaderOf(es), es, if es == [] then NotChecked else Matches))
            && Embed(out, FileOf(es), offset) == Ok(out)
  {
    hide EncodeHeader, EncodeEntries, DumpFile, Word32, HeaderOf, FileOf;
    var file := FileOf(es);
    var out := Embed(image, file, offset).value;
    OverlayBytes(image, offset, file);
    FileIsReservation(out, offset, es);
    DumpBack(out, offset, es);
    assert Overlay(out, offset, file) == out;
  }

  /** Embedding one table after the other at the same offset, each into the last output. */
  function EmbedAll(image: seq<byte>, offset: u64, tables: seq<seq<Entry>>): (r: Result<seq<byte>>)
    requires forall t :: t in tables ==> |t| <= MAX_ENTRIES
    decreases |tables|
  {
    if tables == [] then Ok(image) else
    match Embed(image, FileOf(tables[0]), offset)
    case Err(e) => Err(e)
    case Ok(out) => EmbedAll(out, offset, tables[1..])
  }

  /** An embed shrinks the reservation to what it wrote: a table can follow another exactly
      when it is no longer. */
  lemma EmbedAfter(image: seq<byte>, offset: u64, es: seq<Entry>, next: seq<Entry>)
    requires |image| < 0x8000_0000_0000_0000 && |es| <= MAX_ENTRIES && |next| <= MAX_ENTRIES
    requires Embed(image, FileOf(es), offset).Ok?
    ensures Embed(Embed(image, FileOf(es), offset).value, FileOf(next), offset).Ok? <==> |next| <= |es|
  {
    hide EncodeHeader, EncodeEntries, DumpFile, Word32, HeaderOf;
    EmbedOnce(image, offset, es);
    var out := Embed(image, FileOf(es), offset).value;
    FileIsReservation(out, offset, es);
  }

  /** A chain of embeds goes through exactly when the first fits and no table is longer than
      the one before. */
  lemma {:induction false} ChainGoesThrough(image: seq<byte>, offset: u64, tables: seq<seq<Entry>>)
    requires |image| < 0x8000_0000_0000_0000
    requires forall t :: t in tables ==> |t| <= MAX_ENTRIES
    ensures EmbedAll(image, offset, tables).Ok? <==>
              tables == [] || (Embed(image, FileOf(tables[0]), offset).Ok?
                               && forall i :: 0 < i < |tables| ==> |tables[i]| <= |tables[i - 1]|)
    decreases |tables|
  {
    hide Embed, FileOf;
    if tables != [] && Embed(image, FileOf(tables[0]), offset).Ok? {
      var out, rest := Embed(image, FileOf(tables[0]), offset).value, tables[1..];
      ChainGoesThrough(out, offset, rest);
      if rest != [] {
        EmbedAfter(image, offset, tables[0], rest[0]);
        assert tables[1] == rest[0];
        forall i | 0 < i < |rest| ensures rest[i] == tables[i + 1] && rest[i - 1] == tables[i] { }
        if forall i :: 0 < i < |rest| ==> |rest[i]| <= |rest[i - 1]| {
          forall i | 1 < i < |tables| ensures |tables[i]| <= |tables[i - 1]| {
            assert |rest[i - 1]| <= |rest[i - 2]|;
          }
        }
      }
    }
  }

  /** After any chain that went through, the image has its old length and its old bytes
      outside the part the first table covered, the capacity word has not grown, the last
      table is what a dump finds, and embedding that table again changes nothing. */
  lemma {:induction false} ChainOutcome(image: seq<byte>, offset: u64, tables: seq<seq<Entry>>)
    requires |image| < 0x8000_0000_0000_0000 && tables != []
    requires forall t :: t in tables ==> |t| <= MAX_ENTRIES
    requires EmbedAll(image, offset, tables).Ok?
    ensures var out := EmbedAll(image, offset, tables).value;
            var last := tables[|tables| - 1];
            && |out| == |image| && offset + 8 <= |image|
            && |FileOf(last)| <= |FileOf(tables[0])| <= Capacity(image, offset)
            && (forall i :: 0 <= i < |image| && (i < offset || i >= offset + |FileOf(tables[0])|) ==> out[i] == image[i])
            && Capacity(out, offset) == |FileOf(last)|
            && DumpFile(out, offset) == Ok(Dump(HeaderOf(last), last, if last == [] then NotChecked else Matches))
            && Embed(out, FileOf(last), offset) == Ok(out)
    decreases |tables|
  {
    hide Embed, FileOf, DumpFile, HeaderOf, Capacity;
    var first := tables[0];
    var out, rest := Embed(image, FileOf(first), offset).value, tables[1..];
    EmbedOnce(image, offset, first);
    if rest != [] {
      ChainOutcome(out, offset, rest);
      assert rest[|rest| - 1] == tables[|tables| - 1];
    }
  }
}
