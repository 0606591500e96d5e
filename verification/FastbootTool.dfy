/** The tool's static state and the functions that work on it: the in-memory table of boot
    entries and the CRC table that is built on first use. */
module FastbootTool {
  import opened Bytes
  import opened Crc32
  import Format = FastbootFormat
  import opened FastbootFormat
  import opened FastbootTable

  function Insert(e: Entry, s: seq<Entry>): (t: seq<Entry>)
    ensures multiset(t) == multiset(s) + multiset{e} && |t| == |s| + 1
    decreases |s|
  {
    if s == [] || e.coreId <= s[0].coreId then [e] + s
    else
      assert s == [s[0]] + s[1..];
      [s[0]] + Insert(e, s[1..])
  }

  lemma {:induction false} InsertSorts(e: Entry, s: seq<Entry>)
    requires SortedByCore(s)
    ensures SortedByCore(Insert(e, s))
    ensures Insert(e, s)[0] == e || (s != [] && Insert(e, s)[0] == s[0])
    decreases |s|
  {
    if s != [] && e.coreId > s[0].coreId {
      assert forall i :: 0 < i < |s| - 1 ==> s[1..][i] == s[i + 1] && s[1..][i - 1] == s[i];
      InsertSorts(e, s[1..]);
    }
  }

  method Sorted(es: seq<Entry>) returns (sorted: seq<Entry>)
    ensures SortedPermutation(es, sorted) && |sorted| == |es|
  {
    sorted := [];
    for i := 0 to |es|
      invariant SortedByCore(sorted) && multiset(sorted) == multiset(es[..i]) && |sorted| == i
    {
      hide Insert, SortedByCore;
      assert es[..i + 1] == es[..i] + [es[i]];
      InsertSorts(es[i], sorted);
      sorted := Insert(es[i], sorted);
    }
    assert es[..|es|] == es;
  }

  lemma {:induction false} EncodeAppend(es: seq<Entry>, e: Entry)
    ensures EncodeEntries(es + [e]) == EncodeEntries(es) + EncodeEntry(e)
    decreases |es|
  {
    hide EncodeEntry;
    if es == [] {
      assert [] + [e] == [e] && [e][1..] == [];
    } else {
      assert (es + [e])[1..] == es[1..] + [e];
      EncodeAppend(es[1..], e);
    }
  }

  function Slice(body: seq<byte>, i: nat): (s: seq<byte>)
    requires ENTRY_SIZE * i + ENTRY_SIZE <= |body|
    ensures |s| == ENTRY_SIZE
  {
    body[ENTRY_SIZE * i..ENTRY_SIZE * i + ENTRY_SIZE]
  }

  lemma {:induction false} DecodedAt(body: seq<byte>, n: nat, i: nat)
    requires |body| == ENTRY_SIZE * n && i < n
    ensures DecodeEntries(body, n)[i] == DecodeEntry(Slice(body, i))
    decreases n
  {
    hide DecodeEntry;
    if i > 0 {
      DecodedAt(body[ENTRY_SIZE..], n - 1, i - 1);
      assert Slice(body[ENTRY_SIZE..], i - 1) == Slice(body, i);
    }
  }

  ghost predicate TableBuilt(table: seq<bv32>) {
    |table| == 256 && forall i :: 0 <= i < 256 ==> table[i] == TableEntry(Octet(i))
  }

  lemma TableLookup(table: seq<bv32>, state: bv32, b: byte)
    requires TableBuilt(table)
    ensures Xor(state >> 8, table[OctetValue(TableIndex(state, b))]) == ByteStep(state, b)
  {
    hide TableEntry, TableIndex, Octet, Xor;
    OctetUnique(TableIndex(state, b));
  }

  lemma NoBytes(state: bv32)
    ensures ByteSteps(state, []) == state
  {
  }

  class BootEntryTable {
    const entries: array<Entry>
    var count: nat
    const crcTable: array<bv32>
    var crcTableInitialized: bool

    ghost predicate Valid()
      reads this, entries, crcTable
    {
      && entries.Length == MAX_ENTRIES && crcTable.Length == 256
      && entries as object != crcTable as object
      && count <= MAX_ENTRIES
      && (crcTableInitialized ==> TableBuilt(crcTable[..]))
    }

    ghost function Entries(): (es: seq<Entry>)
      reads this, entries, crcTable
      requires Valid()
      ensures |es| == count
    {
      entries[..count]
    }

    constructor ()
      ensures Valid() && Entries() == [] && !crcTableInitialized
      ensures fresh(entries) && fresh(crcTable)
    {
      entries := new Entry[MAX_ENTRIES](_ => Entry(0, 0, 0, 0));
      count := 0;
      crcTable := new bv32[256](_ => 0);
      crcTableInitialized := false;
    }

    static method BuildEntry(i: nat) returns (crc: bv32)
      requires i < 256
      ensures crc == TableEntry(Octet(i))
    {
      hide BitStep, Octet;
      crc := Octet(i) as bv32;
      for j := 0 to 8
        invariant BitSteps(crc, 8 - j) == TableEntry(Octet(i))
      {
        crc := BitStep(crc);
      }
    }

    method InitCrc32Table()
      requires Valid()
      modifies crcTable, this`crcTableInitialized
      ensures Valid() && crcTableInitialized && Entries() == old(Entries())
    {
      hide TableEntry, BitStep, Octet;
      for i := 0 to 256
        invariant forall k :: 0 <= k < i ==> crcTable[k] == TableEntry(Octet(k))
      {
        var crc := BuildEntry(i);
        crcTable[i] := crc;
      }
      crcTableInitialized := true;
    }

    method CalculateCrc32(data: seq<byte>) returns (crc: bv32)
      requires Valid()
      modifies crcTable, this`crcTableInitialized
      ensures Valid() && crcTableInitialized && Entries() == old(Entries())
      ensures crc == Crc(data)
    {
      hide ByteStep, ByteSteps, Xor, TableIndex, OctetValue, TableEntry, Octet;
      if !crcTableInitialized {
        InitCrc32Table();
      }
      crc := 0xFFFF_FFFF;
      assert ByteSteps(0xFFFF_FFFF, data[..0]) == crc by { NoBytes(crc); }
      for i := 0 to |data|
        modifies {}
        invariant crc == ByteSteps(0xFFFF_FFFF, data[..i])
      {
        var index := TableIndex(crc, data[i]);
        assert data[..i + 1] == data[..i] + [data[i]];
        ByteStepsAppend(0xFFFF_FFFF, data[..i], data[i]);
        TableLookup(crcTable[..], crc, data[i]);
        crc := Xor(crc >> 8, crcTable[OctetValue(index)]);
      }
      assert data[..|data|] == data;
      TableDrivenCrc(data);
      crc := !crc;
    }

    method Init()
      requires Valid()
      modifies this`count, entries
      ensures Valid() && Entries() == []
    {
      hide TableEntry, Octet;
      count := 0;
      for i := 0 to MAX_ENTRIES
        invariant Valid() && count == 0
      {
        entries[i] := Entry(0, 0, 0, 0);
      }
    }

    method IsCoreDuplicate(coreId: u32) returns (found: bool)
      requires Valid()
      ensures found <==> coreId in Cores(Entries())
    {
      hide TableEntry, Octet;
      for i := 0 to count
        invariant forall k :: 0 <= k < i ==> entries[k].coreId != coreId
      {
        if entries[i].coreId == coreId {
          assert Cores(Entries())[i] == coreId;
          return true;
        }
      }
      return false;
    }

    /** Refused for a core that is already there or a full table, and then nothing changes. */
    method AddEntry(coreId: u32, entryAddr: u64) returns (accepted: bool)
      requires Valid()
      modifies this`count, entries
      ensures Valid()
      ensures accepted <==> AddAll(old(Entries()), [Request(coreId, entryAddr)]).Ok?
      ensures AddAll(old(Entries()), [Request(coreId, entryAddr)])
           == if accepted then Ok(Entries())
              else Err(if coreId in Cores(Entries()) then DuplicateCore else TooManyEntries)
      ensures !accepted ==> Entries() == old(Entries())
    {
      hide TableEntry, Octet;
      var duplicate := IsCoreDuplicate(coreId);
      if duplicate || count >= MAX_ENTRIES {
        return false;
      }
      entries[count] := Entry(coreId, entryAddr, 0, 0);
      count := count + 1;
      assert Entries() == old(Entries()) + [EntryFor(Request(coreId, entryAddr))];
      return true;
    }

    /** Stands for qsort on the first `count` entries. */
    method SortEntries()
      requires Valid()
      modifies entries
      ensures Valid() && SortedPermutation(old(Entries()), Entries())
    {
      hide TableEntry, Octet, SortedPermutation;
      var sorted := Sorted(entries[..count]);
      for i := 0 to count
        invariant Valid() && entries[..i] == sorted[..i]
      {
        entries[i] := sorted[i];
      }
      assert Entries() == sorted;
    }

    /** The little-endian copy of the table. */
    method EncodeTable() returns (body: seq<byte>)
      requires Valid()
      ensures body == EncodeEntries(Entries())
    {
      hide TableBuilt, EncodeEntry;
      ghost var es := Entries();
      body := [];
      for i := 0 to count
        invariant body == EncodeEntries(es[..i])
      {
        assert es[..i + 1] == es[..i] + [es[i]];
        EncodeAppend(es[..i], es[i]);
        body := body + EncodeEntry(entries[i]);
      }
      assert es[..count] == es;
    }

    /** The bytes handed to fwrite. */
    method WriteFile() returns (file: seq<byte>)
      requires Valid()
      modifies entries, crcTable, this`crcTableInitialized
      ensures Valid() && SortedPermutation(old(Entries()), Entries())
      ensures file == FileOf(Entries())
    {
      hide TableBuilt, SortedPermutation, EncodeEntries, EncodeHeader, Crc;
      SortEntries();
      var body := EncodeTable();
      var checksum: u32 := 0;
      if count > 0 {
        var crc := CalculateCrc32(body);
        checksum := crc as int;
      }
      var header := Header(MAGIC, HEADER_SIZE + ENTRY_SIZE * count, VERSION, count,
                           HEADER_SIZE, ENTRY_SIZE, checksum, ZEROS);
      assert header == HeaderOf(Entries());
      file := EncodeHeader(header) + body;
    }

    /** The conversion loop of the reader and the final assignment of the count. */
    method StoreEntries(body: seq<byte>, n: nat)
      requires Valid() && n <= MAX_ENTRIES && |body| == ENTRY_SIZE * n
      modifies this`count, entries
      ensures Valid() && Entries() == DecodeEntries(body, n)
    {
      hide TableEntry, Octet, DecodeEntry, DecodeEntries;
      for i := 0 to n
        invariant Valid() && entries[..i] == DecodeEntries(body, n)[..i]
      {
        DecodedAt(body, n, i);
        entries[i] := DecodeEntry(Slice(body, i));
      }
      count := n;
    }

    /** A refused file leaves the table as it was. */
    method ReadFile(file: seq<byte>) returns (r: Result<nat>)
      requires Valid()
      modifies this`count, entries, crcTable, this`crcTableInitialized
      ensures Valid()
      ensures match Format.ReadFile(file)
              case Ok(es) => r == Ok(|es|) && Entries() == es
              case Err(e) => r == Err(e) && Entries() == old(Entries())
    {
      hide TableEntry, Octet, DecodeHeader, DecodeEntries, DecodeEntry, Crc;
      if |file| < HEADER_SIZE { return Err(ShortHeader); }
      var header := DecodeHeader(file[..HEADER_SIZE]);
      if header.magic != MAGIC { return Err(BadMagic); }
      if header.headerSize != HEADER_SIZE { return Err(BadHeaderSize); }
      if header.entrySize != ENTRY_SIZE { return Err(BadEntrySize); }
      if |file| != header.totalSize { return Err(BadFileSize); }
      if header.entryCount > MAX_ENTRIES { return Err(TooManyEntries); }
      if header.entryCount > 0 {
        if |file| - HEADER_SIZE < ENTRY_SIZE * header.entryCount { return Err(ShortEntries); }
        var body := file[HEADER_SIZE..][..ENTRY_SIZE * header.entryCount];
        var calculated := CalculateCrc32(body);
        if calculated as int != header.checksum { return Err(BadChecksum); }
        StoreEntries(body, header.entryCount);
      } else {
        count := 0;
      }
      return Ok(header.entryCount);
    }

    /** Shows the entries found in `file` at `offset`; the table itself is not touched. */
    method DumpFile(file: seq<byte>, offset: u64) returns (r: Result<Dump>)
      requires Valid()
      modifies crcTable, this`crcTableInitialized
      ensures Valid() && Entries() == old(Entries())
      ensures r == Format.DumpFile(file, offset)
    {
      hide TableEntry, Octet, DecodeHeader, DecodeEntries, DecodeEntry, Crc;
      if offset >= |file| { return Err(OffsetBeyondEnd); }
      var rest := file[offset..];
      if |rest| < HEADER_SIZE { return Err(ShortHeader); }
      var header := DecodeHeader(rest[..HEADER_SIZE]);
      if header.magic != MAGIC { return Err(BadMagic); }
      if header.entryCount > MAX_ENTRIES { return Err(TooManyEntries); }
      if header.entryCount == 0 { return Ok(Dump(header, [], NotChecked)); }
      if |rest| - HEADER_SIZE < ENTRY_SIZE * header.entryCount { return Err(ShortEntries); }
      var body := rest[HEADER_SIZE..][..ENTRY_SIZE * header.entryCount];
      var calculated := CalculateCrc32(body);
      var status := if calculated as int == header.checksum then Matches else Differs;
      var shown: seq<Entry> := [];
      for i := 0 to header.entryCount
        modifies {}
        invariant shown == DecodeEntries(body, header.entryCount)[..i]
      {
        DecodedAt(body, header.entryCount, i);
        shown := shown + [DecodeEntry(Slice(body, i))];
      }
      assert shown == DecodeEntries(body, header.entryCount);
      return Ok(Dump(header, shown, status));
    }

    static method Memcpy(target: array<byte>, offset: nat, source: seq<byte>)
      requires offset + |source| <= target.Length
      modifies target
      ensures target[..] == Overlay(old(target[..]), offset, source)
    {
      for i := 0 to |source|
        invariant forall k :: 0 <= k < target.Length ==>
                    target[k] == if offset <= k < offset + i then source[k - offset] else old(target[k])
      {
        target[offset + i] := source[i];
      }
    }

    /** Checks the reservation in the target, then copies the entries file over it. */
    static method EmbedEntries(entriesFile: seq<byte>, targetFile: seq<byte>, offset: u64) returns (r: Result<seq<byte>>)
      requires |targetFile| < 0x8000_0000_0000_0000
      ensures r == Embed(targetFile, entriesFile, offset)
    {
      if (offset + 8) % 0x1_0000_0000_0000_0000 > |targetFile| { return Err(OffsetBeyondEnd); }
      if targetFile == [] { return Err(EmptyTarget); }
      if offset + 8 > |targetFile| { return Err(OffsetOverflow); }
      var targetData := new byte[|targetFile|](i requires 0 <= i < |targetFile| => targetFile[i]);
      assert targetData[..] == targetFile;
      if Word32(targetData[offset..offset + 4]) != MAGIC { return Err(NoReservation); }
      var reserved := Word32(targetData[offset + 4..offset + 8]);
      if reserved < |entriesFile| { return Err(ReservationTooSmall); }
      if offset + reserved > |targetFile| { return Err(ReservationBeyondEnd); }
      if entriesFile == [] { return Err(EmptyEntriesFile); }
      Memcpy(targetData, offset, entriesFile);
      return Ok(targetData[..]);
    }
  }
}
