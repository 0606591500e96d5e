/** The table of boot entries as a value: what a run of adds accepts, what sorting leaves,
    and why the order of the adds never shows in the file. */
module FastbootTable {
  import opened Bytes
  import opened FastbootFormat
  import opened Seqs

  datatype Request = Request(coreId: u32, entryAddr: u64)

  function CoreOf(e: Entry): u32 { e.coreId }

  function EntryFor(r: Request): Entry { Entry(r.coreId, r.entryAddr, 0, 0) }

  function Cores(es: seq<Entry>): (s: seq<u32>) { Map(CoreOf, es) }

  function CoresAsked(requests: seq<Request>): (s: seq<u32>) { Map((r: Request) => r.coreId, requests) }

  /** The table after all requests were accepted one by one, if they were. */
  function AddAll(es: seq<Entry>, requests: seq<Request>): (r: Result<seq<Entry>>)
    decreases |requests|
  {
    if requests == [] then Ok(es)
    else if requests[0].coreId in Cores(es) then Err(DuplicateCore)
    else if |es| >= MAX_ENTRIES then Err(TooManyEntries)
    else AddAll(es + [EntryFor(requests[0])], requests[1..])
  }

  lemma DuplicateSpoils(cores: seq<u32>, asked: seq<u32>)
    requires asked != [] && asked[0] in cores
    ensures !Distinct(cores + asked)
  {
    var k :| 0 <= k < |cores| && cores[k] == asked[0];
    assert (cores + asked)[k] == (cores + asked)[|cores|];
  }

  lemma FreshCoreKeepsDistinct(cores: seq<u32>, c: u32)
    requires Distinct(cores) && c !in cores
    ensures Distinct(cores + [c])
  {
  }

  lemma {:induction false} AddAllAccepts(es: seq<Entry>, requests: seq<Request>)
    requires Distinct(Cores(es)) && |es| <= MAX_ENTRIES
    ensures AddAll(es, requests).Ok? <==>
              Distinct(Cores(es) + CoresAsked(requests)) && |es| + |requests| <= MAX_ENTRIES
    ensures AddAll(es, requests).Ok? ==> AddAll(es, requests).value == es + Map(EntryFor, requests)
    decreases |requests|
  {
    hide Distinct;
    var cores, asked := Cores(es), CoresAsked(requests);
    if requests == [] {
      assert cores + asked == cores && es + Map(EntryFor, requests) == es;
    } else {
      var r := requests[0];
      if r.coreId in cores {
        DuplicateSpoils(cores, asked);
      } else if |es| < MAX_ENTRIES {
        var more := es + [EntryFor(r)];
        FreshCoreKeepsDistinct(cores, r.coreId);
        assert Cores(more) == cores + [r.coreId];
        AddAllAccepts(more, requests[1..]);
        assert Cores(more) + CoresAsked(requests[1..]) == cores + asked;
        assert more + Map(EntryFor, requests[1..]) == es + Map(EntryFor, requests);
      }
    }
  }

  predicate DifferentCores(requests: seq<Request>) {
    forall i, j :: 0 <= i < j < |requests| ==> requests[i].coreId != requests[j].coreId
  }

  lemma {:induction false} CoresDiffer(requests: seq<Request>)
    ensures Distinct(CoresAsked(requests)) <==> DifferentCores(requests)
  {
    var cores := CoresAsked(requests);
    if DifferentCores(requests) {
      forall i, j | 0 <= i < |cores| && 0 <= j < |cores| && i != j ensures cores[i] != cores[j] {
        assert requests[i].coreId == cores[i] && requests[j].coreId == cores[j];
        if i < j { assert requests[i].coreId != requests[j].coreId; } else { assert requests[j].coreId != requests[i].coreId; }
      }
    } else {
      var i, j :| 0 <= i < j < |requests| && requests[i].coreId == requests[j].coreId;
      assert cores[i] == cores[j];
    }
  }

  lemma NoCores()
    ensures Cores([]) == [] && Distinct(Cores([]))
  {
  }

  lemma {:induction false} EntriesAsked(requests: seq<Request>)
    ensures |Map(EntryFor, requests)| == |requests|
    ensures forall i :: 0 <= i < |requests| ==>
              Map(EntryFor, requests)[i] == Entry(requests[i].coreId, requests[i].entryAddr, 0, 0)
  {
  }

  /** From the empty table, a run of adds is accepted exactly when it names at most sixteen
      cores, each once; the table then holds them in the order given. */
  lemma {:induction false} AddAllFromEmpty(requests: seq<Request>)
    ensures AddAll([], requests).Ok? <==> DifferentCores(requests) && |requests| <= 16
    ensures AddAll([], requests).Ok? ==> AddAll([], requests).value == Map(EntryFor, requests)
    ensures AddAll([], requests).Ok? ==>
              |AddAll([], requests).value| == |requests|
              && forall i :: 0 <= i < |requests| ==>
                   AddAll([], requests).value[i] == Entry(requests[i].coreId, requests[i].entryAddr, 0, 0)
  {
    hide DifferentCores, AddAll, Distinct, Map, Cores, CoresAsked;
    CoresDiffer(requests);
    NoCores();
    AddAllAccepts([], requests);
    EntriesAsked(requests);
    assert [] + CoresAsked(requests) == CoresAsked(requests);
    assert [] + Map(EntryFor, requests) == Map(EntryFor, requests);
  }

  predicate SortedByCore(es: seq<Entry>) {
    forall i :: 0 < i < |es| ==> es[i - 1].coreId <= es[i].coreId
  }

  predicate StrictlySorted(es: seq<Entry>) {
    forall i :: 0 < i < |es| ==> es[i - 1].coreId < es[i].coreId
  }

  /** What qsort may turn `es` into: ties can come out in any order. */
  predicate SortedPermutation(es: seq<Entry>, sorted: seq<Entry>) {
    SortedByCore(sorted) && multiset(sorted) == multiset(es)
  }

  /** Without repeated cores there are no ties. */
  lemma SortedIsStrict(es: seq<Entry>, sorted: seq<Entry>)
    requires Distinct(Cores(es)) && SortedPermutation(es, sorted)
    ensures StrictlySorted(sorted) && |sorted| == |es|
  {
    SameLength(es, sorted);
    MapPermutation(CoreOf, es, sorted);
    DistinctPermutation(Cores(es), Cores(sorted));
    forall i | 0 < i < |sorted| ensures sorted[i - 1].coreId < sorted[i].coreId {
      assert Cores(sorted)[i - 1] != Cores(sorted)[i];
    }
  }

  lemma {:induction false} HeadIsLeast(s: seq<Entry>, k: nat)
    requires StrictlySorted(s) && 0 < k < |s|
    ensures s[0].coreId < s[k].coreId
    decreases k
  {
    if k > 1 { HeadIsLeast(s, k - 1); }
    assert s[k - 1].coreId < s[k].coreId;
  }

  lemma SameHead(s: seq<Entry>, t: seq<Entry>)
    requires StrictlySorted(s) && StrictlySorted(t) && multiset(s) == multiset(t) && |s| == |t| > 0
    ensures s[0] == t[0]
  {
    assert s[0] in multiset(t) && t[0] in multiset(s);
    var i := Occurrence(s, t[0]);
    var j := Occurrence(t, s[0]);
    if i > 0 { HeadIsLeast(s, i); }
    if j > 0 { HeadIsLeast(t, j); }
  }

  lemma TailIsStrict(s: seq<Entry>)
    requires StrictlySorted(s) && s != []
    ensures StrictlySorted(Without(s, 0)) && s == [s[0]] + Without(s, 0)
  {
    forall i | 0 < i < |s| - 1 ensures Without(s, 0)[i - 1].coreId < Without(s, 0)[i].coreId {
      assert s[i].coreId < s[i + 1].coreId;
    }
  }

  /** A strictly sorted sequence is determined by its contents. */
  lemma {:induction false} SortedUnique(s: seq<Entry>, t: seq<Entry>)
    requires StrictlySorted(s) && StrictlySorted(t) && multiset(s) == multiset(t)
    ensures s == t
    decreases |s|
  {
    hide StrictlySorted, Without;
    SameLength(s, t);
    if s != [] {
      SameHead(s, t);
      TailIsStrict(s);
      TailIsStrict(t);
      WithoutSame(s, 0, t, 0);
      SortedUnique(Without(s, 0), Without(t, 0));
    }
  }

  /** The order in which the cores were named never shows in the file: an accepted run stays
      accepted in any other order, and sorting then gives the same bytes, however qsort
      treats ties. */
  lemma CanonicalOutput(r1: seq<Request>, r2: seq<Request>)
    requires multiset(r1) == multiset(r2) && AddAll([], r1).Ok?
    ensures AddAll([], r2).Ok?
    ensures forall s1, s2 :: SortedPermutation(AddAll([], r1).value, s1) && SortedPermutation(AddAll([], r2).value, s2)
              ==> |s1| <= MAX_ENTRIES && |s2| <= MAX_ENTRIES && FileOf(s1) == FileOf(s2)
  {
    hide FileOf;
    AddAllFromEmpty(r1);
    AddAllFromEmpty(r2);
    SameLength(r1, r2);
    MapPermutation((r: Request) => r.coreId, r1, r2);
    DistinctPermutation(CoresAsked(r1), CoresAsked(r2));
    MapPermutation(EntryFor, r1, r2);
    var e1, e2 := Map(EntryFor, r1), Map(EntryFor, r2);
    assert Cores(e1) == CoresAsked(r1) && Cores(e2) == CoresAsked(r2);
    forall s1, s2 | SortedPermutation(e1, s1) && SortedPermutation(e2, s2)
      ensures |s1| <= MAX_ENTRIES && |s2| <= MAX_ENTRIES && FileOf(s1) == FileOf(s2)
    {
      SortedIsStrict(e1, s1);
      SortedIsStrict(e2, s2);
      SortedUnique(s1, s2);
    }
  }

  lemma {:induction false} StrictApart(s: seq<Entry>, i: nat, j: nat)
    requires StrictlySorted(s) && i < j < |s|
    ensures s[i].coreId < s[j].coreId
    decreases j
  {
    if i < j - 1 { StrictApart(s, i, j - 1); }
    assert s[j - 1].coreId < s[j].coreId;
  }

  /** Each request is found in the sorted table, with its address and with zeros for the rest. */
  lemma {:induction false} RequestFound(requests: seq<Request>, sorted: seq<Entry>, i: nat)
    requires multiset(sorted) == multiset(Map(EntryFor, requests)) && i < |requests|
    ensures Entry(requests[i].coreId, requests[i].entryAddr, 0, 0) in sorted
  {
    assert Map(EntryFor, requests)[i] in multiset(Map(EntryFor, requests));
    var k := Occurrence(sorted, Map(EntryFor, requests)[i]);
  }

  /** The command line from end to end: what was asked for, in increasing core order and
      nothing else, is what a dump of the patched image shows. */
  lemma {:induction false} ToolRun(requests: seq<Request>, sorted: seq<Entry>, image: seq<byte>, offset: u64)
    requires |image| < 0x8000_0000_0000_0000
    requires AddAll([], requests).Ok? && SortedPermutation(AddAll([], requests).value, sorted)
    requires |sorted| <= MAX_ENTRIES && Embed(image, FileOf(sorted), offset).Ok?
    ensures StrictlySorted(sorted) && multiset(sorted) == multiset(Map(EntryFor, requests))
    ensures |sorted| == |requests| && forall i, j :: 0 <= i < j < |sorted| ==> sorted[i].coreId < sorted[j].coreId
    ensures forall i :: 0 <= i < |requests| ==> Entry(requests[i].coreId, requests[i].entryAddr, 0, 0) in sorted
    ensures ReadFile(FileOf(sorted)) == Ok(sorted)
    ensures DumpFile(Embed(image, FileOf(sorted), offset).value, offset)
         == Ok(Dump(HeaderOf(sorted), sorted, if requests == [] then NotChecked else Matches))
  {
    hide Embed, DumpFile, FileOf, HeaderOf, StrictlySorted;
    AddAllFromEmpty(requests);
    assert Cores(Map(EntryFor, requests)) == CoresAsked(requests);
    CoresDiffer(requests);
    SortedIsStrict(Map(EntryFor, requests), sorted);
    forall i, j | 0 <= i < j < |sorted| ensures sorted[i].coreId < sorted[j].coreId { StrictApart(sorted, i, j); }
    forall i | 0 <= i < |requests| ensures Entry(requests[i].coreId, requests[i].entryAddr, 0, 0) in sorted {
      RequestFound(requests, sorted, i);
    }
    EmbedOnce(image, offset, sorted);
    ReadBack(sorted);
  }
}
