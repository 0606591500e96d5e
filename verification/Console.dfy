/** The CANopen console: splitting a command line into words in place, and finding the
    handler for it. */
module Console {
  import opened Wrappers

  const NUL := '\0'
  const MAX_WORDS := 10
  const TABLE_SIZE := 50

  // ----- Words ---------------------------------------------------------------------------

  /** A word begins here. */
  predicate IsStart(s: string, p: nat) {
    p < |s| && s[p] != ' ' && (p == 0 || s[p - 1] == ' ')
  }

  /** The places among the first `n` where a word begins, in order. */
  function Starts(s: string, n: nat): (ps: seq<nat>)
    requires n <= |s|
    ensures forall k :: 0 <= k < |ps| ==> ps[k] < n
    decreases n
  {
    if n == 0 then []
    else if IsStart(s, n - 1) then Starts(s, n - 1) + [n - 1]
    else Starts(s, n - 1)
  }

  /** Exactly the starts, each once, left to right. */
  lemma {:induction false} StartsExact(s: string, n: nat)
    requires n <= |s|
    ensures forall p: nat :: p in Starts(s, n) <==> p < n && IsStart(s, p)
    ensures forall i, j :: 0 <= i < j < |Starts(s, n)| ==> Starts(s, n)[i] < Starts(s, n)[j]
    decreases n
  {
    if n > 0 { StartsExact(s, n - 1); }
  }

  /** The text from `p` up to the next `stop` or the end. */
  function Until(s: string, p: nat, stop: char): (w: string)
    requires p <= |s|
    ensures p + |w| <= |s| && w == s[p..p + |w|] && stop !in w
    ensures p + |w| == |s| || s[p + |w|] == stop
    decreases |s| - p
  {
    if p == |s| || s[p] == stop then []
    else
      var rest := Until(s, p + 1, stop);
      assert s[p..p + 1 + |rest|] == [s[p]] + s[p + 1..p + 1 + |rest|];
      [s[p]] + rest
  }

  /** The words of a line: from each start to the next space. */
  function Words(s: string): (ws: seq<string>)
    ensures |ws| == |Starts(s, |s|)|
  {
    var ps := Starts(s, |s|);
    seq(|ps|, k requires 0 <= k < |ps| => Until(s, ps[k], ' '))
  }

  /** Each word is non-empty and space-free, and cannot be extended on either side. */
  lemma WordsAreMaximal(s: string, k: nat)
    requires k < |Words(s)|
    ensures var p, w := Starts(s, |s|)[k], Words(s)[k];
            && w != [] && ' ' !in w && p + |w| <= |s| && w == s[p..p + |w|]
            && (p == 0 || s[p - 1] == ' ') && (p + |w| == |s| || s[p + |w|] == ' ')
  {
    StartsExact(s, |s|);
    assert Starts(s, |s|)[k] in Starts(s, |s|);
  }

  /** Every character that is not a space belongs to one of them. */
  lemma {:induction false} NoCharacterLost(s: string, i: nat) returns (k: nat)
    requires i < |s| && s[i] != ' '
    ensures k < |Words(s)|
    ensures Starts(s, |s|)[k] <= i < Starts(s, |s|)[k] + |Words(s)[k]|
    decreases i
  {
    StartsExact(s, |s|);
    if IsStart(s, i) {
      assert i in Starts(s, |s|);
      k :| 0 <= k < |Starts(s, |s|)| && Starts(s, |s|)[k] == i;
      WordsAreMaximal(s, k);
    } else {
      k := NoCharacterLost(s, i - 1);
      WordsAreMaximal(s, k);
    }
  }

  /** What is left in the buffer: every space has become a terminator. */
  function Cut(s: string): (t: string)
    ensures |t| == |s| && forall i :: 0 <= i < |s| ==> t[i] == if s[i] == ' ' then NUL else s[i]
  {
    seq(|s|, i requires 0 <= i < |s| => if s[i] == ' ' then NUL else s[i])
  }

  /** Reading a word out of the cut buffer as a C string gives the word of the line. */
  lemma {:induction false} CutWord(s: string, p: nat)
    requires p <= |s| && NUL !in s
    ensures Until(Cut(s), p, NUL) == Until(s, p, ' ')
    decreases |s| - p
  {
    if p < |s| {
      assert s[p] in s;
      if s[p] != ' ' { CutWord(s, p + 1); }
    }
  }

  /** The words an argument vector of start positions stands for. */
  ghost function ArgsOf(str: seq<char>, argv: seq<nat>): (ws: seq<string>)
    requires forall k :: 0 <= k < |argv| ==> argv[k] <= |str|
    ensures |ws| == |argv|
  {
    seq(|argv|, k requires 0 <= k < |argv| => Until(str, argv[k], NUL))
  }

  lemma CutWords(s: string, argv: seq<nat>)
    requires NUL !in s && argv == Starts(s, |s|)
    ensures ArgsOf(Cut(s), argv) == Words(s)
  {
    hide Cut, Starts;
    forall k | 0 <= k < |argv| ensures ArgsOf(Cut(s), argv)[k] == Words(s)[k] {
      CutWord(s, argv[k]);
    }
  }

  lemma {:induction false} StartsGrow(s: string, n: nat, m: nat)
    requires n <= m <= |s|
    ensures |Starts(s, n)| <= |Starts(s, m)|
    decreases m
  {
    if n < m { StartsGrow(s, n, m - 1); }
  }

  /** Cuts the line at its spaces and notes where the words begin. The vector holds ten: the
      eleventh word is noted past its end, and then nothing more can be said. */
  method StrSplit(str: array<char>, argv: array<nat>) returns (num: nat, overrun: bool)
    requires NUL !in str[..] && argv.Length == MAX_WORDS
    modifies str, argv
    ensures overrun <==> |Words(old(str[..]))| > 10
    ensures !overrun ==> num == |Words(old(str[..]))|
    ensures num <= MAX_WORDS && forall k :: 0 <= k < num ==> argv[k] <= str.Length
    ensures !overrun ==> ArgsOf(str[..], argv[..num]) == Words(old(str[..]))
  {
    hide Until, ArgsOf, Words;
    ghost var s := str[..];
    assert |Words(s)| == |Starts(s, |s|)|;
    var space := true;
    num := 0;
    for i := 0 to str.Length
      invariant num <= MAX_WORDS && argv[..num] == Starts(s, i)
      invariant space <==> i == 0 || s[i - 1] == ' '
      invariant forall k :: 0 <= k < str.Length ==> str[k] == if k < i && s[k] == ' ' then NUL else s[k]
    {
      StartsGrow(s, i + 1, str.Length);
      if str[i] == ' ' {
        space := true;
        str[i] := NUL;
      } else if space {
        if num == MAX_WORDS { return num, true; }
        argv[num] := i;
        num := num + 1;
        space := false;
      }
    }
    overrun := false;
    assert str[..] == Cut(s);
    CutWords(s, argv[..num]);
  }

  // ----- Commands ------------------------------------------------------------------------

  /** A handler, or the null pointer some entries are registered with. */
  datatype Command = Command(name: string, handler: Option<nat>)

  function Lower(c: char): char {
    if 'A' <= c <= 'Z' then (c as int + 32) as char else c
  }

  /** strcasecmp finds no difference. */
  predicate SameName(a: string, b: string) {
    |a| == |b| && forall i :: 0 <= i < |a| ==> Lower(a[i]) == Lower(b[i])
  }

  /** A capital Latin letter and the small one. */
  predicate CaseApart(capital: char, small: char) { 'A' <= capital <= 'Z' && small as int == capital as int + 32 }

  lemma SameLetter(x: char, y: char)
    ensures Lower(x) == Lower(y) <==> x == y || CaseApart(x, y) || CaseApart(y, x)
  {
  }

  /** Names are the same if and only if they differ in the case of Latin letters at most. */
  lemma SameNameExact(a: string, b: string)
    ensures SameName(a, b) <==>
              |a| == |b| && forall i :: 0 <= i < |a| ==> a[i] == b[i] || CaseApart(a[i], b[i]) || CaseApart(b[i], a[i])
  {
    hide Lower;
    if |a| == |b| {
      forall i | 0 <= i < |a|
        ensures Lower(a[i]) == Lower(b[i]) <==> a[i] == b[i] || CaseApart(a[i], b[i]) || CaseApart(b[i], a[i])
      {
        SameLetter(a[i], b[i]);
      }
    }
  }

  /** The first entry with this name. */
  function Lookup(commands: seq<Command>, name: string): (r: Option<nat>)
    ensures r == None ==> forall k :: 0 <= k < |commands| ==> !SameName(name, commands[k].name)
    ensures r.Some? ==> r.value < |commands| && SameName(name, commands[r.value].name)
    ensures r.Some? ==> forall j :: 0 <= j < r.value ==> !SameName(name, commands[j].name)
    decreases |commands|
  {
    if commands == [] then None
    else
      var n := |commands| - 1;
      var before := Lookup(commands[..n], name);
      if before.Some? then before
      else if SameName(name, commands[n].name) then Some(n)
      else None
  }

  /** Only an entry with an empty name may lack a handler. */
  predicate NullOnlyUnnamed(commands: seq<Command>) {
    forall k :: 0 <= k < |commands| && commands[k].handler == None ==> commands[k].name == ""
  }

  /** The entry without a name only separates two groups in the help listing. */
  const APPLICATION: seq<Command> := [
    Command("can_quit", Some(2)), Command("setState", Some(3)), Command("showPdo", Some(4)),
    Command("requestPdo", Some(5)), Command("sdo", Some(6)), Command("", None),
    Command("test_startM", Some(7)), Command("test_sdoSingle", Some(8)), Command("test_sdoSingleW", Some(9)),
    Command("test_sdoBlock", Some(10)), Command("test_showPdoCyc", Some(11)),
    Command("test_showpdoreq", Some(12)), Command("test_requestpdo", Some(13))]

  datatype Outcome = Called(handler: nat, args: seq<string>) | NullCall | Invalid | TooManyWords

  /** What a command line does. */
  function Dispatch(commands: seq<Command>, line: string): Outcome {
    var words := Words(line);
    if |words| > MAX_WORDS then TooManyWords
    else if words == [] then Invalid
    else match Lookup(commands, words[0])
         case None => Invalid
         case Some(k) =>
           match commands[k].handler
           case None => NullCall
           case Some(h) => Called(h, words)
  }

  /** Every line: too many words, none, a first word that no entry has, or the handler of the
      first entry that has it, with all the words. */
  lemma DispatchExact(commands: seq<Command>, line: string, k: nat)
    ensures |Words(line)| > 10 ==> Dispatch(commands, line) == TooManyWords
    ensures Words(line) == [] ==> Dispatch(commands, line) == Invalid
    ensures 1 <= |Words(line)| <= 10 && (forall j :: 0 <= j < |commands| ==> !SameName(Words(line)[0], commands[j].name)) ==>
              Dispatch(commands, line) == Invalid
    ensures 1 <= |Words(line)| <= 10 && k < |commands| && SameName(Words(line)[0], commands[k].name)
            && (forall j :: 0 <= j < k ==> !SameName(Words(line)[0], commands[j].name)) ==>
              Dispatch(commands, line) == match commands[k].handler case None => NullCall case Some(h) => Called(h, Words(line))
  {
    hide SameName, Words, Lookup;
  }

  lemma {:induction false} OneStart(line: string, n: nat)
    requires 1 <= n <= |line| && forall i :: 0 <= i < |line| ==> line[i] != ' '
    ensures Starts(line, n) == [0]
    decreases n
  {
    if n > 1 {
      OneStart(line, n - 1);
    } else {
      assert Starts(line, 0) == [];
    }
  }

  /** A line without a space is its own only word. */
  lemma OneWord(line: string)
    requires line != "" && ' ' !in line
    ensures Words(line) == [line]
  {
    forall q | 0 <= q < |line| ensures line[q] != ' ' { assert line[q] in line; }
    OneStart(line, |line|);
    WordsAreMaximal(line, 0);
    var w := Words(line)[0];
    assert 0 + |w| == |line|;
    assert w == line[0..|w|] == line;
    assert |Words(line)| == 1;
  }

  const BUILT_IN: seq<Command> := [Command("ctrl_quit", Some(0)), Command("help", Some(1))]

  /** Help is found in any case, whatever has been registered. */
  lemma HelpIsFound(more: seq<Command>)
    ensures Dispatch(BUILT_IN + more, "HELP") == Called(1, ["HELP"])
    ensures Dispatch(BUILT_IN + more, "help") == Called(1, ["help"])
  {
    hide SameName, Words, Dispatch;
    OneWord("HELP");
    OneWord("help");
    var commands := BUILT_IN + more;
    assert commands[0].name == "ctrl_quit" && commands[1] == Command("help", Some(1));
    SameNameExact("HELP", "ctrl_quit");
    SameNameExact("HELP", "help");
    SameNameExact("help", "ctrl_quit");
    SameNameExact("help", "help");
    DispatchExact(commands, "HELP", 1);
    DispatchExact(commands, "help", 1);
  }

  /** The null handler is out of reach of every line: its name is empty and no word is. */
  lemma NeverNull(commands: seq<Command>, line: string)
    requires NullOnlyUnnamed(commands)
    ensures Dispatch(commands, line) != NullCall
  {
    var words := Words(line);
    if words != [] {
      WordsAreMaximal(line, 0);
    }
  }

  /** How many of `n` more commands find a free slot. */
  function Fitting(total: nat, n: nat): (m: nat)
    requires total <= TABLE_SIZE
    ensures m <= n
  {
    if total + n <= TABLE_SIZE then n else TABLE_SIZE - total
  }

  class Terminal {
    const table: array<Option<Command>>
    var total: nat

    /** The first `total` slots are filled and the others are not. */
    ghost predicate Valid()
      reads this, table
    {
      && table.Length == TABLE_SIZE && 2 <= total <= TABLE_SIZE
      && (forall k :: 0 <= k < TABLE_SIZE ==> (table[k].Some? <==> k < total))
    }

    ghost function Commands(): (cs: seq<Command>)
      reads this, table
      requires Valid()
      ensures |cs| == total
    {
      seq(total, k requires 0 <= k < total && Valid() reads this, table => table[k].value)
    }

    constructor ()
      ensures Valid() && Commands() == BUILT_IN
    {
      table := new Option<Command>[TABLE_SIZE](k =>
        if k == 0 then Some(Command("ctrl_quit", Some(0))) else if k == 1 then Some(Command("help", Some(1))) else None);
      total := 2;
    }

    /** Takes the first free slot; a full table refuses. */
    method RegisterCmd(name: string, handler: Option<nat>) returns (registered: bool)
      requires Valid()
      modifies this`total, table
      ensures Valid()
      ensures registered <==> |old(Commands())| < 50
      ensures Commands() == if registered then old(Commands()) + [Command(name, handler)] else old(Commands())
      ensures old(NullOnlyUnnamed(Commands())) && (handler == None ==> name == "") ==> NullOnlyUnnamed(Commands())
    {
      registered := false;
      var i := 2;
      while total < TABLE_SIZE && i < TABLE_SIZE && !registered
        invariant 2 <= i <= TABLE_SIZE
        invariant !registered ==> i <= total && Valid() && Commands() == old(Commands()) && total == old(total)
        invariant registered ==> Valid() && Commands() == old(Commands()) + [Command(name, handler)] && old(total) < TABLE_SIZE
        decreases TABLE_SIZE - i, !registered
      {
        if table[i] == None {
          table[i] := Some(Command(name, handler));
          total := total + 1;
          registered := true;
          assert Commands() == old(Commands()) + [Command(name, handler)];
        }
        i := i + 1;
      }
    }

    /** Once the table is full, the rest is refused. */
    method RegisterAll(commands: seq<Command>)
      requires Valid()
      modifies this`total, table
      ensures Valid() && Commands() == old(Commands()) + commands[..Fitting(old(total), |commands|)]
    {
      for i := 0 to |commands|
        invariant Valid() && Commands() == old(Commands()) + commands[..Fitting(old(total), i)]
      {
        var registered := RegisterCmd(commands[i].name, commands[i].handler);
      }
    }

    /** Registers the application's commands one after the other, as far as they fit. */
    method CmdTableInit()
      requires Valid()
      modifies this`total, table
      ensures Valid() && Commands() == old(Commands()) + APPLICATION[..Fitting(old(total), |APPLICATION|)]
      ensures old(NullOnlyUnnamed(Commands())) ==> NullOnlyUnnamed(Commands())
    {
      RegisterAll(APPLICATION);
    }

    method ReadArgs(str: array<char>, argv: array<nat>, argc: nat) returns (args: seq<string>)
      requires argc <= argv.Length && forall k :: 0 <= k < argc ==> argv[k] <= str.Length
      ensures args == ArgsOf(str[..], argv[..argc])
    {
      args := [];
      for k := 0 to argc
        invariant |args| == k && forall j :: 0 <= j < k ==> args[j] == Until(str[..], argv[j], NUL)
      {
        args := args + [Until(str[..], argv[k], NUL)];
      }
    }

    /** Runs the first command the line names. */
    method CmdExe(str: array<char>) returns (outcome: Outcome)
      requires Valid() && NUL !in str[..]
      modifies str
      ensures outcome == Dispatch(Commands(), old(str[..]))
      ensures NullOnlyUnnamed(Commands()) ==> outcome != NullCall
    {
      hide Words, Until, SameName;
      ghost var line, commands := str[..], Commands();
      if NullOnlyUnnamed(commands) { NeverNull(commands, line); }
      var argv := new nat[MAX_WORDS];
      var argc, overrun := StrSplit(str, argv);
      if overrun { return TooManyWords; }
      if argc == 0 { return Invalid; }
      var words := ReadArgs(str, argv, argc);
      assert words == Words(line);
      for index := 0 to total
        modifies {}
        invariant forall j :: 0 <= j < index ==> !SameName(words[0], commands[j].name)
      {
        assert table[index].value == commands[index];
        if SameName(words[0], table[index].value.name) {
          assert Lookup(commands, words[0]) == Some(index);
          match table[index].value.handler
          case None => return NullCall;
          case Some(h) => return Called(h, words);
        }
      }
      return Invalid;
    }
  }
}
