/** The web client's texts: logins of the form user@host:port, and the flow lists that carry
    them to the server and back. */
module LoginText {

  datatype Result<+T> = Ok(value: T) | Thrown

  /** A number as the program uses it. Which of them a program number can be is left to the
      notation below. */
  datatype Number = NaN | Infinite(positive: bool) | Num(value: real)

  /** What a field of the page or of a message can hold: text as it was typed, a number, or the
      null that JSON has for numbers it cannot write. */
  datatype Setting = Text(text: string) | Numeric(number: Number) | Null

  datatype Login = Login(user: string, hostname: string, port: Setting)

  // ----- Splitting -----------------------------------------------------------------------

  /** The pieces between the separators; there is always at least one. */
  function Split(s: string, sep: char): (pieces: seq<string>)
    ensures |pieces| >= 1
    decreases |s|
  {
    if s == [] then [""]
    else
      var rest := Split(s[1..], sep);
      if s[0] == sep then [""] + rest else [[s[0]] + rest[0]] + rest[1..]
  }

  function Count(s: string, c: char): nat
    decreases |s|
  {
    if s == [] then 0 else (if s[0] == c then 1 else 0) + Count(s[1..], c)
  }

  lemma {:induction false} SplitCounts(s: string, sep: char)
    ensures |Split(s, sep)| == Count(s, sep) + 1
    decreases |s|
  {
    if s != [] { SplitCounts(s[1..], sep); }
  }

  lemma {:induction false} CountAppend(s: string, t: string, c: char)
    ensures Count(s + t, c) == Count(s, c) + Count(t, c)
    decreases |s|
  {
    if s == [] {
      assert s + t == t;
    } else {
      assert (s + t)[1..] == s[1..] + t;
      CountAppend(s[1..], t, c);
    }
  }

  lemma {:induction false} CountZero(s: string, c: char)
    ensures Count(s, c) == 0 <==> c !in s
    decreases |s|
  {
    if s != [] {
      assert s == [s[0]] + s[1..];
      CountZero(s[1..], c);
    }
  }

  lemma {:induction false} SplitFree(s: string, sep: char)
    requires sep !in s
    ensures Split(s, sep) == [s]
    decreases |s|
  {
    if s != [] {
      assert s == [s[0]] + s[1..];
      SplitFree(s[1..], sep);
    }
  }

  lemma {:induction false} SplitOnce(s: string, t: string, sep: char)
    requires sep !in s
    ensures Split(s + [sep] + t, sep) == [s] + Split(t, sep)
    decreases |s|
  {
    var whole := s + [sep] + t;
    if s == [] {
      assert whole == [sep] + t && whole[1..] == t;
    } else {
      assert s == [s[0]] + s[1..];
      assert whole[1..] == s[1..] + [sep] + t;
      SplitOnce(s[1..], t, sep);
    }
  }

  // ----- Numbers in text -------------------------------------------------------------------

  predicate Plain(s: string) { '@' !in s && ':' !in s }

  /** The language's own conversions between numbers and text, whatever notations they take:
      signs, fractions, exponents, other bases, surrounding blanks, the empty text for zero. */
  datatype Notation = Notation(isNumber: Number -> bool, read: string -> Number, show: Number -> string)

  /** What the language promises of them (ECMAScript, Number::toString and StringToNumber): text
      reads as a number there is or as none, and the text of a number reads back as that number.
      No such text has a separator of logins in it. */
  ghost predicate Lawful(js: Notation) {
    && (forall s {:trigger js.read(s)} :: js.read(s) == NaN || js.isNumber(js.read(s)))
    && (forall x {:trigger js.show(x)} :: js.isNumber(x) ==> x != NaN && js.read(js.show(x)) == x && Plain(js.show(x)))
    && js.isNumber(Num(22.0)) && js.show(Num(22.0)) == "22"
  }

  lemma ReadsNumber(js: Notation, s: string)
    requires Lawful(js)
    ensures js.read(s) == NaN || js.isNumber(js.read(s))
  {
  }

  lemma ShowsNumber(js: Notation, x: Number)
    requires Lawful(js) && js.isNumber(x)
    ensures x != NaN && js.read(js.show(x)) == x && Plain(js.show(x))
  {
  }

  lemma ReadsTwentyTwo(js: Notation)
    requires Lawful(js)
    ensures js.isNumber(Num(22.0)) && js.show(Num(22.0)) == "22" && js.read("22") == Num(22.0)
  {
    ShowsNumber(js, Num(22.0));
  }

  // A notation that keeps the promise: whole numbers in decimal.

  function Digit(d: nat): char
    requires d < 10
  {
    ('0' as int + d) as char
  }

  function Decimal(n: nat): (s: string)
    ensures s != [] && forall i :: 0 <= i < |s| ==> '0' <= s[i] <= '9'
    decreases n
  {
    if n < 10 then [Digit(n)] else Decimal(n / 10) + [Digit(n % 10)]
  }

  predicate AllDigits(s: string) {
    forall i :: 0 <= i < |s| ==> '0' <= s[i] <= '9'
  }

  function ValueOf(s: string): nat
    requires AllDigits(s)
    decreases |s|
  {
    if s == [] then 0 else 10 * ValueOf(s[..|s| - 1]) + (s[|s| - 1] as int - '0' as int)
  }

  lemma {:induction false} DecimalReadsBack(n: nat)
    ensures ValueOf(Decimal(n)) == n
    decreases n
  {
    if n >= 10 {
      var s := Decimal(n);
      assert s[..|s| - 1] == Decimal(n / 10);
      DecimalReadsBack(n / 10);
    } else {
      assert Decimal(n)[..0] == [];
    }
  }

  predicate IsWhole(x: Number) { x.Num? && x.value == x.value.Floor as real }

  function ReadWhole(s: string): Number {
    if AllDigits(s) then Num(ValueOf(s) as real)
    else if |s| > 1 && s[0] == '-' && AllDigits(s[1..]) then Num((0 - ValueOf(s[1..])) as real)
    else NaN
  }

  function ShowWhole(x: Number): string {
    if !x.Num? then ""
    else if x.value.Floor < 0 then "-" + Decimal(0 - x.value.Floor)
    else Decimal(x.value.Floor)
  }

  lemma NaturalReadsBack(n: nat)
    ensures ReadWhole(Decimal(n)) == Num(n as real)
    ensures ReadWhole("-" + Decimal(n)) == Num((0 - n) as real)
  {
    hide Decimal, ValueOf;
    DecimalReadsBack(n);
    var s := "-" + Decimal(n);
    assert s[0] == '-' && s[1..] == Decimal(n);
  }

  lemma WholeReadsBack(x: Number)
    requires IsWhole(x)
    ensures ReadWhole(ShowWhole(x)) == x && Plain(ShowWhole(x))
  {
    hide ReadWhole, Decimal;
    var n := x.value.Floor;
    NaturalReadsBack(if n < 0 then -n else n);
  }

  lemma WholeIsNumber(x: Number)
    requires IsWhole(x)
    ensures x != NaN
  {
  }

  lemma IntegerIsWhole(n: int)
    ensures IsWhole(Num(n as real))
  {
    assert (n as real).Floor == n;
  }

  lemma WholeIsRead(s: string)
    ensures ReadWhole(s) == NaN || IsWhole(ReadWhole(s))
  {
    hide IsWhole, ValueOf;
    if AllDigits(s) {
      IntegerIsWhole(ValueOf(s));
    } else if |s| > 1 && s[0] == '-' && AllDigits(s[1..]) {
      IntegerIsWhole(0 - ValueOf(s[1..]));
    }
  }

  lemma WholeTwentyTwo()
    ensures IsWhole(Num(22.0)) && ShowWhole(Num(22.0)) == "22"
  {
    hide Lawful;
    assert Num(22.0).value.Floor == 22;
    assert Decimal(2) == "2" && Decimal(22) == "22";
  }

  /** The promise can be kept. */
  lemma WholeNumbersLawful()
    ensures Lawful(Notation(IsWhole, ReadWhole, ShowWhole))
  {
    hide IsWhole, ReadWhole, ShowWhole, Plain;
    var js := Notation(IsWhole, ReadWhole, ShowWhole);
    forall s ensures js.read(s) == NaN || js.isNumber(js.read(s)) {
      WholeIsRead(s);
    }
    forall x | js.isNumber(x) ensures x != NaN && js.read(js.show(x)) == x && Plain(js.show(x)) {
      WholeReadsBack(x);
      WholeIsNumber(x);
    }
    WholeTwentyTwo();
  }

  // ----- Logins ------------------------------------------------------------------------------

  /** The number a field is taken for where one is asked for. */
  function ToNumber(js: Notation, v: Setting): Number {
    match v
    case Text(s) => js.read(s)
    case Numeric(x) => x
    case Null => Num(0.0)
  }

  /** A field after a trip through JSON, which writes finite numbers only. */
  function Json(v: Setting): Setting {
    if v.Numeric? && !v.number.Num? then Null else v
  }

  function JsonLogin(login: Login): Login { login.(port := Json(login.port)) }

  function ParseSentLoginData(js: Notation, text: string): Result<Login> {
    var parts := Split(text, ':');
    if |parts| > 2 then Thrown else
    var port := Numeric(if |parts| == 2 then js.read(parts[1]) else Num(22.0));
    var names := Split(parts[0], '@');
    if |names| == 2 then Ok(Login(names[0], names[1], port))
    else if |names| == 1 then Ok(Login("root", names[0], port))
    else Thrown
  }

  /** A login text by its separators: without a user it is root's, without a port the port is 22. */
  lemma LoginTextExact(js: Notation, user: string, host: string, port: string)
    requires Plain(user) && Plain(host) && ':' !in port
    ensures ParseSentLoginData(js, host) == Ok(Login("root", host, Numeric(Num(22.0))))
    ensures ParseSentLoginData(js, user + ['@'] + host) == Ok(Login(user, host, Numeric(Num(22.0))))
    ensures ParseSentLoginData(js, host + [':'] + port) == Ok(Login("root", host, Numeric(js.read(port))))
    ensures ParseSentLoginData(js, user + ['@'] + host + [':'] + port) == Ok(Login(user, host, Numeric(js.read(port))))
  {
    hide Split;
    var names := user + ['@'] + host;
    assert ':' !in names;
    SplitFree(host, ':');
    SplitFree(host, '@');
    SplitFree(names, ':');
    SplitFree(port, ':');
    SplitOnce(user, host, '@');
    SplitOnce(host, port, ':');
    SplitOnce(names, port, ':');
  }

  /** A login text is refused if and only if it has two colons, or two at signs before the first. */
  lemma LoginRefusedExact(js: Notation, text: string)
    ensures ParseSentLoginData(js, text).Thrown? <==> Count(text, ':') >= 2 || Count(Split(text, ':')[0], '@') >= 2
  {
    hide Split, Count;
    SplitCounts(text, ':');
    SplitCounts(Split(text, ':')[0], '@');
  }

  /** Zero, NaN, null and the empty text are falsy. */
  predicate Falsy(v: Setting) { v in {Numeric(NaN), Numeric(Num(0.0)), Null, Text("")} }

  function PortText(js: Notation, port: Setting): string {
    if Falsy(port) then "22" else if port.Text? then port.text else js.show(port.number)
  }

  function UserText(user: string): string { if user == "" then "root" else user }

  function ParseRecvLoginData(js: Notation, login: Login): string {
    UserText(login.user) + "@" + login.hostname + ":" + PortText(js, login.port)
  }

  /** A login in print: root for no user, 22 for no port, and a port in text as it stands. */
  lemma PrintedLoginExact(js: Notation, login: Login)
    ensures ParseRecvLoginData(js, login) ==
              (if login.user == "" then "root" else login.user) + "@" + login.hostname + ":" +
              match login.port
              case Null => "22"
              case Text(s) => if s == "" then "22" else s
              case Numeric(x) => if x == NaN || x == Num(0.0) then "22" else js.show(x)
  {
  }

  /** The login that a printed text stands for. */
  function Effective(login: Login): Login {
    Login(UserText(login.user), login.hostname, if Falsy(login.port) then Numeric(Num(22.0)) else login.port)
  }

  /** A number in the port is one that a program number can be. */
  predicate HasPort(js: Notation, login: Login) {
    login.port.Numeric? ==> login.port.number == NaN || js.isNumber(login.port.number)
  }

  lemma PortReadsBack(js: Notation, login: Login)
    requires Lawful(js) && HasPort(js, login) && !login.port.Text?
    ensures Plain(PortText(js, login.port)) && Numeric(js.read(PortText(js, login.port))) == Effective(login).port
    ensures PortText(js, Effective(login).port) == PortText(js, login.port)
  {
    hide Lawful;
    ReadsTwentyTwo(js);
    if !Falsy(login.port) { ShowsNumber(js, login.port.number); }
  }

  /** What was printed parses, if user and host are plain, to the login that was meant. */
  lemma PlainLoginParses(js: Notation, login: Login)
    requires Lawful(js) && HasPort(js, login) && !login.port.Text?
    requires Plain(login.user) && Plain(login.hostname)
    ensures ParseSentLoginData(js, ParseRecvLoginData(js, login)) == Ok(Effective(login))
  {
    hide PortText, Lawful;
    var user, port := UserText(login.user), PortText(js, login.port);
    PortReadsBack(js, login);
    var names := user + "@" + login.hostname;
    assert ParseRecvLoginData(js, login) == names + [':'] + port;
    SplitOnce(names, port, ':');
    SplitFree(port, ':');
    SplitOnce(user, login.hostname, '@');
    SplitFree(login.hostname, '@');
  }

  lemma ColonsAddUp(js: Notation, login: Login)
    ensures Count(ParseRecvLoginData(js, login), ':')
         >= Count(UserText(login.user), ':') + Count(login.hostname, ':') + 1
  {
    var user, port := UserText(login.user), PortText(js, login.port);
    assert ParseRecvLoginData(js, login) == user + ("@" + (login.hostname + (":" + port)));
    CountAppend(user, "@" + (login.hostname + (":" + port)), ':');
    CountAppend("@", login.hostname + (":" + port), ':');
    CountAppend(login.hostname, ":" + port, ':');
    CountAppend(":", port, ':');
    assert Count(":", ':') == 1 by { assert ":"[1..] == ""; }
  }

  lemma {:induction false} PiecesAreFree(s: string, sep: char, k: nat)
    requires k < |Split(s, sep)|
    ensures sep !in Split(s, sep)[k]
    ensures forall c :: c in Split(s, sep)[k] ==> c in s
    decreases |s|
  {
    if s != [] {
      var rest := Split(s[1..], sep);
      PiecesAreFree(s[1..], sep, if s[0] == sep && k > 0 then k - 1 else k);
    }
  }

  lemma ParsedNamesArePlain(js: Notation, text: string)
    requires ParseSentLoginData(js, text).Ok?
    ensures Plain(ParseSentLoginData(js, text).value.user) && Plain(ParseSentLoginData(js, text).value.hostname)
  {
    hide Split;
    var parts := Split(text, ':');
    PiecesAreFree(text, ':', 0);
    var names := Split(parts[0], '@');
    PiecesAreFree(parts[0], '@', 0);
    if |names| == 2 { PiecesAreFree(parts[0], '@', 1); }
  }

  lemma ParsedHasPort(js: Notation, text: string)
    requires Lawful(js) && ParseSentLoginData(js, text).Ok?
    ensures ParseSentLoginData(js, text).value.port.Numeric? && HasPort(js, ParseSentLoginData(js, text).value)
  {
    hide Lawful;
    ReadsTwentyTwo(js);
    var parts := Split(text, ':');
    if |parts| == 2 { ReadsNumber(js, parts[1]); }
  }

  /** Printing and parsing gives a login back exactly when it names a user, has a number for its
      port that is neither zero nor NaN, and neither name contains a separator. */
  lemma LoginRoundTrip(js: Notation, login: Login)
    requires Lawful(js) && HasPort(js, login)
    ensures ParseSentLoginData(js, ParseRecvLoginData(js, login)) == Ok(login) <==>
              login.user != "" && login.port.Numeric? && !Falsy(login.port)
              && Plain(login.user) && Plain(login.hostname)
  {
    hide ParseSentLoginData, ParseRecvLoginData, Plain, Lawful;
    if ParseSentLoginData(js, ParseRecvLoginData(js, login)).Ok? {
      ParsedHasPort(js, ParseRecvLoginData(js, login));
      ParsedNamesArePlain(js, ParseRecvLoginData(js, login));
    }
    if Plain(login.user) && Plain(login.hostname) && !login.port.Text? {
      PlainLoginParses(js, login);
    }
  }

  /** A colon in a name makes the text unreadable; it is never taken for another login. */
  lemma ColonIsRefused(js: Notation, login: Login)
    requires ':' in login.user || ':' in login.hostname
    ensures ParseSentLoginData(js, ParseRecvLoginData(js, login)) == Thrown
  {
    hide ParseRecvLoginData, Split;
    ColonsAddUp(js, login);
    CountZero(login.user, ':');
    CountZero(login.hostname, ':');
    SplitCounts(ParseRecvLoginData(js, login), ':');
  }

  lemma UserSettles(user: string)
    ensures UserText(UserText(user)) == UserText(user)
  {
  }

  /** What is printed stays as it is from then on, with JSON on the way or without, unless the
      port is infinite, which JSON cannot carry. */
  lemma PrintedSettles(js: Notation, login: Login)
    requires Lawful(js) && HasPort(js, login) && !login.port.Text?
    requires Plain(login.user) && Plain(login.hostname)
    ensures var text := ParseRecvLoginData(js, login);
            && ParseSentLoginData(js, text) == Ok(Effective(login))
            && ParseRecvLoginData(js, Effective(login)) == text
            && (!login.port.Numeric? || login.port.number == NaN || login.port.number.Num? ==> JsonLogin(Effective(login)) == Effective(login))
  {
    hide ParseSentLoginData, PortText, UserText, Lawful;
    PlainLoginParses(js, login);
    PortReadsBack(js, login);
    assert UserText(UserText(login.user)) == UserText(login.user) by { UserSettles(login.user); }
  }

  /** The text that a login text comes back as. */
  function SettledText(js: Notation, text: string): Result<string> {
    match ParseSentLoginData(js, text) case Thrown => Thrown case Ok(login) => Ok(ParseRecvLoginData(js, JsonLogin(login)))
  }

  /** A login text settles after one trip, as it is or through JSON. */
  lemma TextSettles(js: Notation, text: string)
    requires Lawful(js) && ParseSentLoginData(js, text).Ok?
    ensures var settled := ParseRecvLoginData(js, ParseSentLoginData(js, text).value);
            ParseSentLoginData(js, settled).Ok? && ParseRecvLoginData(js, ParseSentLoginData(js, settled).value) == settled
    ensures SettledText(js, SettledText(js, text).value) == SettledText(js, text)
  {
    hide ParseSentLoginData, ParseRecvLoginData, Lawful, Plain;
    var login := ParseSentLoginData(js, text).value;
    ParsedNamesArePlain(js, text);
    ParsedHasPort(js, text);
    PrintedSettles(js, login);
    PrintedSettles(js, JsonLogin(login));
  }

  // ----- Flow lists ----------------------------------------------------------------------------

  const NOT_APPLICABLE: Setting := Text("n/a")

  datatype Iperf = Iperf(sourceText: string, destinationText: string, port: Setting, transport: string,
                         bandwidth: Setting, enabled: bool, flowLabel: string)

  datatype Ping = Ping(sourceText: string, destinationText: string, intervalType: string, intervalMs: Setting,
                       packetSize: Setting, enabled: bool, flowLabel: string)

  // On the wire an absent limit is -1.
  datatype WireIperf = WireIperf(source: Login, destination: Login, port: Setting, transport: string,
                                 bandwidth: Setting, enabled: bool, flowLabel: string)

  datatype WirePing = WirePing(source: Login, destination: Login, intervalType: string, intervalMs: Setting,
                               packetSize: Setting, enabled: bool, flowLabel: string)

  datatype Flows<I, P> = Flows(iperf: seq<I>, ping: seq<P>)

  predicate IsNaN(js: Notation, v: Setting) { ToNumber(js, v) == NaN }

  function SendIperf(js: Notation, f: Iperf): Result<WireIperf> {
    var source, destination := ParseSentLoginData(js, f.sourceText), ParseSentLoginData(js, f.destinationText);
    if f.transport != "tcp" && f.transport != "udp" then Thrown
    else if f.transport == "udp" && IsNaN(js, f.bandwidth) then Thrown
    else if IsNaN(js, f.port) then Thrown
    else if source.Thrown? || destination.Thrown? then Thrown
    else Ok(WireIperf(source.value, destination.value, Numeric(ToNumber(js, f.port)), f.transport,
                      Numeric(if f.transport == "udp" then ToNumber(js, f.bandwidth) else Num(-1.0)),
                      f.enabled, f.flowLabel))
  }

  function SendPing(js: Notation, f: Ping): Result<WirePing> {
    var source, destination := ParseSentLoginData(js, f.sourceText), ParseSentLoginData(js, f.destinationText);
    if f.intervalType != "adaptive" && f.intervalType != "periodic" then Thrown
    else if f.intervalType == "periodic" && IsNaN(js, f.intervalMs) then Thrown
    else if IsNaN(js, f.packetSize) then Thrown
    else if source.Thrown? || destination.Thrown? then Thrown
    else Ok(WirePing(source.value, destination.value, f.intervalType,
                     Numeric(if f.intervalType == "periodic" then ToNumber(js, f.intervalMs) else Num(-1.0)),
                     f.packetSize, f.enabled, f.flowLabel))
  }

  /** The flows as the server parses them, and sends them back. */
  function JsonIperf(w: WireIperf): WireIperf {
    w.(source := JsonLogin(w.source), destination := JsonLogin(w.destination), port := Json(w.port), bandwidth := Json(w.bandwidth))
  }

  function JsonPing(w: WirePing): WirePing {
    w.(source := JsonLogin(w.source), destination := JsonLogin(w.destination),
       intervalMs := Json(w.intervalMs), packetSize := Json(w.packetSize))
  }

  function RecvIperf(js: Notation, w: WireIperf): Result<Iperf> {
    if w.transport != "tcp" && w.transport != "udp" then Thrown
    else if w.transport == "udp" && IsNaN(js, w.bandwidth) then Thrown
    else if IsNaN(js, w.port) then Thrown
    else Ok(Iperf(ParseRecvLoginData(js, w.source), ParseRecvLoginData(js, w.destination),
                  Numeric(ToNumber(js, w.port)), w.transport,
                  if w.transport == "udp" then Numeric(ToNumber(js, w.bandwidth)) else NOT_APPLICABLE,
                  w.enabled, w.flowLabel))
  }

  function RecvPing(js: Notation, w: WirePing): Result<Ping> {
    if w.intervalType != "adaptive" && w.intervalType != "periodic" then Thrown
    else if w.intervalType == "periodic" && IsNaN(js, w.intervalMs) then Thrown
    else if IsNaN(js, w.packetSize) then Thrown
    else Ok(Ping(ParseRecvLoginData(js, w.source), ParseRecvLoginData(js, w.destination), w.intervalType,
                 if w.intervalType == "periodic" then Numeric(ToNumber(js, w.intervalMs)) else NOT_APPLICABLE,
                 w.packetSize, w.enabled, w.flowLabel))
  }

  /** Which iperf flows can be sent, and what is sent: no bandwidth is -1. */
  lemma SendIperfExact(js: Notation, f: Iperf)
    ensures SendIperf(js, f).Ok? <==>
              && f.transport in {"tcp", "udp"} && !IsNaN(js, f.port) && (f.transport == "udp" ==> !IsNaN(js, f.bandwidth))
              && ParseSentLoginData(js, f.sourceText).Ok? && ParseSentLoginData(js, f.destinationText).Ok?
    ensures SendIperf(js, f).Ok? ==>
              var w := SendIperf(js, f).value;
              && Ok(w.source) == ParseSentLoginData(js, f.sourceText) && Ok(w.destination) == ParseSentLoginData(js, f.destinationText)
              && w.port == Numeric(ToNumber(js, f.port)) && w.transport == f.transport
              && (f.transport == "tcp" ==> w.bandwidth == Numeric(Num(-1.0)))
              && (f.transport == "udp" ==> w.bandwidth == Numeric(ToNumber(js, f.bandwidth)))
              && w.enabled == f.enabled && w.flowLabel == f.flowLabel
  {
    hide ParseSentLoginData, IsNaN;
  }

  /** Which ping flows can be sent, and what is sent: no interval is -1. */
  lemma SendPingExact(js: Notation, f: Ping)
    ensures SendPing(js, f).Ok? <==>
              && f.intervalType in {"adaptive", "periodic"} && !IsNaN(js, f.packetSize)
              && (f.intervalType == "periodic" ==> !IsNaN(js, f.intervalMs))
              && ParseSentLoginData(js, f.sourceText).Ok? && ParseSentLoginData(js, f.destinationText).Ok?
    ensures SendPing(js, f).Ok? ==>
              var w := SendPing(js, f).value;
              && Ok(w.source) == ParseSentLoginData(js, f.sourceText) && Ok(w.destination) == ParseSentLoginData(js, f.destinationText)
              && w.intervalType == f.intervalType && w.packetSize == f.packetSize
              && (f.intervalType == "adaptive" ==> w.intervalMs == Numeric(Num(-1.0)))
              && (f.intervalType == "periodic" ==> w.intervalMs == Numeric(ToNumber(js, f.intervalMs)))
              && w.enabled == f.enabled && w.flowLabel == f.flowLabel
  {
    hide ParseSentLoginData, IsNaN;
  }

  /** Which received flows are shown, and how: no limit is the text n/a. */
  lemma RecvExact(js: Notation, w: WireIperf, v: WirePing)
    ensures RecvIperf(js, w).Ok? <==>
              w.transport in {"tcp", "udp"} && !IsNaN(js, w.port) && (w.transport == "udp" ==> !IsNaN(js, w.bandwidth))
    ensures RecvPing(js, v).Ok? <==>
              v.intervalType in {"adaptive", "periodic"} && !IsNaN(js, v.packetSize)
              && (v.intervalType == "periodic" ==> !IsNaN(js, v.intervalMs))
    ensures RecvIperf(js, w).Ok? ==>
              var f := RecvIperf(js, w).value;
              && f.sourceText == ParseRecvLoginData(js, w.source) && f.destinationText == ParseRecvLoginData(js, w.destination)
              && f.bandwidth == (if w.transport == "udp" then Numeric(ToNumber(js, w.bandwidth)) else Text("n/a"))
    ensures RecvPing(js, v).Ok? ==>
              var f := RecvPing(js, v).value;
              && f.sourceText == ParseRecvLoginData(js, v.source) && f.destinationText == ParseRecvLoginData(js, v.destination)
              && f.intervalMs == (if v.intervalType == "periodic" then Numeric(ToNumber(js, v.intervalMs)) else Text("n/a"))
  {
    hide ParseRecvLoginData, IsNaN;
  }

  /** Converts a list item by item; one refusal refuses the list. */
  function All<A, B>(f: A -> Result<B>, s: seq<A>): (r: Result<seq<B>>)
    ensures r.Ok? ==> |r.value| == |s| && forall i :: 0 <= i < |s| ==> f(s[i]) == Ok(r.value[i])
    ensures r.Thrown? ==> exists i :: 0 <= i < |s| && f(s[i]) == Thrown
    decreases |s|
  {
    if s == [] then Ok([])
    else
      var n := |s| - 1;
      match All(f, s[..n])
      case Thrown => assert exists i :: 0 <= i < n && f(s[..n][i]) == Thrown; Thrown
      case Ok(before) => if f(s[n]).Thrown? then Thrown else Ok(before + [f(s[n]).value])
  }

  lemma AllDetermined<A, B>(f: A -> Result<B>, s: seq<A>, t: seq<B>)
    requires |t| == |s| && forall i :: 0 <= i < |s| ==> f(s[i]) == Ok(t[i])
    ensures All(f, s) == Ok(t)
  {
    var r := All(f, s);
    if r.Ok? {
      forall i | 0 <= i < |s| ensures r.value[i] == t[i] { assert Ok(r.value[i]) == f(s[i]) == Ok(t[i]); }
      assert r.value == t;
    }
  }

  function SendFlows(js: Notation, flows: Flows<Iperf, Ping>): Result<Flows<WireIperf, WirePing>> {
    var iperf, ping := All((f: Iperf) => SendIperf(js, f), flows.iperf), All((f: Ping) => SendPing(js, f), flows.ping);
    if iperf.Thrown? || ping.Thrown? then Thrown else Ok(Flows(iperf.value, ping.value))
  }

  function RecvFlows(js: Notation, flows: Flows<WireIperf, WirePing>): Result<Flows<Iperf, Ping>> {
    var iperf, ping := All((f: WireIperf) => RecvIperf(js, f), flows.iperf), All((f: WirePing) => RecvPing(js, f), flows.ping);
    if iperf.Thrown? || ping.Thrown? then Thrown else Ok(Flows(iperf.value, ping.value))
  }

  function JsonFlows(flows: Flows<WireIperf, WirePing>): (r: Flows<WireIperf, WirePing>)
    ensures |r.iperf| == |flows.iperf| && forall i :: 0 <= i < |r.iperf| ==> r.iperf[i] == JsonIperf(flows.iperf[i])
    ensures |r.ping| == |flows.ping| && forall i :: 0 <= i < |r.ping| ==> r.ping[i] == JsonPing(flows.ping[i])
  {
    Flows(seq(|flows.iperf|, i requires 0 <= i < |flows.iperf| => JsonIperf(flows.iperf[i])),
          seq(|flows.ping|, i requires 0 <= i < |flows.ping| => JsonPing(flows.ping[i])))
  }

  /** What the page shows after saving: the lists as sent through JSON and received back. */
  function Trip(js: Notation, flows: Flows<Iperf, Ping>): Result<Flows<Iperf, Ping>> {
    match SendFlows(js, flows)
    case Thrown => Thrown
    case Ok(wire) => RecvFlows(js, JsonFlows(wire))
  }

  function IperfTrip(js: Notation, f: Iperf): Result<Iperf> {
    match SendIperf(js, f) case Thrown => Thrown case Ok(w) => RecvIperf(js, JsonIperf(w))
  }

  function PingTrip(js: Notation, f: Ping): Result<Ping> {
    match SendPing(js, f) case Thrown => Thrown case Ok(w) => RecvPing(js, JsonPing(w))
  }

  /** The number a setting comes back as: an infinite one is lost on the way. */
  function Settled(js: Notation, v: Setting): Setting {
    var x := ToNumber(js, v);
    Numeric(if x.Num? then x else Num(0.0))
  }

  /** `g` is `f` with its login texts and numbers settled and a limit only where one applies. */
  predicate IperfShown(js: Notation, f: Iperf, g: Iperf) {
    && SettledText(js, f.sourceText) == Ok(g.sourceText) && SettledText(js, f.destinationText) == Ok(g.destinationText)
    && g.port == Settled(js, f.port) && g.transport == f.transport && g.enabled == f.enabled && g.flowLabel == f.flowLabel
    && g.bandwidth == if f.transport == "udp" then Settled(js, f.bandwidth) else NOT_APPLICABLE
  }

  /** The same for a ping flow, whose packet size is passed on as it stands. */
  predicate PingShown(js: Notation, f: Ping, g: Ping) {
    && SettledText(js, f.sourceText) == Ok(g.sourceText) && SettledText(js, f.destinationText) == Ok(g.destinationText)
    && g.intervalType == f.intervalType
    && g.packetSize == (if f.packetSize.Numeric? && !f.packetSize.number.Num? then Null else f.packetSize)
    && g.enabled == f.enabled && g.flowLabel == f.flowLabel
    && g.intervalMs == if f.intervalType == "periodic" then Settled(js, f.intervalMs) else NOT_APPLICABLE
  }

  lemma IperfSettles(js: Notation, f: Iperf)
    requires Lawful(js) && SendIperf(js, f).Ok?
    ensures var seen := IperfTrip(js, f);
            seen.Ok? && IperfTrip(js, seen.value) == seen && IperfShown(js, f, seen.value)
  {
    hide ParseSentLoginData, ParseRecvLoginData, JsonLogin, Lawful;
    TextSettles(js, f.sourceText);
    TextSettles(js, f.destinationText);
  }

  lemma PingSettles(js: Notation, f: Ping)
    requires Lawful(js) && SendPing(js, f).Ok?
    ensures var seen := PingTrip(js, f);
            seen.Ok? && PingTrip(js, seen.value) == seen && PingShown(js, f, seen.value)
  {
    hide ParseSentLoginData, ParseRecvLoginData, JsonLogin, Lawful;
    TextSettles(js, f.sourceText);
    TextSettles(js, f.destinationText);
  }

  /** A whole trip is one of every flow. */
  lemma TripIsItemwise(js: Notation, flows: Flows<Iperf, Ping>, seen: Flows<Iperf, Ping>)
    requires |seen.iperf| == |flows.iperf| && forall i :: 0 <= i < |flows.iperf| ==> IperfTrip(js, flows.iperf[i]) == Ok(seen.iperf[i])
    requires |seen.ping| == |flows.ping| && forall i :: 0 <= i < |flows.ping| ==> PingTrip(js, flows.ping[i]) == Ok(seen.ping[i])
    ensures Trip(js, flows) == Ok(seen)
  {
    hide SendIperf, SendPing, RecvIperf, RecvPing, JsonIperf, JsonPing;
    forall i | 0 <= i < |flows.iperf| ensures SendIperf(js, flows.iperf[i]).Ok? { assert IperfTrip(js, flows.iperf[i]).Ok?; }
    forall i | 0 <= i < |flows.ping| ensures SendPing(js, flows.ping[i]).Ok? { assert PingTrip(js, flows.ping[i]).Ok?; }
    var wire := JsonFlows(SendFlows(js, flows).value);
    forall i | 0 <= i < |wire.iperf| ensures RecvIperf(js, wire.iperf[i]) == Ok(seen.iperf[i]) {
      assert IperfTrip(js, flows.iperf[i]) == Ok(seen.iperf[i]);
    }
    forall i | 0 <= i < |wire.ping| ensures RecvPing(js, wire.ping[i]) == Ok(seen.ping[i]) {
      assert PingTrip(js, flows.ping[i]) == Ok(seen.ping[i]);
    }
    AllDetermined((f: WireIperf) => RecvIperf(js, f), wire.iperf, seen.iperf);
    AllDetermined((f: WirePing) => RecvPing(js, f), wire.ping, seen.ping);
  }

  /** Lists that can be sent come back item for item, in order and with every setting as it
      settles, and from then on saving changes nothing. */
  lemma FlowsSettle(js: Notation, flows: Flows<Iperf, Ping>)
    requires Lawful(js) && SendFlows(js, flows).Ok?
    ensures var seen := Trip(js, flows);
            && seen.Ok? && Trip(js, seen.value) == seen
            && |seen.value.iperf| == |flows.iperf| && |seen.value.ping| == |flows.ping|
            && (forall i :: 0 <= i < |flows.iperf| ==> IperfShown(js, flows.iperf[i], seen.value.iperf[i]))
            && (forall i :: 0 <= i < |flows.ping| ==> PingShown(js, flows.ping[i], seen.value.ping[i]))
  {
    hide SendIperf, SendPing, IperfTrip, PingTrip, IperfShown, PingShown, Lawful, Trip;
    forall i | 0 <= i < |flows.iperf| ensures IperfTrip(js, flows.iperf[i]).Ok? { IperfSettles(js, flows.iperf[i]); }
    forall i | 0 <= i < |flows.ping| ensures PingTrip(js, flows.ping[i]).Ok? { PingSettles(js, flows.ping[i]); }
    var seen := Flows(seq(|flows.iperf|, i requires 0 <= i < |flows.iperf| && IperfTrip(js, flows.iperf[i]).Ok? => IperfTrip(js, flows.iperf[i]).value),
                      seq(|flows.ping|, i requires 0 <= i < |flows.ping| && PingTrip(js, flows.ping[i]).Ok? => PingTrip(js, flows.ping[i]).value));
    TripIsItemwise(js, flows, seen);
    forall i | 0 <= i < |flows.iperf|
      ensures IperfTrip(js, seen.iperf[i]) == Ok(seen.iperf[i]) && IperfShown(js, flows.iperf[i], seen.iperf[i])
    {
      IperfSettles(js, flows.iperf[i]);
    }
    forall i | 0 <= i < |flows.ping|
      ensures PingTrip(js, seen.ping[i]) == Ok(seen.ping[i]) && PingShown(js, flows.ping[i], seen.ping[i])
    {
      PingSettles(js, flows.ping[i]);
    }
    TripIsItemwise(js, seen, seen);
  }

  /** A setting comes back as the number it was taken for if and only if that is finite. */
  lemma SettingKeptExact(js: Notation, v: Setting)
    requires !IsNaN(js, v)
    ensures ToNumber(js, Settled(js, v)) == ToNumber(js, v) <==> ToNumber(js, v).Num?
  {
  }

  /** A flow without a limit comes back as one with a limit of zero. */
  lemma UnlimitedBecomesZero(js: Notation, f: Iperf)
    requires Lawful(js) && SendIperf(js, f).Ok?
    requires f.transport == "udp" && ToNumber(js, f.bandwidth) == Infinite(true)
    ensures IperfTrip(js, f).Ok? && IperfTrip(js, f).value.bandwidth == Numeric(Num(0.0))
  {
    hide SendIperf, IperfTrip, Lawful;
    IperfSettles(js, f);
  }

  /** Builds the lists to send, stopping at the first flow that cannot be sent. */
  method CurateFlowsForSend(js: Notation, flows: Flows<Iperf, Ping>) returns (r: Result<Flows<WireIperf, WirePing>>)
    ensures r == SendFlows(js, flows)
  {
    hide SendIperf, SendPing;
    var iperf: seq<WireIperf> := [];
    for i := 0 to |flows.iperf|
      invariant All((f: Iperf) => SendIperf(js, f), flows.iperf[..i]) == Ok(iperf)
    {
      var sent := SendIperf(js, flows.iperf[i]);
      if sent.Thrown? { return Thrown; }
      assert flows.iperf[..i + 1][..i] == flows.iperf[..i];
      iperf := iperf + [sent.value];
    }
    assert flows.iperf[..|flows.iperf|] == flows.iperf;
    var ping: seq<WirePing> := [];
    for i := 0 to |flows.ping|
      invariant All((f: Ping) => SendPing(js, f), flows.ping[..i]) == Ok(ping)
    {
      var sent := SendPing(js, flows.ping[i]);
      if sent.Thrown? { return Thrown; }
      assert flows.ping[..i + 1][..i] == flows.ping[..i];
      ping := ping + [sent.value];
    }
    assert flows.ping[..|flows.ping|] == flows.ping;
    return Ok(Flows(iperf, ping));
  }

  /** Builds the lists to show. */
  method ParseRecvFlows(js: Notation, flows: Flows<WireIperf, WirePing>) returns (r: Result<Flows<Iperf, Ping>>)
    ensures r == RecvFlows(js, flows)
  {
    hide RecvIperf, RecvPing;
    var iperf: seq<Iperf> := [];
    for i := 0 to |flows.iperf|
      invariant All((f: WireIperf) => RecvIperf(js, f), flows.iperf[..i]) == Ok(iperf)
    {
      var received := RecvIperf(js, flows.iperf[i]);
      if received.Thrown? { return Thrown; }
      assert flows.iperf[..i + 1][..i] == flows.iperf[..i];
      iperf := iperf + [received.value];
    }
    assert flows.iperf[..|flows.iperf|] == flows.iperf;
    var ping: seq<Ping> := [];
    for i := 0 to |flows.ping|
      invariant All((f: WirePing) => RecvPing(js, f), flows.ping[..i]) == Ok(ping)
    {
      var received := RecvPing(js, flows.ping[i]);
      if received.Thrown? { return Thrown; }
      assert flows.ping[..i + 1][..i] == flows.ping[..i];
      ping := ping + [received.value];
    }
    assert flows.ping[..|flows.ping|] == flows.ping;
    return Ok(Flows(iperf, ping));
  }
}
