/** DumpRenderTreeCommon.cpp: the tokenizer for quote-separated command lines and the parser on top
    of it. */
module Command {
  import opened Wrappers
  import opened Binary
  import opened Decimal

  const SEPARATOR: Byte := 39

  /** "--timeout", "-p" and "--pixel-test". */
  const TIMEOUT: Bytes := [45, 45, 116, 105, 109, 101, 111, 117, 116]
  const P: Bytes := [45, 112]
  const PIXEL_TEST: Bytes := [45, 45, 112, 105, 120, 101, 108, 45, 116, 101, 115, 116]

  // ----- Splitting on the separator -----

  /** The pieces between separators; one piece, possibly empty, when there is no separator. */
  function Split(s: Bytes): (ps: seq<Bytes>)
    ensures ps != []
  {
    if s == [] then [[]]
    else
      var more := Split(s[1..]);
      if s[0] == SEPARATOR then [[]] + more else [[s[0]] + more[0]] + more[1..]
  }

  function Join(ps: seq<Bytes>): Bytes {
    if ps == [] then [] else if |ps| == 1 then ps[0] else ps[0] + ([SEPARATOR] + Join(ps[1..]))
  }

  predicate Plain(s: Bytes) {
    SEPARATOR !in s
  }

  predicate AllPlain(ps: seq<Bytes>) {
    forall i :: 0 <= i < |ps| ==> Plain(ps[i])
  }

  lemma {:induction false} SplitPlain(s: Bytes)
    requires Plain(s)
    ensures Split(s) == [s]
  {
    if s != [] {
      SplitPlain(s[1..]);
      assert s == [s[0]] + s[1..];
    }
  }

  lemma {:induction false} SplitFirst(a: Bytes, b: Bytes)
    requires Plain(a)
    ensures Split(a + ([SEPARATOR] + b)) == [a] + Split(b)
  {
    var s := a + ([SEPARATOR] + b);
    if a == [] {
      assert s == [SEPARATOR] + b && s[1..] == b;
    } else {
      SplitFirst(a[1..], b);
      assert s[1..] == a[1..] + ([SEPARATOR] + b) && a == [a[0]] + a[1..];
    }
  }

  /** The pieces of joined plain strings are those strings. */
  lemma {:induction false} SplitJoin(ps: seq<Bytes>)
    requires ps != [] && AllPlain(ps)
    ensures Split(Join(ps)) == ps
  {
    assert Plain(ps[0]);
    if |ps| == 1 {
      SplitPlain(ps[0]);
    } else {
      SplitFirst(ps[0], Join(ps[1..]));
      SplitJoin(ps[1..]);
      assert ps == [ps[0]] + ps[1..];
    }
  }

  lemma JoinCons(c: Byte, p: Bytes, more: seq<Bytes>)
    ensures Join([[c] + p] + more) == [c] + Join([p] + more)
  {
    assert ([[c] + p] + more)[1..] == more == ([p] + more)[1..];
  }

  /** Every line is its pieces joined, and the pieces hold no separator. */
  lemma {:induction false} JoinSplit(s: Bytes)
    ensures Join(Split(s)) == s && AllPlain(Split(s))
  {
    if s != [] {
      var more := Split(s[1..]);
      JoinSplit(s[1..]);
      assert s == [s[0]] + s[1..];
      if s[0] == SEPARATOR {
        assert ([[]] + more)[1..] == more;
      } else {
        JoinCons(s[0], more[0], more[1..]);
        assert [more[0]] + more[1..] == more && Plain(more[0]);
      }
    }
  }

  /** The longest run of non-empty pieces at the start. */
  function Leading(ps: seq<Bytes>): seq<Bytes> {
    if ps == [] || ps[0] == [] then [] else [ps[0]] + Leading(ps[1..])
  }

  lemma {:induction false} LeadingIsLongest(ps: seq<Bytes>)
    ensures Leading(ps) <= ps && [] !in Leading(ps)
    ensures |Leading(ps)| < |ps| ==> ps[|Leading(ps)|] == []
  {
    if ps != [] && ps[0] != [] {
      LeadingIsLongest(ps[1..]);
    }
  }

  // ----- The tokenizer -----

  /** The position of the first separator from `start` on, -1 when there is none. */
  method Find(s: Bytes, start: nat) returns (i: int)
    requires start <= |s|
    ensures i == -1 ==> Plain(s[start..|s|])
    ensures i != -1 ==> start <= i < |s| && s[i] == SEPARATOR && Plain(s[start..i])
  {
    i := start;
    while i < |s|
      invariant start <= i <= |s| && Plain(s[start..i])
    {
      if s[i] == SEPARATOR {
        return;
      }
      assert s[start..i + 1] == s[start..i] + [s[i]];
      i := i + 1;
    }
    i := -1;
  }

  /** Split into the first piece from `start` on and the pieces behind the separator at `i`. */
  lemma SplitAt(s: Bytes, start: nat, i: int)
    requires start <= |s|
    requires i == -1 ==> Plain(s[start..|s|])
    requires i != -1 ==> start <= i < |s| && s[i] == SEPARATOR && Plain(s[start..i])
    ensures i == -1 ==> Split(s[start..]) == [s[start..|s|]] + []
    ensures i != -1 ==> Split(s[start..]) == [s[start..i]] + Split(s[i + 1..])
    ensures start == 0 ==> s[start..] == s
  {
    if i == -1 {
      assert s[start..|s|] == s[start..];
      SplitPlain(s[start..]);
    } else {
      SplitFirst(s[start..i], s[i + 1..]);
      assert s[start..] == s[start..i] + ([SEPARATOR] + s[i + 1..]);
    }
  }

  /** An exhausted line goes on giving empty pieces. */
  function Norm(ps: seq<Bytes>): (r: seq<Bytes>)
    ensures r != []
  {
    if ps == [] then [[]] else ps
  }

  /** What is left after the first piece. */
  function Drop(ps: seq<Bytes>): (r: seq<Bytes>)
    requires ps != []
    ensures r != []
  {
    Norm(ps[1..])
  }

  /** The pieces behind the separator at `pos`. */
  function Behind(s: Bytes, pos: int): seq<Bytes> {
    if 0 < pos < |s| then Split(s[pos + 1..]) else []
  }

  /** The pieces of a whole line, as the tokenizer sees them: it never gets past a separator at the
      start. */
  function First(s: Bytes): (ps: seq<Bytes>)
    ensures ps != [] && ps[0] == Split(s)[0]
  {
    if s != [] && s[0] == SEPARATOR then [[]] else Split(s)
  }

  lemma StartsPlain(s: Bytes, n: nat)
    requires 0 < n <= |s| && Plain(s[0..n])
    ensures First(s) == Split(s)
  {
    assert s[0] == s[0..n][0];
  }

  lemma PumpSplits(s: Bytes, pos: nat, start: nat, i: int, next: Bytes)
    requires pos < |s| && start == if pos == 0 then 0 else pos + 1
    requires i == -1 ==> Plain(s[start..|s|])
    requires i != -1 ==> start <= i < |s| && s[i] == SEPARATOR && Plain(s[start..i])
    requires next == s[start..if i == -1 then |s| else i]
    ensures [next] + Behind(s, i) == if pos == 0 then First(s) else Behind(s, pos)
    ensures i == 0 ==> next == [] && s[0] == SEPARATOR
  {
    if i == 0 {
      assert [next] + [] == First(s);
    } else {
      SplitAt(s, start, i);
      if pos == 0 {
        StartsPlain(s, if i == -1 then |s| else i);
      }
    }
  }

  class CommandTokenizer {
    const input: Bytes
    var next: Bytes
    var posNextSeparator: int

    ghost predicate Valid()
      reads this
    {
      && -1 <= posNextSeparator <= |input|
      && (posNextSeparator == 0 || posNextSeparator == |input| ==> next == [])
      && (posNextSeparator == 0 && input != [] ==> input[0] == SEPARATOR)
    }

    /** The pieces that are still to come, starting with the next one. */
    ghost function Pieces(): (ps: seq<Bytes>)
      reads this
      ensures ps != []
    {
      [next] + Behind(input, posNextSeparator)
    }

    constructor (line: Bytes)
      ensures Valid() && input == line
      ensures Pieces() == First(line)
    {
      input := line;
      next := [];
      posNextSeparator := 0;
      new;
      Pump();
    }

    method Pump()
      requires -1 <= posNextSeparator <= |input|
      modifies this
      ensures Valid()
      ensures old(posNextSeparator) != 0 ==> Pieces() == Norm(Behind(input, old(posNextSeparator)))
      ensures old(posNextSeparator) == 0 ==> Pieces() == First(input)
    {
      if posNextSeparator == -1 || posNextSeparator == |input| {
        next := [];
        return;
      }
      var start := if posNextSeparator != 0 then posNextSeparator + 1 else 0;
      posNextSeparator := Find(input, start);
      next := input[start..if posNextSeparator == -1 then |input| else posNextSeparator];
      PumpSplits(input, old(posNextSeparator), start, posNextSeparator, next);
    }

    method Next() returns (token: Bytes)
      requires Valid()
      modifies this
      ensures Valid() && token == old(Pieces())[0] && Pieces() == Drop(old(Pieces()))
    {
      token := next;
      assert Pieces()[1..] == Behind(input, posNextSeparator);
      Pump();
    }

    predicate HasNext()
      reads this
      ensures HasNext() <==> Pieces()[0] != []
    {
      next != []
    }
  }

  lemma LeadingDrop(ps: seq<Bytes>)
    requires ps != [] && ps[0] != []
    ensures Leading(ps) == [ps[0]] + Leading(Drop(ps))
  {
  }

  /** The tokens drawn while there is a next one are the leading non-empty pieces. */
  method DrawAll(line: Bytes) returns (tokens: seq<Bytes>)
    ensures tokens == Leading(Split(line))
  {
    var tokenizer := new CommandTokenizer(line);
    tokens := [];
    while tokenizer.HasNext()
      invariant tokenizer.Valid() && tokens + Leading(tokenizer.Pieces()) == Leading(Split(line))
      decreases |Leading(tokenizer.Pieces())|
    {
      LeadingDrop(tokenizer.Pieces());
      var token := tokenizer.Next();
      tokens := tokens + [token];
    }
  }

  // ----- parseInputLine -----

  datatype TestCommand =
    TestCommand(pathOrURL: Bytes, shouldDumpPixels: bool, expectedPixelHash: Bytes, timeout: int)

  /** The program stops with an error message, or an assertion about the tokenizer fails. */
  datatype Outcome = Parsed(command: TestCommand) | Died | AssertionFailed

  function Atoi(s: Bytes): int {
    if ScanInt(s).None? then 0 else ScanInt(s).value.0
  }

  predicate IsPixelFlag(s: Bytes) {
    s == P || s == PIXEL_TEST
  }

  /** What the loop makes of the pieces to come; `asserts` says whether assertions are compiled in. */
  function ParseOptions(c: TestCommand, ps: seq<Bytes>, asserts: bool): Outcome
    requires ps != []
    decreases |ps| + if ps[0] == [] then 0 else 1
  {
    var rest := Drop(ps);
    if ps[0] == [] then Parsed(c)
    else if ps[0] == TIMEOUT then
      if asserts && rest[0] == [] then AssertionFailed
      else ParseOptions(c.(timeout := Atoi(rest[0])), Drop(rest), asserts)
    else if IsPixelFlag(ps[0]) then
      if rest[0] == [] then ParseOptions(c.(shouldDumpPixels := true), rest, asserts)
      else ParseOptions(c.(shouldDumpPixels := true, expectedPixelHash := rest[0]), Drop(rest), asserts)
    else Died
  }

  function Default(path: Bytes): TestCommand {
    TestCommand(path, false, [], 30000)
  }

  function ParsePieces(ps: seq<Bytes>, asserts: bool): Outcome
    requires ps != []
  {
    if ps[0] == [] then Died else ParseOptions(Default(ps[0]), Drop(ps), asserts)
  }

  method ParseInputLine(line: Bytes, asserts: bool) returns (o: Outcome)
    ensures o == ParsePieces(Split(line), asserts)
  {
    var tokenizer := new CommandTokenizer(line);
    if !tokenizer.HasNext() {
      return Died;
    }
    var arg := tokenizer.Next();
    var result := Default(arg);
    while tokenizer.HasNext()
      invariant tokenizer.Valid()
      invariant ParseOptions(result, tokenizer.Pieces(), asserts) == ParsePieces(Split(line), asserts)
      decreases |tokenizer.Pieces()| + if tokenizer.HasNext() then 1 else 0
    {
      arg := tokenizer.Next();
      if arg == TIMEOUT {
        if asserts && !tokenizer.HasNext() {
          return AssertionFailed;
        }
        var timeoutToken := tokenizer.Next();
        result := result.(timeout := Atoi(timeoutToken));
      } else if IsPixelFlag(arg) {
        result := result.(shouldDumpPixels := true);
        if tokenizer.HasNext() {
          var hash := tokenizer.Next();
          result := result.(expectedPixelHash := hash);
        }
      } else {
        return Died;
      }
    }
    o := Parsed(result);
  }

  // ----- What is accepted -----

  datatype Arg = Timeout(text: Bytes) | Pixels(flag: Bytes, hash: Bytes)

  /** How the arguments end: with a complete one, with a pixel flag that has no hash, or with
      "--timeout" as the last piece of the line. */
  datatype End = Done | BareFlag(flag: Bytes) | BareTimeout

  predicate ValidArg(a: Arg, asserts: bool) {
    match a
    case Timeout(text) => asserts ==> text != []
    case Pixels(flag, hash) => IsPixelFlag(flag) && hash != []
  }

  predicate ValidArgs(args: seq<Arg>, asserts: bool) {
    forall i :: 0 <= i < |args| ==> ValidArg(args[i], asserts)
  }

  /** Pieces behind the first empty one are never looked at. */
  predicate ValidEnd(end: End, tail: seq<Bytes>, asserts: bool) {
    match end
    case Done => tail == [] || tail[0] == []
    case BareFlag(flag) => IsPixelFlag(flag) && (tail == [] || tail[0] == [])
    case BareTimeout => !asserts && tail == []
  }

  function ArgWords(a: Arg): (ws: seq<Bytes>)
    ensures |ws| == 2
  {
    match a
    case Timeout(text) => [TIMEOUT, text]
    case Pixels(flag, hash) => [flag, hash]
  }

  function Words(args: seq<Arg>, end: End, tail: seq<Bytes>): seq<Bytes> {
    if args == [] then
      match end
      case Done => tail
      case BareFlag(flag) => [flag] + tail
      case BareTimeout => [TIMEOUT] + tail
    else
      ArgWords(args[0]) + Words(args[1..], end, tail)
  }

  /** The last timeout given, read as a number. */
  function LastTimeout(args: seq<Arg>, default: int): int {
    if args == [] then default
    else
      var last := args[|args| - 1];
      if last.Timeout? then Atoi(last.text) else LastTimeout(args[..|args| - 1], default)
  }

  /** The last hash given. */
  function LastHash(args: seq<Arg>, default: Bytes): Bytes {
    if args == [] then default
    else
      var last := args[|args| - 1];
      if last.Pixels? then last.hash else LastHash(args[..|args| - 1], default)
  }

  /** What the arguments mean: pixels are dumped when some argument asks for it, and the last
      timeout and the last hash count. */
  function Settle(c: TestCommand, args: seq<Arg>, end: End): TestCommand {
    TestCommand(
      c.pathOrURL,
      c.shouldDumpPixels || end.BareFlag? || exists i :: 0 <= i < |args| && args[i].Pixels?,
      LastHash(args, c.expectedPixelHash),
      if end.BareTimeout? then 0 else LastTimeout(args, c.timeout))
  }

  lemma {:induction false} LastOfMore(a: Arg, more: seq<Arg>, timeout: int, hash: Bytes)
    ensures LastTimeout([a] + more, timeout) == LastTimeout(more, if a.Timeout? then Atoi(a.text) else timeout)
    ensures LastHash([a] + more, hash) == LastHash(more, if a.Pixels? then a.hash else hash)
    decreases |more|
  {
    var args := [a] + more;
    if more == [] {
      assert args[..0] == [];
    } else {
      var n := |more| - 1;
      assert args[..n + 1] == [a] + more[..n];
      LastOfMore(a, more[..n], timeout, hash);
    }
  }

  /** The command after one argument. */
  function Use(c: TestCommand, a: Arg): TestCommand {
    match a
    case Timeout(text) => c.(timeout := Atoi(text))
    case Pixels(_, hash) => c.(shouldDumpPixels := true, expectedPixelHash := hash)
  }

  lemma SettleCons(c: TestCommand, a: Arg, more: seq<Arg>, end: End)
    ensures Settle(c, [a] + more, end) == Settle(Use(c, a), more, end)
  {
    LastOfMore(a, more, c.timeout, c.expectedPixelHash);
    var args := [a] + more;
    assert args[0] == a && forall i :: 0 <= i < |more| ==> args[i + 1] == more[i];
  }

  lemma OptionStep(c: TestCommand, a: Arg, more: seq<Bytes>, asserts: bool)
    requires ValidArg(a, asserts)
    ensures ParseOptions(c, ArgWords(a) + more, asserts) == ParseOptions(Use(c, a), Norm(more), asserts)
  {
    var ps := ArgWords(a) + more;
    assert ps[1..][1..] == more;
  }

  lemma EndStep(c: TestCommand, end: End, tail: seq<Bytes>, asserts: bool)
    requires ValidEnd(end, tail, asserts)
    ensures ParseOptions(c, Norm(Words([], end, tail)), asserts) == Parsed(Settle(c, [], end))
  {
    if end.BareFlag? {
      assert ([end.flag] + tail)[1..] == tail;
    }
  }

  /** Arguments are taken for what they mean. */
  lemma {:induction false} OptionsParse(c: TestCommand, args: seq<Arg>, end: End, tail: seq<Bytes>, asserts: bool)
    requires ValidArgs(args, asserts) && ValidEnd(end, tail, asserts)
    ensures ParseOptions(c, Norm(Words(args, end, tail)), asserts) == Parsed(Settle(c, args, end))
    decreases args
  {
    if args == [] {
      EndStep(c, end, tail, asserts);
    } else {
      assert ValidArg(args[0], asserts) && args == [args[0]] + args[1..];
      OptionStep(c, args[0], Words(args[1..], end, tail), asserts);
      OptionsParse(Use(c, args[0]), args[1..], end, tail, asserts);
      SettleCons(c, args[0], args[1..], end);
    }
  }

  /** Nothing else is accepted. */
  lemma {:induction false} OptionsParseOnly(c: TestCommand, ps: seq<Bytes>, asserts: bool)
    returns (args: seq<Arg>, end: End, tail: seq<Bytes>)
    requires ps != [] && ParseOptions(c, ps, asserts).Parsed?
    ensures ValidArgs(args, asserts) && ValidEnd(end, tail, asserts) && Words(args, end, tail) == ps
    decreases |ps|
  {
    if ps[0] == [] {
      args, end, tail := [], Done, ps;
    } else if |ps| == 1 {
      args, end, tail := [], if ps[0] == TIMEOUT then BareTimeout else BareFlag(ps[0]), [];
    } else if ps[0] != TIMEOUT && ps[1] == [] {
      args, end, tail := [], BareFlag(ps[0]), ps[1..];
      assert ps == [ps[0]] + ps[1..];
    } else {
      var a := if ps[0] == TIMEOUT then Timeout(ps[1]) else Pixels(ps[0], ps[1]);
      var more: seq<Arg>;
      assert ps[1..][1..] == ps[2..];
      if |ps| == 2 {
        more, end, tail := [], Done, [];
      } else {
        more, end, tail := OptionsParseOnly(Use(c, a), ps[2..], asserts);
      }
      args := [a] + more;
      assert args[1..] == more && ps == [ps[0], ps[1]] + ps[2..];
    }
  }

  /** A line of a path, arguments and an end is parsed to what they mean. */
  lemma LineParses(path: Bytes, args: seq<Arg>, end: End, tail: seq<Bytes>, asserts: bool)
    requires ValidArgs(args, asserts) && ValidEnd(end, tail, asserts) && path != []
    requires Plain(path) && AllPlain(Words(args, end, tail))
    ensures ParsePieces(Split(Join([path] + Words(args, end, tail))), asserts)
            == Parsed(Settle(Default(path), args, end))
  {
    var words := Words(args, end, tail);
    var ps := [path] + words;
    SplitJoin(ps);
    assert ps[1..] == words;
    OptionsParse(Default(path), args, end, tail, asserts);
  }

  /** Conversely, a line that is parsed is such a line. */
  lemma LineParsesOnly(line: Bytes, asserts: bool)
    returns (path: Bytes, args: seq<Arg>, end: End, tail: seq<Bytes>)
    requires ParsePieces(Split(line), asserts).Parsed?
    ensures path != [] && ValidArgs(args, asserts) && ValidEnd(end, tail, asserts)
    ensures line == Join([path] + Words(args, end, tail))
    ensures ParsePieces(Split(line), asserts) == Parsed(Settle(Default(path), args, end))
  {
    var ps := Split(line);
    JoinSplit(line);
    path := ps[0];
    assert ps == [path] + ps[1..];
    if |ps| == 1 {
      args, end, tail := [], Done, [];
    } else {
      args, end, tail := OptionsParseOnly(Default(path), ps[1..], asserts);
    }
    OptionsParse(Default(path), args, end, tail, asserts);
  }

  // ----- Printing -----

  /** The timeout, then the pixel flag with the hash if there is one. */
  function ArgsOf(c: TestCommand): seq<Arg> {
    [Timeout(PrintInt(c.timeout))] +
    if c.shouldDumpPixels && c.expectedPixelHash != [] then [Pixels(P, c.expectedPixelHash)] else []
  }

  function EndOf(c: TestCommand): End {
    if c.shouldDumpPixels && c.expectedPixelHash == [] then BareFlag(P) else Done
  }

  function Print(c: TestCommand): Bytes {
    Join([c.pathOrURL] + Words(ArgsOf(c), EndOf(c), []))
  }

  lemma AtoiPrintInt(n: int)
    ensures Atoi(PrintInt(n)) == n && PrintInt(n) != [] && Plain(PrintInt(n))
  {
    PrintIntPlain(n);
    ScanPrintInt(n, []);
    assert PrintInt(n) + [] == PrintInt(n);
  }

  lemma SettleArgsOf(c: TestCommand)
    requires !c.shouldDumpPixels ==> c.expectedPixelHash == []
    ensures Settle(Default(c.pathOrURL), ArgsOf(c), EndOf(c)) == c
  {
    AtoiPrintInt(c.timeout);
    var a, d := Timeout(PrintInt(c.timeout)), Default(c.pathOrURL);
    SettleCons(d, a, ArgsOf(c)[1..], EndOf(c));
    if EndOf(c) == Done && c.shouldDumpPixels {
      SettleCons(Use(d, a), Pixels(P, c.expectedPixelHash), [], Done);
      assert ArgsOf(c)[1..] == [Pixels(P, c.expectedPixelHash)] + [];
    }
    assert ArgsOf(c) == [a] + ArgsOf(c)[1..];
  }

  lemma WordsOf(c: TestCommand)
    requires Plain(c.expectedPixelHash)
    ensures AllPlain(Words(ArgsOf(c), EndOf(c), []))
  {
    AtoiPrintInt(c.timeout);
    assert Plain(TIMEOUT) && Plain(P);
    var more := ArgsOf(c)[1..];
    if more != [] {
      assert more[1..] == [];
      assert Words(more, EndOf(c), []) == [P, c.expectedPixelHash];
    }
  }

  /** Printing a command and parsing it gives the command back. */
  lemma CommandRoundTrip(c: TestCommand, asserts: bool)
    requires c.pathOrURL != [] && Plain(c.pathOrURL) && Plain(c.expectedPixelHash)
    requires !c.shouldDumpPixels ==> c.expectedPixelHash == []
    ensures ParsePieces(Split(Print(c)), asserts) == Parsed(c)
  {
    AtoiPrintInt(c.timeout);
    WordsOf(c);
    LineParses(c.pathOrURL, ArgsOf(c), EndOf(c), [], asserts);
    SettleArgsOf(c);
  }

  lemma NumberIsNoOption(n: int)
    ensures PrintInt(n) != TIMEOUT && !IsPixelFlag(PrintInt(n))
  {
    PrintIntPlain(n);
    assert P[1] == 112 && TIMEOUT[2] == 116 && PIXEL_TEST[2] == 112;
  }

  /** The timeout has to come first: behind a pixel flag, "--timeout" is taken for the hash, and the
      number is not an argument. */
  lemma TimeoutBehindFlagDies(path: Bytes, flag: Bytes, n: int, asserts: bool)
    requires path != [] && Plain(path) && IsPixelFlag(flag)
    ensures ParsePieces(Split(Join([path, flag, TIMEOUT, PrintInt(n)])), asserts) == Died
  {
    AtoiPrintInt(n);
    assert Plain(TIMEOUT) && Plain(P) && Plain(PIXEL_TEST);
    var ps := [path, flag, TIMEOUT, PrintInt(n)];
    SplitJoin(ps);
    assert ps[1..] == [flag, TIMEOUT] + [PrintInt(n)];
    OptionStep(Default(path), Pixels(flag, TIMEOUT), [PrintInt(n)], asserts);
    NumberIsNoOption(n);
  }

  // ----- The options by name -----

  lemma OptionNames()
    ensures SEPARATOR == '\'' as int && P == Ascii("-p")
    ensures PIXEL_TEST == Ascii("--pixel-test") && TIMEOUT == Ascii("--timeout")
    ensures Plain(P) && Plain(PIXEL_TEST) && Plain(TIMEOUT)
  {
  }

  /** A flag between separators, as it stands in a line. */
  lemma QuotedName(path: Bytes, name: Bytes, quoted: Bytes, rest: Bytes)
    requires quoted == [SEPARATOR] + name + [SEPARATOR]
    ensures path + quoted + rest == Join([path, name, rest])
  {
    assert [path, name, rest][1..] == [name, rest] && [name, rest][1..] == [rest];
    assert Join([name, rest]) == name + ([SEPARATOR] + Join([rest])) == name + ([SEPARATOR] + rest);
    assert path + quoted + rest == path + ([SEPARATOR] + (name + ([SEPARATOR] + rest)));
  }

  lemma QuotedNames()
    ensures Ascii("'-p'") == [SEPARATOR] + P + [SEPARATOR]
    ensures Ascii("'--pixel-test'") == [SEPARATOR] + PIXEL_TEST + [SEPARATOR]
    ensures Ascii("'--timeout'") == [SEPARATOR] + TIMEOUT + [SEPARATOR]
  {
  }

  /** A line that is a path and nothing else. */
  lemma PathAlone(path: Bytes, asserts: bool)
    requires path != [] && '\'' as int !in path
    ensures ParsePieces(Split(path), asserts) == Parsed(TestCommand(path, false, [], 30000))
  {
    SplitPlain(path);
  }

  lemma OneArgument(path: Bytes, a: Arg, line: Bytes, asserts: bool)
    requires path != [] && Plain(path) && ValidArg(a, asserts) && AllPlain(ArgWords(a))
    requires line == Join([path] + ArgWords(a))
    ensures ParsePieces(Split(line), asserts) == Parsed(Use(Default(path), a))
  {
    assert [a][1..] == [];
    assert Words([a], Done, []) == ArgWords(a) + [] == ArgWords(a);
    LineParses(path, [a], Done, [], asserts);
    SettleCons(Default(path), a, [], Done);
    assert [a] + [] == [a];
  }

  /** Both names of the pixel flag give the same command. */
  lemma PixelFlags(path: Bytes, hash: Bytes, asserts: bool)
    requires path != [] && hash != [] && '\'' as int !in path && '\'' as int !in hash
    ensures var command := Parsed(TestCommand(path, true, hash, 30000));
            && ParsePieces(Split(path + Ascii("'-p'") + hash), asserts) == command
            && ParsePieces(Split(path + Ascii("'--pixel-test'") + hash), asserts) == command
  {
    OptionNames();
    QuotedNames();
    QuotedName(path, P, Ascii("'-p'"), hash);
    QuotedName(path, PIXEL_TEST, Ascii("'--pixel-test'"), hash);
    assert [path] + [P, hash] == [path, P, hash] && [path] + [PIXEL_TEST, hash] == [path, PIXEL_TEST, hash];
    OneArgument(path, Pixels(P, hash), path + Ascii("'-p'") + hash, asserts);
    OneArgument(path, Pixels(PIXEL_TEST, hash), path + Ascii("'--pixel-test'") + hash, asserts);
  }

  lemma TimeoutOption(path: Bytes, n: int, asserts: bool)
    requires path != [] && '\'' as int !in path
    ensures ParsePieces(Split(path + Ascii("'--timeout'") + PrintInt(n)), asserts)
            == Parsed(TestCommand(path, false, [], n))
  {
    OptionNames();
    QuotedNames();
    AtoiPrintInt(n);
    QuotedName(path, TIMEOUT, Ascii("'--timeout'"), PrintInt(n));
    assert [path] + [TIMEOUT, PrintInt(n)] == [path, TIMEOUT, PrintInt(n)];
    OneArgument(path, Timeout(PrintInt(n)), path + Ascii("'--timeout'") + PrintInt(n), asserts);
  }
}
