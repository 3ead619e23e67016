/** The Windows command line: how the launcher writes it and how a C program takes it apart. */
module CommandLine {
  predicate IsBlank(c: char) {
    c == ' ' || c == '\t'
  }

  function Backslashes(n: nat): (r: string)
    ensures |r| == n && forall c | c in r :: c == '\\'
  {
    seq(n, _ => '\\')
  }

  function SkipBlanks(line: string): string {
    if line != "" && IsBlank(line[0]) then SkipBlanks(line[1..]) else line
  }

  /** Where an argument can end: at the end of the line or before a blank. */
  predicate Ends(line: string) {
    line == "" || IsBlank(line[0])
  }

  // ---- Writing ----

  predicate Plain(arg: string) {
    arg != "" && forall c | c in arg :: !IsBlank(c) && c != '"'
  }

  /** The inside of a quoted argument, after `pending` backslashes that are not written yet. */
  function Escaped(arg: string, pending: nat): string {
    if arg == "" then Backslashes(2 * pending)
    else if arg[0] == '\\' then Escaped(arg[1..], pending + 1)
    else Backslashes(if arg[0] == '"' then 2 * pending + 1 else pending) + [arg[0]] + Escaped(arg[1..], 0)
  }

  function Quoted(arg: string): string {
    if Plain(arg) then arg else "\"" + Escaped(arg, 0) + "\""
  }

  method Quote(arg: string) returns (r: string)
    ensures r == Quoted(arg)
  {
    var plain := arg != "";
    for i := 0 to |arg|
      invariant plain <==> arg != "" && forall c | c in arg[..i] :: !IsBlank(c) && c != '"'
    {
      assert arg[..i + 1] == arg[..i] + [arg[i]];
      plain := plain && !IsBlank(arg[i]) && arg[i] != '"';
    }
    assert arg[..|arg|] == arg;
    if plain {
      return arg;
    }
    r := "\"";
    var backslashes := 0;
    for i := 0 to |arg|
      invariant "\"" + Escaped(arg, 0) == r + Escaped(arg[i..], backslashes)
    {
      assert arg[i..][1..] == arg[i + 1..];
      if arg[i] == '\\' {
        backslashes := backslashes + 1;
      } else {
        var n := if arg[i] == '"' then backslashes * 2 + 1 else backslashes;
        assert r + (Backslashes(n) + [arg[i]] + Escaped(arg[i + 1..], 0))
            == r + Backslashes(n) + [arg[i]] + Escaped(arg[i + 1..], 0);
        r := r + Backslashes(n) + [arg[i]];
        backslashes := 0;
      }
    }
    r := r + Backslashes(backslashes * 2) + "\"";
  }

  function Joined(args: seq<string>): string {
    if args == [] then "" else if |args| == 1 then Quoted(args[0]) else Quoted(args[0]) + " " + Joined(args[1..])
  }

  // ---- Reading ----

  datatype Taken = Taken(arg: string, rest: string)

  /**
   Microsoft's rules for one argument: a quote starts or ends a quoted part, 2n backslashes before
   a quote are n backslashes, 2n + 1 are n backslashes and the quote itself, a doubled quote in a
   quoted part is a quote, and every other backslash is itself.
   */
  function Take(line: string, quoted: bool, pending: nat): Taken
    decreases |line|
  {
    if line == "" || (IsBlank(line[0]) && !quoted) then Taken(Backslashes(pending), line)
    else if line[0] == '\\' then Take(line[1..], quoted, pending + 1)
    else if line[0] != '"' then Before(Backslashes(pending) + [line[0]], Take(line[1..], quoted, 0))
    else if pending % 2 == 1 then Before(Backslashes(pending / 2) + "\"", Take(line[1..], quoted, 0))
    else if quoted && |line| > 1 && line[1] == '"' then Before(Backslashes(pending / 2) + "\"",
                                                               Take(line[2..], quoted, 0))
    else Before(Backslashes(pending / 2), Take(line[1..], !quoted, 0))
  }

  function Before(text: string, taken: Taken): Taken {
    Taken(text + taken.arg, taken.rest)
  }

  lemma {:induction false} TakeShortens(line: string, quoted: bool, pending: nat)
    ensures |Take(line, quoted, pending).rest| <= |line|
    ensures line != "" && !(IsBlank(line[0]) && !quoted) ==> |Take(line, quoted, pending).rest| < |line|
    decreases |line|
  {
    if line == "" || (IsBlank(line[0]) && !quoted) {
    } else if line[0] == '\\' {
      TakeShortens(line[1..], quoted, pending + 1);
    } else if line[0] != '"' || pending % 2 == 1 {
      TakeShortens(line[1..], quoted, 0);
    } else if quoted && |line| > 1 && line[1] == '"' {
      TakeShortens(line[2..], quoted, 0);
    } else {
      TakeShortens(line[1..], !quoted, 0);
    }
  }

  function Parse(line: string): seq<string>
    decreases |line|
  {
    var text := SkipBlanks(line);
    SkipShortens(line);
    if text == "" then []
    else
      TakeShortens(text, false, 0);
      var taken := Take(text, false, 0);
      [taken.arg] + Parse(taken.rest)
  }

  lemma {:induction false} SkipShortens(line: string)
    ensures |SkipBlanks(line)| <= |line|
    ensures SkipBlanks(line) != "" ==> !IsBlank(SkipBlanks(line)[0])
    decreases |line|
  {
    if line != "" && IsBlank(line[0]) {
      SkipShortens(line[1..]);
    }
  }

  /** The program's own name is read by simpler rules: quotes only group, backslashes are themselves. */
  function TakeProgram(line: string, quoted: bool): Taken
    decreases |line|
  {
    if line == "" || (IsBlank(line[0]) && !quoted) then Taken("", line)
    else if line[0] == '"' then TakeProgram(line[1..], !quoted)
    else Before([line[0]], TakeProgram(line[1..], quoted))
  }

  function ParseCommandLine(line: string): seq<string> {
    var program := TakeProgram(line, false);
    [program.arg] + Parse(program.rest)
  }

  // ---- Quoted arguments read back ----

  lemma TakeBackslash(line: string, quoted: bool, pending: nat)
    ensures Take("\\" + line, quoted, pending) == Take(line, quoted, pending + 1)
  {
    assert ("\\" + line)[1..] == line;
  }

  lemma {:induction false} TakeBackslashes(n: nat, line: string, quoted: bool, pending: nat)
    ensures Take(Backslashes(n) + line, quoted, pending) == Take(line, quoted, pending + n)
    decreases n
  {
    if n == 0 {
      assert Backslashes(0) + line == line;
    } else {
      assert Backslashes(n) + line == "\\" + (Backslashes(n - 1) + line);
      TakeBackslash(Backslashes(n - 1) + line, quoted, pending);
      TakeBackslashes(n - 1, line, quoted, pending + 1);
    }
  }

  lemma TakeOrdinary(c: char, line: string, quoted: bool, pending: nat)
    requires c != '\\' && c != '"' && (quoted || !IsBlank(c))
    ensures Take([c] + line, quoted, pending) == Before(Backslashes(pending) + [c], Take(line, quoted, 0))
  {
    assert ([c] + line)[1..] == line;
  }

  lemma TakeLiteralQuote(line: string, quoted: bool, n: nat)
    ensures Take("\"" + line, quoted, 2 * n + 1) == Before(Backslashes(n) + "\"", Take(line, quoted, 0))
  {
    OddHalf(n);
    assert ("\"" + line)[1..] == line;
  }

  lemma OddHalf(n: nat)
    ensures (2 * n + 1) % 2 == 1 && (2 * n + 1) / 2 == n
  {
  }

  lemma TakeClosingQuote(line: string, n: nat)
    requires Ends(line)
    ensures Take("\"" + line, true, 2 * n) == Taken(Backslashes(n), line)
  {
    assert ("\"" + line)[1..] == line;
    assert Backslashes(n) + Backslashes(0) == Backslashes(n);
  }

  /** One character of the quoted part that is not a backslash, with the backslashes before it. */
  lemma EscapeReadsBack(c: char, pending: nat, more: string, taken: Taken)
    requires c != '\\' && taken == Take(more, true, 0)
    ensures var n := if c == '"' then 2 * pending + 1 else pending;
      Take(Backslashes(n) + ([c] + more), true, 0) == Before(Backslashes(pending) + [c], taken)
  {
    hide Take;
    var n := if c == '"' then 2 * pending + 1 else pending;
    TakeBackslashes(n, [c] + more, true, 0);
    if c == '"' {
      TakeLiteralQuote(more, true, pending);
    } else {
      TakeOrdinary(c, more, true, pending);
    }
  }

  lemma ClosingReadsBack(pending: nat, rest: string)
    requires Ends(rest)
    ensures Take(Backslashes(2 * pending) + "\"" + rest, true, 0) == Taken(Backslashes(pending), rest)
  {
    hide Take;
    assert Backslashes(2 * pending) + "\"" + rest == Backslashes(2 * pending) + ("\"" + rest);
    TakeBackslashes(2 * pending, "\"" + rest, true, 0);
    TakeClosingQuote(rest, pending);
  }

  lemma {:induction false} EscapedReadsBack(arg: string, pending: nat, rest: string)
    requires Ends(rest)
    ensures Take(Escaped(arg, pending) + "\"" + rest, true, 0) == Taken(Backslashes(pending) + arg, rest)
    decreases |arg|
  {
    hide Take, Ends;
    if arg == "" {
      ClosingReadsBack(pending, rest);
      assert Backslashes(pending) + arg == Backslashes(pending);
    } else if arg[0] == '\\' {
      EscapedReadsBack(arg[1..], pending + 1, rest);
      assert Backslashes(pending + 1) + arg[1..] == Backslashes(pending) + arg;
    } else {
      var n := if arg[0] == '"' then 2 * pending + 1 else pending;
      var more := Escaped(arg[1..], 0) + "\"" + rest;
      assert Escaped(arg, pending) + "\"" + rest == Backslashes(n) + ([arg[0]] + more);
      EscapedReadsBack(arg[1..], 0, rest);
      EscapeReadsBack(arg[0], pending, more, Taken(Backslashes(0) + arg[1..], rest));
      assert Backslashes(pending) + [arg[0]] + (Backslashes(0) + arg[1..]) == Backslashes(pending) + arg;
    }
  }

  lemma {:induction false} PlainReadsBack(arg: string, pending: nat, rest: string)
    requires Ends(rest) && forall c | c in arg :: !IsBlank(c) && c != '"'
    ensures Take(arg + rest, false, pending) == Taken(Backslashes(pending) + arg, rest)
    decreases |arg|
  {
    if arg == "" {
      assert arg + rest == rest;
      assert Backslashes(pending) + arg == Backslashes(pending);
    } else {
      assert arg + rest == [arg[0]] + (arg[1..] + rest);
      assert forall c | c in arg[1..] :: c in arg;
      if arg[0] == '\\' {
        TakeBackslash(arg[1..] + rest, false, pending);
        PlainReadsBack(arg[1..], pending + 1, rest);
        assert Backslashes(pending + 1) + arg[1..] == Backslashes(pending) + arg;
      } else {
        assert arg[0] in arg;
        TakeOrdinary(arg[0], arg[1..] + rest, false, pending);
        PlainReadsBack(arg[1..], 0, rest);
        assert Backslashes(pending) + [arg[0]] + (Backslashes(0) + arg[1..]) == Backslashes(pending) + arg;
      }
    }
  }

  lemma TakeOpeningQuote(more: string)
    ensures Take("\"" + more, false, 0) == Take(more, true, 0)
  {
    assert ("\"" + more)[1..] == more;
    var inner := Take(more, true, 0);
    assert Backslashes(0) + inner.arg == inner.arg;
  }

  /** A quoted argument is read back whole, and no more than it. */
  lemma QuotedReadsBack(arg: string, rest: string)
    requires Ends(rest)
    ensures Take(Quoted(arg) + rest, false, 0) == Taken(arg, rest)
  {
    hide Take;
    assert Backslashes(0) + arg == arg;
    if Plain(arg) {
      PlainReadsBack(arg, 0, rest);
    } else {
      var more := Escaped(arg, 0) + "\"" + rest;
      assert Quoted(arg) + rest == "\"" + more;
      TakeOpeningQuote(more);
      EscapedReadsBack(arg, 0, rest);
    }
  }

  lemma QuotedStartsText(arg: string, rest: string)
    ensures Quoted(arg) + rest != "" && !IsBlank((Quoted(arg) + rest)[0])
  {
    if Plain(arg) {
      assert arg[0] in arg;
    }
  }

  lemma ParseOne(arg: string, rest: string)
    requires Ends(rest)
    ensures Parse(Quoted(arg) + rest) == [arg] + Parse(rest)
    ensures Parse(" " + (Quoted(arg) + rest)) == [arg] + Parse(rest)
  {
    QuotedReadsBack(arg, rest);
    QuotedStartsText(arg, rest);
    hide Take, Quoted;
    var line := Quoted(arg) + rest;
    assert SkipBlanks(line) == line;
    assert (" " + line)[1..] == line;
    assert SkipBlanks(" " + line) == line;
  }

  lemma ParseAfterBlank(line: string)
    ensures Parse(" " + line) == Parse(line)
  {
    assert (" " + line)[1..] == line;
    assert SkipBlanks(" " + line) == SkipBlanks(line);
  }

  lemma JoinedSplits(args: seq<string>, rest: string)
    requires |args| > 1
    ensures Joined(args) + rest == Quoted(args[0]) + (" " + (Joined(args[1..]) + rest))
  {
    hide Quoted;
    Regroup(Quoted(args[0]), " ", Joined(args[1..]), rest);
  }

  lemma Regroup(a: string, b: string, c: string, d: string)
    ensures a + b + c + d == a + (b + (c + d))
  {
    assert a + b + c + d == a + b + (c + d);
  }

  /** Parsing what was written gives back every argument list, and whatever follows it. */
  lemma {:induction false} ArgumentsReadBack(args: seq<string>, rest: string)
    requires Ends(rest)
    ensures Parse(Joined(args) + rest) == args + Parse(rest)
    decreases |args|
  {
    hide Parse, Quoted;
    if args == [] {
      assert Joined(args) + rest == rest;
    } else if |args| == 1 {
      ParseOne(args[0], rest);
      assert args == [args[0]];
    } else {
      var more := Joined(args[1..]) + rest;
      JoinedSplits(args, rest);
      ParseOne(args[0], " " + more);
      ParseAfterBlank(more);
      ArgumentsReadBack(args[1..], rest);
      assert [args[0]] + (args[1..] + Parse(rest)) == args + Parse(rest);
    }
  }

  // ---- The launcher's own command line ----

  /** What OwnArguments skips over: the program's name, ended as TakeProgram ends it. */
  function AfterProgram(line: string, quoted: bool): string
    decreases |line|
  {
    if line == "" || (IsBlank(line[0]) && !quoted) then line
    else AfterProgram(line[1..], if line[0] == '"' then !quoted else quoted)
  }

  method OwnArguments(line: string) returns (r: string)
    ensures r == SkipBlanks(AfterProgram(line, false))
  {
    var at := 0;
    var quoted := false;
    while at < |line| && (quoted || !IsBlank(line[at]))
      invariant 0 <= at <= |line|
      invariant AfterProgram(line[at..], quoted) == AfterProgram(line, false)
    {
      assert line[at..][1..] == line[at + 1..];
      if line[at] == '"' {
        quoted := !quoted;
      }
      at := at + 1;
    }
    while at < |line| && IsBlank(line[at])
      invariant 0 <= at <= |line|
      invariant SkipBlanks(line[at..]) == SkipBlanks(AfterProgram(line, false))
    {
      assert line[at..][1..] == line[at + 1..];
      at := at + 1;
    }
    r := line[at..];
  }

  lemma {:induction false} AfterProgramIsRest(line: string, quoted: bool)
    ensures AfterProgram(line, quoted) == TakeProgram(line, quoted).rest
    decreases |line|
  {
    if line != "" && !(IsBlank(line[0]) && !quoted) {
      AfterProgramIsRest(line[1..], if line[0] == '"' then !quoted else quoted);
    }
  }

  lemma {:induction false} SkipTwice(line: string)
    ensures SkipBlanks(SkipBlanks(line)) == SkipBlanks(line)
    decreases |line|
  {
    if line != "" && IsBlank(line[0]) {
      SkipTwice(line[1..]);
    }
  }

  /** On every command line, the rest that is handed on holds exactly the arguments after the program. */
  lemma OwnArgumentsKeepAll(line: string)
    ensures Parse(SkipBlanks(AfterProgram(line, false))) == ParseCommandLine(line)[1..]
  {
    AfterProgramIsRest(line, false);
    SkipTwice(AfterProgram(line, false));
  }

  lemma {:induction false} SkipsQuotedName(name: string, tail: string)
    requires Ends(tail) && '"' !in name
    ensures AfterProgram(name + "\"" + tail, true) == tail
    decreases |name|
  {
    var line := name + "\"" + tail;
    if name == "" {
      assert line == "\"" + tail;
      assert line[1..] == tail;
    } else {
      assert line[1..] == name[1..] + "\"" + tail;
      assert name[0] in name;
      SkipsQuotedName(name[1..], tail);
    }
  }

  /** After a quoted program name only the blanks in front of the tail are dropped. */
  lemma TailKept(name: string, tail: string)
    requires Ends(tail) && '"' !in name
    ensures SkipBlanks(AfterProgram("\"" + name + "\"" + tail, false)) == SkipBlanks(tail)
  {
    var line := "\"" + name + "\"" + tail;
    assert line[1..] == name + "\"" + tail;
    SkipsQuotedName(name, tail);
  }

  // ---- The line the game is started with ----

  /** The line after the last argument. */
  function Tail(own: string): string {
    if own == "" then "" else " " + own
  }

  function Launch(args: seq<string>, own: string): string {
    Joined(args) + Tail(own)
  }

  /** The line so far and the arguments that are still to come. */
  function Glued(line: string, args: seq<string>): string {
    if args == [] then line else line + (if line == "" then "" else " ") + Joined(args)
  }

  lemma GlueStep(line: string, args: seq<string>)
    requires args != []
    ensures Glued(line, args) == Glued(line + (if line == "" then "" else " ") + Quoted(args[0]), args[1..])
  {
    hide Quoted;
    QuotedNotEmpty(args[0]);
    if |args| > 1 {
      var head := line + (if line == "" then "" else " ");
      assert head + (Quoted(args[0]) + " " + Joined(args[1..])) == head + Quoted(args[0]) + " " + Joined(args[1..]);
    }
  }

  lemma QuotedNotEmpty(arg: string)
    ensures Quoted(arg) != ""
  {
  }

  method BuildLine(args: seq<string>, own: string) returns (line: string)
    ensures line == Launch(args, own)
  {
    hide Joined, Quoted;
    line := "";
    assert args[0..] == args;
    for i := 0 to |args|
      invariant Glued(line, args[i..]) == Glued("", args)
    {
      GlueStep(line, args[i..]);
      assert args[i..][1..] == args[i + 1..];
      var quoted := Quote(args[i]);
      line := line + (if line == "" then "" else " ") + quoted;
    }
    JoinedEmpty();
    assert Glued("", args) == Joined(args);
    if own != "" {
      line := line + " " + own;
    }
  }

  lemma JoinedEmpty()
    ensures Joined([]) == ""
  {
  }

  /** How many backslashes a name ends with, after `pending` more. */
  function Trailing(name: string, pending: nat): nat {
    if name == "" then pending else Trailing(name[1..], if name[0] == '\\' then pending + 1 else 0)
  }

  lemma {:induction false} TrailingZero(name: string, pending: nat)
    ensures Trailing(name, pending) == 0 <==> if name == "" then pending == 0 else name[|name| - 1] != '\\'
    decreases |name|
  {
    if name != "" {
      TrailingZero(name[1..], if name[0] == '\\' then pending + 1 else 0);
    }
  }

  /** Quoting a name without quotes only doubles the backslashes at its end. */
  lemma {:induction false} EscapedName(name: string, pending: nat)
    requires '"' !in name
    ensures Escaped(name, pending) == Backslashes(pending) + name + Backslashes(Trailing(name, pending))
    decreases |name|
  {
    if name == "" {
      assert Backslashes(2 * pending) == Backslashes(pending) + name + Backslashes(pending);
    } else {
      assert name[0] in name && '"' !in name[1..];
      EscapedName(name[1..], if name[0] == '\\' then pending + 1 else 0);
      if name[0] == '\\' {
        assert Backslashes(pending + 1) + name[1..] == Backslashes(pending) + name;
      } else {
        assert Backslashes(pending) + [name[0]] + (Backslashes(0) + name[1..]) == Backslashes(pending) + name;
      }
    }
  }

  lemma {:induction false} ProgramWithoutQuotes(line: string, quoted: bool)
    ensures '"' !in TakeProgram(line, quoted).arg
    decreases |line|
  {
    if line != "" && !(IsBlank(line[0]) && !quoted) {
      ProgramWithoutQuotes(line[1..], if line[0] == '"' then !quoted else quoted);
    }
  }

  lemma {:induction false} TakeProgramText(text: string, rest: string, quoted: bool)
    requires '"' !in text && (quoted || (Ends(rest) && forall c | c in text :: !IsBlank(c)))
    ensures TakeProgram(text + rest, quoted) == Before(text, TakeProgram(rest, quoted))
    decreases |text|
  {
    if text == "" {
      assert text + rest == rest;
    } else {
      assert text + rest == [text[0]] + (text[1..] + rest);
      assert text[0] in text && '"' !in text[1..];
      assert forall c | c in text[1..] :: c in text;
      TakeProgramText(text[1..], rest, quoted);
    }
  }

  lemma TakeProgramQuote(line: string, quoted: bool)
    ensures TakeProgram("\"" + line, quoted) == TakeProgram(line, !quoted)
  {
    assert ("\"" + line)[1..] == line;
  }

  lemma TakeProgramQuoted(text: string, rest: string)
    requires '"' !in text && Ends(rest)
    ensures TakeProgram("\"" + text + "\"" + rest, false) == Taken(text, rest)
  {
    assert "\"" + text + "\"" + rest == "\"" + (text + ("\"" + rest));
    TakeProgramQuote(text + ("\"" + rest), false);
    TakeProgramText(text, "\"" + rest, true);
    TakeProgramQuote(rest, true);
    assert TakeProgram(rest, false) == Taken("", rest);
    assert text + "" == text;
  }

  /** What the program rule makes of a quoted name that holds no quotes itself. */
  lemma ProgramReadsBack(name: string, rest: string)
    requires '"' !in name && Ends(rest)
    ensures TakeProgram(Quoted(name) + rest, false)
         == Taken(name + Backslashes(if Plain(name) then 0 else Trailing(name, 0)), rest)
  {
    if Plain(name) {
      TakeProgramText(name, rest, false);
    } else {
      hide TakeProgram, Ends, Trailing, Escaped;
      EscapedName(name, 0);
      var text := Escaped(name, 0);
      assert text == name + Backslashes(Trailing(name, 0));
      assert forall c | c in text :: c in name || c == '\\';
      TakeProgramQuoted(text, rest);
    }
  }

  /** A name that the program rule reads as it was quoted. */
  predicate ProgramSafe(name: string) {
    '"' !in name && (Plain(name) || name == "" || name[|name| - 1] != '\\')
  }

  lemma TailParses(own: string)
    ensures Ends(Tail(own)) && Parse(Tail(own)) == Parse(own)
  {
    ParseAfterBlank(own);
  }

  /** The line after the program's name. */
  function AfterName(args: seq<string>, own: string): string
    requires args != []
  {
    if |args| == 1 then Tail(own) else " " + (Joined(args[1..]) + Tail(own))
  }

  lemma LaunchSplits(args: seq<string>, own: string)
    requires args != []
    ensures Launch(args, own) == Quoted(args[0]) + AfterName(args, own)
  {
    hide Quoted;
    var name := Quoted(args[0]);
    if |args| > 1 {
      var more := Joined(args[1..]);
      assert name + " " + more + Tail(own) == name + (" " + (more + Tail(own)));
    }
  }

  lemma AfterNameParses(args: seq<string>, own: string)
    requires args != []
    ensures Ends(AfterName(args, own)) && Parse(AfterName(args, own)) == args[1..] + Parse(own)
  {
    hide Parse, Quoted, Joined;
    TailParses(own);
    if |args| == 1 {
      assert args[1..] + Parse(own) == Parse(own);
    } else {
      ArgumentsReadBack(args[1..], Tail(own));
      ParseAfterBlank(Joined(args[1..]) + Tail(own));
    }
  }

  /**
   The game receives the launcher's arguments followed by what the launcher itself was given,
   exactly when its own path has no quote and no backslash that quoting doubles.
   */
  lemma LaunchReadsBackIff(args: seq<string>, own: string)
    requires args != []
    ensures ParseCommandLine(Launch(args, own)) == args + Parse(own) <==> ProgramSafe(args[0])
  {
    hide Parse, Joined, Launch, Quoted, Trailing, TakeProgram;
    hide AfterName;
    LaunchSplits(args, own);
    AfterNameParses(args, own);
    var rest := AfterName(args, own);
    var program := TakeProgram(Quoted(args[0]) + rest, false);
    ProgramWithoutQuotes(Quoted(args[0]) + rest, false);
    assert (args + Parse(own))[0] == args[0];
    var parsed := ParseCommandLine(Launch(args, own));
    assert parsed[0] == program.arg;
    if '"' in args[0] {
      assert program.arg != args[0];
    } else {
      ProgramReadsBack(args[0], rest);
      TrailingZero(args[0], 0);
      if ProgramSafe(args[0]) {
        assert program.arg == args[0] by { assert args[0] + Backslashes(0) == args[0]; }
        assert [args[0]] + (args[1..] + Parse(own)) == args + Parse(own);
      } else {
        assert |program.arg| > |args[0]|;
      }
    }
  }

  /** From the launcher's command line to the game's: every argument the launcher was given arrives. */
  lemma LaunchForwards(args: seq<string>, line: string)
    requires args != [] && ProgramSafe(args[0])
    ensures ParseCommandLine(Launch(args, SkipBlanks(AfterProgram(line, false)))) == args + ParseCommandLine(line)[1..]
  {
    hide ParseCommandLine, Launch, Parse;
    LaunchReadsBackIff(args, SkipBlanks(AfterProgram(line, false)));
    OwnArgumentsKeepAll(line);
  }
}
