/** The settings file: as the installer rewrites it and as the launcher reads it. */
module Settings {
  import opened Words

  // ---- Lines ----

  function IndexOf(text: string, c: char): (r: int)
    ensures -1 <= r < |text|
    ensures r >= 0 ==> text[r] == c && c !in text[..r]
    ensures r < 0 ==> c !in text
  {
    if text == "" then -1
    else if text[0] == c then 0
    else
      var r := IndexOf(text[1..], c);
      assert text == [text[0]] + text[1..];
      assert r >= 0 ==> text[..r + 1] == [text[0]] + text[1..][..r];
      if r < 0 then -1 else r + 1
  }

  function Lines(text: string): seq<string>
    decreases |text|
  {
    if text == "" then []
    else
      var end := IndexOf(text, '\n');
      if end < 0 then [text] else [text[..end]] + Lines(text[end + 1..])
  }

  /** Every line ends with a line feed. */
  predicate Terminated(text: string) {
    text == "" || text[|text| - 1] == '\n'
  }

  function Unlines(lines: seq<string>): string {
    if lines == [] then "" else lines[0] + "\n" + Unlines(lines[1..])
  }

  lemma {:induction false} IndexAfter(line: string, c: char, rest: string)
    requires c !in line
    ensures IndexOf(line + [c] + rest, c) == |line|
    decreases |line|
  {
    var text := line + [c] + rest;
    if line != "" {
      assert text[0] == line[0] && line[0] in line;
      assert text[1..] == line[1..] + [c] + rest;
      IndexAfter(line[1..], c, rest);
    }
  }

  lemma LineFirst(line: string, rest: string)
    requires '\n' !in line
    ensures Lines(line + "\n" + rest) == [line] + Lines(rest)
  {
    hide IndexOf;
    var text := line + "\n" + rest;
    IndexAfter(line, '\n', rest);
    assert text[..|line|] == line && text[|line| + 1..] == rest;
  }

  lemma LineSplits(text: string) returns (line: string, rest: string)
    requires text != "" && Terminated(text)
    ensures text == line + "\n" + rest && '\n' !in line && Terminated(rest) && |rest| < |text|
  {
    hide IndexOf;
    var end := IndexOf(text, '\n');
    assert text[|text| - 1] in text;
    line, rest := text[..end], text[end + 1..];
    assert rest != "" ==> rest[|rest| - 1] == text[|text| - 1];
  }

  lemma LinesStep(line: string, rest: string, b: string)
    requires '\n' !in line && Lines(rest + b) == Lines(rest) + Lines(b)
    ensures Lines(line + "\n" + rest + b) == Lines(line + "\n" + rest) + Lines(b)
  {
    hide Lines;
    assert line + "\n" + rest + b == line + "\n" + (rest + b);
    LineFirst(line, rest);
    LineFirst(line, rest + b);
    assert [line] + (Lines(rest) + Lines(b)) == [line] + Lines(rest) + Lines(b);
  }

  lemma {:induction false} LinesAppend(a: string, b: string)
    requires Terminated(a)
    ensures Lines(a + b) == Lines(a) + Lines(b)
    decreases |a|
  {
    if a == "" {
      assert a + b == b;
    } else {
      var line, rest := LineSplits(a);
      LinesAppend(rest, b);
      LinesStep(line, rest, b);
    }
  }

  lemma {:induction false} LinesOfUnlines(lines: seq<string>)
    requires forall l | l in lines :: '\n' !in l
    ensures Lines(Unlines(lines)) == lines && Terminated(Unlines(lines))
    decreases |lines|
  {
    if lines != [] {
      LinesOfUnlines(lines[1..]);
      LineFirst(lines[0], Unlines(lines[1..]));
    }
  }

  lemma {:induction false} NoFeedInLines(text: string)
    ensures forall l | l in Lines(text) :: '\n' !in l
    decreases |text|
  {
    if text != "" {
      var end := IndexOf(text, '\n');
      if end >= 0 { NoFeedInLines(text[end + 1..]); }
    }
  }

  // ---- Stripping ----

  function StripStart(text: string, space: char -> bool): string {
    if text != "" && space(text[0]) then StripStart(text[1..], space) else text
  }

  function StripEnd(text: string, space: char -> bool): string {
    if text != "" && space(text[|text| - 1]) then StripEnd(text[..|text| - 1], space) else text
  }

  function Strip(text: string, space: char -> bool): string {
    StripEnd(StripStart(text, space), space)
  }

  predicate LauncherSpace(c: char) {
    c == ' ' || c == '\t' || c == '\r'
  }

  /** What Qt counts as white space. */
  predicate QtSpace(c: char) {
    || c == ' ' || '\t' <= c <= '\r' || c as int == 0x85 || c as int == 0xA0 || c as int == 0x1680
    || 0x2000 <= c as int <= 0x200A || c as int == 0x2028 || c as int == 0x2029 || c as int == 0x202F
    || c as int == 0x205F || c as int == 0x3000
  }

  function Trim(text: string): string {
    Strip(text, LauncherSpace)
  }

  function Trimmed(text: string): string {
    Strip(text, QtSpace)
  }

  lemma {:induction false} StripStartFacts(text: string, space: char -> bool)
    ensures var r := StripStart(text, space);
      && |r| <= |text| && r == text[|text| - |r|..] && (r == "" || !space(r[0]))
      && (forall c | c in r :: c in text)
    decreases |text|
  {
    if text != "" && space(text[0]) { StripStartFacts(text[1..], space); }
  }

  lemma {:induction false} StripEndFacts(text: string, space: char -> bool)
    ensures var r := StripEnd(text, space);
      && |r| <= |text| && r == text[..|r|] && (r == "" || !space(r[|r| - 1]))
      && (forall c | c in r :: c in text)
    decreases |text|
  {
    if text != "" && space(text[|text| - 1]) { StripEndFacts(text[..|text| - 1], space); }
  }

  lemma StripFacts(text: string, space: char -> bool)
    ensures var r := Strip(text, space);
      && (forall c | c in r :: c in text)
      && (r != "" ==> !space(r[0]) && !space(r[|r| - 1]))
      && Strip(r, space) == r
  {
    StripStartFacts(text, space);
    StripEndFacts(StripStart(text, space), space);
  }

  lemma {:induction false} StripAlike(text: string, space: char -> bool, other: char -> bool)
    requires forall c | c in text :: space(c) == other(c)
    ensures StripStart(text, space) == StripStart(text, other) && StripEnd(text, space) == StripEnd(text, other)
    decreases |text|
  {
    if text != "" {
      assert text[0] in text && text[|text| - 1] in text;
      if space(text[0]) { StripAlike(text[1..], space, other); }
      if space(text[|text| - 1]) { StripAlike(text[..|text| - 1], space, other); }
    }
  }

  /** A text without the white space that only Qt knows. */
  predicate Clean(text: string) {
    forall c | c in text :: QtSpace(c) ==> LauncherSpace(c)
  }

  lemma CleanStripsAlike(text: string)
    requires Clean(text)
    ensures Trimmed(text) == Trim(text) && Clean(Trim(text))
  {
    StripAlike(text, QtSpace, LauncherSpace);
    StripStartFacts(text, LauncherSpace);
    StripAlike(StripStart(text, LauncherSpace), QtSpace, LauncherSpace);
    StripFacts(text, LauncherSpace);
  }

  // ---- The launcher ----

  /** What the launcher makes of one line. */
  function Setting(raw: string): Option<(string, string)> {
    var line := Trim(raw);
    if line == "" || line[0] == '#' then None
    else
      var equals := IndexOf(line, '=');
      if equals < 0 then None
      else
        var key := Trim(line[..equals]);
        if key == "" then None else Some((key, Trim(line[equals + 1..])))
  }

  // ---- Lines as they are written ----

  /** Blanks, tabs and carriage returns. */
  predicate Blank(text: string) {
    forall c | c in text :: c in {' ', '\t', '\r'}
  }

  /** A text with nothing blank at its ends. */
  predicate Bare(text: string) {
    text != "" ==> text[0] !in {' ', '\t', '\r'} && text[|text| - 1] !in {' ', '\t', '\r'}
  }

  lemma {:induction false} BlankStripped(left: string, text: string)
    requires Blank(left) && (text != "" ==> text[0] !in {' ', '\t', '\r'})
    ensures StripStart(left + text, LauncherSpace) == text
    decreases |left|
  {
    if left == "" {
      assert left + text == text;
    } else {
      assert left[0] in left && (left + text)[1..] == left[1..] + text;
      assert forall c | c in left[1..] :: c in left;
      BlankStripped(left[1..], text);
    }
  }

  lemma {:induction false} BlankStrippedEnd(text: string, right: string)
    requires Blank(right) && (text != "" ==> text[|text| - 1] !in {' ', '\t', '\r'})
    ensures StripEnd(text + right, LauncherSpace) == text
    decreases |right|
  {
    if right == "" {
      assert text + right == text;
    } else {
      var shorter := right[..|right| - 1];
      assert right[|right| - 1] in right && (text + right)[..|text + right| - 1] == text + shorter;
      assert forall c | c in shorter :: c in right;
      BlankStrippedEnd(text, shorter);
    }
  }

  lemma BareTrimmed(left: string, text: string, right: string)
    requires Blank(left) && Blank(right) && Bare(text)
    ensures Trim(left + text + right) == text
  {
    if text == "" {
      assert left + text + right == (left + right) + "";
      BlankStripped(left + right, "");
    } else {
      assert left + text + right == left + (text + right);
      BlankStripped(left, text + right);
      BlankStrippedEnd(text, right);
    }
  }

  /** A key and a value, with any blanks around them, are read as they are. */
  lemma SettingLine(left: string, key: string, before: string, after: string, value: string, right: string)
    requires Blank(left) && Blank(before) && Blank(after) && Blank(right) && Bare(key) && Bare(value)
    requires key != "" && '=' !in key && key[0] != '#'
    ensures Setting(left + key + before + "=" + after + value + right) == Some((key, value))
  {
    hide IndexOf, Strip;
    var raw := left + key + before + "=" + after + value + right;
    var front := key + before;
    if value == "" {
      var line := front + ['='] + "";
      assert raw == left + line + (after + right);
      BareTrimmed(left, line, after + right);
      IndexAfter(front, '=', "");
      assert line[..|front|] == front && line[|front| + 1..] == "" == "" + "" + "";
      BareTrimmed("", "", "");
    } else {
      var line := front + ['='] + (after + value);
      assert raw == left + line + right;
      assert line[|line| - 1] == value[|value| - 1];
      BareTrimmed(left, line, right);
      IndexAfter(front, '=', after + value);
      assert line[..|front|] == front && line[|front| + 1..] == after + value == after + value + "";
      BareTrimmed(after, value, "");
    }
    assert front == "" + key + before;
    BareTrimmed("", key, before);
  }

  /** Blank lines, comments, lines without an equals sign and lines without a key are passed over. */
  lemma PassedOver(left: string, rest: string)
    requires Blank(left)
    ensures Setting(left).None? && Setting(left + "#" + rest).None? && Setting(left + "=" + rest).None?
    ensures '=' !in rest ==> Setting(rest).None?
  {
    assert left == left + "" + "";
    BareTrimmed(left, "", "");
    Opened(left, "#" + rest);
    Opened(left, "=" + rest);
    assert left + "#" + rest == left + ("#" + rest) && left + "=" + rest == left + ("=" + rest);
    var line := Trim(left + "=" + rest);
    assert line[0] == '=';
    assert line[..0] == "" == "" + "" + "";
    BareTrimmed("", "", "");
    StripFacts(rest, LauncherSpace);
    hide Strip;
  }

  /** Behind blanks, a text is trimmed to something that starts as it does. */
  lemma Opened(left: string, text: string)
    requires Blank(left) && text != "" && text[0] !in {' ', '\t', '\r'}
    ensures Trim(left + text) != "" && Trim(left + text)[0] == text[0]
  {
    BlankStripped(left, text);
    FirstKept(text);
  }

  lemma {:induction false} FirstKept(text: string)
    requires text != "" && text[0] !in {' ', '\t', '\r'}
    ensures StripEnd(text, LauncherSpace) != "" && StripEnd(text, LauncherSpace)[0] == text[0]
    decreases |text|
  {
    if LauncherSpace(text[|text| - 1]) { FirstKept(text[..|text| - 1]); }
  }

  datatype Config = Config(lines: seq<(string, string)>, values: map<string, string>)

  function Add(config: Config, raw: string): Config {
    var setting := Setting(raw);
    if setting.None? then config
    else Config(config.lines + [setting.value], config.values[setting.value.0 := setting.value.1])
  }

  function Gather(lines: seq<string>, config: Config): Config
    decreases |lines|
  {
    if lines == [] then config else Gather(lines[1..], Add(config, lines[0]))
  }

  const EMPTY := Config([], map[])

  function ConfigOf(text: string): Config {
    Gather(Lines(text), EMPTY)
  }

  /** One line for each setting. */
  function TextOf(settings: seq<(string, string)>): string {
    if settings == [] then "" else settings[0].0 + "=" + settings[0].1 + "\n" + TextOf(settings[1..])
  }

  predicate OneLine(setting: (string, string)) {
    && Bare(setting.0) && Bare(setting.1) && setting.0 != "" && setting.0[0] != '#' && '=' !in setting.0
    && '\n' !in setting.0 && '\n' !in setting.1
  }

  /** Settings that are written line by line are read back in their order, repeated keys included. */
  lemma {:induction false} SettingsReadBack(settings: seq<(string, string)>, config: Config)
    requires forall s | s in settings :: OneLine(s)
    ensures Gather(Lines(TextOf(settings)), config).lines == config.lines + settings
    decreases |settings|
  {
    hide Setting, Lines, Bare;
    if settings == [] {
      assert Lines("") == [] by { LinesOfUnlines([]); }
    } else {
      var (key, value) := settings[0];
      assert settings[0] in settings;
      var line := key + "=" + value;
      assert line == "" + key + "" + "=" + "" + value + "";
      SettingLine("", key, "", "", value, "");
      LineFirst(line, TextOf(settings[1..]));
      SettingsReadBack(settings[1..], Add(config, line));
      assert config.lines + settings == config.lines + [settings[0]] + settings[1..];
    }
  }

  method ReadConfig(text: string) returns (config: Config)
    ensures config == ConfigOf(text)
  {
    config := EMPTY;
    var lines := Lines(text);
    for i := 0 to |lines|
      invariant Gather(lines[i..], config) == Gather(lines, EMPTY)
    {
      assert lines[i..][1..] == lines[i + 1..];
      var line := Trim(lines[i]);
      if line == "" || line[0] == '#' {
        continue;
      }
      var equals := IndexOf(line, '=');
      if equals < 0 {
        continue;
      }
      var key, value := Trim(line[..equals]), Trim(line[equals + 1..]);
      if key != "" {
        config := Config(config.lines + [(key, value)], config.values[key := value]);
      }
    }
  }

  /** The values of the lines alone, on top of the values so far. */
  function Values(lines: seq<string>, values: map<string, string>): map<string, string>
    decreases |lines|
  {
    if lines == [] then values
    else
      var setting := Setting(lines[0]);
      Values(lines[1..], if setting.None? then values else values[setting.value.0 := setting.value.1])
  }

  lemma {:induction false} GatherValues(lines: seq<string>, config: Config)
    ensures Gather(lines, config).values == Values(lines, config.values)
    decreases |lines|
  {
    if lines != [] { GatherValues(lines[1..], Add(config, lines[0])); }
  }

  lemma {:induction false} ValuesAppend(a: seq<string>, b: seq<string>, values: map<string, string>)
    ensures Values(a + b, values) == Values(b, Values(a, values))
    decreases |a|
  {
    if a == [] {
      assert a + b == b;
    } else {
      assert (a + b)[1..] == a[1..] + b;
      var setting := Setting(a[0]);
      ValuesAppend(a[1..], b, if setting.None? then values else values[setting.value.0 := setting.value.1]);
    }
  }

  // ---- The installer ----

  /** The key of a `key = value` line, empty for any other line. */
  function ConfKey(line: string): string {
    var text := Trimmed(line);
    var equals := IndexOf(text, '=');
    if (text != "" && text[0] == '#') || equals <= 0 then "" else Trimmed(text[..equals])
  }

  function Keys(lines: seq<string>): set<string> {
    set l | l in lines :: ConfKey(l)
  }

  /** The lines of the old file that nothing in the new settings replaces. */
  function Kept(lines: seq<string>, written: set<string>): seq<string>
    decreases |lines|
  {
    if lines == [] then []
    else
      var key := ConfKey(Trimmed(lines[0]));
      (if key != "" && key !in written then [Trimmed(lines[0])] else []) + Kept(lines[1..], written)
  }

  function Note(): string {
    "# Kept as " + "they were: " + "set in the " + "game's menu, " + "or by hand"
  }

  function Merged(settings: string, previous: string): string {
    var kept := Kept(Lines(previous), Keys(Lines(settings)));
    if kept == [] then settings else settings + (Note() + "\n" + Unlines(kept))
  }

  lemma NoKeys()
    ensures Keys([]) == {}
  {
  }

  lemma KeysStep(lines: seq<string>, i: nat)
    requires i < |lines|
    ensures Keys(lines[..i + 1]) == Keys(lines[..i]) + {ConfKey(lines[i])}
  {
    hide ConfKey;
    assert lines[..i + 1] == lines[..i] + [lines[i]];
  }

  function KeptText(lines: seq<string>, written: set<string>): string {
    Unlines(Kept(lines, written))
  }

  lemma KeptStep(lines: seq<string>, i: nat, written: set<string>)
    requires i < |lines|
    ensures var line := Trimmed(lines[i]);
      KeptText(lines[i..], written)
        == (if ConfKey(line) != "" && ConfKey(line) !in written then line + "\n" else "")
             + KeptText(lines[i + 1..], written)
  {
    hide ConfKey, Trimmed;
    assert lines[i..][1..] == lines[i + 1..];
    var rest := Kept(lines[i + 1..], written);
    assert [] + rest == rest;
    assert ([Trimmed(lines[i])] + rest)[1..] == rest;
  }

  method WriteSettings(settings: string, previous: string) returns (text: string)
    ensures text == Merged(settings, previous)
  {
    hide Lines, Kept, ConfKey, Trimmed, KeptText, Note, Keys;
    var lines := Lines(settings);
    NoKeys();
    var written: set<string> := {};
    for i := 0 to |lines|
      invariant written == Keys(lines[..i])
    {
      KeysStep(lines, i);
      written := written + {ConfKey(lines[i])};
    }
    assert lines[..|lines|] == lines;
    var present := Lines(previous);
    var kept := "";
    for i := 0 to |present|
      invariant kept + KeptText(present[i..], written) == KeptText(present, written)
    {
      KeptStep(present, i, written);
      var line := Trimmed(present[i]);
      var key := ConfKey(line);
      if key != "" && key !in written {
        kept := kept + (line + "\n");
      }
    }
    assert present[|present|..] == [];
    NothingLeft(present, written);
    text := settings;
    if kept != "" {
      text := text + (Note() + "\n" + kept);
    }
  }

  lemma NothingLeft(lines: seq<string>, written: set<string>)
    ensures KeptText([], written) == ""
    ensures KeptText(lines, written) == Unlines(Kept(lines, written))
    ensures KeptText(lines, written) == "" <==> Kept(lines, written) == []
  {
    hide ConfKey, Trimmed;
  }

  // ---- Writing again ----

  lemma {:induction false} KeptAppend(a: seq<string>, b: seq<string>, written: set<string>)
    ensures Kept(a + b, written) == Kept(a, written) + Kept(b, written)
    decreases |a|
  {
    hide ConfKey, Trimmed;
    if a == [] {
      assert a + b == b;
    } else {
      assert (a + b)[1..] == a[1..] + b;
      KeptAppend(a[1..], b, written);
    }
  }

  lemma TrimmedTwice(line: string)
    ensures Trimmed(Trimmed(line)) == Trimmed(line) && ConfKey(Trimmed(line)) == ConfKey(line)
  {
    StripFacts(line, QtSpace);
  }

  lemma {:induction false} WrittenDropped(lines: seq<string>, written: set<string>)
    requires forall l | l in lines :: ConfKey(l) == "" || ConfKey(l) in written
    ensures Kept(lines, written) == []
    decreases |lines|
  {
    hide ConfKey, Trimmed;
    if lines != [] {
      TrimmedTwice(lines[0]);
      assert lines[0] in lines;
      WrittenDropped(lines[1..], written);
    }
  }

  lemma {:induction false} KeptAgain(lines: seq<string>, written: set<string>)
    ensures Kept(Kept(lines, written), written) == Kept(lines, written)
    decreases |lines|
  {
    hide ConfKey, Trimmed;
    if lines != [] {
      KeptAgain(lines[1..], written);
      TrimmedTwice(lines[0]);
      var line := Trimmed(lines[0]);
      var rest := Kept(lines[1..], written);
      assert ([line] + rest)[1..] == rest;
      assert [] + rest == rest;
    }
  }

  lemma {:induction false} KeptOneLine(lines: seq<string>, written: set<string>)
    requires forall l | l in lines :: '\n' !in l
    ensures forall l | l in Kept(lines, written) :: '\n' !in l
    decreases |lines|
  {
    hide ConfKey;
    if lines != [] {
      assert lines[0] in lines;
      StripFacts(lines[0], QtSpace);
      KeptOneLine(lines[1..], written);
    }
  }

  lemma MergedLines(settings: string, previous: string)
    requires Terminated(settings)
    ensures var kept := Kept(Lines(previous), Keys(Lines(settings)));
      Lines(Merged(settings, previous)) == if kept == [] then Lines(settings) else Lines(settings) + [Note()] + kept
  {
    hide Lines, Kept, Keys, Note, Unlines;
    var kept := Kept(Lines(previous), Keys(Lines(settings)));
    if kept != [] {
      NoteInOneLine();
      NoFeedInLines(previous);
      KeptOneLine(Lines(previous), Keys(Lines(settings)));
      LinesOfUnlines(kept);
      LineFirst(Note(), Unlines(kept));
      LinesAppend(settings, Note() + "\n" + Unlines(kept));
    }
  }

  lemma NoteInOneLine()
    ensures '\n' !in Note() && Note() != "" && Note()[0] == '#'
  {
    assert '\n' !in "# Kept as " && '\n' !in "they were: " && '\n' !in "set in the ";
    assert '\n' !in "game's menu, " && '\n' !in "or by hand";
  }

  lemma {:induction false} StripEndKeepsFirst(text: string, space: char -> bool)
    requires text != "" && !space(text[0])
    ensures StripEnd(text, space) != "" && StripEnd(text, space)[0] == text[0]
    decreases |text|
  {
    if space(text[|text| - 1]) { StripEndKeepsFirst(text[..|text| - 1], space); }
  }

  /** Neither program sees a setting in a comment. */
  lemma CommentHasNoKey(line: string)
    requires line != "" && line[0] == '#'
    ensures ConfKey(line) == "" && Setting(line) == None
  {
    StripEndKeepsFirst(line, QtSpace);
    StripEndKeepsFirst(line, LauncherSpace);
  }

  /** Writing the same settings again writes the same file. */
  lemma WritingAgain(settings: string, previous: string)
    requires Terminated(settings)
    ensures Merged(settings, Merged(settings, previous)) == Merged(settings, previous)
  {
    hide Lines, Kept, ConfKey, Note, Unlines;
    var (lines, written) := (Lines(settings), Keys(Lines(settings)));
    var kept := Kept(Lines(previous), written);
    MergedLines(settings, previous);
    WrittenDropped(lines, written);
    if kept != [] {
      NoteInOneLine();
      CommentHasNoKey(Note());
      WrittenDropped([Note()], written);
      KeptAgain(Lines(previous), written);
      KeptAppend(lines + [Note()], kept, written);
      KeptAppend(lines, [Note()], written);
      assert [] + [] + kept == kept;
    }
  }

  // ---- What the launcher reads afterwards ----

  function KeyOf(setting: Option<(string, string)>): string {
    if setting.None? then "" else setting.value.0
  }

  /** Both programs see the same key in the line, and trimming it changes nothing for the launcher. */
  predicate Alike(line: string) {
    ConfKey(line) == KeyOf(Setting(line)) && Setting(Trimmed(line)) == Setting(line)
  }

  predicate AlikeLines(lines: seq<string>) {
    forall l | l in lines :: Alike(l)
  }

  lemma CleanPart(text: string, from: nat, to: nat)
    requires Clean(text) && from <= to <= |text|
    ensures Clean(text[from..to])
  {
    assert forall c | c in text[from..to] :: c in text;
  }

  /** Lines without white space that only Qt knows are seen alike. */
  /** The white space that only Qt knows, within a line. */
  predicate Strange(c: char) {
    c as int in {0x0B, 0x0C, 0x85, 0xA0, 0x1680, 0x2028, 0x2029, 0x202F, 0x205F, 0x3000} || 0x2000 <= c as int <= 0x200A
  }

  /** A line without any of it is seen alike. */
  lemma OrdinaryIsAlike(line: string)
    requires forall c | c in line :: !Strange(c) && c != '\n'
    ensures Alike(line)
  {
    hide Alike;
    forall c | c in line && QtSpace(c) ensures LauncherSpace(c) {
      assert !Strange(c);
    }
    CleanIsAlike(line);
  }

  lemma CleanIsAlike(line: string)
    requires Clean(line)
    ensures Alike(line)
  {
    CleanStripsAlike(line);
    StripFacts(line, LauncherSpace);
    var text := Trim(line);
    var equals := IndexOf(text, '=');
    if equals >= 0 {
      CleanPart(text, 0, equals);
      assert text[0..equals] == text[..equals];
      CleanStripsAlike(text[..equals]);
    }
  }

  lemma {:induction false} StripFurther(text: string)
    ensures StripStart(StripStart(text, LauncherSpace), QtSpace) == StripStart(text, QtSpace)
    decreases |text|
  {
    if text != "" && LauncherSpace(text[0]) { StripFurther(text[1..]); }
  }

  /** So are comments, whatever white space they hold. */
  lemma CommentIsAlike(line: string)
    requires Trim(line) != "" && Trim(line)[0] == '#'
    ensures Alike(line)
  {
    var start := StripStart(line, LauncherSpace);
    StripEndFacts(start, LauncherSpace);
    StripFurther(line);
    assert start[0] == '#';
    assert StripStart(line, QtSpace) == start;
    StripEndKeepsFirst(start, QtSpace);
    TrimmedTwice(line);
    CommentHasNoKey(Trimmed(line));
  }

  lemma KeyNotEmpty(line: string)
    ensures Setting(line).Some? ==> Setting(line).value.0 != ""
  {
    hide Trim;
  }

  lemma {:induction false} ValuesKeys(lines: seq<string>, values: map<string, string>)
    requires AlikeLines(lines)
    ensures forall k :: k in Values(lines, values) <==> k in values || (k != "" && k in Keys(lines))
    decreases |lines|
  {
    hide Setting, ConfKey;
    if lines != [] {
      assert lines[0] in lines && Alike(lines[0]);
      KeyNotEmpty(lines[0]);
      var setting := Setting(lines[0]);
      var next := if setting.None? then values else values[setting.value.0 := setting.value.1];
      ValuesKeys(lines[1..], next);
      assert forall l | l in lines :: l == lines[0] || l in lines[1..];
      assert Keys(lines) == {ConfKey(lines[0])} + Keys(lines[1..]);
    }
  }

  lemma Overwrites(a: map<string, string>, s: map<string, string>, k: string, v: string)
    ensures k in s ==> a[k := v] + s == a + s
    ensures k !in s ==> a[k := v] + s == (a + s)[k := v]
  {
  }

  /** Reading the kept lines on top of the new values is reading all old lines below the new values. */
  lemma {:induction false} KeptValues(lines: seq<string>, written: set<string>, a: map<string, string>,
                                      s: map<string, string>)
    requires AlikeLines(lines) && forall k :: k in s <==> k != "" && k in written
    ensures Values(Kept(lines, written), a + s) == Values(lines, a) + s
    decreases |lines|
  {
    hide Setting, ConfKey, Trimmed;
    if lines != [] {
      assert lines[0] in lines;
      assert Alike(lines[0]);
      KeyNotEmpty(lines[0]);
      TrimmedTwice(lines[0]);
      var setting := Setting(lines[0]);
      var rest := Kept(lines[1..], written);
      if setting.None? {
        KeptValues(lines[1..], written, a, s);
        assert [] + rest == rest;
      } else {
        var (k, v) := setting.value;
        Overwrites(a, s, k, v);
        KeptValues(lines[1..], written, a[k := v], s);
        if k in s {
          assert [] + rest == rest;
        } else {
          var line := Trimmed(lines[0]);
          assert ([line] + rest)[1..] == rest;
        }
      }
    }
  }

  /** New values for every key that is written, the old last values for every other key. */
  predicate Updated(settings: string, previous: string) {
    ConfigOf(Merged(settings, previous)).values == ConfigOf(previous).values + ConfigOf(settings).values
  }

  /** What the launcher reads from the merged file: the kept lines, on top of the new values. */
  lemma MergedMeaning(settings: string, previous: string)
    requires Terminated(settings)
    ensures var (lines, olds) := (Lines(settings), Lines(previous));
      && ConfigOf(settings).values == Values(lines, map[]) && ConfigOf(previous).values == Values(olds, map[])
      && ConfigOf(Merged(settings, previous)).values == Values(Kept(olds, Keys(lines)), Values(lines, map[]))
  {
    hide Lines, Kept, Note, Keys, Merged;
    var (lines, olds) := (Lines(settings), Lines(previous));
    GatherValues(lines, EMPTY);
    GatherValues(olds, EMPTY);
    GatherValues(Lines(Merged(settings, previous)), EMPTY);
    MergedLines(settings, previous);
    MergedValues(lines, Kept(olds, Keys(lines)), Values(lines, map[]));
  }

  lemma SettingsUpdated(settings: string, previous: string)
    requires Terminated(settings) && AlikeLines(Lines(settings)) && AlikeLines(Lines(previous))
    ensures Updated(settings, previous)
  {
    hide Lines, Kept, Keys, AlikeLines, Merged, ConfigOf;
    var (lines, olds) := (Lines(settings), Lines(previous));
    MergedMeaning(settings, previous);
    ValuesKeys(lines, map[]);
    KeptValues(olds, Keys(lines), map[], Values(lines, map[]));
    assert map[] + Values(lines, map[]) == Values(lines, map[]);
  }

  lemma MergedValues(lines: seq<string>, kept: seq<string>, s: map<string, string>)
    requires s == Values(lines, map[])
    ensures Values(if kept == [] then lines else lines + [Note()] + kept, map[]) == Values(kept, s)
  {
    hide Note, Setting;
    NoteInOneLine();
    CommentHasNoKey(Note());
    if kept != [] {
      ValuesAppend(lines + [Note()], kept, map[]);
      ValuesAppend(lines, [Note()], map[]);
      assert Values([Note()], s) == Values([], s);
    }
  }

  predicate Ordinary(text: string) {
    text != "" && forall c | c in text :: c != '=' && c != '#' && !QtSpace(c)
  }

  lemma OneLineConfig(key: string, value: string)
    requires '\n' !in key && '\n' !in value && Setting(key + "=" + value) == Some((key, value))
    ensures Lines(key + "=" + value + "\n") == [key + "=" + value]
    ensures ConfigOf(key + "=" + value + "\n").values == map[key := value]
  {
    hide Setting;
    var line := key + "=" + value;
    LineFirst(line, "");
    assert line + "\n" + "" == line + "\n";
    assert Lines(line + "\n") == [line];
    GatherValues([line], EMPTY);
    assert Values([line], map[]) == Values([], map[key := value]);
  }

  lemma StrangeIsQt(c: char)
    requires Strange(c)
    ensures QtSpace(c) && !LauncherSpace(c) && c != '=' && c != '#' && c != '\n'
  {
  }

  lemma OrdinaryChars(text: string)
    requires Ordinary(text)
    ensures text != "" && forall c | c in text :: c != '=' && c != '#' && c != '\n' && !QtSpace(c) && !LauncherSpace(c)
  {
  }

  lemma StrangeKeys(key: string, space: char, value: string, other: string)
    requires Strange(space) && Ordinary(key) && Ordinary(value) && Ordinary(other)
    ensures Setting(key + "=" + value) == Some((key, value))
    ensures Setting(key + [space] + "=" + other) == Some((key + [space], other))
    ensures ConfKey(key + [space] + "=" + other) == ConfKey(key + "=" + value)
    ensures '\n' !in key && '\n' !in value && '\n' !in other
  {
    StrangeIsQt(space);
    OrdinaryChars(key);
    OrdinaryChars(value);
    OrdinaryChars(other);
    hide Strange, QtSpace, LauncherSpace, Ordinary, Setting, ConfKey, IndexOf;
    var lost := key + [space];
    assert key[0] in key && key[|key| - 1] in key && value[0] in value && value[|value| - 1] in value;
    assert other[0] in other && other[|other| - 1] in other;
    assert lost[..|key|] == key;
    OneSetting(key, value);
    OneSetting(lost, other);
    QtKey(lost, other);
    QtKey(key, value);
    assert Trimmed(lost) == Trimmed(key);
  }

  /** Any white space that only Qt strips can make the installer drop a line that holds another key. */
  lemma StrangeSpaceLosesLine(key: string, space: char, value: string, other: string)
    requires Strange(space) && Ordinary(key) && Ordinary(value) && Ordinary(other)
    ensures var (settings, previous, lost) := (key + "=" + value + "\n", key + [space] + "=" + other + "\n",
                                               key + [space]);
      lost in ConfigOf(previous).values && lost !in ConfigOf(Merged(settings, previous)).values
  {
    StrangeKeys(key, space, value, other);
    hide Setting, ConfKey, Trimmed, Ordinary;
    var lost := key + [space];
    OneLineConfig(key, value);
    OneLineConfig(lost, other);
    var line := lost + "=" + other;
    TrimmedTwice(line);
    WrittenDropped([line], Keys([key + "=" + value]));
  }

  lemma OneSetting(key: string, value: string)
    requires key != "" && value != "" && '=' !in key && key[0] != '#'
    requires !LauncherSpace(key[0]) && !LauncherSpace(key[|key| - 1]) && !LauncherSpace(value[0])
      && !LauncherSpace(value[|value| - 1])
    ensures Setting(key + "=" + value) == Some((key, value))
  {
    var line := key + "=" + value;
    IndexAfter(key, '=', value);
    assert Trim(line) == line && Trim(key) == key && Trim(value) == value;
    assert line[..|key|] == key && line[|key| + 1..] == value;
  }

  lemma QtKey(key: string, value: string)
    requires key != "" && value != "" && '=' !in key && key[0] != '#'
    requires !QtSpace(key[0]) && !QtSpace(value[|value| - 1])
    ensures ConfKey(key + "=" + value) == Trimmed(key)
  {
    var line := key + "=" + value;
    IndexAfter(key, '=', value);
    assert Trimmed(line) == line;
    assert line[..|key|] == key;
  }

  // ---- When the update is faithful ----

  /** The keys under which the launcher can see a line, before and after it was trimmed. */
  function SeenKeys(line: string): set<string> {
    {KeyOf(Setting(line)), KeyOf(Setting(Trimmed(line)))} - {""}
  }

  /** No two lines set the same key. */
  predicate Separate(lines: seq<string>) {
    forall i, j | 0 <= i < j < |lines| :: SeenKeys(lines[i]) !! SeenKeys(lines[j])
  }

  predicate Sets(line: string, k: string) {
    Setting(line).Some? && Setting(line).value.0 == k
  }

  lemma {:induction false} NotSet(lines: seq<string>, values: map<string, string>, k: string)
    requires forall l | l in lines :: !Sets(l, k)
    ensures k in Values(lines, values) <==> k in values
    decreases |lines|
  {
    hide Setting;
    if lines != [] {
      assert lines[0] in lines && !Sets(lines[0], k);
      var setting := Setting(lines[0]);
      NotSet(lines[1..], if setting.None? then values else values[setting.value.0 := setting.value.1], k);
    }
  }

  lemma {:induction false} SetTo(lines: seq<string>, values: map<string, string>, k: string, v: string)
    requires forall l | l in lines && Sets(l, k) :: Setting(l).value.1 == v
    requires (k in values && values[k] == v) || exists l | l in lines :: Sets(l, k)
    ensures k in Values(lines, values) && Values(lines, values)[k] == v
    decreases |lines|
  {
    hide Setting;
    if lines != [] {
      assert lines[0] in lines;
      assert forall l | l in lines :: l == lines[0] || l in lines[1..];
      var setting := Setting(lines[0]);
      SetTo(lines[1..], if setting.None? then values else values[setting.value.0 := setting.value.1], k, v);
    }
  }

  predicate KeptFrom(t: string, l: string, written: set<string>) {
    t == Trimmed(l) && ConfKey(l) != "" && ConfKey(l) !in written
  }

  lemma {:induction false} KeptLines(lines: seq<string>, written: set<string>)
    ensures forall t | t in Kept(lines, written) :: exists l | l in lines :: KeptFrom(t, l, written)
    ensures forall l | l in lines && KeptFrom(Trimmed(l), l, written) :: Trimmed(l) in Kept(lines, written)
    decreases |lines|
  {
    hide ConfKey, Trimmed;
    if lines != [] {
      TrimmedTwice(lines[0]);
      KeptLines(lines[1..], written);
      forall t | t in Kept(lines, written) ensures exists l | l in lines :: KeptFrom(t, l, written) {
        if t in Kept(lines[1..], written) {
          var l :| l in lines[1..] && KeptFrom(t, l, written);
          assert l in lines;
        } else {
          assert lines[0] in lines && KeptFrom(t, lines[0], written);
        }
      }
      assert forall l | l in lines :: l == lines[0] || l in lines[1..];
    }
  }

  /** What the installer makes of a line: its key stands before a sign, and the launcher sees a setting in it. */
  lemma QtSees(line: string)
    ensures Setting(Trimmed(line)).None? <==> ConfKey(line) == ""
    ensures var c := ConfKey(line);
      c != "" ==> '=' !in c && c[0] != '#' && !QtSpace(c[0]) && !QtSpace(c[|c| - 1]) && Trimmed(c) == c
    ensures '\n' !in line ==> '\n' !in ConfKey(line)
  {
    var text := Trimmed(line);
    StripFacts(line, QtSpace);
    assert text != "" ==> Trim(text) == text;
    var equals := IndexOf(text, '=');
    if equals > 0 && text[0] != '#' {
      var left := text[..equals];
      assert left[0] == text[0] && StripStart(left, QtSpace) == left && StripStart(left, LauncherSpace) == left;
      StripEndKeepsFirst(left, QtSpace);
      StripEndKeepsFirst(left, LauncherSpace);
      StripFacts(left, QtSpace);
      assert forall c | c in left :: c in text;
    }
  }

  lemma LineAlone(line: string)
    requires '\n' !in line
    ensures Lines(line + "\n") == [line] && Terminated(line + "\n")
  {
    LineFirst(line, "");
    assert line + "\n" + "" == line + "\n";
  }

  predicate Writable(c: string) {
    c != "" && '=' !in c && c[0] != '#' && !QtSpace(c[0]) && !QtSpace(c[|c| - 1]) && Trimmed(c) == c && '\n' !in c
  }

  lemma WrittenAlike(c: string)
    requires Writable(c)
    ensures var line := c + "=" + "x";
      Setting(line) == Some((c, "x")) && ConfKey(line) == c && Trimmed(line) == line
  {
    OneSetting(c, "x");
    QtKey(c, "x");
    var line := c + "=" + "x";
    assert StripStart(line, QtSpace) == line && StripEnd(line, QtSpace) == line;
  }

  /** New settings that write one key. */
  lemma OneSettingAlike(c: string)
    requires Writable(c)
    ensures var line := c + "=" + "x";
      && Terminated(line + "\n") && Lines(line + "\n") == [line] && AlikeLines([line])
      && Keys([line]) == {c} && Values([line], map[]) == map[c := "x"]
  {
    var line := c + "=" + "x";
    WrittenAlike(c);
    assert '\n' !in line;
    LineAlone(line);
    hide Setting, ConfKey, Trimmed, Lines;
    assert Values([line], map[]) == Values([], map[c := "x"]);
  }

  /** Other lines stay clear of the keys of line `i`. */
  lemma OthersClear(lines: seq<string>, i: nat, k: string)
    requires Separate(lines) && i < |lines| && k in SeenKeys(lines[i])
    ensures forall l | l in lines && l != lines[i] :: !Sets(l, k) && !Sets(Trimmed(l), k)
  {
    hide Setting, Trimmed;
    forall l | l in lines && l != lines[i] ensures !Sets(l, k) && !Sets(Trimmed(l), k) {
      var j :| 0 <= j < |lines| && lines[j] == l;
      assert SeenKeys(lines[i]) !! SeenKeys(lines[j]);
      assert k != "" && k !in SeenKeys(l);
    }
  }

  /** Once a line is dropped, its own key is gone unless the settings write it. */
  lemma DroppedKeyGone(lines: seq<string>, i: nat, written: set<string>, s: map<string, string>)
    requires Separate(lines) && i < |lines| && Setting(lines[i]).Some? && KeyOf(Setting(lines[i])) !in s
    requires ConfKey(lines[i]) == "" || ConfKey(lines[i]) in written
    ensures KeyOf(Setting(lines[i])) in Values(lines, map[])
    ensures KeyOf(Setting(lines[i])) !in Values(Kept(lines, written), s)
  {
    var k := KeyOf(Setting(lines[i]));
    KeyNotEmpty(lines[i]);
    OthersClear(lines, i, k);
    hide Setting, Trimmed, ConfKey, Separate;
    assert lines[i] in lines && Sets(lines[i], k);
    SetTo(lines, map[], k, Setting(lines[i]).value.1);
    KeptLines(lines, written);
    forall t | t in Kept(lines, written) ensures !Sets(t, k) {
      var l :| l in lines && KeptFrom(t, l, written);
      assert l != lines[i];
    }
    NotSet(Kept(lines, written), s, k);
  }

  lemma KeptSetsTo(lines: seq<string>, i: nat, k: string, v: string)
    requires Separate(lines) && i < |lines| && ConfKey(lines[i]) != "" && Setting(Trimmed(lines[i])) == Some((k, v))
    ensures k in Values(Kept(lines, {}), map[]) && Values(Kept(lines, {}), map[])[k] == v
  {
    var l, t := lines[i], Trimmed(lines[i]);
    KeyNotEmpty(t);
    OthersClear(lines, i, k);
    hide Setting, Trimmed, ConfKey, Separate;
    KeptLines(lines, {});
    assert KeptFrom(t, l, {}) && t in Kept(lines, {});
    forall u | u in Kept(lines, {}) && Sets(u, k) ensures Setting(u).value.1 == v {
      var m :| m in lines && KeptFrom(u, m, {});
      assert m == l;
    }
    assert Sets(t, k);
    SetTo(Kept(lines, {}), map[], k, v);
  }

  /** A line that trimming changes reads differently once it is kept. */
  lemma KeptReadsDifferently(lines: seq<string>, i: nat)
    requires Separate(lines) && i < |lines| && ConfKey(lines[i]) != ""
      && Setting(Trimmed(lines[i])) != Setting(lines[i])
    ensures Values(Kept(lines, {}), map[]) != Values(lines, map[])
  {
    var l := lines[i];
    QtSees(l);
    var (k, v) := Setting(Trimmed(l)).value;
    KeyNotEmpty(Trimmed(l));
    KeptSetsTo(lines, i, k, v);
    OthersClear(lines, i, k);
    hide Setting, Trimmed, ConfKey, Separate, Kept;
    if Sets(l, k) {
      SetTo(lines, map[], k, Setting(l).value.1);
    } else {
      NotSet(lines, map[], k);
    }
  }

  // ---- When the update is faithful, for every old file ----

  /** Where the installer finds a key, the launcher finds the same one once the line is trimmed. */
  predicate KeyedAlike(lines: seq<string>) {
    forall l | l in lines && ConfKey(l) != "" :: KeyOf(Setting(Trimmed(l))) == ConfKey(l)
  }

  /** Trimming the lines, and dropping those without a key, changes no value that the launcher reads. */
  predicate TrimsAlike(lines: seq<string>) {
    Values(Kept(lines, {}), map[]) == Values(lines, map[])
  }

  /** Dropping lines at once is dropping them after trimming. */
  lemma {:induction false} KeptTrims(lines: seq<string>, written: set<string>)
    ensures Kept(Kept(lines, {}), written) == Kept(lines, written)
    decreases |lines|
  {
    hide ConfKey, Trimmed;
    if lines != [] {
      TrimmedTwice(lines[0]);
      KeptTrims(lines[1..], written);
      var line, rest := Trimmed(lines[0]), Kept(lines[1..], {});
      assert ([line] + rest)[1..] == rest && [] + rest == rest;
    }
  }

  lemma TrimmedAlike(lines: seq<string>)
    requires KeyedAlike(lines)
    ensures AlikeLines(Kept(lines, {}))
  {
    hide Setting, ConfKey, Trimmed, Kept;
    KeptLines(lines, {});
    forall t | t in Kept(lines, {}) ensures Alike(t) {
      var l :| l in lines && KeptFrom(t, l, {});
      TrimmedTwice(l);
    }
  }

  /** Stripping the launcher's white space at the end first changes nothing for Qt. */
  lemma {:induction false} StripEndBehind(text: string)
    ensures Strip(StripEnd(text, LauncherSpace), QtSpace) == Strip(text, QtSpace)
    decreases |text|
  {
    if text != "" && LauncherSpace(text[|text| - 1]) {
      var shorter := text[..|text| - 1];
      StripEndBehind(shorter);
      StripOneBehind(shorter, text[|text| - 1]);
      assert text == shorter + [text[|text| - 1]];
    }
  }

  lemma {:induction false} StripOneBehind(text: string, c: char)
    requires QtSpace(c)
    ensures Strip(text + [c], QtSpace) == Strip(text, QtSpace)
    decreases |text|
  {
    if text == "" {
      assert text + [c] == [c];
    } else if QtSpace(text[0]) {
      assert (text + [c])[1..] == text[1..] + [c];
      StripOneBehind(text[1..], c);
    } else {
      assert (text + [c])[..|text|] == text;
    }
  }

  lemma TrimmedOfTrim(text: string)
    ensures Trimmed(Trim(text)) == Trimmed(text)
  {
    StripFurther(text);
    StripEndBehind(StripStart(text, LauncherSpace));
  }

  /** The installer's key of a line is the launcher's key of the trimmed line, as Qt trims it. */
  lemma KeysRelated(line: string)
    requires ConfKey(line) != ""
    ensures Setting(Trimmed(line)).Some? && ConfKey(line) == Trimmed(KeyOf(Setting(Trimmed(line))))
  {
    QtSees(line);
    StripFacts(line, QtSpace);
    var text := Trimmed(line);
    assert Trim(text) == text;
    TrimmedOfTrim(text[..IndexOf(text, '=')]);
  }

  lemma {:induction false} SomeSets(lines: seq<string>, values: map<string, string>, k: string)
    requires k in values || exists l | l in lines :: Sets(l, k)
    ensures k in Values(lines, values)
    decreases |lines|
  {
    hide Setting;
    if lines != [] {
      assert forall l | l in lines :: l == lines[0] || l in lines[1..];
      var setting := Setting(lines[0]);
      SomeSets(lines[1..], if setting.None? then values else values[setting.value.0 := setting.value.1], k);
    }
  }

  /** Writing the installer's key of a line drops every line of the launcher's key. */
  lemma OtherKeyGone(lines: seq<string>, l: string)
    requires l in lines && ConfKey(l) != "" && KeyOf(Setting(Trimmed(l))) != ConfKey(l)
    ensures var (c, k) := (ConfKey(l), KeyOf(Setting(Trimmed(l))));
      k in Values(Kept(lines, {}), map[]) && k !in Values(Kept(lines, {c}), map[c := "x"])
  {
    var (c, k) := (ConfKey(l), KeyOf(Setting(Trimmed(l))));
    KeysRelated(l);
    hide Setting, Trimmed, ConfKey;
    KeptLines(lines, {});
    assert KeptFrom(Trimmed(l), l, {}) && Sets(Trimmed(l), k);
    SomeSets(Kept(lines, {}), map[], k);
    KeptLines(lines, {c});
    forall t | t in Kept(lines, {c}) ensures !Sets(t, k) {
      var m :| m in lines && KeptFrom(t, m, {c});
      KeysRelated(m);
    }
    NotSet(Kept(lines, {c}), map[c := "x"], k);
  }

  lemma NothingWritten()
    ensures Lines("") == [] && Keys([]) == {} && Values([], map[]) == map[] && Terminated("")
  {
  }

  lemma FaithfulTrims(previous: string)
    requires Updated("", previous)
    ensures TrimsAlike(Lines(previous))
  {
    hide Lines, Values, Kept, Keys, ConfigOf, Merged, Terminated;
    NothingWritten();
    MergedMeaning("", previous);
    var values := Values(Lines(previous), map[]);
    assert values + map[] == values;
  }

  lemma FaithfulKeys(previous: string, l: string)
    requires TrimsAlike(Lines(previous)) && l in Lines(previous) && ConfKey(l) != ""
      && KeyOf(Setting(Trimmed(l))) != ConfKey(l)
    ensures var settings := ConfKey(l) + "=" + "x" + "\n";
      Terminated(settings) && AlikeLines(Lines(settings)) && !Updated(settings, previous)
  {
    var c := ConfKey(l);
    NoFeedInLines(previous);
    QtSees(l);
    hide Lines, Values, Kept, Keys, ConfigOf, Merged, Terminated, ConfKey, Setting, Trimmed, Alike;
    OneSettingAlike(c);
    OtherKeyGone(Lines(previous), l);
    MergedMeaning(c + "=" + "x" + "\n", previous);
  }

  lemma AlikeUpdated(settings: string, previous: string)
    requires Terminated(settings) && AlikeLines(Lines(settings)) && KeyedAlike(Lines(previous))
      && TrimsAlike(Lines(previous))
    ensures Updated(settings, previous)
  {
    hide Lines, Kept, Keys, Values, AlikeLines, KeyedAlike, Merged, ConfigOf, Terminated;
    var (lines, olds) := (Lines(settings), Lines(previous));
    var s := Values(lines, map[]);
    MergedMeaning(settings, previous);
    ValuesKeys(lines, map[]);
    TrimmedAlike(olds);
    KeptTrims(olds, Keys(lines));
    KeptValues(Kept(olds, {}), Keys(lines), map[], s);
    assert map[] + s == s;
  }

  /**
   For every old file: rewriting is faithful, whatever settings are written, if and only if both
   programs find the same keys in its trimmed lines, and trimming changes no value.
   */
  lemma FaithfulIff(previous: string)
    ensures (forall settings | Terminated(settings) && AlikeLines(Lines(settings)) :: Updated(settings, previous))
       <==> KeyedAlike(Lines(previous)) && TrimsAlike(Lines(previous))
  {
    hide Updated, AlikeLines, TrimsAlike, Lines, Terminated, ConfKey, Setting, Trimmed;
    var olds := Lines(previous);
    if forall settings | Terminated(settings) && AlikeLines(Lines(settings)) :: Updated(settings, previous) {
      NothingWritten();
      NoneAlike();
      FaithfulTrims(previous);
      forall l | l in olds && ConfKey(l) != "" ensures KeyOf(Setting(Trimmed(l))) == ConfKey(l) {
        if KeyOf(Setting(Trimmed(l))) != ConfKey(l) { FaithfulKeys(previous, l); }
      }
    }
    if KeyedAlike(olds) && TrimsAlike(olds) {
      forall settings | Terminated(settings) && AlikeLines(Lines(settings)) ensures Updated(settings, previous) {
        AlikeUpdated(settings, previous);
      }
    }
  }

  lemma NoneAlike()
    ensures AlikeLines([])
  {
  }

  /** Where no two lines set the same key, that is the same as seeing every line alike. */
  lemma SeparateAlikeIff(lines: seq<string>)
    requires Separate(lines)
    ensures KeyedAlike(lines) && TrimsAlike(lines) <==> AlikeLines(lines)
  {
    hide Separate, Setting, Trimmed, ConfKey, Values, Kept, Keys;
    if AlikeLines(lines) {
      var none: map<string, string> := map[];
      KeptValues(lines, {}, none, none);
      assert none + none == none && Values(lines, none) + none == Values(lines, none);
      assert forall l | l in lines :: Alike(l);
    } else if KeyedAlike(lines) {
      var l :| l in lines && !Alike(l);
      var i :| 0 <= i < |lines| && lines[i] == l;
      QtSees(l);
      if ConfKey(l) == "" { DroppedKeyGone(lines, i, {}, map[]); } else { KeptReadsDifferently(lines, i); }
    }
  }
}
