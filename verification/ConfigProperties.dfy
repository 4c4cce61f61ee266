/** What a configuration file means, line by line and as a whole. */
module ConfigProperties {
  import opened Octets
  import opened SnmpConfig

  // What is trimmed around keys and values, and at the ends of a line.
  predicate Blank(c: char) {
    c == ' ' || c == '\t'
  }

  predicate LineBlank(c: char) {
    Blank(c) || c == '\r' || c == '\n'
  }

  predicate Blanks(s: string) {
    forall i :: 0 <= i < |s| ==> Blank(s[i])
  }

  predicate LineBlanks(s: string) {
    forall i :: 0 <= i < |s| ==> LineBlank(s[i])
  }

  predicate AllIn(s: string, blanks: set<char>) {
    forall i :: 0 <= i < |s| ==> s[i] in blanks
  }

  lemma BlankSets()
    ensures forall c :: (c in FIELD_BLANKS <==> Blank(c)) && (c in LINE_BLANKS <==> LineBlank(c))
  {
  }

  // ------------------------------------------------------------ the fold

  /** Loading one list of lines after another is loading both at once. */
  lemma {:induction false} LoadJoins(c: Config, stoi: Stoi, a: seq<string>, b: seq<string>)
    ensures LoadLines(c, stoi, a + b) == LoadLines(LoadLines(c, stoi, a), stoi, b)
    decreases |a|
  {
    hide LoadLine;
    if a == [] {
      assert a + b == b;
    } else {
      assert (a + b)[1..] == a[1..] + b;
      LoadJoins(LoadLine(c, stoi, a[0]), stoi, a[1..], b);
    }
  }

  // ------------------------------------------------------------ trimming

  lemma {:induction false} TrimLeftBlanks(b: string, s: string, blanks: set<char>)
    requires AllIn(b, blanks)
    ensures TrimLeft(b + s, blanks) == TrimLeft(s, blanks)
  {
    if b == [] {
      assert b + s == s;
    } else {
      assert (b + s)[1..] == b[1..] + s;
      TrimLeftBlanks(b[1..], s, blanks);
    }
  }

  lemma {:induction false} TrimRightBlanks(s: string, b: string, blanks: set<char>)
    requires AllIn(b, blanks)
    ensures TrimRight(s + b, blanks) == TrimRight(s, blanks)
  {
    var n := |b|;
    if n == 0 {
      assert s + b == s;
    } else {
      assert (s + b)[..|s + b| - 1] == s + b[..n - 1];
      assert (s + b)[|s + b| - 1] == b[n - 1];
      TrimRightBlanks(s, b[..n - 1], blanks);
    }
  }

  /** Trimming on the left stops at a character that is not blank. */
  lemma {:induction false} TrimLeftStops(l: string, c: char, r: string, blanks: set<char>)
    requires c !in blanks
    ensures TrimLeft(l + [c] + r, blanks) == TrimLeft(l, blanks) + [c] + r
  {
    var s := l + [c] + r;
    if l == [] {
      assert s[0] == c;
      assert s == TrimLeft(l, blanks) + [c] + r;
    } else if l[0] in blanks {
      assert s[1..] == l[1..] + [c] + r;
      TrimLeftStops(l[1..], c, r, blanks);
    }
  }

  lemma {:induction false} TrimRightStops(l: string, c: char, r: string, blanks: set<char>)
    requires c !in blanks
    ensures TrimRight(l + [c] + r, blanks) == l + [c] + TrimRight(r, blanks)
  {
    var s := l + [c] + r;
    var n := |r|;
    if n == 0 {
      assert s == l + [c];
    } else if r[n - 1] in blanks {
      assert s[..|s| - 1] == l + [c] + r[..n - 1];
      TrimRightStops(l, c, r[..n - 1], blanks);
    }
  }

  /** key stands at the start of its line and before the '='. */
  predicate IsKey(key: string) {
    && '=' !in key && '#' !in key
    && (key != [] ==> !LineBlank(key[0]) && !Blank(key[|key| - 1]))
  }

  /** value stands after the '=' and at the end of its line. */
  predicate IsValue(value: string) {
    && '#' !in value
    && (value != [] ==> !Blank(value[0]) && !LineBlank(value[|value| - 1]))
  }

  lemma TrimKey(b1: string, key: string, b2: string)
    requires LineBlanks(b1) && Blanks(b2) && IsKey(key)
    ensures Trim(TrimLeft(b1 + key + b2, LINE_BLANKS), FIELD_BLANKS) == key
  {
    BlankSets();
    assert b1 + key + b2 == b1 + (key + b2);
    TrimLeftBlanks(b1, key + b2, LINE_BLANKS);
    if key == [] {
      assert key + b2 == b2 == b2 + [];
      TrimLeftBlanks(b2, [], LINE_BLANKS);
    } else {
      assert (key + b2)[0] == key[0];
      TrimRightBlanks(key, b2, FIELD_BLANKS);
    }
  }

  lemma TrimValue(b3: string, value: string, b4: string)
    requires Blanks(b3) && LineBlanks(b4) && IsValue(value)
    ensures Trim(TrimRight(b3 + value + b4, LINE_BLANKS), FIELD_BLANKS) == value
  {
    BlankSets();
    TrimRightBlanks(b3 + value, b4, LINE_BLANKS);
    if value == [] {
      assert b3 + value == b3 == [] + b3;
      TrimRightBlanks([], b3, LINE_BLANKS);
    } else {
      assert (b3 + value)[|b3 + value| - 1] == value[|value| - 1];
      TrimLeftBlanks(b3, value, FIELD_BLANKS);
    }
  }

  // ------------------------------------------------------------ lines

  lemma FindIs(s: string, c: char, n: nat)
    requires n <= |s| && c !in s[..n] && (n < |s| ==> s[n] == c)
    ensures Find(s, c) == n
  {
  }

  /** text is a line's content: nothing or a comment may follow it. */
  predicate Comment(tail: string) {
    tail == [] || tail[0] == '#'
  }

  lemma CutComment(text: string, tail: string)
    requires '#' !in text && Comment(tail)
    ensures (text + tail)[..Find(text + tail, '#')] == text
  {
    assert (text + tail)[..|text|] == text;
    FindIs(text + tail, '#', |text|);
  }

  /** Blank lines and comment lines change nothing. */
  lemma EmptyLine(c: Config, stoi: Stoi, blanks: string, tail: string)
    requires LineBlanks(blanks) && Comment(tail)
    ensures LoadLine(c, stoi, blanks + tail) == c
  {
    BlankSets();
    CutComment(blanks, tail);
    assert blanks + [] == blanks;
    TrimLeftBlanks(blanks, [], LINE_BLANKS);
  }

  /** A line without '=' changes nothing, whatever it says, and so does one whose only '=' is
      in a comment. */
  lemma LineWithoutSign(c: Config, stoi: Stoi, text: string, tail: string)
    requires '=' !in text && '#' !in text && Comment(tail)
    ensures LoadLine(c, stoi, text + tail) == c
  {
    CutComment(text, tail);
    TrimKeeps(text, LINE_BLANKS, '=');
    var trimmed := Trim(text, LINE_BLANKS);
    assert trimmed[..|trimmed|] == trimmed;
    FindIs(trimmed, '=', |trimmed|);
  }

  lemma TrimKeeps(s: string, blanks: set<char>, c: char)
    requires c !in s
    ensures c !in Trim(s, blanks)
  {
    TrimLeftKeeps(s, blanks, c);
    TrimRightKeeps(TrimLeft(s, blanks), blanks, c);
  }

  lemma {:induction false} TrimRightKeeps(s: string, blanks: set<char>, c: char)
    requires c !in s
    ensures c !in TrimRight(s, blanks)
  {
    if s != [] && s[|s| - 1] in blanks {
      TrimRightKeeps(s[..|s| - 1], blanks, c);
    }
  }

  /** Spaces and tabs around the key and the value, any blanks at the ends of the line, and
      a trailing comment never change what a setting does. */
  lemma SettingLine(c: Config, stoi: Stoi, b1: string, key: string, b2: string,
                    b3: string, value: string, b4: string, tail: string)
    requires LineBlanks(b1) && Blanks(b2) && Blanks(b3) && LineBlanks(b4)
    requires IsKey(key) && IsValue(value) && Comment(tail)
    ensures
      LoadLine(c, stoi, b1 + key + b2 + "=" + (b3 + value + b4) + tail) == Apply(c, stoi, key, value).0
  {
    hide Apply;
    BlankSets();
    var l, r := b1 + key + b2, b3 + value + b4;
    var text := l + "=" + r;
    CutComment(text, tail);
    TrimLeftStops(l, '=', r, LINE_BLANKS);
    var l', r' := TrimLeft(l, LINE_BLANKS), TrimRight(r, LINE_BLANKS);
    TrimRightStops(l', '=', r, LINE_BLANKS);
    var trimmed := l' + "=" + r';
    assert Trim(text, LINE_BLANKS) == trimmed;
    TrimLeftKeeps(l, LINE_BLANKS, '=');
    assert trimmed[..|l'|] == l' && trimmed[|l'| + 1..] == r';
    FindIs(trimmed, '=', |l'|);
    TrimKey(b1, key, b2);
    TrimValue(b3, value, b4);
  }

  lemma {:induction false} TrimLeftKeeps(s: string, blanks: set<char>, c: char)
    requires c !in s
    ensures c !in TrimLeft(s, blanks)
  {
    if s != [] && s[0] in blanks {
      TrimLeftKeeps(s[1..], blanks, c);
    }
  }

  // ------------------------------------------------------------ values

  /** Lower case, letter by letter. */
  lemma LowerCase(s: string)
    ensures |ToLower(s)| == |s|
    ensures forall i :: 0 <= i < |s| ==>
      ToLower(s)[i] as int == if 65 <= s[i] as int <= 90 then s[i] as int + 32 else s[i] as int
  {
  }

  predicate SameLetters(s: string, lower: string) {
    && |s| == |lower|
    && forall i :: 0 <= i < |s| ==>
      lower[i] as int == if 65 <= s[i] as int <= 90 then s[i] as int + 32 else s[i] as int
  }

  lemma LowerIs(s: string, lower: string)
    ensures SameLetters(s, lower) <==> ToLower(s) == lower
  {
    LowerCase(s);
    if SameLetters(s, lower) {
      assert forall i :: 0 <= i < |s| ==> ToLower(s)[i] as int == lower[i] as int;
    }
  }

  /** In upper or lower case, one of the five levels. */
  predicate IsLevel(value: string) {
    || SameLetters(value, "debug") || SameLetters(value, "info") || SameLetters(value, "warning")
    || SameLetters(value, "error") || SameLetters(value, "fatal")
  }

  predicate IsYes(value: string) {
    SameLetters(value, "true") || SameLetters(value, "1") || SameLetters(value, "yes")
  }

  lemma ValueSets(value: string)
    ensures ToLower(value) in LOG_LEVELS <==> IsLevel(value)
    ensures ToLower(value) in YES <==> IsYes(value)
  {
    hide ToLower, SameLetters;
    LowerIs(value, "debug");
    LowerIs(value, "info");
    LowerIs(value, "warning");
    LowerIs(value, "error");
    LowerIs(value, "fatal");
    LowerIs(value, "true");
    LowerIs(value, "1");
    LowerIs(value, "yes");
  }

  /** Which settings are reported as valid. */
  lemma ReportedValid(c: Config, stoi: Stoi, key: string, value: string)
    ensures
      Apply(c, stoi, key, value).1 <==>
      || key == "community" || key == "enable_ipv6" || key == "enable_trap"
      || (key == "log_level" && IsLevel(value))
      || (key in {"port", "trap_port"} && stoi(value).Some? && stoi(value).value % 65536 != 0)
      || (key in {"max_connections", "timeout_seconds"} && stoi(value).Some? && stoi(value).value != 0)
  {
    hide ToLower, IsLevel;
    ValueSets(value);
  }

  // ------------------------------------------------------------ whole files

  /** The line sets the field named key to a number. */
  predicate SetsNumber(stoi: Stoi, line: string, key: string) {
    var r := ReadLine(line);
    r.Setting? && r.key == key && stoi(r.value).Some?
  }

  function Number(stoi: Stoi, line: string, key: string): Int32
    requires SetsNumber(stoi, line, key)
  {
    stoi(ReadLine(line).value).value
  }

  predicate IsLastNumber(stoi: Stoi, lines: seq<string>, key: string, i: nat)
    requires i < |lines|
  {
    SetsNumber(stoi, lines[i], key) && forall j :: i < j < |lines| ==> !SetsNumber(stoi, lines[j], key)
  }

  lemma LineEffect(c: Config, stoi: Stoi, line: string)
    ensures
      var next := LoadLine(c, stoi, line);
      && next.port == (if SetsNumber(stoi, line, "port") then Number(stoi, line, "port") % 0x1_0000 else c.port)
      && next.trapPort ==
         (if SetsNumber(stoi, line, "trap_port") then Number(stoi, line, "trap_port") % 0x1_0000 else c.trapPort)
      && (c.logLevel in LOG_LEVELS ==> next.logLevel in LOG_LEVELS)
  {
    hide ReadLine, ToLower;
  }

  lemma {:induction false} PortUntouched(c: Config, stoi: Stoi, lines: seq<string>)
    ensures (forall i :: 0 <= i < |lines| ==> !SetsNumber(stoi, lines[i], "port")) ==>
      LoadLines(c, stoi, lines).port == c.port
    ensures (forall i :: 0 <= i < |lines| ==> !SetsNumber(stoi, lines[i], "trap_port")) ==>
      LoadLines(c, stoi, lines).trapPort == c.trapPort
    decreases |lines|
  {
    if lines != [] {
      hide LoadLine, SetsNumber, Number;
      LineEffect(c, stoi, lines[0]);
      assert forall i :: 0 <= i < |lines| - 1 ==> lines[1..][i] == lines[i + 1];
      PortUntouched(LoadLine(c, stoi, lines[0]), stoi, lines[1..]);
    }
  }

  /** The port of a loaded configuration is the low sixteen bits of the last number a port
      line gives, in range or not, reported as invalid or not; lines for other keys and
      lines whose number cannot be read do not matter. */
  lemma {:induction false} FinalPort(c: Config, stoi: Stoi, lines: seq<string>, i: nat)
    requires i < |lines|
    ensures IsLastNumber(stoi, lines, "port", i) ==>
      LoadLines(c, stoi, lines).port == Number(stoi, lines[i], "port") % 0x1_0000
    ensures IsLastNumber(stoi, lines, "trap_port", i) ==>
      LoadLines(c, stoi, lines).trapPort == Number(stoi, lines[i], "trap_port") % 0x1_0000
    decreases |lines|
  {
    hide LoadLine, SetsNumber, Number;
    var next := LoadLine(c, stoi, lines[0]);
    LineEffect(c, stoi, lines[0]);
    assert forall j :: 0 <= j < |lines| - 1 ==> lines[1..][j] == lines[j + 1];
    if i == 0 {
      PortUntouched(next, stoi, lines[1..]);
    } else {
      FinalPort(next, stoi, lines[1..], i - 1);
    }
  }

  // What a field holds after a setting: the content, if the setting has one and the field
  // is its own.
  function Stored<T>(own: bool, content: Option<T>, held: T): T {
    if own && content.Some? then content.value else held
  }

  function Low16(n: Option<Int32>): Option<UInt16> {
    if n.Some? then Some(n.value % 0x1_0000) else None
  }

  function Low32(n: Option<Int32>): Option<UInt32> {
    if n.Some? then Some((n.value as int) % 0x1_0000_0000) else None
  }

  function Level(value: string): Option<string> {
    if IsLevel(value) then Some(ToLower(value)) else None
  }

  /** A setting changes the field it names and no other. */
  lemma OwnFieldOnly(c: Config, stoi: Stoi, key: string, value: string)
    ensures
      Apply(c, stoi, key, value).0 == Config(
        Stored(key == "port", Low16(stoi(value)), c.port),
        Stored(key == "community", Some(value), c.community),
        Stored(key == "max_connections", Low32(stoi(value)), c.maxConnections),
        Stored(key == "timeout_seconds", Low32(stoi(value)), c.timeoutSeconds),
        Stored(key == "log_level", Level(value), c.logLevel),
        Stored(key == "enable_ipv6", Some(IsYes(value)), c.ipv6),
        Stored(key == "enable_trap", Some(IsYes(value)), c.trap),
        Stored(key == "trap_port", Low16(stoi(value)), c.trapPort))
  {
    hide ToLower, IsLevel, IsYes;
    ValueSets(value);
  }

  /** Settings of different keys do not interfere. */
  lemma SettingsCommute(c: Config, stoi: Stoi, k1: string, v1: string, k2: string, v2: string)
    requires k1 != k2
    ensures
      Apply(Apply(c, stoi, k1, v1).0, stoi, k2, v2).0 == Apply(Apply(c, stoi, k2, v2).0, stoi, k1, v1).0
  {
    hide Apply, ToLower, Level, Low16, Low32;
    var c1, c2 := Apply(c, stoi, k1, v1).0, Apply(c, stoi, k2, v2).0;
    OwnFieldOnly(c, stoi, k1, v1);
    OwnFieldOnly(c, stoi, k2, v2);
    OwnFieldOnly(c1, stoi, k2, v2);
    OwnFieldOnly(c2, stoi, k1, v1);
  }

  /** Two neighbouring lines may change places unless they set the same key. */
  lemma LinesSwap(c: Config, stoi: Stoi, before: seq<string>, l1: string, l2: string, after: seq<string>)
    requires
      var r1, r2 := ReadLine(l1), ReadLine(l2);
      r1.Setting? && r2.Setting? ==> r1.key != r2.key
    ensures LoadLines(c, stoi, before + [l1, l2] + after) == LoadLines(c, stoi, before + [l2, l1] + after)
  {
    hide Apply, ReadLine;
    var here := LoadLines(c, stoi, before);
    LoadJoins(c, stoi, before + [l1, l2], after);
    LoadJoins(c, stoi, before + [l2, l1], after);
    LoadJoins(c, stoi, before, [l1, l2]);
    LoadJoins(c, stoi, before, [l2, l1]);
    TwoLines(here, stoi, l1, l2);
    TwoLines(here, stoi, l2, l1);
    var r1, r2 := ReadLine(l1), ReadLine(l2);
    if r1.Setting? && r2.Setting? {
      SettingsCommute(here, stoi, r1.key, r1.value, r2.key, r2.value);
    }
  }

  lemma TwoLines(c: Config, stoi: Stoi, l1: string, l2: string)
    ensures LoadLines(c, stoi, [l1, l2]) == LoadLine(LoadLine(c, stoi, l1), stoi, l2)
  {
    hide LoadLine;
    assert [l1, l2][1..] == [l2] && [l2][1..] == [];
    var here := LoadLine(c, stoi, l1);
    assert LoadLines(here, stoi, [l2]) == LoadLines(LoadLine(here, stoi, l2), stoi, []);
  }

  /** Whatever the file, the log level stays one of the five names. */
  lemma {:induction false} LogLevelLegal(c: Config, stoi: Stoi, lines: seq<string>)
    requires c.logLevel in LOG_LEVELS
    ensures LoadLines(c, stoi, lines).logLevel in LOG_LEVELS
    decreases |lines|
  {
    if lines != [] {
      hide LoadLine;
      LineEffect(c, stoi, lines[0]);
      LogLevelLegal(LoadLine(c, stoi, lines[0]), stoi, lines[1..]);
    }
  }

  // ------------------------------------------------------------ what validation misses

  /** The range check of the two ports sees the number only after it was cut to sixteen
      bits: the line is reported as valid exactly when its number is not a multiple of
      65536, which is the range 1 to 65535 that was meant exactly for numbers in it or
      reported. */
  lemma PortCheck(c: Config, stoi: Stoi, key: string, value: string)
    requires key == "port" || key == "trap_port"
    requires stoi(value).Some?
    ensures
      var n := stoi(value).value;
      var (after, valid) := Apply(c, stoi, key, value);
      && (key == "port" ==> after.port == n % 0x1_0000)
      && (key == "trap_port" ==> after.trapPort == n % 0x1_0000)
      && (valid <==> n % 0x1_0000 != 0)
      && ((valid <==> 1 <= n <= 65535) <==> 1 <= n <= 65535 || n % 0x1_0000 == 0)
      && (n == 65537 ==> valid && n % 0x1_0000 == 1)
  {
  }

  /** The test against 1 of the two 32-bit settings sees the number only after it became
      unsigned: the line is reported as valid exactly when its number is not 0, which
      differs from the "at least 1" that was meant exactly for negative numbers. */
  lemma CountCheck(c: Config, stoi: Stoi, key: string, value: string)
    requires key == "max_connections" || key == "timeout_seconds"
    requires stoi(value).Some?
    ensures
      var n := stoi(value).value;
      var (after, valid) := Apply(c, stoi, key, value);
      && (key == "max_connections" ==> after.maxConnections == (n as int) % 0x1_0000_0000)
      && (key == "timeout_seconds" ==> after.timeoutSeconds == (n as int) % 0x1_0000_0000)
      && (valid <==> n != 0)
      && ((valid <==> n >= 1) <==> n >= 0)
      && (n == -1 ==> valid && (n as int) % 0x1_0000_0000 == 4294967295)
  {
  }

  /** A setting that is reported as invalid has changed the configuration exactly when it is
      one of the four numbers, was read, and left a zero where there was none. */
  lemma InvalidYetStored(c: Config, stoi: Stoi, key: string, value: string)
    requires !Apply(c, stoi, key, value).1
    ensures Apply(c, stoi, key, value).0 != c <==>
      && stoi(value).Some?
      && (|| (key == "port" && c.port != 0) || (key == "trap_port" && c.trapPort != 0)
          || (key == "max_connections" && c.maxConnections != 0)
          || (key == "timeout_seconds" && c.timeoutSeconds != 0))
  {
  }
}
