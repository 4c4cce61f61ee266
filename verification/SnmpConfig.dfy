/** The configuration loader: a line-by-line fold that edits the line, the key and the
    value in place. */
module SnmpConfig {
  import opened Octets

  type Int32 = n: int | -0x8000_0000 <= n < 0x8000_0000

  // std::stoi: the number a string starts with, or none where it throws.
  type Stoi = string -> Option<Int32>

  datatype Config = Config(
    port: UInt16,
    community: string,
    maxConnections: UInt32,
    timeoutSeconds: UInt32,
    logLevel: string,
    ipv6: bool,
    trap: bool,
    trapPort: UInt16)

  const LINE_BLANKS: set<char> := {' ', '\t', '\r', '\n'}
  const FIELD_BLANKS: set<char> := {' ', '\t'}

  const LOG_LEVELS: set<string> := {"debug", "info", "warning", "error", "fatal"}
  const YES: set<string> := {"true", "1", "yes"}

  // ------------------------------------------------------------ strings

  /** Where c first occurs in s, |s| for npos. */
  function Find(s: string, c: char): (n: nat)
    ensures n <= |s|
    ensures c !in s[..n] && (n < |s| ==> s[n] == c)
  {
    if s == [] || s[0] == c then 0 else 1 + Find(s[1..], c)
  }

  /** s.erase(0, s.find_first_not_of(blanks)) */
  function TrimLeft(s: string, blanks: set<char>): string {
    if s != [] && s[0] in blanks then TrimLeft(s[1..], blanks) else s
  }

  /** s.erase(s.find_last_not_of(blanks) + 1) */
  function TrimRight(s: string, blanks: set<char>): string {
    if s != [] && s[|s| - 1] in blanks then TrimRight(s[..|s| - 1], blanks) else s
  }

  function Trim(s: string, blanks: set<char>): string {
    TrimRight(TrimLeft(s, blanks), blanks)
  }

  function ToLower(s: string): string {
    seq(|s|, i requires 0 <= i < |s| => if 'A' <= s[i] <= 'Z' then s[i] - 'A' + 'a' else s[i])
  }

  // ------------------------------------------------------------ one line

  // What a line says: nothing, something without '=', or a key and a value.
  datatype Line = Nothing | Malformed | Setting(key: string, value: string)

  function ReadLine(line: string): Line {
    var text := Trim(line[..Find(line, '#')], LINE_BLANKS);
    if text == [] then Nothing
    else
      var at := Find(text, '=');
      if at == |text| then Malformed
      else Setting(Trim(text[..at], FIELD_BLANKS), Trim(text[at + 1..], FIELD_BLANKS))
  }

  /** The configuration after a setting, and whether it is reported as valid. */
  function Apply(c: Config, stoi: Stoi, key: string, value: string): (Config, bool) {
    if key == "port" then
      match stoi(value)
      case None => (c, false)
      case Some(n) => (c.(port := n % 0x1_0000), n % 0x1_0000 != 0)
    else if key == "community" then (c.(community := value), true)
    else if key == "max_connections" then
      match stoi(value)
      case None => (c, false)
      case Some(n) => (c.(maxConnections := n % 0x1_0000_0000), n % 0x1_0000_0000 != 0)
    else if key == "timeout_seconds" then
      match stoi(value)
      case None => (c, false)
      case Some(n) => (c.(timeoutSeconds := n % 0x1_0000_0000), n % 0x1_0000_0000 != 0)
    else if key == "log_level" then
      if ToLower(value) in LOG_LEVELS then (c.(logLevel := ToLower(value)), true) else (c, false)
    else if key == "enable_ipv6" then (c.(ipv6 := ToLower(value) in YES), true)
    else if key == "enable_trap" then (c.(trap := ToLower(value) in YES), true)
    else if key == "trap_port" then
      match stoi(value)
      case None => (c, false)
      case Some(n) => (c.(trapPort := n % 0x1_0000), n % 0x1_0000 != 0)
    else (c, false)
  }

  function LoadLine(c: Config, stoi: Stoi, line: string): Config {
    match ReadLine(line)
    case Setting(key, value) => Apply(c, stoi, key, value).0
    case _ => c
  }

  function LoadLines(c: Config, stoi: Stoi, lines: seq<string>): Config
    decreases |lines|
  {
    if lines == [] then c else LoadLines(LoadLine(c, stoi, lines[0]), stoi, lines[1..])
  }

  // ------------------------------------------------------------ the object

  class SNMPConfig {
    var port: UInt16
    var community: string
    var maxConnections: UInt32
    var timeoutSeconds: UInt32
    var logLevel: string
    var ipv6: bool
    var trap: bool
    var trapPort: UInt16

    ghost function Value(): Config
      reads this
    {
      Config(port, community, maxConnections, timeoutSeconds, logLevel, ipv6, trap, trapPort)
    }

    constructor ()
      ensures Value() == Config(161, "public", 100, 30, "info", true, false, 162)
    {
      port, community, maxConnections, timeoutSeconds := 161, "public", 100, 30;
      logLevel, ipv6, trap, trapPort := "info", true, false, 162;
    }

    method ParseConfigValue(stoi: Stoi, key: string, value: string) returns (ok: bool)
      modifies this
      ensures (Value(), ok) == Apply(old(Value()), stoi, key, value)
    {
      hide ToLower;
      ok := true;
      if key == "port" {
        var n := stoi(value);
        if n.None? {
          return false;
        }
        port := n.value % 0x1_0000;
        if port < 1 || port > 65535 {
          return false;
        }
      } else if key == "community" {
        community := value;
      } else if key == "max_connections" {
        var n := stoi(value);
        if n.None? {
          return false;
        }
        maxConnections := (n.value as int) % 0x1_0000_0000;
        if maxConnections < 1 {
          return false;
        }
      } else if key == "timeout_seconds" {
        var n := stoi(value);
        if n.None? {
          return false;
        }
        timeoutSeconds := (n.value as int) % 0x1_0000_0000;
        if timeoutSeconds < 1 {
          return false;
        }
      } else if key == "log_level" {
        var level := ToLower(value);
        if level == "debug" || level == "info" || level == "warning" || level == "error" || level == "fatal" {
          logLevel := level;
        } else {
          return false;
        }
      } else if key == "enable_ipv6" {
        var text := ToLower(value);
        ipv6 := text == "true" || text == "1" || text == "yes";
      } else if key == "enable_trap" {
        var text := ToLower(value);
        trap := text == "true" || text == "1" || text == "yes";
      } else if key == "trap_port" {
        var n := stoi(value);
        if n.None? {
          return false;
        }
        trapPort := n.value % 0x1_0000;
        if trapPort < 1 || trapPort > 65535 {
          return false;
        }
      } else {
        return false;
      }
    }

    /** file is the file's lines, None when it cannot be opened. */
    method Load(stoi: Stoi, file: Option<seq<string>>) returns (ok: bool)
      modifies this
      ensures ok == file.Some?
      ensures Value() == if file.Some? then LoadLines(old(Value()), stoi, file.value) else old(Value())
    {
      hide Apply;
      if file.None? {
        return false;
      }
      var lines := file.value;
      var i := 0;
      while i < |lines|
        invariant 0 <= i <= |lines|
        invariant LoadLines(Value(), stoi, lines[i..]) == LoadLines(old(Value()), stoi, lines)
      {
        var line := lines[i];
        assert lines[i..][0] == line && lines[i..][1..] == lines[i + 1..];
        i := i + 1;

        var commentPos := Find(line, '#');
        line := line[..commentPos];
        line := TrimLeft(line, LINE_BLANKS);
        line := TrimRight(line, LINE_BLANKS);
        if line == [] {
          continue;
        }
        var equalPos := Find(line, '=');
        if equalPos == |line| {
          continue;
        }
        var key := line[..equalPos];
        var value := line[equalPos + 1..];
        key := TrimLeft(key, FIELD_BLANKS);
        key := TrimRight(key, FIELD_BLANKS);
        value := TrimLeft(value, FIELD_BLANKS);
        value := TrimRight(value, FIELD_BLANKS);
        var valid := ParseConfigValue(stoi, key, value);
      }
      ok := true;
    }
  }
}
