/** The client's and server's configuration: a host and a port, read from `Key: value` lines of
    the file zerochat.cfg over a set of defaults, and written back in the same form. The file
    system is a parameter: the file's text when it could be opened, None when it could not. */
module Config {
  import opened Common
  import Strings

  datatype Config = Config(host: string, port: string)

  const DefaultClientHost := "localhost"
  const DefaultClientPort := "8080"
  const DefaultServerHost := "0.0.0.0"
  const DefaultServerPort := "8080"

  /** DefaultClientConfig. */
  function DefaultClientConfig(): (c: Config)
    ensures c.host == "localhost" && c.port == "8080"
  {
    Config(DefaultClientHost, DefaultClientPort)
  }

  /** DefaultServerConfig: listens on every interface. */
  function DefaultServerConfig(): (c: Config)
    ensures c.host == "0.0.0.0" && c.port == "8080"
  {
    Config(DefaultServerHost, DefaultServerPort)
  }

  /** The value of a field, by the field's name. */
  function Get(c: Config, key: string): string
    requires key == "Host" || key == "Port"
  {
    if key == "Host" then c.host else c.port
  }

  // ---------------------------------------------------------------------------------------
  // Lines of a file, as bufio.Scanner with its default split function yields them
  // ---------------------------------------------------------------------------------------

  /** A line without its carriage return, as the scanner drops it. */
  function DropCR(line: string): string
  {
    if |line| > 0 && line[|line| - 1] == '\r' then line[..|line| - 1] else line
  }

  /** The lines of a text: split at each newline, a final newline does not start another line,
      and a carriage return before a newline is dropped. */
  function ScanLines(text: string): (lines: seq<string>)
    ensures forall i :: 0 <= i < |lines| ==> '\n' !in lines[i]
    ensures text == "" ==> lines == []
  {
    var parts := Strings.Split(text, '\n');
    var pieces := if parts[|parts| - 1] == "" then parts[..|parts| - 1] else parts;
    seq(|pieces|, i requires 0 <= i < |pieces| => DropCR(pieces[i]))
  }

  /** Lines fit to be scanned back: no newline in them and no carriage return at their end. */
  predicate Scannable(lines: seq<string>)
  {
    forall i :: 0 <= i < |lines| ==> '\n' !in lines[i] && (lines[i] == "" || lines[i][|lines[i]| - 1] != '\r')
  }

  /** Scanning the lines written one after the other, each ended by a newline, gives them back. */
  lemma ScanWritten(lines: seq<string>)
    requires |lines| > 0 && Scannable(lines)
    ensures ScanLines(Strings.Join(lines + [""], "\n")) == lines
  {
    var all := lines + [""];
    assert forall i :: 0 <= i < |all| ==> '\n' !in all[i];
    Strings.SplitJoin(all, '\n');
    var parts := Strings.Split(Strings.Join(all, "\n"), '\n');
    assert parts == all;
    assert parts[..|parts| - 1] == lines;
    forall i | 0 <= i < |lines|
      ensures DropCR(lines[i]) == lines[i]
    {
    }
  }

  // ---------------------------------------------------------------------------------------
  // ReadConfig
  // ---------------------------------------------------------------------------------------

  /** A line read as a setting: the trimmed key and trimmed value when the line splits at ':'
      into exactly two parts. */
  function Entry(line: string): (r: Option<(string, string)>)
    ensures r.Some? <==> Strings.Count(line, ':') == 1
    ensures r.Some? ==>
      exists i :: 0 <= i < |line| && line[i] == ':' && r.value == (Strings.TrimSpace(line[..i]), Strings.TrimSpace(line[i + 1..]))
    ensures r.Some? ==> Strings.Trimmed(r.value.0) && Strings.Trimmed(r.value.1)
  {
    var parts := Strings.Split(line, ':');
    if |parts| != 2 then None
    else
      Strings.SplitTwo(line, ':');
      Some((Strings.TrimSpace(parts[0]), Strings.TrimSpace(parts[1])))
  }

  /** The line sets the field named `key`. */
  predicate Sets(line: string, key: string)
  {
    Entry(line).Some? && Entry(line).value.0 == key
  }

  /** One turn of ReadConfig's loop: a setting whose key names a field (Host or Port) sets that
      field; a line of the wrong form, or with any other key, is skipped. */
  function ApplyLine(c: Config, line: string): (r: Config)
    ensures r.host == c.host || r.port == c.port
    ensures !Sets(line, "Host") && !Sets(line, "Port") ==> r == c
  {
    match Entry(line)
    case None => c
    case Some((key, value)) =>
      if key == "Host" then c.(host := value)
      else if key == "Port" then c.(port := value)
      else c
  }

  /** The configuration after the lines, one by one, over `c`: each field keeps its value or
      takes the value of a line that sets it. */
  function ApplyLines(c: Config, lines: seq<string>): (r: Config)
    ensures r.host == c.host || exists i :: 0 <= i < |lines| && Sets(lines[i], "Host") && r.host == Entry(lines[i]).value.1
    ensures r.port == c.port || exists i :: 0 <= i < |lines| && Sets(lines[i], "Port") && r.port == Entry(lines[i]).value.1
  {
    if lines == [] then c
    else ApplyLine(ApplyLines(c, lines[..|lines| - 1]), lines[|lines| - 1])
  }

  /** One line changes the field named `key` exactly when it sets it, and then to its value. */
  lemma ApplyLineGet(c: Config, line: string, key: string)
    requires key == "Host" || key == "Port"
    ensures Sets(line, key) ==> Get(ApplyLine(c, line), key) == Entry(line).value.1
    ensures !Sets(line, key) ==> Get(ApplyLine(c, line), key) == Get(c, key)
  {
  }

  /** A field no line sets keeps the value it had. */
  lemma {:induction false} NoLineSets(c: Config, lines: seq<string>, key: string)
    requires key == "Host" || key == "Port"
    requires forall i :: 0 <= i < |lines| ==> !Sets(lines[i], key)
    ensures Get(ApplyLines(c, lines), key) == Get(c, key)
  {
    if lines != [] {
      var init := lines[..|lines| - 1];
      NoLineSets(c, init, key);
      ApplyLineGet(ApplyLines(c, init), lines[|lines| - 1], key);
    }
  }

  /** A field takes the value of the last line that sets it. */
  lemma {:induction false} LastLineWins(c: Config, lines: seq<string>, key: string, i: nat)
    requires key == "Host" || key == "Port"
    requires i < |lines| && Sets(lines[i], key)
    requires forall j :: i < j < |lines| ==> !Sets(lines[j], key)
    ensures Get(ApplyLines(c, lines), key) == Entry(lines[i]).value.1
  {
    var init := lines[..|lines| - 1];
    var last := lines[|lines| - 1];
    ApplyLineGet(ApplyLines(c, init), last, key);
    if i < |lines| - 1 {
      assert init[i] == lines[i];
      LastLineWins(c, init, key, i);
    }
  }

  lemma ApplyLinesNext(c: Config, lines: seq<string>, i: nat)
    requires i < |lines|
    ensures ApplyLines(c, lines[..i + 1]) == ApplyLine(ApplyLines(c, lines[..i]), lines[i])
  {
    assert lines[..i + 1][..i] == lines[..i];
  }

  /** ReadConfig: when the file cannot be opened, the defaults are written to it (`created`) and
      returned; otherwise its lines are applied to the defaults, one by one. */
  method ReadConfig(defaults: Config, file: Option<string>) returns (cfg: Config, created: Option<string>)
    ensures file.None? ==> cfg == defaults && created == Some(Rendered(defaults))
    ensures file.Some? ==> cfg == ApplyLines(defaults, ScanLines(file.value)) && created == None
  {
    if file.None? {
      var text := WriteConfig(defaults);
      return defaults, Some(text);
    }
    created := None;
    var lines := ScanLines(file.value);
    cfg := defaults;
    var i := 0;
    while i < |lines|
      invariant 0 <= i <= |lines|
      invariant cfg == ApplyLines(defaults, lines[..i])
    {
      ApplyLinesNext(defaults, lines, i);
      var parts := Strings.Split(lines[i], ':');
      if |parts| == 2 {
        var search := Strings.TrimSpace(parts[0]);
        if search == "Host" {
          cfg := cfg.(host := Strings.TrimSpace(parts[1]));
        } else if search == "Port" {
          cfg := cfg.(port := Strings.TrimSpace(parts[1]));
        }
      }
      i := i + 1;
    }
    assert lines[..i] == lines;
  }

  // ---------------------------------------------------------------------------------------
  // WriteConfig
  // ---------------------------------------------------------------------------------------

  /** The fields of a Config, by name, in declaration order. */
  function Fields(c: Config): seq<(string, string)>
  {
    [("Host", c.host), ("Port", c.port)]
  }

  /** The line WriteConfig emits for a field. */
  function FieldLine(name: string, value: string): string
  {
    name + ": " + value
  }

  /** The text of a configuration file: the `Host` line, then the `Port` line, each ended by a
      newline. */
  function Rendered(c: Config): (text: string)
    ensures text == "Host: " + c.host + "\nPort: " + c.port + "\n"
  {
    var written := [FieldLine("Host", c.host), FieldLine("Port", c.port), ""];
    assert Strings.Join(written[1..], "\n") == FieldLine("Port", c.port) + "\n" + "";
    Strings.Join(written, "\n")
  }

  /** The text written for some fields: each field's line, ended by a newline. */
  function LinesOf(fields: seq<(string, string)>): string
  {
    if fields == [] then "" else LinesOf(fields[..|fields| - 1]) + FieldLine(fields[|fields| - 1].0, fields[|fields| - 1].1) + "\n"
  }

  /** WriteConfig: one `Name: value` line per field, in the order the fields are declared. */
  method WriteConfig(c: Config) returns (text: string)
    ensures text == "Host: " + c.host + "\nPort: " + c.port + "\n"
    ensures text == Rendered(c)
  {
    var fields := Fields(c);
    text := "";
    var i := 0;
    while i < |fields|
      invariant 0 <= i <= |fields|
      invariant text == LinesOf(fields[..i])
    {
      assert fields[..i + 1][..i] == fields[..i];
      text := text + FieldLine(fields[i].0, fields[i].1) + "\n";
      i := i + 1;
    }
    assert fields[..1][..0] == [] && fields[..2][..1] == fields[..1] && fields[..2] == fields;
  }

  /** A value that reads back as itself: no ':' or newline in it and no white space around it. */
  predicate Writable(v: string)
  {
    ':' !in v && '\n' !in v && Strings.Trimmed(v)
  }

  /** The line written for a writable value reads back as the setting of that field. */
  lemma FieldLineEntry(name: string, v: string)
    requires name == "Host" || name == "Port"
    requires Writable(v)
    ensures Entry(FieldLine(name, v)) == Some((name, v))
  {
    var blank := [' '] + v;
    var line := FieldLine(name, v);
    assert line == name + [':'] + blank;
    Strings.SplitAtSep(name, ':', blank);
    Strings.SplitNoSep(blank, ':');
    assert Strings.Split(line, ':') == [name, blank];
    Strings.BlankThenTrimmed(v);
    assert Strings.Trimmed(name);
  }

  /** The written text scans back as the two field lines. */
  lemma RenderedScans(c: Config)
    requires Writable(c.host) && Writable(c.port)
    ensures ScanLines(Rendered(c)) == [FieldLine("Host", c.host), FieldLine("Port", c.port)]
  {
    var lines := [FieldLine("Host", c.host), FieldLine("Port", c.port)];
    assert lines + [""] == [FieldLine("Host", c.host), FieldLine("Port", c.port), ""];
    assert Scannable(lines) by {
      assert FieldLine("Host", c.host) == "Host: " + c.host;
      assert FieldLine("Port", c.port) == "Port: " + c.port;
    }
    ScanWritten(lines);
  }

  /** Applying a written line sets its field to the written value. */
  lemma ApplyFieldLine(d: Config, name: string, v: string)
    requires name == "Host" || name == "Port"
    requires Writable(v)
    ensures ApplyLine(d, FieldLine(name, v)) == if name == "Host" then d.(host := v) else d.(port := v)
  {
    FieldLineEntry(name, v);
  }

  /** Reading back what WriteConfig wrote gives the same configuration, whatever the defaults,
      when neither value holds ':' or a newline or surrounding white space. */
  lemma RoundTrip(c: Config, defaults: Config)
    requires Writable(c.host) && Writable(c.port)
    ensures ApplyLines(defaults, ScanLines(Rendered(c))) == c
  {
    var lines := [FieldLine("Host", c.host), FieldLine("Port", c.port)];
    RenderedScans(c);
    var first := defaults.(host := c.host);
    ApplyFieldLine(defaults, "Host", c.host);
    ApplyFieldLine(first, "Port", c.port);
    assert lines[..1] == [lines[0]];
    assert [lines[0]][..0] == [];
    assert ApplyLines(defaults, [lines[0]]) == first;
  }
}
