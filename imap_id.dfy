/**
 * benchmark/imap_id: the operating-system name and version the client
 * sends in the IMAP ID command (RFC 2971). The platform (runtime.GOOS) and
 * the output of the commands it runs are inputs.
 */
module ImapId {
  import opened Wrappers
  import opened GoStrings

  const Unsupported: string := "unsupported platform"
  const NoDistribution: string := "could not determine Linux distribution name"
  const NamePrefix: string := "NAME="

  /** A command exec.Command would run: the program and its arguments. */
  datatype Command = Command(name: string, args: seq<string>)

  const CatOsRelease: Command := Command("cat", ["/etc/os-release"])

  /** The command's standard output, or the error Output returns. */
  type Runner = Command -> Result<string, string>

  // ---------------------------------------------------------------- bufio.ScanLines

  /** The index of the first line feed, if any. */
  function IndexOfNewline(s: string): (r: Option<nat>)
    ensures r.Some? ==> r.value < |s| && s[r.value] == '\n' && forall k :: 0 <= k < r.value ==> s[k] != '\n'
    ensures r.None? ==> forall k :: 0 <= k < |s| ==> s[k] != '\n'
    decreases |s|
  {
    if s == [] then None
    else if s[0] == '\n' then Some(0)
    else match IndexOfNewline(s[1..])
      case None => None
      case Some(i) => Some(i + 1)
  }

  /** One carriage return is dropped from the end of each line. */
  function DropCR(s: string): string {
    if |s| > 0 && s[|s| - 1] == '\r' then s[..|s| - 1] else s
  }

  /**
   * The tokens a bufio.Scanner with ScanLines yields: the text between line
   * feeds, each without a final carriage return; a last line without a
   * line feed still counts, but an empty one after a final line feed does not.
   */
  function Lines(s: string): (lines: seq<string>)
    ensures forall i, k :: 0 <= i < |lines| && 0 <= k < |lines[i]| ==> lines[i][k] != '\n'
    ensures s != [] <==> lines != []
    decreases |s|
  {
    if s == [] then []
    else
      match IndexOfNewline(s)
      case None => [DropCR(s)]
      case Some(i) => [DropCR(s[..i])] + Lines(s[i + 1..])
  }

  /** Lines joined back with line feeds. */
  function Join(lines: seq<string>): string
    decreases |lines|
  {
    if lines == [] then ""
    else if |lines| == 1 then lines[0]
    else lines[0] + "\n" + Join(lines[1..])
  }

  /** No carriage return anywhere in s. */
  predicate NoCR(s: string) {
    forall k :: 0 <= k < |s| ==> s[k] != '\r'
  }

  /** A slice of a string without carriage returns has none either. */
  lemma NoCRSlice(s: string, lo: nat, hi: nat)
    requires lo <= hi <= |s| && NoCR(s)
    ensures NoCR(s[lo..hi])
  {
    forall k | 0 <= k < hi - lo ensures s[lo..hi][k] != '\r' {
      assert s[lo..hi][k] == s[lo + k];
    }
  }

  /** Output without a line feed is one line, kept whole when it has no carriage return. */
  lemma OneLine(s: string)
    requires s != [] && NoCR(s) && IndexOfNewline(s).None?
    ensures Join(Lines(s)) == s && s[|s| - 1] != '\n'
  {
    assert s[|s| - 1] != '\r';
    assert Lines(s) == [s];
  }

  /** The line before the first line feed, then the lines after it. */
  lemma LinesSplit(s: string, i: nat)
    requires s != [] && IndexOfNewline(s) == Some(i) && NoCR(s[..i])
    ensures Lines(s) == [s[..i]] + Lines(s[i + 1..])
  {
    var line := s[..i];
    assert DropCR(line) == line by {
      assert line == [] || line[|line| - 1] != '\r';
    }
  }

  /** A string is what comes before a line feed in it, the line feed, and what follows. */
  lemma SplitAround(s: string, i: nat)
    requires i < |s| && s[i] == '\n'
    ensures s == s[..i] + "\n" + s[i + 1..]
  {
  }

  /** Joining a line in front of at least one more puts a line feed between them. */
  lemma JoinCons(line: string, lines: seq<string>)
    requires lines != []
    ensures Join([line] + lines) == line + "\n" + Join(lines)
  {
    assert ([line] + lines)[1..] == lines;
  }

  /** The final line feed the scanner drops, if there is one. */
  function FinalNewline(s: string): string {
    if s != [] && s[|s| - 1] == '\n' then "\n" else ""
  }

  /** Putting a line and a line feed back in front of a rebuilt rest rebuilds the whole. */
  lemma Reassemble(s: string, line: string, rest: string, joined: string)
    requires s == line + "\n" + rest && rest != []
    requires joined + FinalNewline(rest) == rest
    ensures line + "\n" + joined + FinalNewline(s) == s
  {
    assert FinalNewline(s) == FinalNewline(rest) by {
      assert s[|s| - 1] == rest[|rest| - 1];
    }
  }

  /**
   * Without carriage returns, joining the lines with line feeds gives back
   * the output, less a final line feed.
   */
  lemma {:induction false} LinesRoundTrip(s: string)
    requires NoCR(s)
    ensures Join(Lines(s)) + FinalNewline(s) == s
    decreases |s|
  {
    if s == [] {
    } else if IndexOfNewline(s).None? {
      OneLine(s);
    } else {
      var i := IndexOfNewline(s).value;
      var line, rest := s[..i], s[i + 1..];
      NoCRSlice(s, 0, i);
      NoCRSlice(s, i + 1, |s|);
      LinesSplit(s, i);
      SplitAround(s, i);
      if rest == [] {
        assert Join(Lines(s)) == line;
      } else {
        LinesRoundTrip(rest);
        JoinCons(line, Lines(rest));
        Reassemble(s, line, rest, Join(Lines(rest)));
      }
    }
  }

  // ---------------------------------------------------------------- getLinuxOSName

  /** The index of the first line starting with NAME=, or the number of lines when there is none. */
  function FirstNameLine(lines: seq<string>): (i: nat)
    ensures i <= |lines|
    ensures forall j :: 0 <= j < i ==> !HasPrefix(lines[j], NamePrefix)
    ensures i < |lines| ==> HasPrefix(lines[i], NamePrefix)
    decreases |lines|
  {
    if lines == [] || HasPrefix(lines[0], NamePrefix) then 0
    else
      var rest := lines[1..];
      var i := FirstNameLine(rest);
      assert forall j :: 1 <= j < i + 1 ==> lines[j] == rest[j - 1];
      i + 1
  }

  /** The distribution name in os-release lines: the first line starting with NAME=, less the prefix and any surrounding quotes. */
  function LinuxOSName(lines: seq<string>): Result<string, string> {
    var i := FirstNameLine(lines);
    if i == |lines| then Err(NoDistribution) else Ok(Trim(lines[i][5..], "\""))
  }

  /**
   * The name comes from the first line that starts with NAME=, less the
   * prefix and any surrounding quotes; the error exactly when no line does.
   */
  lemma NameLineRule(lines: seq<string>)
    ensures LinuxOSName(lines).Err? <==> forall i :: 0 <= i < |lines| ==> !HasPrefix(lines[i], NamePrefix)
    ensures LinuxOSName(lines).Err? ==> LinuxOSName(lines).error == NoDistribution
    ensures LinuxOSName(lines).Ok? ==>
      exists i :: 0 <= i < |lines| && HasPrefix(lines[i], NamePrefix)
             && (forall j :: 0 <= j < i ==> !HasPrefix(lines[j], NamePrefix))
             && LinuxOSName(lines).value == Trim(lines[i][5..], "\"")
  {
    var i := FirstNameLine(lines);
    if i < |lines| {
      assert HasPrefix(lines[i], NamePrefix);
    }
  }

  /** The first line decides when it starts with NAME=; otherwise the search goes on with the rest. */
  lemma FirstLine(lines: seq<string>)
    requires lines != []
    ensures HasPrefix(lines[0], NamePrefix) ==> LinuxOSName(lines) == Ok(Trim(lines[0][5..], "\""))
    ensures !HasPrefix(lines[0], NamePrefix) ==> LinuxOSName(lines) == LinuxOSName(lines[1..])
  {
    if !HasPrefix(lines[0], NamePrefix) {
      FirstNameLineStep(lines);
      var j := FirstNameLine(lines[1..]);
      if j < |lines| - 1 {
        assert lines[j + 1] == lines[1..][j];
      }
    }
  }

  /** Past a first line without the prefix, the first NAME= line is one further on than in the rest. */
  lemma FirstNameLineStep(lines: seq<string>)
    requires lines != [] && !HasPrefix(lines[0], NamePrefix)
    ensures FirstNameLine(lines) == FirstNameLine(lines[1..]) + 1
  {
  }

  /** A PRETTY_NAME= line never counts as the NAME= line. */
  lemma PrettyNameSkipped(pretty: string, rest: seq<string>)
    requires HasPrefix(pretty, "PRETTY_NAME=")
    ensures LinuxOSName([pretty] + rest) == LinuxOSName(rest)
  {
    assert pretty[..|NamePrefix|][0] == pretty[0] == 'P';
    assert !HasPrefix(pretty, NamePrefix);
    assert ([pretty] + rest)[0] == pretty && ([pretty] + rest)[1..] == rest;
    FirstLine([pretty] + rest);
  }

  /** An occurrence in a suffix is an occurrence in the whole string, shifted. */
  lemma OccursInSuffix(s: string, d: nat, sub: string, i: nat)
    requires d <= |s| && OccursAt(s[d..], sub, i)
    ensures OccursAt(s, sub, d + i)
  {
    assert s[d + i..d + i + |sub|] == s[d..][i..i + |sub|];
  }

  /** The cutset `"` holds the quote and nothing else. */
  lemma QuoteCutset(c: char)
    ensures c in "\"" <==> c == '"'
  {
    assert "\""[0] == '"';
  }

  /** Quotes trimmed from a suffix of the line are quotes of the line itself. */
  lemma QuotesInLine(line: string, d: nat, lo: nat, hi: nat)
    requires d <= lo <= hi <= |line|
    requires forall k :: lo - d <= k < hi - d ==> line[d..][k] in "\""
    ensures forall k :: lo <= k < hi ==> line[k] == '"'
  {
    forall k | lo <= k < hi ensures line[k] == '"' {
      QuoteCutset(line[d..][k - d]);
    }
  }

  /** Where the name sits in the NAME= line: after NAME= and any quotes, with only quotes after it. */
  lemma NameAt(line: string) returns (j: nat)
    requires HasPrefix(line, NamePrefix)
    ensures 5 <= j && OccursAt(line, Trim(line[5..], "\""), j)
    ensures forall k :: 5 <= k < j ==> line[k] == '"'
    ensures forall k :: j + |Trim(line[5..], "\"")| <= k < |line| ==> line[k] == '"'
  {
    var n := Trim(line[5..], "\"");
    var i := TrimAt(line[5..], "\"");
    assert OccursAt(line[5..], n, i);
    OccursInSuffix(line, 5, n, i);
    QuotesInLine(line, 5, 5, 5 + i);
    QuotesInLine(line, 5, 5 + i + |n|, |line|);
    j := 5 + i;
  }

  /** The name has no quote at either end, and is what follows NAME= with only quotes removed around it. */
  lemma NameShape(line: string)
    requires HasPrefix(line, NamePrefix)
    ensures var n := Trim(line[5..], "\"");
            && (n == [] || (n[0] != '"' && n[|n| - 1] != '"'))
            && exists j :: 5 <= j && OccursAt(line, n, j)
                         && (forall k :: 5 <= k < j ==> line[k] == '"')
                         && (forall k :: j + |n| <= k < |line| ==> line[k] == '"')
  {
    var n := Trim(line[5..], "\"");
    var j := NameAt(line);
    var i := TrimAt(line[5..], "\"");
    if n != [] {
      QuoteCutset(n[0]);
      QuoteCutset(n[|n| - 1]);
    }
  }

  /**
   * getLinuxOSName with `cat /etc/os-release` as an input: the scanner loop
   * returns at the first NAME= line.
   */
  method GetLinuxOSName(run: Runner) returns (r: Result<string, string>)
    ensures run(CatOsRelease).Err? ==> r == Err(run(CatOsRelease).error)
    ensures run(CatOsRelease).Ok? ==> r == LinuxOSName(Lines(run(CatOsRelease).value))
  {
    var output := run(CatOsRelease);
    if output.Err? {
      return Err(output.error);
    }
    var lines := Lines(output.value);
    var i := 0;
    while i < |lines|
      invariant i <= |lines|
      invariant LinuxOSName(lines[i..]) == LinuxOSName(lines)
    {
      assert lines[i..][0] == lines[i] && lines[i..][1..] == lines[i + 1..];
      FirstLine(lines[i..]);
      var line := lines[i];
      if HasPrefix(line, NamePrefix) {
        return Ok(Trim(line[5..], "\""));
      }
      i := i + 1;
    }
    assert lines[i..] == [];
    return Err(NoDistribution);
  }

  // ---------------------------------------------------------------- getOSName, getOSVersion

  /** getOSName as a function of the platform and the commands' output. */
  function OSName(goos: string, run: Runner): (r: Result<string, string>)
    ensures goos == "windows" ==> r == Ok("Windows")
    ensures goos == "darwin" ==> r == Ok("macOS")
    ensures goos !in {"windows", "darwin", "linux"} ==> r == Err(Unsupported)
    ensures goos == "linux" && run(CatOsRelease).Err? ==> r == Err(run(CatOsRelease).error)
    ensures goos == "linux" && run(CatOsRelease).Ok? ==> r == LinuxOSName(Lines(run(CatOsRelease).value))
  {
    match goos
    case "windows" => Ok("Windows")
    case "darwin" => Ok("macOS")
    case "linux" =>
      (match run(CatOsRelease)
       case Err(e) => Err(e)
       case Ok(out) => LinuxOSName(Lines(out)))
    case _ => Err(Unsupported)
  }

  /** getOSName: a fixed name for Windows and macOS, the os-release name on Linux, an error elsewhere. */
  method GetOSName(goos: string, run: Runner) returns (r: Result<string, string>)
    ensures r == OSName(goos, run)
  {
    match goos {
      case "windows" => return Ok("Windows");
      case "darwin" => return Ok("macOS");
      case "linux" => r := GetLinuxOSName(run);
      case _ => return Err(Unsupported);
    }
  }

  /** The command getOSVersion runs on each platform. */
  function VersionCommand(goos: string): (cmd: Option<Command>)
    ensures cmd.Some? <==> goos in {"windows", "darwin", "linux"}
    ensures goos == "linux" ==> cmd == Some(CatOsRelease)
  {
    match goos
    case "windows" => Some(Command("cmd", ["ver"]))
    case "darwin" => Some(Command("sw_vers", ["-productVersion"]))
    case "linux" => Some(CatOsRelease)
    case _ => None
  }

  /**
   * getOSVersion: the platform's version command output with surrounding
   * white space removed, its error, or "unsupported platform". On Linux
   * that is the whole os-release file.
   */
  function OSVersion(goos: string, run: Runner): (r: Result<string, string>)
    ensures VersionCommand(goos).None? <==> r == Err(Unsupported) && goos !in {"windows", "darwin", "linux"}
    ensures r.Ok? ==> r.value == [] || (!IsSpace(r.value[0]) && !IsSpace(r.value[|r.value| - 1]))
    ensures VersionCommand(goos).Some? && run(VersionCommand(goos).value).Err? ==>
      r == Err(run(VersionCommand(goos).value).error)
    ensures VersionCommand(goos).Some? && run(VersionCommand(goos).value).Ok? ==>
      r == Ok(TrimSpace(run(VersionCommand(goos).value).value))
    ensures goos == "linux" && run(CatOsRelease).Ok? ==> r == Ok(TrimSpace(run(CatOsRelease).value))
  {
    match VersionCommand(goos)
    case None => Err(Unsupported)
    case Some(cmd) =>
      match run(cmd)
      case Err(e) => Err(e)
      case Ok(out) => Ok(TrimSpace(out))
  }
}
