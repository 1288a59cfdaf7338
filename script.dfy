/**
 * The backup script the helper generates: one ROBOCOPY line per (source, target)
 * pair of the main view, the first one starting the log file and every later one
 * appending to it, then one line that runs the log analyzer on that log file.
 */
module Script {
  import opened Text
  import opened Tables
  import opened SettingsStore

  /** The log switch of the first template: ROBOCOPY starts a new log file. */
  const FirstLogSwitch := "/UNILOG:"
  /** The log switch of the later template: ROBOCOPY appends to the log file. */
  const LaterLogSwitch := "/UNILOG+:"

  /** A line template filled in; the two templates differ only in their log switch. */
  function CopyLine(logSwitch: string, source: Path, target: Path, logfile: Path): string
  {
    "ROBOCOPY \"" + source + "\" \"" + target + "\" /COPY:DATO /ZB /E " + logSwitch + "\"" + logfile + "\" /TEE"
  }

  /** The last line: the Python interpreter running the analyzer on the log file. */
  function AnalyzerLine(python: Path, analyzer: Path, logfile: Path): string
  {
    "\"" + python + "\" \"" + analyzer + "\" \"" + logfile + "\""
  }

  /** The log switch the line for the i-th pair carries. */
  function LogSwitchAt(i: nat): string
  {
    if i == 0 then FirstLogSwitch else LaterLogSwitch
  }

  /** The copy lines, produced pair by pair with the template as state: the current
      template fills the line for the first pair, the later template every other one. */
  function CopyLines(pairs: seq<(Path, Path)>, logSwitch: string, logfile: Path): (lines: seq<string>)
    ensures |lines| == |pairs|
    ensures forall i :: 0 <= i < |pairs| ==>
              lines[i] == CopyLine(if i == 0 then logSwitch else LaterLogSwitch, pairs[i].0, pairs[i].1, logfile)
    decreases |pairs|
  {
    if pairs == [] then []
    else [CopyLine(logSwitch, pairs[0].0, pairs[0].1, logfile)] + CopyLines(pairs[1..], LaterLogSwitch, logfile)
  }

  /** The lines generate writes for the main view `pairs`. */
  function ScriptLines(pairs: seq<(Path, Path)>, logfile: Path, python: Path, analyzer: Path): (lines: seq<string>)
  {
    CopyLines(pairs, FirstLogSwitch, logfile) + [AnalyzerLine(python, analyzer, logfile)]
  }

  /** One line per pair, in the order of the pairs, the first with /UNILOG: and the
      later ones with /UNILOG+:, then the analyzer line last. */
  lemma ScriptLinesShape(pairs: seq<(Path, Path)>, logfile: Path, python: Path, analyzer: Path)
    ensures var lines := ScriptLines(pairs, logfile, python, analyzer);
      |lines| == |pairs| + 1
      && (forall i :: 0 <= i < |pairs| ==> lines[i] == CopyLine(LogSwitchAt(i), pairs[i].0, pairs[i].1, logfile))
      && lines[|pairs|] == AnalyzerLine(python, analyzer, logfile)
  {
    var copies := CopyLines(pairs, FirstLogSwitch, logfile);
    var lines := ScriptLines(pairs, logfile, python, analyzer);
    assert forall i :: 0 <= i < |pairs| ==> lines[i] == copies[i];
  }

  /** The loop of generate: `fmt` starts as the first template and becomes the later
      template once a line has been appended. */
  method GenerateLines(pairs: seq<(Path, Path)>, logfile: Path, python: Path, analyzer: Path)
    returns (lines: seq<string>)
    ensures |lines| == |pairs| + 1
    ensures forall i :: 0 <= i < |pairs| ==> lines[i] == CopyLine(LogSwitchAt(i), pairs[i].0, pairs[i].1, logfile)
    ensures lines[|pairs|] == AnalyzerLine(python, analyzer, logfile)
    ensures lines == ScriptLines(pairs, logfile, python, analyzer)
  {
    lines := [];
    var logSwitch := FirstLogSwitch;
    for i := 0 to |pairs|
      invariant |lines| == i
      invariant forall k :: 0 <= k < i ==> lines[k] == CopyLine(LogSwitchAt(k), pairs[k].0, pairs[k].1, logfile)
      invariant logSwitch == LogSwitchAt(i)
    {
      lines := lines + [CopyLine(logSwitch, pairs[i].0, pairs[i].1, logfile)];
      logSwitch := LaterLogSwitch;
    }
    lines := lines + [AnalyzerLine(python, analyzer, logfile)];
    ScriptLinesShape(pairs, logfile, python, analyzer);
  }

  /** The script text: the lines joined with "\n", no newline after the last one. */
  function ScriptText(pairs: seq<(Path, Path)>, logfile: Path, python: Path, analyzer: Path): string
  {
    Join("\n", ScriptLines(pairs, logfile, python, analyzer))
  }

  /** generate: the text written to the output file, for the main view of `db`. */
  method Generate(db: SettingsDatabase, logfile: Path, python: Path, analyzer: Path) returns (text: string)
    ensures text == ScriptText(db.MainView(), logfile, python, analyzer)
    ensures db.MainView() == [] ==> text == AnalyzerLine(python, analyzer, logfile)
  {
    var pairs := db.MainView();
    var lines := GenerateLines(pairs, logfile, python, analyzer);
    text := Join("\n", lines);
    NoPairsScript(pairs, logfile, python, analyzer);
  }

  /** With no pairs the script is exactly the analyzer line. */
  lemma NoPairsScript(pairs: seq<(Path, Path)>, logfile: Path, python: Path, analyzer: Path)
    ensures pairs == [] ==> ScriptText(pairs, logfile, python, analyzer) == AnalyzerLine(python, analyzer, logfile)
  {
    if pairs == [] {
      assert ScriptLines(pairs, logfile, python, analyzer) == [AnalyzerLine(python, analyzer, logfile)];
    }
  }

  /** With pairs, the script is the copy lines joined, a newline, and the analyzer line. */
  lemma ScriptEndsWithAnalyzer(pairs: seq<(Path, Path)>, logfile: Path, python: Path, analyzer: Path)
    requires pairs != []
    ensures ScriptText(pairs, logfile, python, analyzer)
            == Join("\n", CopyLines(pairs, FirstLogSwitch, logfile)) + "\n" + AnalyzerLine(python, analyzer, logfile)
  {
    JoinSnoc("\n", CopyLines(pairs, FirstLogSwitch, logfile), AnalyzerLine(python, analyzer, logfile));
  }

  /** No line break inside a filled template unless one of the paths holds one. */
  lemma CopyLineOneLine(logSwitch: string, source: Path, target: Path, logfile: Path)
    requires '\n' !in logSwitch && '\n' !in source && '\n' !in target && '\n' !in logfile
    ensures '\n' !in CopyLine(logSwitch, source, target, logfile)
  {
  }

  /** When no path holds a line break, splitting the script text at "\n" gives back
      exactly its lines: one per pair and the analyzer line. */
  lemma ScriptTextLines(pairs: seq<(Path, Path)>, logfile: Path, python: Path, analyzer: Path)
    requires forall i :: 0 <= i < |pairs| ==> '\n' !in pairs[i].0 && '\n' !in pairs[i].1
    requires '\n' !in logfile && '\n' !in python && '\n' !in analyzer
    ensures Split(ScriptText(pairs, logfile, python, analyzer), '\n') == ScriptLines(pairs, logfile, python, analyzer)
  {
    var lines := ScriptLines(pairs, logfile, python, analyzer);
    ScriptLinesShape(pairs, logfile, python, analyzer);
    forall k | 0 <= k < |lines| ensures '\n' !in lines[k] {
      if k < |pairs| {
        CopyLineOneLine(LogSwitchAt(k), pairs[k].0, pairs[k].1, logfile);
      }
    }
    SplitJoin(lines, '\n');
  }
}
