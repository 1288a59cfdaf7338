/**
 * The log analyzer: it sorts the lines of a ROBOCOPY log into four buckets
 * (Modified, Newer, New File, New Dir) by a keyword at the start of the line,
 * strips each entry, and writes the four buckets, each joined with the line
 * separator, one after the other into a report file named after the log file.
 */
module LogAnalyze {
  import opened Options
  import opened Text

  /** One element of a keyword pattern: a literal character or the class \s. */
  datatype Atom = Lit(c: char) | Space

  type Pattern = seq<Atom>

  predicate AtomMatches(a: Atom, c: char)
  {
    match a
    case Lit(x) => c == x
    case Space => IsSpace(c)
  }

  /** The pattern spelling out the characters of w. */
  function Word(w: string): (p: Pattern)
    ensures |p| == |w|
    ensures forall i :: 0 <= i < |w| ==> p[i] == Lit(w[i])
  {
    seq(|w|, i requires 0 <= i < |w| => Lit(w[i]))
  }

  /** s begins with a run of characters matched atom by atom by p. */
  predicate MatchesAt(p: Pattern, s: string)
    decreases |p|
  {
    p == [] || (s != [] && AtomMatches(p[0], s[0]) && MatchesAt(p[1..], s[1..]))
  }

  /** Matching atom by atom: each atom matches the character at its own index. */
  lemma {:induction false} MatchesAtIndex(p: Pattern, s: string)
    ensures MatchesAt(p, s) <==> |p| <= |s| && forall i :: 0 <= i < |p| ==> AtomMatches(p[i], s[i])
    decreases |p|
  {
    if p != [] && s != [] {
      MatchesAtIndex(p[1..], s[1..]);
      assert forall i :: 1 <= i < |p| ==> p[1..][i - 1] == p[i];
      assert forall i :: 1 <= i < |p| && i < |s| ==> s[1..][i - 1] == s[i];
    }
  }

  /** A word pattern matches exactly the strings that begin with the word. */
  lemma WordMatches(w: string, s: string)
    ensures MatchesAt(Word(w), s) <==> |w| <= |s| && s[..|w|] == w
  {
    MatchesAtIndex(Word(w), s);
    if |w| <= |s| && forall i :: 0 <= i < |w| ==> s[i] == w[i] {
      assert s[..|w|] == w;
    }
  }

  const ModifiedPattern: Pattern := [Lit('M'), Lit('o'), Lit('d'), Lit('i'), Lit('f'), Lit('i'), Lit('e'), Lit('d'), Space]
  const NewerPattern: Pattern := [Lit('N'), Lit('e'), Lit('w'), Lit('e'), Lit('r'), Space]
  const NewFilePattern: Pattern := [Lit('N'), Lit('e'), Lit('w'), Space, Lit('F'), Lit('i'), Lit('l'), Lit('e'), Space]
  const NewDirPattern: Pattern := [Lit('N'), Lit('e'), Lit('w'), Space, Lit('D'), Lit('i'), Lit('r'), Space]

  /** `re.match(r"^\s*P.*", line)`: some whitespace prefix of the line is followed
      by a match of P (`.*` matches anything, the empty string included). */
  ghost predicate RegexMatch(p: Pattern, line: string)
  {
    exists k :: 0 <= k <= |line| && (forall j :: 0 <= j < k ==> IsSpace(line[j])) && MatchesAt(p, line[k..])
  }

  /** The matcher the classifier runs: P right after the leading whitespace. */
  predicate Matches(p: Pattern, line: string)
  {
    MatchesAt(p, TrimLeft(line))
  }

  /** For a pattern that begins with a non-whitespace literal, the greedy matcher
      accepts exactly the lines the regular expression accepts. */
  lemma MatchesIsRegexMatch(p: Pattern, line: string)
    requires p != [] && p[0].Lit? && !IsSpace(p[0].c)
    ensures Matches(p, line) <==> RegexMatch(p, line)
  {
    var lead := LeadingSpaces(line);
    LeadingSpacesSpec(line);
    assert TrimLeft(line) == line[lead..];
    if RegexMatch(p, line) {
      var k :| 0 <= k <= |line| && (forall j :: 0 <= j < k ==> IsSpace(line[j])) && MatchesAt(p, line[k..]);
      assert k < |line| && line[k] == line[k..][0] == p[0].c;
      assert k == lead;
    }
  }

  /** The four buckets, in the order they are tested and written. */
  datatype Bucket = ModifiedBucket | NewerBucket | NewFileBucket | NewDirBucket

  function PatternOf(b: Bucket): Pattern
  {
    match b
    case ModifiedBucket => ModifiedPattern
    case NewerBucket => NewerPattern
    case NewFileBucket => NewFilePattern
    case NewDirBucket => NewDirPattern
  }

  /** The keyword of a bucket: its pattern without the final whitespace. */
  function KeywordOf(b: Bucket): (k: Pattern)
    ensures k != [] && k[|k| - 1].Lit? && !IsSpace(k[|k| - 1].c)
    ensures PatternOf(b) == k + [Space]
  {
    match b
    case ModifiedBucket => ModifiedPattern[..8]
    case NewerBucket => NewerPattern[..5]
    case NewFileBucket => NewFilePattern[..8]
    case NewDirBucket => NewDirPattern[..7]
  }

  /** The bucket a line goes to, the tests taken in order; None drops the line. */
  function Classify(line: string): Option<Bucket>
  {
    if Matches(ModifiedPattern, line) then Some(ModifiedBucket)
    else if Matches(NewerPattern, line) then Some(NewerBucket)
    else if Matches(NewFilePattern, line) then Some(NewFileBucket)
    else if Matches(NewDirPattern, line) then Some(NewDirBucket)
    else None
  }

  /** No line matches two of the patterns: after the leading whitespace they
      differ at position 0 (M/N), 3 (e/\s) or 4 (F/D). */
  lemma PatternsExclusive(line: string, b1: Bucket, b2: Bucket)
    requires Matches(PatternOf(b1), line) && Matches(PatternOf(b2), line)
    ensures b1 == b2
  {
    var t := TrimLeft(line);
    MatchesAtIndex(PatternOf(b1), t);
    MatchesAtIndex(PatternOf(b2), t);
    assert AtomMatches(PatternOf(b1)[0], t[0]) && AtomMatches(PatternOf(b2)[0], t[0]);
    assert AtomMatches(PatternOf(b1)[3], t[3]) && AtomMatches(PatternOf(b2)[3], t[3]);
    assert AtomMatches(PatternOf(b1)[4], t[4]) && AtomMatches(PatternOf(b2)[4], t[4]);
  }

  /** Since the patterns exclude each other, the order of the tests does not
      matter: a line lands in the bucket whose pattern it matches, and is dropped
      exactly when it matches none. */
  lemma ClassifyExactly(line: string, b: Bucket)
    ensures Classify(line) == Some(b) <==> Matches(PatternOf(b), line)
    ensures Classify(line).None? <==> forall b' :: !Matches(PatternOf(b'), line)
  {
    if Matches(PatternOf(b), line) {
      var c := Classify(line);
      assert c.Some? && Matches(PatternOf(c.value), line);
      PatternsExclusive(line, b, c.value);
    }
    if Classify(line).Some? {
      assert Matches(PatternOf(Classify(line).value), line);
    }
  }

  /** The stripped entry of a classified line begins with its bucket's keyword. */
  lemma EntryKeepsKeyword(line: string, b: Bucket)
    requires Classify(line) == Some(b)
    ensures MatchesAt(KeywordOf(b), Strip(line))
  {
    ClassifyExactly(line, b);
    StripSpec(line);
    var t, r, k := TrimLeft(line), Strip(line), KeywordOf(b);
    var m := |k|;
    MatchesAtIndex(PatternOf(b), t);
    MatchesAtIndex(k, r);
    assert AtomMatches(PatternOf(b)[m - 1], t[m - 1]);
    assert PatternOf(b)[m - 1] == k[m - 1];
    assert m - 1 < |r|;
    forall i | 0 <= i < m ensures AtomMatches(k[i], r[i]) {
      assert PatternOf(b)[i] == k[i];
      assert r[i] == t[i];
    }
  }

  /** The classification is the regular-expression test: a line goes to a bucket
      exactly when `re.match` accepts it with that bucket's pattern. */
  lemma ClassifyIsRegex(line: string, b: Bucket)
    ensures Classify(line) == Some(b) <==> RegexMatch(PatternOf(b), line)
  {
    ClassifyExactly(line, b);
    MatchesIsRegexMatch(PatternOf(b), line);
  }

  /** The keywords of the one-word buckets spell the words themselves. */
  lemma KeywordWords()
    ensures KeywordOf(ModifiedBucket) == Word("Modified")
    ensures KeywordOf(NewerBucket) == Word("Newer")
  {
  }

  /** The stripped entry of a Modified or Newer line begins with that word itself. */
  lemma EntryStartsWithWord(line: string, b: Bucket, w: string)
    requires Classify(line) == Some(b)
    requires (b == ModifiedBucket && w == "Modified") || (b == NewerBucket && w == "Newer")
    ensures |w| <= |Strip(line)| && Strip(line)[..|w|] == w
  {
    EntryKeepsKeyword(line, b);
    KeywordWords();
    WordMatches(w, Strip(line));
  }

  /** A rule that sends a line to a bucket or drops it. */
  type Classifier = string -> Option<Bucket>

  /** The entries of bucket b for a line: its stripped text, or nothing. */
  function EntryOf(classify: Classifier, line: string, b: Bucket): seq<string>
  {
    if classify(line) == Some(b) then [Strip(line)] else []
  }

  /** The list a bucket holds after the loop has seen `lines`. */
  function Entries(classify: Classifier, lines: seq<string>, b: Bucket): (entries: seq<string>)
    ensures |entries| <= |lines|
    decreases |lines|
  {
    if lines == [] then []
    else Entries(classify, lines[..|lines| - 1], b) + EntryOf(classify, lines[|lines| - 1], b)
  }

  /** Every line classified into a bucket has its stripped text listed there. */
  lemma {:induction false} EntryListed(classify: Classifier, lines: seq<string>, i: nat, b: Bucket)
    requires i < |lines| && classify(lines[i]) == Some(b)
    ensures Strip(lines[i]) in Entries(classify, lines, b)
    decreases |lines|
  {
    var init := lines[..|lines| - 1];
    if i < |init| {
      assert init[i] == lines[i];
      EntryListed(classify, init, i, b);
    }
  }

  /** Every entry of a bucket is the stripped text of a line classified into it. */
  lemma {:induction false} EntrySource(classify: Classifier, lines: seq<string>, b: Bucket, e: string) returns (i: nat)
    requires e in Entries(classify, lines, b)
    ensures i < |lines| && classify(lines[i]) == Some(b) && e == Strip(lines[i])
    decreases |lines|
  {
    var init := lines[..|lines| - 1];
    if e in Entries(classify, init, b) {
      i := EntrySource(classify, init, b, e);
      assert init[i] == lines[i];
    } else {
      i := |lines| - 1;
    }
  }

  /** One more line extends each bucket by that line's entry, if any. */
  lemma EntriesSnoc(classify: Classifier, lines: seq<string>, line: string, b: Bucket)
    ensures Entries(classify, lines + [line], b) == Entries(classify, lines, b) + EntryOf(classify, line, b)
  {
    assert (lines + [line])[..|lines|] == lines;
  }

  /** Entries keep the order of their lines: the entries of two runs of lines are
      those of the first run followed by those of the second. */
  lemma {:induction false} EntriesAppend(classify: Classifier, xs: seq<string>, ys: seq<string>, b: Bucket)
    ensures Entries(classify, xs + ys, b) == Entries(classify, xs, b) + Entries(classify, ys, b)
    decreases |ys|
  {
    if ys == [] {
      assert xs + ys == xs;
    } else {
      var ys', last := ys[..|ys| - 1], ys[|ys| - 1];
      var zs := xs + ys';
      assert ys == ys' + [last];
      assert xs + ys == zs + [last];
      var front, middle, back := Entries(classify, xs, b), Entries(classify, ys', b), EntryOf(classify, last, b);
      calc {
        Entries(classify, xs + ys, b);
        { EntriesSnoc(classify, zs, last, b); }
        Entries(classify, zs, b) + back;
        { EntriesAppend(classify, xs, ys', b); }
        (front + middle) + back;
        front + (middle + back);
        { EntriesSnoc(classify, ys', last, b); }
        front + Entries(classify, ys, b);
      }
    }
  }

  /** The number of lines no bucket takes. */
  function Dropped(classify: Classifier, lines: seq<string>): (n: nat)
    ensures n <= |lines|
  {
    if lines == [] then 0
    else Dropped(classify, lines[..|lines| - 1]) + (if classify(lines[|lines| - 1]).None? then 1 else 0)
  }

  /** Every line lands in exactly one bucket or is dropped. */
  lemma {:induction false} EntriesPartition(classify: Classifier, lines: seq<string>)
    ensures |Entries(classify, lines, ModifiedBucket)| + |Entries(classify, lines, NewerBucket)|
            + |Entries(classify, lines, NewFileBucket)| + |Entries(classify, lines, NewDirBucket)|
            + Dropped(classify, lines) == |lines|
    decreases |lines|
  {
    if lines != [] {
      EntriesPartition(classify, lines[..|lines| - 1]);
      var last := lines[|lines| - 1];
      match classify(last)
      case None =>
      case Some(b) =>
        assert EntryOf(classify, last, b) == [Strip(last)];
        assert forall b' :: b' != b ==> EntryOf(classify, last, b') == [];
    }
  }

  /** The report: the four buckets, each joined with the line separator, written
      one after the other with nothing between them. */
  function Report(lines: seq<string>, linesep: string): string
  {
    Join(linesep, Entries(Classify, lines, ModifiedBucket)) + Join(linesep, Entries(Classify, lines, NewerBucket))
    + Join(linesep, Entries(Classify, lines, NewFileBucket)) + Join(linesep, Entries(Classify, lines, NewDirBucket))
  }

  /** A bucket's join is empty exactly when no line went to the bucket. */
  lemma BucketTextEmpty(lines: seq<string>, linesep: string, b: Bucket)
    ensures Join(linesep, Entries(Classify, lines, b)) == "" <==>
            forall i :: 0 <= i < |lines| ==> Classify(lines[i]) != Some(b)
  {
    var entries := Entries(Classify, lines, b);
    if entries != [] {
      var i := EntrySource(Classify, lines, b, entries[0]);
      EntryKeepsKeyword(lines[i], b);
      assert entries[0] != [];
      assert |Join(linesep, entries)| >= |entries[0]| > 0;
    }
    if exists i :: 0 <= i < |lines| && Classify(lines[i]) == Some(b) {
      var i :| 0 <= i < |lines| && Classify(lines[i]) == Some(b);
      EntryListed(Classify, lines, i, b);
    }
  }

  /** The report is empty exactly when no line matched any keyword. */
  lemma ReportEmpty(lines: seq<string>, linesep: string)
    ensures Report(lines, linesep) == "" <==> forall i :: 0 <= i < |lines| ==> Classify(lines[i]).None?
  {
    BucketTextEmpty(lines, linesep, ModifiedBucket);
    BucketTextEmpty(lines, linesep, NewerBucket);
    BucketTextEmpty(lines, linesep, NewFileBucket);
    BucketTextEmpty(lines, linesep, NewDirBucket);
  }

  /** The groups run together: a Modified line followed by a Newer line gives a
      report holding the two stripped lines with nothing between them, whatever the
      line separator. */
  lemma GroupsRunTogether(l1: string, l2: string, linesep: string)
    requires Classify(l1) == Some(ModifiedBucket) && Classify(l2) == Some(NewerBucket)
    ensures Report([l1, l2], linesep) == Strip(l1) + Strip(l2)
  {
    TwoLines(Classify, l1, l2, ModifiedBucket);
    TwoLines(Classify, l1, l2, NewerBucket);
    TwoLines(Classify, l1, l2, NewFileBucket);
    TwoLines(Classify, l1, l2, NewDirBucket);
  }

  lemma TwoLines(classify: Classifier, l1: string, l2: string, b: Bucket)
    ensures Entries(classify, [l1, l2], b) == EntryOf(classify, l1, b) + EntryOf(classify, l2, b)
  {
    assert [l1, l2] == [l1] + [l2];
    assert [l1] == [] + [l1];
    EntriesSnoc(classify, [], l1, b);
    EntriesSnoc(classify, [l1], l2, b);
  }

  /** One more line extends each bucket by that line's entry, if any. */
  lemma EntriesStep(lines: seq<string>, i: nat, b: Bucket)
    requires i < |lines|
    ensures Entries(Classify, lines[..i + 1], b) == Entries(Classify, lines[..i], b) + EntryOf(Classify, lines[i], b)
  {
    assert lines[..i + 1] == lines[..i] + [lines[i]];
    EntriesSnoc(Classify, lines[..i], lines[i], b);
  }

  /** The analyzer's loop and its four writes: each line is tested against the
      patterns in order and its stripped text appended to the first bucket that
      matches; the report is the four joins one after the other. */
  method Analyze(lines: seq<string>, linesep: string) returns (report: string)
    ensures report == Report(lines, linesep)
  {
    var modified, newer, newFile, newDir := [], [], [], [];
    for i := 0 to |lines|
      invariant modified == Entries(Classify, lines[..i], ModifiedBucket)
      invariant newer == Entries(Classify, lines[..i], NewerBucket)
      invariant newFile == Entries(Classify, lines[..i], NewFileBucket)
      invariant newDir == Entries(Classify, lines[..i], NewDirBucket)
    {
      var ln := lines[i];
      EntriesStep(lines, i, ModifiedBucket);
      EntriesStep(lines, i, NewerBucket);
      EntriesStep(lines, i, NewFileBucket);
      EntriesStep(lines, i, NewDirBucket);
      if Matches(ModifiedPattern, ln) {
        modified := modified + [Strip(ln)];
      } else if Matches(NewerPattern, ln) {
        newer := newer + [Strip(ln)];
      } else if Matches(NewFilePattern, ln) {
        newFile := newFile + [Strip(ln)];
      } else if Matches(NewDirPattern, ln) {
        newDir := newDir + [Strip(ln)];
      }
    }
    assert lines[..|lines|] == lines;
    report := Join(linesep, modified);
    report := report + Join(linesep, newer);
    report := report + Join(linesep, newFile);
    report := report + Join(linesep, newDir);
  }

  /** A path as the parent part and the final component, the name. */
  datatype FilePath = FilePath(parent: string, name: string)

  /** str.rfind: the last index of c in s, or -1. */
  function RFind(s: string, c: char): (i: int)
    ensures -1 <= i < |s|
    ensures 0 <= i ==> s[i] == c
    ensures forall j :: i < j < |s| ==> s[j] != c
  {
    if s == [] then -1
    else if s[|s| - 1] == c then |s| - 1
    else
      var i := RFind(s[..|s| - 1], c);
      assert forall j :: i < j < |s| - 1 ==> s[..|s| - 1][j] == s[j];
      i
  }

  /** The name has a suffix: its last dot is neither the first nor the last
      character. */
  predicate HasSuffixDot(name: string)
  {
    var i := RFind(name, '.');
    0 < i < |name| - 1
  }

  /** PurePath.suffix */
  function Suffix(name: string): string
  {
    if HasSuffixDot(name) then name[RFind(name, '.')..] else ""
  }

  /** PurePath.stem */
  function Stem(name: string): string
  {
    if HasSuffixDot(name) then name[..RFind(name, '.')] else name
  }

  /** The stem and the suffix split the name; a suffix is a dot followed by at
      least one character, none of them a dot, and the stem is never empty unless
      the name is. */
  lemma StemSuffixSplit(name: string)
    ensures Stem(name) + Suffix(name) == name
    ensures Suffix(name) != [] ==> |Suffix(name)| >= 2 && Suffix(name)[0] == '.' && '.' !in Suffix(name)[1..]
    ensures Suffix(name) != [] ==> Stem(name) != []
  {
    if HasSuffixDot(name) {
      var i := RFind(name, '.');
      assert name[..i] + name[i..] == name;
      assert forall j :: 0 <= j < |name| - i - 1 ==> name[i..][1..][j] == name[i + 1 + j];
    }
  }

  /** `logfile.with_stem(logfile.stem + "_report")`: same parent and suffix, the
      stem extended by "_report"; with_stem refuses a path whose name is empty. */
  function ReportPath(log: FilePath): (r: Option<FilePath>)
    ensures r.None? <==> log.name == ""
    ensures r.Some? ==> r.value.parent == log.parent
  {
    if log.name == "" then None
    else Some(FilePath(log.parent, Stem(log.name) + "_report" + Suffix(log.name)))
  }

  /** The report's name has the log's suffix and the log's stem with "_report"
      appended, unless the log's name ends in a dot that pathlib does not count as a
      suffix (see ReportPathTrailingDot). */
  lemma ReportPathStemSuffix(log: FilePath)
    requires log.name != ""
    requires !(|log.name| >= 2 && log.name[|log.name| - 1] == '.')
    ensures ReportPath(log).Some?
    ensures Suffix(ReportPath(log).value.name) == Suffix(log.name)
    ensures Stem(ReportPath(log).value.name) == Stem(log.name) + "_report"
  {
    var name := log.name;
    StemSuffixSplit(name);
    var stem, suffix := Stem(name), Suffix(name);
    var stem' := stem + "_report";
    var out := stem' + suffix;
    assert out == ReportPath(log).value.name;
    var i := RFind(out, '.');
    if suffix != [] {
      assert out[|stem'|] == '.';
      forall j | |stem'| < j < |out| ensures out[j] != '.' {
        assert out[j] == suffix[1..][j - |stem'| - 1];
      }
      assert i == |stem'|;
      assert out[..i] == stem';
      assert out[i..] == suffix;
    } else {
      assert out == name + "_report";
      var k := RFind(name, '.');
      assert forall j :: 0 <= j < |name| ==> out[j] == name[j];
      assert forall j :: |name| <= j < |out| ==> out[j] == "_report"[j - |name|];
      assert k < 0 || k == 0 || k == |name| - 1;
      assert k == |name| - 1 ==> k == 0;
      assert i == k;
    }
  }

  /** A name ending in a dot has no suffix, but the new name does: the report for
      "backup." is "backup._report", whose stem is "backup". */
  lemma ReportPathTrailingDot()
    ensures ReportPath(FilePath("logs", "backup.")) == Some(FilePath("logs", "backup._report"))
    ensures Stem("backup._report") == "backup" && Suffix("backup._report") == "._report"
  {
    var name, s := "backup.", "backup._report";
    assert name[6] == '.';
    assert RFind(name, '.') == 6;
    assert Stem(name) + "_report" + Suffix(name) == s;
    assert s[6] == '.';
    assert forall j :: 6 < j < |s| ==> s[j] != '.';
    assert RFind(s, '.') == 6;
    assert s[..6] == "backup" && s[6..] == "._report";
  }
}
