# Robocopy backup script helper — a verified model

The helper keeps its settings in a small SQLite database: a `config` table of
key/value settings, a `sources` table of directories to back up, and a
`targets` table that attaches each backup destination to the source it belongs
to. From the (source, target) pairs of that database it generates a Windows
batch script. The script has one `ROBOCOPY` line per pair. The first line starts a
log file and every later line appends to it. A last line runs the log
analyzer on that log file. The analyzer reads the ROBOCOPY log and
sorts its lines into four buckets by the keyword at the start of the line:
`Modified`, `Newer`, `New File` and `New Dir`. It strips each entry and
writes the buckets into a report file next to the log, named after it.

The model has six modules:

- `Options`: the `Option` datatype, which stands for SQL NULL and for
  "no row".
- `Text`: Python's whitespace class (`str.isspace`, which is also the `\s`
  of a `str` regular expression), `lstrip`/`rstrip`/`strip`, `str.join` and
  `str.split`.
- `Tables`: the three tables as sequences of rows in insertion order, and
  every SQL statement the store issues as a pure function over those rows:
  - `on conflict ignore` and `on conflict replace`;
  - the SQLite choice of a new `integer primary key`;
  - `on delete cascade`;
  - NULL never comparing equal;
  - the inner join.
  
  It also holds the DDL's constraints as one predicate, `Consistent`.
- `SettingsStore`: the class `SettingsDatabase`. Its three table fields are
  reassigned by the methods that model `delete_empty`, `add_source`,
  `remove_source`, `remove_target`, `add_target`, `set_output_location`
  and `set_logfile_location`. The queries (`view_sources`, `view_targets`,
  `get_*_location`, `main_view`) are functions that read the object.
- `Script`: the line-building loop of `App.generate`, a method with a loop
  invariant proved against the function `ScriptLines`.
- `LogAnalyze`: the analyzer.
  - The keyword patterns and the classification are modelled as `re.match`
    behaves on them.
  - The loop is a method proved against the function `Report`.
  - The report file's name is computed as `pathlib`'s `with_stem` computes it.

## Model

| member | source | states |
|---|---|---|
| Tables.KeyedSubset | tk_robocopy_backup_script_helper.py:21-32 | Deleting rows never breaks a UNIQUE or PRIMARY KEY constraint. |
| Tables.KeyedAppend | tk_robocopy_backup_script_helper.py:21-32 | Appending a row whose key column holds a new value keeps the constraint. |
| Tables.SqlEq | tk_robocopy_backup_script_helper.py:70 | SQL `a = b` on a nullable id: true only when both sides are non-NULL and equal. OwnedPaths and OwnersOf state what it selects. |
| Tables.Consistent | tk_robocopy_backup_script_helper.py:14-34 | Everything the DDL enforces: unique config keys, unique source ids and paths, unique target ids and paths, and every non-NULL owner naming an existing source. InsertSource and Upsert keep it. InsertTarget keeps the target keys. Every store method keeps all of it: AddTarget passes FindSourceId, which is NULL or an existing id. |
| Tables.NextId | tk_robocopy_backup_script_helper.py:24 | A new `integer primary key` is larger than every id in the table: one more than the largest id, or 1 in an empty table. It is therefore an id no row has. |
| Tables.FindSourceId | tk_robocopy_backup_script_helper.py:63 | `select id from sources where path=?` with `fetchone()` gives NULL exactly when no source has the path. Otherwise the id belongs to a row with that path. |
| Tables.Paths | tk_robocopy_backup_script_helper.py:67 | `select path from sources` lists one path per row, and lists exactly the paths a lookup finds. |
| Tables.Lookup | tk_robocopy_backup_script_helper.py:75 | `select value from config where key=?` with `fetchone()` gives NULL exactly when the key is absent. Otherwise it gives the value of a row with that key. |
| Tables.OwnedPaths | tk_robocopy_backup_script_helper.py:70 | `select path from targets where source_id=?` lists exactly the targets whose owner equals the argument under SQL equality. A NULL argument lists nothing. |
| Tables.OwnersOf | tk_robocopy_backup_script_helper.py:84 | The join rows for one target: exactly the (source path, target path) pairs whose source id equals the target's owner. A NULL owner gives none. |
| Tables.JoinRows | tk_robocopy_backup_script_helper.py:84 | The inner join on `sources.id = targets.source_id` holds exactly the pairs of a source and a target it owns. |
| Tables.InsertSource | tk_robocopy_backup_script_helper.py:23-26 | `insert into sources` under `on conflict ignore`. A known path leaves the table unchanged. A new path is appended under a fresh id and nothing else changes. Both constraints are kept. |
| Tables.InsertTarget | tk_robocopy_backup_script_helper.py:28-33 | `insert into targets` under `on conflict ignore`. A known target path leaves the table unchanged, owner included. A new path is appended with the given owner under a fresh id. Both constraints are kept. |
| Tables.SourcesNotAt | tk_robocopy_backup_script_helper.py:53 | `delete from sources where path=?` keeps exactly the rows with other paths. It only removes rows, and it changes nothing when no row matches. |
| Tables.TargetsNotAt | tk_robocopy_backup_script_helper.py:57 | `delete from targets where path=?` keeps exactly the rows with other paths. |
| Tables.WithoutOwned | tk_robocopy_backup_script_helper.py:33 | The `on delete cascade` removes exactly the targets owned by a deleted id. NULL-owned targets stay. |
| Tables.ConfigWithoutKey | tk_robocopy_backup_script_helper.py:21 | The delete half of `on conflict replace` keeps exactly the rows of other keys. |
| Tables.Upsert | tk_robocopy_backup_script_helper.py:18-21 | `insert into config` under `on conflict replace` holds the new row plus the old rows of other keys. The key stays unique. |
| Tables.HeadNotInTail | tk_robocopy_backup_script_helper.py:24-26 | In a table without duplicate rows, the first row does not occur again. |
| Tables.PathsNoDup | tk_robocopy_backup_script_helper.py:23-26 | Under `unique (path)`, `select path from sources` lists no path twice. |
| Tables.InsertSourceIdempotent | tk_robocopy_backup_script_helper.py:23-26 | Inserting the same source path twice leaves the table as one insert does. |
| Tables.SourcesNotAtTwice | tk_robocopy_backup_script_helper.py:52-55 | Deleting the sources at one set of paths and then at another is the same as one delete of both sets. |
| Tables.WithoutOwnedTwice | tk_robocopy_backup_script_helper.py:33 | Two cascades are the same as one cascade of both id sets. |
| Tables.IdsAtAfterDelete | tk_robocopy_backup_script_helper.py:52-55 | The ids the second delete cascades, together with those of the first, are the ids of the sources at either set of paths. |
| Tables.FindSourceIdAfterDelete | tk_robocopy_backup_script_helper.py:52-55 | Deleting other paths does not change the id found for a path that is kept. |
| Tables.FindSourceIdDeleted | tk_robocopy_backup_script_helper.py:52-55 | A deleted path is no longer found and no longer listed. |
| Tables.OwnedPathsWithoutOwned | tk_robocopy_backup_script_helper.py:68-70 | A cascade for other ids does not change the targets listed for a source. |
| Tables.LookupAppend | tk_robocopy_backup_script_helper.py:74-76 | A lookup in two runs of rows finds the first run's match, or else the second run's. |
| Tables.LookupWithoutKey | tk_robocopy_backup_script_helper.py:18-21 | Deleting the rows of one key does not change what another key reads. |
| Tables.UpsertLookup | tk_robocopy_backup_script_helper.py:71-82 | After an upsert the key reads the new value and every other key reads what it read before. |
| Tables.UpsertLastWins | tk_robocopy_backup_script_helper.py:71-82 | Last write wins: after two upserts of a key, it reads the second value. |
| Tables.OwnersOfCount | tk_robocopy_backup_script_helper.py:83-84 | Under the primary key and the foreign key, a target with an owner meets exactly one source in the join. A NULL-owned target meets none. |
| Tables.JoinOnePerOwnedTarget | tk_robocopy_backup_script_helper.py:83-84 | Under the DDL's constraints, `main_view` has exactly one row per target with an owner and none for NULL-owned targets. |
| Tables.CascadeTwice | tk_robocopy_backup_script_helper.py:52-55 | Two deletes, each with its cascade, leave the sources and the targets exactly as one delete of both path sets does. |
| Tables.ViewTargetsAfterRemoval | tk_robocopy_backup_script_helper.py:52-55 | Removing the sources at some paths, with the cascade, leaves what `view_targets` lists for every other path exactly as it was. |
| SettingsStore.SettingsDatabase.constructor | tk_robocopy_backup_script_helper.py:36-42 | Opening a database whose tables satisfy the DDL's constraints keeps them. The config rows are unchanged, and the empty-path sources are purged along with their targets. |
| SettingsStore.SettingsDatabase.Valid | tk_robocopy_backup_script_helper.py:14-34 | The store's tables satisfy `Consistent`. Every method of the store requires it and keeps it. |
| SettingsStore.SettingsDatabase.NoEmptySource | tk_robocopy_backup_script_helper.py:44-46 | No source has the empty path. The constructor, DeleteEmpty, RemoveSource and RemoveTarget establish it, and AddSource keeps it for a non-empty path. |
| SettingsStore.SettingsDatabase.DeleteSourcesAt | tk_robocopy_backup_script_helper.py:28-33 | A delete from sources, with its cascade into targets, keeps every constraint and leaves config alone. |
| SettingsStore.SettingsDatabase.DeleteEmpty | tk_robocopy_backup_script_helper.py:44-46 | `delete_empty` leaves no source with an empty path, removes the targets of the sources it deletes, and keeps the constraints. |
| SettingsStore.SettingsDatabase.AddSource | tk_robocopy_backup_script_helper.py:47-51 | A resolved path that names a directory is inserted, or ignored when already present, and is then listed by `view_sources`. Any other path changes nothing. Targets and config are untouched and the constraints hold. |
| SettingsStore.SettingsDatabase.RemoveSource | tk_robocopy_backup_script_helper.py:52-55 | Deletes the source at the path and the empty-path sources, with their targets. The path is no longer listed and has no targets. The targets of every other non-empty path are exactly as before, and the constraints hold. |
| SettingsStore.SettingsDatabase.RemoveTarget | tk_robocopy_backup_script_helper.py:56-59 | No target with the path remains, then empty-path sources are purged. In a store that had none, only that target row goes. |
| SettingsStore.SettingsDatabase.AddTarget | tk_robocopy_backup_script_helper.py:60-65 | A directory target is inserted under the id of the source path, or under NULL when that path is not a source. An existing target path keeps its row. A new target under a known source is then listed by `view_targets`. Sources and config are untouched and the constraints hold. |
| SettingsStore.SettingsDatabase.ViewSources | tk_robocopy_backup_script_helper.py:66-67 | One path per source row, and exactly the registered source paths. |
| SettingsStore.SettingsDatabase.SourcePathsUnique | tk_robocopy_backup_script_helper.py:66-67 | In a consistent store, `view_sources` lists no path twice. |
| SettingsStore.SettingsDatabase.ViewTargets | tk_robocopy_backup_script_helper.py:68-70 | A path that is not a source has no targets: the NULL id matches no row. |
| SettingsStore.SettingsDatabase.ViewTargetsExactly | tk_robocopy_backup_script_helper.py:68-70 | In a consistent store, `view_targets(p)` lists q exactly when some target at q is owned by the source at p. |
| SettingsStore.SettingsDatabase.MainView | tk_robocopy_backup_script_helper.py:83-84 | Exactly the pairs of a source path and the path of a target it owns. In a consistent store there is one pair per owned target. |
| SettingsStore.SettingsDatabase.GetOutputLocation | tk_robocopy_backup_script_helper.py:74-76 | None exactly when the output location was never set; otherwise the value of its row. |
| SettingsStore.SettingsDatabase.GetLogfileLocation | tk_robocopy_backup_script_helper.py:80-82 | None exactly when the log file location was never set; otherwise the value of its row. |
| SettingsStore.SettingsDatabase.SetConfig | tk_robocopy_backup_script_helper.py:18-21 | The key now reads the new value, every other key reads what it read before, and the other tables are untouched. |
| SettingsStore.SettingsDatabase.SetOutputLocation | tk_robocopy_backup_script_helper.py:71-73 | `get_output_location` now returns the path, and `get_logfile_location` is unchanged. |
| SettingsStore.SettingsDatabase.SetLogfileLocation | tk_robocopy_backup_script_helper.py:77-79 | `get_logfile_location` now returns the path, and `get_output_location` is unchanged. |
| Text.LeadingSpaces | log_analyze.py:20-27 | The length of the run `^\s*` consumes, at most the string's length. LeadingSpacesSpec states its contract: whitespace and maximal. |
| Text.LeadingSpacesSpec | log_analyze.py:20-27 | The run `\s*` consumes is whitespace and is maximal. |
| Text.IsSpace | log_analyze.py:20-27 | Python's `str.isspace`, which is also what `\s` matches in a `str` pattern, listed by code point. TrimLeftSpec, TrimRightSpec, StripSpec and MatchesIsRegexMatch use it. |
| Text.TrailingSpaces | log_analyze.py:21-27 | The length of the trailing run `strip()` drops, at most the string's length. TrailingSpacesSpec states its contract. |
| Text.TrailingSpacesSpec | log_analyze.py:21-27 | The trailing run `strip()` drops is whitespace and is maximal. |
| Text.TrimLeftSpec | log_analyze.py:20-27 | `lstrip` drops only whitespace and keeps a suffix that is empty or starts with a non-whitespace character. |
| Text.TrimLeft | log_analyze.py:20-27 | `lstrip`, the run `^\s*` consumes. TrimLeftSpec states its contract. |
| Text.TrimRightSpec | log_analyze.py:21-27 | `rstrip` drops only whitespace and keeps a prefix that is empty or ends with a non-whitespace character. |
| Text.TrimRight | log_analyze.py:21-27 | `rstrip`. TrimRightSpec states its contract. |
| Text.StripSpec | log_analyze.py:21-27 | `strip` keeps a prefix of the `lstrip` result and drops only whitespace after it. The result is empty or starts and ends with a non-whitespace character. |
| Text.Strip | log_analyze.py:21-27 | `str.strip()`, applied to each entry. StripSpec states its contract. |
| Text.Join | log_analyze.py:29-33 | Joining nothing gives the empty string, and a join starts with its first part. |
| Text.JoinSnoc | tk_robocopy_backup_script_helper.py:268-270 | Joining one more part appends the separator and that part, and nothing else. |
| Text.SplitJoin | tk_robocopy_backup_script_helper.py:270 | Splitting a text joined with "\n" gives back the parts when no part holds "\n". |
| Text.Split | tk_robocopy_backup_script_helper.py:270 | The inverse of the join at :270 (Python's `str.split` with one separator, empty pieces kept), so that SplitJoin can state the round trip; no piece holds the separator. |
| Script.CopyLines | tk_robocopy_backup_script_helper.py:262-267 | One line per pair, in order. The current template fills the first line and the later template fills every other one. |
| Script.CopyLine | tk_robocopy_backup_script_helper.py:262-263 | One ROBOCOPY line filled in with the source, the target, the log switch and the log file. The two templates differ only in the log switch. ScriptLinesShape and CopyLineOneLine state its properties. |
| Script.AnalyzerLine | tk_robocopy_backup_script_helper.py:268 | The interpreter, the analyzer and the log file, each quoted. ScriptLinesShape states that it is the last line. |
| Script.ScriptLines | tk_robocopy_backup_script_helper.py:262-268 | The copy lines followed by the analyzer line. ScriptLinesShape states its contract, and GenerateLines equals it. |
| Script.ScriptLinesShape | tk_robocopy_backup_script_helper.py:262-268 | The lines are one per pair: the first with `/UNILOG:`, later ones with `/UNILOG+:`. The analyzer line is last. |
| Script.GenerateLines | tk_robocopy_backup_script_helper.py:259-268 | The loop with the template as state builds exactly those lines, per line and as a whole. |
| Script.Generate | tk_robocopy_backup_script_helper.py:258-270 | The script text is the lines for `main_view`, joined with "\n". An empty view gives just the analyzer line. |
| Script.ScriptText | tk_robocopy_backup_script_helper.py:270 | The lines joined with "\n". NoPairsScript, ScriptEndsWithAnalyzer and ScriptTextLines state its properties. |
| Script.NoPairsScript | tk_robocopy_backup_script_helper.py:264-270 | Without pairs the script is the analyzer line alone. |
| Script.ScriptEndsWithAnalyzer | tk_robocopy_backup_script_helper.py:268-270 | With pairs, the script is the joined copy lines, a newline and the analyzer line, with no trailing newline. |
| Script.CopyLineOneLine | tk_robocopy_backup_script_helper.py:262-263 | A filled template holds no line break unless a path does. |
| Script.ScriptTextLines | tk_robocopy_backup_script_helper.py:262-270 | When no path holds a line break, the script splits back into exactly one line per pair plus the analyzer line. |
| LogAnalyze.Word | log_analyze.py:20-27 | The pattern of a word has one literal atom per character of the word. |
| LogAnalyze.MatchesAt | log_analyze.py:20-27 | The atom-by-atom part of `re.match` at the start of a string. MatchesAtIndex states its contract. |
| LogAnalyze.MatchesAtIndex | log_analyze.py:20-27 | A pattern matches at the start of a string exactly when each atom matches the character at its own index. |
| LogAnalyze.WordMatches | log_analyze.py:20-27 | A literal pattern matches exactly the strings that begin with its word. |
| LogAnalyze.MatchesIsRegexMatch | log_analyze.py:20-27 | For a pattern starting with a non-whitespace literal, the keyword right after the maximal leading whitespace is the same as `re.match(r"^\s*P.*")`: some whitespace prefix followed by the pattern. |
| LogAnalyze.RegexMatch | log_analyze.py:20-27 | `re.match(r"^\s*P.*", line)`: some whitespace prefix is followed by the pattern. MatchesIsRegexMatch and ClassifyIsRegex tie it to the classifier. |
| LogAnalyze.Matches | log_analyze.py:20-27 | The pattern right after the maximal leading whitespace. MatchesIsRegexMatch states that it agrees with `re.match`. |
| LogAnalyze.KeywordOf | log_analyze.py:20-27 | Each pattern is its keyword followed by `\s`, and the keyword ends in a non-whitespace literal. |
| LogAnalyze.PatternsExclusive | log_analyze.py:20-27 | No line matches two of the four patterns. |
| LogAnalyze.ClassifyExactly | log_analyze.py:19-27 | A line goes to a bucket exactly when it matches that bucket's pattern, so the order of the tests does not matter. It is dropped exactly when it matches none. |
| LogAnalyze.Classify | log_analyze.py:19-27 | The if/elif chain in source order. ClassifyExactly and ClassifyIsRegex state its contract. |
| LogAnalyze.ClassifyIsRegex | log_analyze.py:19-27 | A line goes to a bucket exactly when `re.match` accepts it with that bucket's pattern. |
| LogAnalyze.EntryKeepsKeyword | log_analyze.py:20-27 | The stripped entry of a classified line still begins with its bucket's keyword. |
| LogAnalyze.KeywordWords | log_analyze.py:20-23 | The Modified and Newer keywords are the literal words `Modified` and `Newer`. |
| LogAnalyze.EntryStartsWithWord | log_analyze.py:20-23 | The stripped entry of a Modified or Newer line begins with the literal word `Modified` or `Newer`. |
| LogAnalyze.Entries | log_analyze.py:19-27 | A bucket never holds more entries than there are lines. |
| LogAnalyze.EntryListed | log_analyze.py:19-27 | Every line classified into a bucket has its stripped text in that bucket. |
| LogAnalyze.EntrySource | log_analyze.py:19-27 | Every entry of a bucket is the stripped text of some line classified into it. |
| LogAnalyze.EntriesSnoc | log_analyze.py:19-27 | One more line extends each bucket by that line's entry, if it has one. |
| LogAnalyze.EntriesAppend | log_analyze.py:19-27 | Buckets keep line order: the entries of two runs of lines are the first run's entries followed by the second's. |
| LogAnalyze.EntriesPartition | log_analyze.py:19-27 | Every line lands in exactly one bucket or is dropped: the four bucket sizes plus the dropped lines add up to the number of lines. |
| LogAnalyze.Dropped | log_analyze.py:19-27 | The number of lines no bucket takes, never more than the number of lines. EntriesPartition states that it completes the four buckets to all lines. |
| LogAnalyze.BucketTextEmpty | log_analyze.py:29-33 | A bucket's joined text is empty exactly when no line went to the bucket. |
| LogAnalyze.ReportEmpty | log_analyze.py:19-33 | The report is empty exactly when no line matched any keyword. |
| LogAnalyze.GroupsRunTogether | log_analyze.py:29-33 | No separator is written between groups: a Modified line followed by a Newer line gives a report that is their stripped texts back to back. |
| LogAnalyze.TwoLines | log_analyze.py:19-27 | The buckets for two lines hold the first line's entry, then the second's. |
| LogAnalyze.EntriesStep | log_analyze.py:19-27 | One iteration of the loop appends the current line's entry to its bucket. |
| LogAnalyze.Analyze | log_analyze.py:19-33 | The loop and the four writes produce exactly `Report`: the four buckets in order, each joined with the line separator. |
| LogAnalyze.Report | log_analyze.py:29-33 | The four joins written in order with nothing between them. ReportEmpty, BucketTextEmpty and GroupsRunTogether state its properties, and Analyze equals it. |
| LogAnalyze.RFind | log_analyze.py:12 | `str.rfind` returns the last index of the character, or -1 when the character does not occur. |
| LogAnalyze.StemSuffixSplit | log_analyze.py:12 | Stem followed by suffix is the name. A suffix is a dot followed by at least one character and no other dot, and it comes after a non-empty stem. |
| LogAnalyze.Stem | log_analyze.py:12 | `PurePath.stem`: the name before its last dot when the name has a suffix, otherwise the whole name. StemSuffixSplit states its contract. |
| LogAnalyze.Suffix | log_analyze.py:12 | `PurePath.suffix`: from the last dot on, when that dot is neither first nor last, otherwise empty. StemSuffixSplit states its contract. |
| LogAnalyze.ReportPath | log_analyze.py:12 | `with_stem` fails exactly when the log's name is empty. Otherwise the report stays in the log's directory. |
| LogAnalyze.ReportPathStemSuffix | log_analyze.py:12 | The report's name has the log's suffix and the log's stem with `_report` appended. This holds unless the name ends in a dot. |
| LogAnalyze.ReportPathTrailingDot | log_analyze.py:12 | For a log named `backup.`, the report is `backup._report`, whose stem is `backup` and not `backup._report`. |

## Left out

- The Tk user interface is not modelled. That covers the `App` widgets and callbacks, the `here` guard that refuses the script's own directory, and the `Settings` singleton that opens the connection.
- The `iterdump` printing in `__init__` and every `print` call are not modelled: they are output only.
- `commit` calls and transactions are not modelled. Every statement takes effect at once.
- Opening `settings.db` and creating its tables are not modelled. The constructor receives the rows a database file holds, and they satisfy the DDL's constraints. The model takes `pragma foreign_keys=1` as in force, so the foreign key is checked and the cascade runs. `recursive_triggers` changes nothing because the schema has no triggers.
- `pathlib.Path.resolve()` and `is_dir()` touch the file system. `SettingsDatabase.AddSource` and `SettingsDatabase.AddTarget` receive them as function parameters.
- A path argument of `None` is not modelled. The Tk callbacks pass one when nothing is selected. The methods take a string, and a string that names no row of the table being queried or deleted from behaves like `None`: no source path for `remove_source`, `view_targets` and the lookup in `add_target`, and no target path for `remove_target`.
- Row order follows insertion order. `main_view` scans targets in the outer loop. SQLite does not promise either order, so the order of `view_sources`, `view_targets` and `main_view` results is one possible order.
- New ids follow SQLite's rule without AUTOINCREMENT: the largest id plus one, which reuses the id of a deleted last row. The random id SQLite picks once the largest id reaches 2^63-1 is not modelled.
- In `generate`, reading the output and log file locations from the Tk variables, opening the output file and writing to it are left out. The log file, the interpreter path and the analyzer path are parameters, and `Generate` returns the text.
- In the analyzer, `argparse`, opening the log as UTF-16, `readlines` and writing the report file are left out. The lines arrive as a sequence of strings, `os.linesep` is a parameter, and `Analyze` returns the text written.
- `pathlib` is modelled as in Python 3.9 to 3.13: a name's suffix starts at its last dot when that dot is neither first nor last. Path parsing is not modelled: the log path arrives already split into a parent and a final name.
- Unicode case and normalisation play no part: the patterns are literal and `\s` is `str.isspace`.
- `generate` does not refuse to run when no output or log file location is set, and `add_target` stores a NULL owner when the source path is not a source. The model follows the code in both cases.
