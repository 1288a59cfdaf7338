/**
 * The settings database: a config table of key/value settings and the
 * sources/targets relation, with the statements and queries the helper's
 * SettingsDatabase issues. Each table is a sequence of rows in insertion order.
 */
module SettingsStore {
  import opened Options
  import opened Tables

  class SettingsDatabase {
    var config: seq<ConfigRow>
    var sources: seq<SourceRow>
    var targets: seq<TargetRow>

    /** The constraints of the DDL hold. */
    ghost predicate Valid()
      reads this
    {
      Consistent(config, sources, targets)
    }

    /** No source has the empty path: the state delete_empty leaves behind. */
    ghost predicate NoEmptySource()
      reads this
    {
      forall s :: s in sources ==> s.path != ""
    }

    /** Opens a database file whose tables hold the given rows (all empty for a new
        file) and purges the sources with an empty path. */
    constructor (storedConfig: seq<ConfigRow>, storedSources: seq<SourceRow>, storedTargets: seq<TargetRow>)
      requires Consistent(storedConfig, storedSources, storedTargets)
      ensures Valid() && NoEmptySource()
      ensures config == storedConfig
      ensures sources == SourcesNotAt(storedSources, {""})
      ensures targets == WithoutOwned(storedTargets, IdsAt(storedSources, {""}))
    {
      config, sources, targets := storedConfig, storedSources, storedTargets;
      new;
      DeleteEmpty();
    }

    /** `delete from sources where path = ?` for each of `paths`, with the foreign
        key's cascade into targets. */
    method DeleteSourcesAt(paths: set<Path>)
      requires Valid()
      modifies this
      ensures Valid()
      ensures config == old(config)
      ensures sources == SourcesNotAt(old(sources), paths)
      ensures targets == WithoutOwned(old(targets), IdsAt(old(sources), paths))
    {
      var doomed := IdsAt(sources, paths);
      ghost var before := sources;
      sources := SourcesNotAt(sources, paths);
      targets := WithoutOwned(targets, doomed);
      KeyedSubset(sources, before, SourceId);
      KeyedSubset(sources, before, SourcePath);
      KeyedSubset(targets, old(targets), TargetId);
      KeyedSubset(targets, old(targets), TargetPath);
      forall t | t in targets && t.sourceId.Some? ensures t.sourceId.value in IdsOf(sources) {
        var s :| s in before && s.id == t.sourceId.value;
        assert s.path !in paths;
        assert s in sources;
      }
    }

    /** delete_empty: `delete from sources where path=''`, with the cascade. */
    method DeleteEmpty()
      requires Valid()
      modifies this
      ensures Valid() && NoEmptySource()
      ensures config == old(config)
      ensures sources == SourcesNotAt(old(sources), {""})
      ensures targets == WithoutOwned(old(targets), IdsAt(old(sources), {""}))
    {
      DeleteSourcesAt({""});
    }

    /** add_source: registers the resolved path when it names a directory; a path
        already registered is ignored. */
    method AddSource(path: Path, resolve: Path -> Path, isDir: Path -> bool)
      requires Valid()
      modifies this
      ensures Valid()
      ensures config == old(config) && targets == old(targets)
      ensures sources == if isDir(resolve(path)) then InsertSource(old(sources), resolve(path)) else old(sources)
      ensures isDir(resolve(path)) ==> resolve(path) in ViewSources()
      ensures old(NoEmptySource()) && resolve(path) != "" ==> NoEmptySource()
    {
      var source := resolve(path);
      if isDir(source) {
        sources := InsertSource(sources, source);
        assert forall id :: id in IdsOf(old(sources)) ==> id in IdsOf(sources);
      }
    }

    /** remove_source: deletes the source with this path, and by the cascade its
        targets, then purges empty-path sources. */
    method RemoveSource(path: Path)
      requires Valid()
      modifies this
      ensures Valid() && NoEmptySource()
      ensures config == old(config)
      ensures sources == SourcesNotAt(old(sources), {path, ""})
      ensures targets == WithoutOwned(old(targets), IdsAt(old(sources), {path, ""}))
      ensures path !in ViewSources() && ViewTargets(path) == []
      ensures forall q :: q != path && q != "" ==> ViewTargets(q) == old(ViewTargets(q))
    {
      ghost var s0, t0 := sources, targets;
      DeleteSourcesAt({path});
      DeleteEmpty();
      ghost var both: set<Path> := {path, ""};
      assert {path} + {""} == both;
      CascadeTwice(s0, t0, {path}, {""});
      assert sources == SourcesNotAt(s0, both);
      FindSourceIdDeleted(s0, both, path);
      forall q | q != path && q != "" ensures ViewTargets(q) == old(ViewTargets(q)) {
        ViewTargetsAfterRemoval(s0, t0, both, q);
        assert old(ViewTargets(q)) == OwnedPaths(t0, FindSourceId(s0, q));
      }
    }

    /** remove_target: deletes the target with this path, then purges empty-path sources. */
    method RemoveTarget(path: Path)
      requires Valid()
      modifies this
      ensures Valid() && NoEmptySource()
      ensures config == old(config)
      ensures sources == SourcesNotAt(old(sources), {""})
      ensures targets == WithoutOwned(TargetsNotAt(old(targets), path), IdsAt(old(sources), {""}))
      ensures forall t :: t in targets ==> t.path != path
      ensures old(NoEmptySource()) ==> sources == old(sources) && targets == TargetsNotAt(old(targets), path)
    {
      ghost var s0 := sources;
      targets := TargetsNotAt(targets, path);
      KeyedSubset(targets, old(targets), TargetId);
      KeyedSubset(targets, old(targets), TargetPath);
      DeleteEmpty();
      if old(NoEmptySource()) {
        assert IdsAt(s0, {""}) == {};
      }
    }

    /** add_target: when the resolved target path names a directory, inserts it under
        the id of the source with `sourcePath` -- NULL when there is no such source.
        A target path already present keeps its row and its owner. */
    method AddTarget(sourcePath: Path, targetPath: Path, resolve: Path -> Path, isDir: Path -> bool)
      requires Valid()
      modifies this
      ensures Valid()
      ensures config == old(config) && sources == old(sources)
      ensures targets == if isDir(resolve(targetPath))
                         then InsertTarget(old(targets), resolve(targetPath), FindSourceId(sources, sourcePath))
                         else old(targets)
      ensures isDir(resolve(targetPath)) && FindSourceId(sources, sourcePath).Some?
              && !HasTarget(old(targets), resolve(targetPath))
              ==> resolve(targetPath) in ViewTargets(sourcePath)
    {
      var target := resolve(targetPath);
      if isDir(target) {
        var sourceId := FindSourceId(sources, sourcePath);
        targets := InsertTarget(targets, target, sourceId);
        if sourceId.Some? && !HasTarget(old(targets), target) {
          assert targets[|old(targets)|] in targets;
        }
      }
    }

    /** view_sources: the registered source paths, each once. */
    function ViewSources(): (paths: seq<Path>)
      reads this
      ensures |paths| == |sources|
      ensures forall p :: p in paths <==> FindSourceId(sources, p).Some?
    {
      Paths(sources)
    }

    /** Source paths stay unique: view_sources lists no path twice. */
    lemma SourcePathsUnique()
      requires Valid()
      ensures NoDup(ViewSources())
    {
      PathsNoDup(sources);
    }

    /** view_targets: the paths of the targets whose source_id equals the id of the
        source with path `p`; nothing when `p` is not a source. */
    function ViewTargets(p: Path): (paths: seq<Path>)
      reads this
      ensures FindSourceId(sources, p).None? ==> paths == []
    {
      OwnedPaths(targets, FindSourceId(sources, p))
    }

    /** In a consistent store, view_targets(p) lists exactly the targets owned by the
        source whose path is p; NULL-owned targets are never listed. */
    lemma ViewTargetsExactly(p: Path, q: Path)
      requires Valid()
      ensures q in ViewTargets(p) <==>
              exists s, t :: s in sources && t in targets && s.path == p && t.path == q && t.sourceId == Some(s.id)
    {
      var found := FindSourceId(sources, p);
      if found.Some? {
        var row := SourceRow(found.value, p);
        forall s | s in sources && s.path == p ensures s == row {
          assert SourcePath(s) == SourcePath(row);
        }
      }
    }

    /** main_view: the inner join of sources and targets on sources.id = targets.source_id. */
    function MainView(): (pairs: seq<(Path, Path)>)
      reads this
      ensures forall a, b :: (a, b) in pairs <==>
                exists s, t :: s in sources && t in targets && t.sourceId == Some(s.id)
                               && a == s.path && b == t.path
      ensures Valid() ==> |pairs| == CountOwned(targets)
    {
      assert Valid() ==> |JoinRows(sources, targets)| == CountOwned(targets) by {
        if Valid() { JoinOnePerOwnedTarget(sources, targets); }
      }
      JoinRows(sources, targets)
    }

    /** get_output_location: the stored value, or None when it was never set. */
    function GetOutputLocation(): (v: Option<string>)
      reads this
      ensures v.None? <==> forall r :: r in config ==> r.key != OutputLocationKey
      ensures v.Some? ==> ConfigRow(OutputLocationKey, v.value) in config
    {
      Lookup(config, OutputLocationKey)
    }

    /** get_logfile_location: the stored value, or None when it was never set. */
    function GetLogfileLocation(): (v: Option<string>)
      reads this
      ensures v.None? <==> forall r :: r in config ==> r.key != LogfileLocationKey
      ensures v.Some? ==> ConfigRow(LogfileLocationKey, v.value) in config
    {
      Lookup(config, LogfileLocationKey)
    }

    /** `insert into config (key, value) values (?, ?)` under `on conflict replace`. */
    method SetConfig(key: string, value: string)
      requires Valid()
      modifies this
      ensures Valid()
      ensures sources == old(sources) && targets == old(targets)
      ensures config == Upsert(old(config), key, value)
      ensures Lookup(config, key) == Some(value)
      ensures forall other :: other != key ==> Lookup(config, other) == Lookup(old(config), other)
    {
      config := Upsert(config, key, value);
      UpsertLookup(old(config), key, value, key);
      forall other | other != key ensures Lookup(config, other) == Lookup(old(config), other) {
        UpsertLookup(old(config), key, value, other);
      }
    }

    /** set_output_location */
    method SetOutputLocation(path: string)
      requires Valid()
      modifies this
      ensures Valid()
      ensures sources == old(sources) && targets == old(targets)
      ensures config == Upsert(old(config), OutputLocationKey, path)
      ensures GetOutputLocation() == Some(path)
      ensures GetLogfileLocation() == old(GetLogfileLocation())
    {
      SetConfig(OutputLocationKey, path);
    }

    /** set_logfile_location */
    method SetLogfileLocation(path: string)
      requires Valid()
      modifies this
      ensures Valid()
      ensures sources == old(sources) && targets == old(targets)
      ensures config == Upsert(old(config), LogfileLocationKey, path)
      ensures GetLogfileLocation() == Some(path)
      ensures GetOutputLocation() == old(GetOutputLocation())
    {
      SetConfig(LogfileLocationKey, path);
    }
  }
}
