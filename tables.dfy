/**
 * The three tables of the settings database and the effect of each SQL
 * statement the store issues, as pure functions over the tables' rows.
 *
 * Rows are kept in insertion order. An `integer primary key` column receives
 * one more than the largest id in the table (1 in an empty table), which is
 * always an id no row has.
 */
module Tables {
  import opened Options

  type Path = string

  /** The two keys the store writes into the config table. */
  const OutputLocationKey: string := "output_location"
  const LogfileLocationKey: string := "logfile_location"

  /** config(key text, value text, unique (key) on conflict replace) */
  datatype ConfigRow = ConfigRow(key: string, value: string)
  /** sources(id integer primary key, path text, unique (path) on conflict ignore) */
  datatype SourceRow = SourceRow(id: nat, path: Path)
  /** targets(id integer primary key, path text, source_id integer,
      unique (path) on conflict ignore, foreign key (source_id) references sources(id) on delete cascade);
      a None source id is SQL NULL. */
  datatype TargetRow = TargetRow(id: nat, path: Path, sourceId: Option<nat>)

  function ConfigKey(r: ConfigRow): string { r.key }
  function SourceId(r: SourceRow): nat { r.id }
  function SourcePath(r: SourceRow): Path { r.path }
  function TargetId(r: TargetRow): nat { r.id }
  function TargetPath(r: TargetRow): Path { r.path }

  // ---------------------------------------------------------------------------
  // Constraints

  ghost predicate NoDup<T(!new)>(s: seq<T>) {
    forall x :: multiset(s)[x] <= 1
  }

  /** A UNIQUE (or PRIMARY KEY) constraint on the column `key`: no row occurs
      twice, and two rows that agree on the column are the same row. */
  ghost predicate KeyedBy<T(!new), K>(s: seq<T>, key: T -> K) {
    NoDup(s) && forall x, y :: x in s && y in s && key(x) == key(y) ==> x == y
  }

  /** Deleting rows keeps a constraint. */
  lemma KeyedSubset<T(!new), K>(r: seq<T>, s: seq<T>, key: T -> K)
    requires multiset(r) <= multiset(s)
    ensures KeyedBy(s, key) ==> KeyedBy(r, key)
  {
    forall x | x in r ensures x in s {
      assert multiset(r)[x] > 0;
    }
  }

  /** Appending a row whose column value is new keeps a constraint. */
  lemma KeyedAppend<T(!new), K>(s: seq<T>, x: T, key: T -> K)
    requires forall y :: y in s ==> key(y) != key(x)
    ensures KeyedBy(s, key) ==> KeyedBy(s + [x], key)
  {
    assert x !in s;
    assert multiset(s + [x]) == multiset(s) + multiset{x};
  }

  /** SQL's `a = b`: NULL is equal to nothing, not even to NULL. */
  predicate SqlEq(a: Option<nat>, b: Option<nat>) {
    a.Some? && b.Some? && a.value == b.value
  }

  function IdsOf(rows: seq<SourceRow>): set<nat> {
    set s | s in rows :: s.id
  }

  /** The ids of the sources whose path is one of `paths`. */
  function IdsAt(rows: seq<SourceRow>, paths: set<Path>): set<nat> {
    set s | s in rows && s.path in paths :: s.id
  }

  /** The foreign key: a non-NULL source_id names an existing source. */
  ghost predicate OwnersExist(sources: seq<SourceRow>, targets: seq<TargetRow>) {
    forall t :: t in targets && t.sourceId.Some? ==> t.sourceId.value in IdsOf(sources)
  }

  /** Everything the DDL enforces about the three tables. */
  ghost predicate Consistent(config: seq<ConfigRow>, sources: seq<SourceRow>, targets: seq<TargetRow>) {
    && KeyedBy(config, ConfigKey)
    && KeyedBy(sources, SourceId) && KeyedBy(sources, SourcePath)
    && KeyedBy(targets, TargetId) && KeyedBy(targets, TargetPath)
    && OwnersExist(sources, targets)
  }

  // ---------------------------------------------------------------------------
  // Ids

  /** The id SQLite gives a new `integer primary key` row: one more than the
      largest id in the table, or 1 in an empty table. */
  function NextId<T>(rows: seq<T>, id: T -> nat): (n: nat)
    ensures forall r :: r in rows ==> id(r) < n
    ensures rows == [] ==> n == 1
    ensures rows != [] ==> exists r :: r in rows && id(r) == n - 1
  {
    if rows == [] then 1
    else
      var m := NextId(rows[1..], id);
      assert forall r :: r in rows ==> r == rows[0] || r in rows[1..];
      if id(rows[0]) < m then m else id(rows[0]) + 1
  }

  // ---------------------------------------------------------------------------
  // Queries

  /** `select id from sources where path = ?` followed by fetchone(). */
  function FindSourceId(rows: seq<SourceRow>, path: Path): (r: Option<nat>)
    ensures r.None? <==> forall s :: s in rows ==> s.path != path
    ensures r.Some? ==> SourceRow(r.value, path) in rows
  {
    if rows == [] then None
    else if rows[0].path == path then Some(rows[0].id)
    else FindSourceId(rows[1..], path)
  }

  /** `select path from sources`. */
  function Paths(rows: seq<SourceRow>): (paths: seq<Path>)
    ensures |paths| == |rows|
    ensures forall p :: p in paths <==> FindSourceId(rows, p).Some?
  {
    if rows == [] then [] else [rows[0].path] + Paths(rows[1..])
  }

  /** `select value from config where key = ?` followed by fetchone(). */
  function Lookup(rows: seq<ConfigRow>, key: string): (v: Option<string>)
    ensures v.None? <==> forall r :: r in rows ==> r.key != key
    ensures v.Some? ==> ConfigRow(key, v.value) in rows
  {
    if rows == [] then None
    else if rows[0].key == key then Some(rows[0].value)
    else Lookup(rows[1..], key)
  }

  /** `select path from targets where source_id = ?`; a NULL argument matches no row. */
  function OwnedPaths(rows: seq<TargetRow>, owner: Option<nat>): (paths: seq<Path>)
    ensures |paths| <= |rows|
    ensures owner.None? ==> paths == []
    ensures forall p :: p in paths <==> exists t :: t in rows && t.path == p && SqlEq(t.sourceId, owner)
  {
    if rows == [] then []
    else (if SqlEq(rows[0].sourceId, owner) then [rows[0].path] else []) + OwnedPaths(rows[1..], owner)
  }

  /** The rows `sources join targets on sources.id = targets.source_id` produces for one target. */
  function OwnersOf(sources: seq<SourceRow>, t: TargetRow): (pairs: seq<(Path, Path)>)
    ensures (forall s :: s in sources ==> !SqlEq(Some(s.id), t.sourceId)) ==> pairs == []
    ensures forall a, b :: (a, b) in pairs <==>
              exists s :: s in sources && SqlEq(Some(s.id), t.sourceId) && a == s.path && b == t.path
  {
    if sources == [] then []
    else
      (if SqlEq(Some(sources[0].id), t.sourceId) then [(sources[0].path, t.path)] else [])
      + OwnersOf(sources[1..], t)
  }

  /** `select sources.path, targets.path from sources join targets on sources.id = targets.source_id`,
      scanning targets in insertion order. */
  function JoinRows(sources: seq<SourceRow>, targets: seq<TargetRow>): (pairs: seq<(Path, Path)>)
    ensures forall a, b :: (a, b) in pairs <==>
              exists s, t :: s in sources && t in targets && SqlEq(Some(s.id), t.sourceId)
                             && a == s.path && b == t.path
  {
    if targets == [] then []
    else
      assert forall t :: t in targets ==> t == targets[0] || t in targets[1..];
      OwnersOf(sources, targets[0]) + JoinRows(sources, targets[1..])
  }

  /** The number of targets whose source_id is not NULL. */
  function CountOwned(targets: seq<TargetRow>): (n: nat)
    ensures n <= |targets|
  {
    if targets == [] then 0
    else (if targets[0].sourceId.Some? then 1 else 0) + CountOwned(targets[1..])
  }

  // ---------------------------------------------------------------------------
  // Statements

  /** `insert into sources (path) values (?)` under `on conflict ignore`. */
  function InsertSource(rows: seq<SourceRow>, path: Path): (r: seq<SourceRow>)
    ensures FindSourceId(rows, path).Some? ==> r == rows
    ensures FindSourceId(rows, path).None? ==>
              |r| == |rows| + 1 && r[..|rows|] == rows && r[|rows|].path == path
              && forall s :: s in rows ==> s.id < r[|rows|].id
    ensures FindSourceId(r, path).Some?
    ensures forall s :: s in rows ==> s in r
    ensures forall s :: s in r ==> s in rows || s.path == path
    ensures KeyedBy(rows, SourceId) ==> KeyedBy(r, SourceId)
    ensures KeyedBy(rows, SourcePath) ==> KeyedBy(r, SourcePath)
  {
    match FindSourceId(rows, path)
    case Some(_) => rows
    case None =>
      var s := SourceRow(NextId(rows, SourceId), path);
      KeyedAppend(rows, s, SourceId);
      KeyedAppend(rows, s, SourcePath);
      assert s in rows + [s];
      rows + [s]
  }

  predicate HasTarget(rows: seq<TargetRow>, path: Path) {
    exists t :: t in rows && t.path == path
  }

  /** `insert into targets (path, source_id) values (?, ?)` under `on conflict ignore`. */
  function InsertTarget(rows: seq<TargetRow>, path: Path, owner: Option<nat>): (r: seq<TargetRow>)
    ensures HasTarget(rows, path) ==> r == rows
    ensures !HasTarget(rows, path) ==>
              |r| == |rows| + 1 && r[..|rows|] == rows
              && r[|rows|].path == path && r[|rows|].sourceId == owner
              && forall t :: t in rows ==> t.id < r[|rows|].id
    ensures HasTarget(r, path)
    ensures forall t :: t in rows ==> t in r
    ensures forall t :: t in r ==> t in rows || (t.path == path && t.sourceId == owner)
    ensures KeyedBy(rows, TargetId) ==> KeyedBy(r, TargetId)
    ensures KeyedBy(rows, TargetPath) ==> KeyedBy(r, TargetPath)
  {
    if HasTarget(rows, path) then rows
    else
      var t := TargetRow(NextId(rows, TargetId), path, owner);
      KeyedAppend(rows, t, TargetId);
      KeyedAppend(rows, t, TargetPath);
      assert t in rows + [t];
      rows + [t]
  }

  /** `delete from sources where path = ?` for each of `paths`. */
  function SourcesNotAt(rows: seq<SourceRow>, paths: set<Path>): (r: seq<SourceRow>)
    ensures forall s :: s in r <==> s in rows && s.path !in paths
    ensures multiset(r) <= multiset(rows)
    ensures (forall s :: s in rows ==> s.path !in paths) ==> r == rows
  {
    if rows == [] then []
    else
      assert rows == [rows[0]] + rows[1..];
      (if rows[0].path in paths then [] else [rows[0]]) + SourcesNotAt(rows[1..], paths)
  }

  /** `delete from targets where path = ?` */
  function TargetsNotAt(rows: seq<TargetRow>, path: Path): (r: seq<TargetRow>)
    ensures forall t :: t in r <==> t in rows && t.path != path
    ensures multiset(r) <= multiset(rows)
  {
    if rows == [] then []
    else
      assert rows == [rows[0]] + rows[1..];
      (if rows[0].path == path then [] else [rows[0]]) + TargetsNotAt(rows[1..], path)
  }

  /** The `on delete cascade` of the foreign key: drops the targets whose
      source_id is one of the deleted ids; NULL-owned targets stay. */
  function WithoutOwned(rows: seq<TargetRow>, ids: set<nat>): (r: seq<TargetRow>)
    ensures forall t :: t in r <==> t in rows && !(t.sourceId.Some? && t.sourceId.value in ids)
    ensures multiset(r) <= multiset(rows)
    ensures ids == {} ==> r == rows
  {
    if rows == [] then []
    else
      assert rows == [rows[0]] + rows[1..];
      (if rows[0].sourceId.Some? && rows[0].sourceId.value in ids then [] else [rows[0]])
      + WithoutOwned(rows[1..], ids)
  }

  /** The delete half of `on conflict replace`: the rows with another key. */
  function ConfigWithoutKey(rows: seq<ConfigRow>, key: string): (r: seq<ConfigRow>)
    ensures forall x :: x in r <==> x in rows && x.key != key
    ensures multiset(r) <= multiset(rows)
  {
    if rows == [] then []
    else
      assert rows == [rows[0]] + rows[1..];
      (if rows[0].key == key then [] else [rows[0]]) + ConfigWithoutKey(rows[1..], key)
  }

  /** `insert into config (key, value) values (?, ?)` under `on conflict replace`:
      the old row for the key is deleted and the new one inserted. */
  function Upsert(rows: seq<ConfigRow>, key: string, value: string): (r: seq<ConfigRow>)
    ensures forall x :: x in r <==> x == ConfigRow(key, value) || (x in rows && x.key != key)
    ensures KeyedBy(rows, ConfigKey) ==> KeyedBy(r, ConfigKey)
  {
    var kept := ConfigWithoutKey(rows, key);
    KeyedSubset(kept, rows, ConfigKey);
    KeyedAppend(kept, ConfigRow(key, value), ConfigKey);
    kept + [ConfigRow(key, value)]
  }

  // ---------------------------------------------------------------------------
  // Lemmas

  /** A row that occurs in the tail of a table without duplicates is not its head. */
  lemma HeadNotInTail<T(!new)>(rows: seq<T>)
    requires rows != [] && NoDup(rows)
    ensures rows[0] !in rows[1..]
  {
    var rest := rows[1..];
    assert rows == [rows[0]] + rest;
    assert multiset(rows)[rows[0]] == 1 + multiset(rest)[rows[0]];
    assert multiset(rest)[rows[0]] == 0;
  }

  /** With unique paths, `select path from sources` lists no path twice. */
  lemma {:induction false} PathsNoDup(rows: seq<SourceRow>)
    requires KeyedBy(rows, SourcePath)
    ensures NoDup(Paths(rows))
    decreases |rows|
  {
    if rows != [] {
      var rest := rows[1..];
      assert rows == [rows[0]] + rest;
      KeyedSubset(rest, rows, SourcePath);
      PathsNoDup(rest);
      HeadNotInTail(rows);
      forall s | s in rest ensures s.path != rows[0].path {
        assert s in rows && rows[0] in rows && s != rows[0];
        assert SourcePath(s) != SourcePath(rows[0]);
      }
      assert rows[0].path !in Paths(rest);
      assert multiset(Paths(rows)) == multiset{rows[0].path} + multiset(Paths(rest));
    }
  }

  /** Inserting a source path twice is the same as inserting it once. */
  lemma InsertSourceIdempotent(rows: seq<SourceRow>, path: Path)
    ensures InsertSource(InsertSource(rows, path), path) == InsertSource(rows, path)
  {
  }

  /** Two deletions from sources are one deletion of both path sets. */
  lemma {:induction false} SourcesNotAtTwice(rows: seq<SourceRow>, a: set<Path>, b: set<Path>)
    ensures SourcesNotAt(SourcesNotAt(rows, a), b) == SourcesNotAt(rows, a + b)
    decreases |rows|
  {
    if rows != [] {
      var t := SourcesNotAt(rows[1..], a);
      SourcesNotAtTwice(rows[1..], a, b);
      if rows[0].path !in a {
        var u := [rows[0]] + t;
        assert SourcesNotAt(rows, a) == u;
        assert u[0] == rows[0] && u[1..] == t;
        assert SourcesNotAt(u, b) == (if rows[0].path in b then [] else [rows[0]]) + SourcesNotAt(t, b);
      } else {
        assert SourcesNotAt(rows, a) == t;
      }
    }
  }

  /** Two cascades are one cascade of both id sets. */
  lemma {:induction false} WithoutOwnedTwice(rows: seq<TargetRow>, a: set<nat>, b: set<nat>)
    ensures WithoutOwned(WithoutOwned(rows, a), b) == WithoutOwned(rows, a + b)
    decreases |rows|
  {
    if rows != [] {
      var t := WithoutOwned(rows[1..], a);
      WithoutOwnedTwice(rows[1..], a, b);
      var o := rows[0].sourceId;
      if !(o.Some? && o.value in a) {
        var u := [rows[0]] + t;
        assert WithoutOwned(rows, a) == u;
        assert u[0] == rows[0] && u[1..] == t;
        assert WithoutOwned(u, b) == (if o.Some? && o.value in b then [] else [rows[0]]) + WithoutOwned(t, b);
      } else {
        assert WithoutOwned(rows, a) == t;
      }
    }
  }

  /** The ids a second deletion removes, together with those of the first, are the
      ids of the sources at either set of paths. */
  lemma IdsAtAfterDelete(rows: seq<SourceRow>, a: set<Path>, b: set<Path>)
    ensures IdsAt(SourcesNotAt(rows, a), b) + IdsAt(rows, a) == IdsAt(rows, a + b)
  {
    var kept := SourcesNotAt(rows, a);
    forall id | id in IdsAt(rows, a + b) ensures id in IdsAt(kept, b) + IdsAt(rows, a) {
      var s :| s in rows && s.path in a + b && s.id == id;
      if s.path !in a {
        assert s in kept;
      }
    }
  }

  /** Deleting other sources leaves the id found for a kept path unchanged. */
  lemma {:induction false} FindSourceIdAfterDelete(rows: seq<SourceRow>, paths: set<Path>, p: Path)
    requires p !in paths
    ensures FindSourceId(SourcesNotAt(rows, paths), p) == FindSourceId(rows, p)
    decreases |rows|
  {
    if rows != [] {
      var t := SourcesNotAt(rows[1..], paths);
      FindSourceIdAfterDelete(rows[1..], paths, p);
      if rows[0].path !in paths {
        var u := [rows[0]] + t;
        assert SourcesNotAt(rows, paths) == u;
        assert u[0] == rows[0] && u[1..] == t;
        assert FindSourceId(u, p) == if rows[0].path == p then Some(rows[0].id) else FindSourceId(t, p);
      } else {
        assert SourcesNotAt(rows, paths) == t;
      }
    }
  }

  /** A deleted path is no longer found, nor listed. */
  lemma FindSourceIdDeleted(rows: seq<SourceRow>, paths: set<Path>, p: Path)
    requires p in paths
    ensures FindSourceId(SourcesNotAt(rows, paths), p).None?
    ensures p !in Paths(SourcesNotAt(rows, paths))
  {
    var kept := SourcesNotAt(rows, paths);
    assert forall s :: s in kept ==> s.path != p;
  }

  /** The cascade of other ids does not change what `view_targets` lists for a source. */
  lemma {:induction false} OwnedPathsWithoutOwned(rows: seq<TargetRow>, ids: set<nat>, id: nat)
    requires id !in ids
    ensures OwnedPaths(WithoutOwned(rows, ids), Some(id)) == OwnedPaths(rows, Some(id))
    decreases |rows|
  {
    if rows != [] {
      var t := WithoutOwned(rows[1..], ids);
      OwnedPathsWithoutOwned(rows[1..], ids, id);
      var o := rows[0].sourceId;
      if !(o.Some? && o.value in ids) {
        var u := [rows[0]] + t;
        assert WithoutOwned(rows, ids) == u;
        assert u[0] == rows[0] && u[1..] == t;
        assert OwnedPaths(u, Some(id)) == (if SqlEq(o, Some(id)) then [rows[0].path] else []) + OwnedPaths(t, Some(id));
      } else {
        assert WithoutOwned(rows, ids) == t;
      }
    }
  }

  lemma {:induction false} LookupAppend(a: seq<ConfigRow>, b: seq<ConfigRow>, key: string)
    ensures Lookup(a + b, key) == if Lookup(a, key).Some? then Lookup(a, key) else Lookup(b, key)
    decreases |a|
  {
    if a == [] {
      assert a + b == b;
    } else {
      assert (a + b)[0] == a[0];
      assert (a + b)[1..] == a[1..] + b;
      LookupAppend(a[1..], b, key);
    }
  }

  /** Deleting the rows of one key does not change what another key reads. */
  lemma {:induction false} LookupWithoutKey(rows: seq<ConfigRow>, key: string, other: string)
    requires other != key
    ensures Lookup(ConfigWithoutKey(rows, key), other) == Lookup(rows, other)
    decreases |rows|
  {
    if rows != [] {
      var t := ConfigWithoutKey(rows[1..], key);
      LookupWithoutKey(rows[1..], key, other);
      if rows[0].key != key {
        var u := [rows[0]] + t;
        assert ConfigWithoutKey(rows, key) == u;
        assert u[0] == rows[0] && u[1..] == t;
        assert Lookup(u, other) == if rows[0].key == other then Some(rows[0].value) else Lookup(t, other);
      } else {
        assert ConfigWithoutKey(rows, key) == t;
      }
    }
  }

  /** After an upsert the key reads the new value and every other key reads what it read before. */
  lemma UpsertLookup(rows: seq<ConfigRow>, key: string, value: string, other: string)
    ensures Lookup(Upsert(rows, key, value), other) ==
            if other == key then Some(value) else Lookup(rows, other)
  {
    var kept := ConfigWithoutKey(rows, key);
    LookupAppend(kept, [ConfigRow(key, value)], other);
    if other != key {
      LookupWithoutKey(rows, key, other);
    }
  }

  /** Last write wins: a second upsert of a key hides the first. */
  lemma UpsertLastWins(rows: seq<ConfigRow>, key: string, v1: string, v2: string)
    ensures Lookup(Upsert(Upsert(rows, key, v1), key, v2), key) == Some(v2)
  {
    UpsertLookup(Upsert(rows, key, v1), key, v2, key);
  }

  /** Under the primary key, a target with an existing owner meets exactly one source in the join,
      and a target with a NULL owner meets none. */
  lemma {:induction false} OwnersOfCount(sources: seq<SourceRow>, t: TargetRow)
    requires KeyedBy(sources, SourceId)
    requires t.sourceId.Some? ==> t.sourceId.value in IdsOf(sources)
    ensures |OwnersOf(sources, t)| == if t.sourceId.Some? then 1 else 0
    decreases |sources|
  {
    if t.sourceId.Some? {
      var rest := sources[1..];
      assert sources == [sources[0]] + rest;
      KeyedSubset(rest, sources, SourceId);
      if sources[0].id == t.sourceId.value {
        HeadNotInTail(sources);
        forall s | s in rest ensures !SqlEq(Some(s.id), t.sourceId) {
          assert s in sources && sources[0] in sources && s != sources[0];
          assert SourceId(s) != SourceId(sources[0]);
        }
      } else {
        OwnersOfCount(rest, t);
      }
    }
  }

  /** Inner-join cardinality: under the DDL's constraints `main_view` has one row per
      target that has an owner, and none for NULL-owned targets. */
  lemma {:induction false} JoinOnePerOwnedTarget(sources: seq<SourceRow>, targets: seq<TargetRow>)
    requires KeyedBy(sources, SourceId) && OwnersExist(sources, targets)
    ensures |JoinRows(sources, targets)| == CountOwned(targets)
    decreases |targets|
  {
    if targets != [] {
      assert targets[0] in targets;
      OwnersOfCount(sources, targets[0]);
      assert forall t :: t in targets[1..] ==> t in targets;
      JoinOnePerOwnedTarget(sources, targets[1..]);
    }
  }

  /** Deleting the sources at a, then those at b, with the cascade each time, is
      one delete of the sources at a + b with its cascade. */
  lemma CascadeTwice(sources: seq<SourceRow>, targets: seq<TargetRow>, a: set<Path>, b: set<Path>)
    ensures SourcesNotAt(SourcesNotAt(sources, a), b) == SourcesNotAt(sources, a + b)
    ensures WithoutOwned(WithoutOwned(targets, IdsAt(sources, a)), IdsAt(SourcesNotAt(sources, a), b))
            == WithoutOwned(targets, IdsAt(sources, a + b))
  {
    SourcesNotAtTwice(sources, a, b);
    var first, second := IdsAt(sources, a), IdsAt(SourcesNotAt(sources, a), b);
    WithoutOwnedTwice(targets, first, second);
    IdsAtAfterDelete(sources, a, b);
    assert first + second == second + first;
  }

  /** Removing the sources at `paths`, with the cascade, leaves what `view_targets`
      lists for every other source path exactly as it was. */
  lemma ViewTargetsAfterRemoval(sources: seq<SourceRow>, targets: seq<TargetRow>, paths: set<Path>, q: Path)
    requires KeyedBy(sources, SourceId) && q !in paths
    ensures OwnedPaths(WithoutOwned(targets, IdsAt(sources, paths)), FindSourceId(SourcesNotAt(sources, paths), q))
            == OwnedPaths(targets, FindSourceId(sources, q))
  {
    FindSourceIdAfterDelete(sources, paths, q);
    var found := FindSourceId(sources, q);
    if found.Some? {
      var row := SourceRow(found.value, q);
      forall s | s in sources && s.path in paths ensures s.id != found.value {
        assert s != row;
        assert SourceId(s) != SourceId(row);
      }
      OwnedPathsWithoutOwned(targets, IdsAt(sources, paths), found.value);
    }
  }
}
