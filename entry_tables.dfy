/**
 * Entry tables of the LTS data manager as values: the storage-name mapping,
 * the row masks (exact (Directory, Project) match, project filter, any-column
 * search), the masked Notes write, and the per-storage collection that
 * `list` and `search` print.
 */
module EntryTables {
  import opened TextMatch

  datatype Option<T> = None | Some(value: T)

  /** One row of a storage CSV: columns Directory, Project, Notes. */
  datatype Entry = Entry(directory: string, project: string, notes: string)

  /** The rows of one storage file, in file order. */
  type Table = seq<Entry>

  /** Each storage name to its table, or None when its file does not exist. */
  type Files = map<string, Option<Table>>

  /** The storage names, in the mapping's (iteration) order. */
  const StorageNames: seq<string> := ["data1", "data3", "data4", "rc2"]

  /** The storage-name to file-name mapping; None for an unknown name. */
  function FileName(storage: string): (r: Option<string>)
    ensures r.Some? <==> storage in StorageNames
    ensures r.Some? ==> r.value == "lts_" + storage + ".csv"
  {
    if storage == "data1" then Some("lts_data1.csv")
    else if storage == "data3" then Some("lts_data3.csv")
    else if storage == "data4" then Some("lts_data4.csv")
    else if storage == "rc2" then Some("lts_rc2.csv")
    else None
  }

  /** No storage name is listed twice, so each file is visited once. */
  lemma StorageNamesDistinct()
    ensures forall i, j :: 0 <= i < j < |StorageNames| ==> StorageNames[i] != StorageNames[j]
  {
  }

  /** What the store holds for `name`: its table, or None if there is no file. */
  function Stored(files: Files, name: string): Option<Table>
  {
    if name in files then files[name] else None
  }

  /** A missing file reads as an empty three-column table. */
  function TableOrEmpty(f: Option<Table>): Table
  {
    match f
    case Some(t) => t
    case None => []
  }

  /** Omitted (or empty) notes are stored as the empty string. */
  function NotesOrEmpty(notes: Option<string>): string
  {
    match notes
    case Some(n) => n
    case None => ""
  }

  // ---------------------------------------------------------------------
  // Exact (Directory, Project) matching: the duplicate test of `add` and the
  // mask of `update`. Both are exact and case-sensitive.

  predicate IsMatch(e: Entry, directory: string, project: string)
  {
    e.directory == directory && e.project == project
  }

  predicate HasMatch(t: Table, directory: string, project: string)
  {
    exists e :: e in t && IsMatch(e, directory, project)
  }

  /** The table with Notes overwritten on every row matching (directory, project). */
  function SetNotes(t: Table, directory: string, project: string, notes: string): (r: Table)
    ensures |r| == |t|
    ensures forall k :: 0 <= k < |t| ==>
      r[k].directory == t[k].directory && r[k].project == t[k].project
    ensures forall k :: 0 <= k < |t| && IsMatch(t[k], directory, project) ==> r[k].notes == notes
    ensures forall k :: 0 <= k < |t| && !IsMatch(t[k], directory, project) ==> r[k] == t[k]
  {
    if t == [] then []
    else
      var head := if IsMatch(t[0], directory, project) then t[0].(notes := notes) else t[0];
      [head] + SetNotes(t[1..], directory, project, notes)
  }

  /** Writing the same notes twice gives the table written once. */
  lemma SetNotesIdempotent(t: Table, directory: string, project: string, notes: string)
    ensures SetNotes(SetNotes(t, directory, project, notes), directory, project, notes)
         == SetNotes(t, directory, project, notes)
  {
  }

  /** The rows an update matched still match afterwards: (Directory, Project) is never written. */
  lemma SetNotesKeepsMatches(t: Table, directory: string, project: string, notes: string)
    ensures HasMatch(SetNotes(t, directory, project, notes), directory, project)
        <==> HasMatch(t, directory, project)
  {
    var r := SetNotes(t, directory, project, notes);
    if HasMatch(t, directory, project) {
      var e :| e in t && IsMatch(e, directory, project);
      var k :| 0 <= k < |t| && t[k] == e;
      assert r[k] in r && IsMatch(r[k], directory, project);
    }
    if HasMatch(r, directory, project) {
      var e :| e in r && IsMatch(e, directory, project);
      var k :| 0 <= k < |r| && r[k] == e;
      assert t[k] in t && IsMatch(t[k], directory, project);
    }
  }

  // ---------------------------------------------------------------------
  // Case-insensitive row filters of `list` and `search`.

  datatype RowFilter =
    | AllRows                        // `list` without a project filter
    | ProjectContains(pattern: string)  // `list -p`: the Project column only
    | AnyColumnContains(term: string)   // `search`: any of the three columns

  predicate Keeps(f: RowFilter, e: Entry)
  {
    match f
    case AllRows => true
    case ProjectContains(p) => ContainsIgnoreCase(e.project, p)
    case AnyColumnContains(term) =>
      ContainsIgnoreCase(e.directory, term) || ContainsIgnoreCase(e.project, term)
      || ContainsIgnoreCase(e.notes, term)
  }

  /** The filter `list` applies: a project filter only when one is given and non-empty. */
  function ProjectFilter(project: Option<string>): RowFilter
  {
    if project.Some? && project.value != "" then ProjectContains(project.value) else AllRows
  }

  /** `r` is `t` with some elements left out, the rest in their original order. */
  ghost predicate IsSubsequence<T>(r: seq<T>, t: seq<T>)
    decreases |t|
  {
    if r == [] then true
    else if t == [] then false
    else (r[0] == t[0] && IsSubsequence(r[1..], t[1..])) || IsSubsequence(r, t[1..])
  }

  /** The rows of `t` that `f` keeps: every row in the result passes `f`. */
  function Filter(t: Table, f: RowFilter): (r: Table)
    ensures |r| <= |t|
    ensures forall e :: e in r ==> Keeps(f, e)
  {
    if t == [] then []
    else (if Keeps(f, t[0]) then [t[0]] else []) + Filter(t[1..], f)
  }

  /** Each row that passes occurs in the filtered table exactly as often as in `t`; no other row occurs. */
  lemma {:induction false} FilterCounts(t: Table, f: RowFilter, e: Entry)
    ensures multiset(Filter(t, f))[e] == if Keeps(f, e) then multiset(t)[e] else 0
  {
    if t != [] {
      FilterCounts(t[1..], f, e);
      assert t == [t[0]] + t[1..];
      assert multiset(t)[e] == multiset([t[0]])[e] + multiset(t[1..])[e];
    }
  }

  /** Filtering keeps the order of the rows. */
  lemma {:induction false} FilterIsSubsequence(t: Table, f: RowFilter)
    ensures IsSubsequence(Filter(t, f), t)
  {
    if t != [] {
      FilterIsSubsequence(t[1..], f);
      var r := Filter(t, f);
      if Keeps(f, t[0]) {
        assert r == [t[0]] + Filter(t[1..], f);
        assert r[0] == t[0] && r[1..] == Filter(t[1..], f);
      } else {
        assert r == Filter(t[1..], f);
      }
    }
  }

  /** Without a filter every row is kept. */
  lemma {:induction false} FilterAllRows(t: Table)
    ensures Filter(t, AllRows) == t
  {
    if t != [] {
      FilterAllRows(t[1..]);
      assert t == [t[0]] + t[1..];
    }
  }

  /** A row appended to the table is appended to the filtered table when it passes. */
  lemma {:induction false} FilterAppend(t: Table, e: Entry, f: RowFilter)
    ensures Filter(t + [e], f) == Filter(t, f) + (if Keeps(f, e) then [e] else [])
  {
    var last: Table := if Keeps(f, e) then [e] else [];
    if t == [] {
      assert t + [e] == [e];
      assert Filter([e], f) == last + Filter([], f);
    } else {
      var first: Table := if Keeps(f, t[0]) then [t[0]] else [];
      FilterAppend(t[1..], e, f);
      assert (t + [e])[0] == t[0];
      assert (t + [e])[1..] == t[1..] + [e];
      assert Filter(t + [e], f) == first + Filter(t[1..] + [e], f);
      assert Filter(t, f) == first + Filter(t[1..], f);
      assert first + (Filter(t[1..], f) + last) == (first + Filter(t[1..], f)) + last;
    }
  }

  /** The filtered table is non-empty exactly when some row passes. */
  lemma FilterNonEmpty(t: Table, f: RowFilter)
    ensures Filter(t, f) != [] <==> exists e :: e in t && Keeps(f, e)
  {
  }

  // ---------------------------------------------------------------------
  // The per-storage pass of `list` and `search`.

  /** A storage filter that is absent or empty admits every storage. */
  predicate Wanted(only: Option<string>, name: string)
  {
    !(only.Some? && only.value != "" && only.value != name)
  }

  /** What one storage contributes: its filtered table, if its file exists and something passed. */
  function Visit(files: Files, name: string, only: Option<string>, f: RowFilter): seq<(string, Table)>
  {
    if Wanted(only, name) && Stored(files, name).Some? && Filter(Stored(files, name).value, f) != []
    then [(name, Filter(Stored(files, name).value, f))]
    else []
  }

  /** The (storage, rows) pairs produced by visiting `names` in order. */
  function Collect(files: Files, names: seq<string>, only: Option<string>, f: RowFilter): seq<(string, Table)>
    decreases |names|
  {
    if names == [] then [] else Visit(files, names[0], only, f) + Collect(files, names[1..], only, f)
  }

  function StorageColumn(r: seq<(string, Table)>): seq<string>
  {
    if r == [] then [] else [r[0].0] + StorageColumn(r[1..])
  }

  /** Visiting one more storage adds its contribution at the end. */
  lemma {:induction false} CollectAppend(files: Files, names: seq<string>, name: string, only: Option<string>, f: RowFilter)
    ensures Collect(files, names + [name], only, f) == Collect(files, names, only, f) + Visit(files, name, only, f)
  {
    var last := Visit(files, name, only, f);
    if names == [] {
      assert names + [name] == [name];
      assert [name][1..] == [];
      assert Collect(files, [name], only, f) == last + Collect(files, [], only, f);
    } else {
      var first := Visit(files, names[0], only, f);
      CollectAppend(files, names[1..], name, only, f);
      assert (names + [name])[0] == names[0];
      assert (names + [name])[1..] == names[1..] + [name];
      assert Collect(files, names + [name], only, f) == first + Collect(files, names[1..] + [name], only, f);
      assert first + (Collect(files, names[1..], only, f) + last) == (first + Collect(files, names[1..], only, f)) + last;
    }
  }

  /**
   * Every pair produced comes from a visited, wanted storage whose file exists,
   * and holds exactly that file's passing rows, at least one of them.
   */
  lemma {:induction false} CollectSound(files: Files, names: seq<string>, only: Option<string>, f: RowFilter)
    ensures forall k :: 0 <= k < |Collect(files, names, only, f)| ==>
      var (name, rows) := Collect(files, names, only, f)[k];
      name in names && Wanted(only, name) && Stored(files, name).Some?
      && rows == Filter(Stored(files, name).value, f) && rows != []
  {
    if names != [] {
      CollectSound(files, names[1..], only, f);
    }
  }

  /** Every wanted storage whose file has a passing row is reported. */
  lemma {:induction false} CollectComplete(files: Files, names: seq<string>, only: Option<string>, f: RowFilter)
    ensures forall name ::
      (name in names && Wanted(only, name) && Stored(files, name).Some?
       && Filter(Stored(files, name).value, f) != [])
      ==> (name, Filter(Stored(files, name).value, f)) in Collect(files, names, only, f)
  {
    if names != [] {
      CollectComplete(files, names[1..], only, f);
    }
  }

  /** The storages are reported in the order in which they are visited. */
  lemma {:induction false} CollectInOrder(files: Files, names: seq<string>, only: Option<string>, f: RowFilter)
    ensures IsSubsequence(StorageColumn(Collect(files, names, only, f)), names)
  {
    if names != [] {
      CollectInOrder(files, names[1..], only, f);
      var rest := Collect(files, names[1..], only, f);
      var v := Visit(files, names[0], only, f);
      if v == [] {
        assert Collect(files, names, only, f) == rest;
      } else {
        assert Collect(files, names, only, f) == [v[0]] + rest;
        assert StorageColumn([v[0]] + rest) == [names[0]] + StorageColumn(rest);
      }
    }
  }

  /** With a storage filter naming one storage among distinct names, only that storage is visited. */
  lemma {:induction false} CollectOnly(files: Files, names: seq<string>, name: string, f: RowFilter)
    requires name != ""
    requires forall i, j :: 0 <= i < j < |names| ==> names[i] != names[j]
    ensures Collect(files, names, Some(name), f)
         == if name in names then Visit(files, name, Some(name), f) else []
  {
    if names != [] {
      CollectOnly(files, names[1..], name, f);
      assert name == names[0] ==> name !in names[1..];
    }
  }

  // ---------------------------------------------------------------------
  // The two read-only commands as specifications.

  /** The pairs `list` prints and returns. */
  function Listed(files: Files, storage: Option<string>, project: Option<string>): seq<(string, Table)>
  {
    Collect(files, StorageNames, storage, ProjectFilter(project))
  }

  /** The pairs `search` prints. */
  function Searched(files: Files, term: string): seq<(string, Table)>
  {
    Collect(files, StorageNames, None, AnyColumnContains(term))
  }

  /** Some row of some existing storage file has a column containing `term`. */
  ghost predicate AnyRowMatches(files: Files, term: string)
  {
    exists name, e :: name in StorageNames && Stored(files, name).Some?
      && e in Stored(files, name).value && Keeps(AnyColumnContains(term), e)
  }

  /**
   * What `list` returns: one pair per wanted storage whose file exists and has
   * a kept row, in mapping order; each table is a non-empty, order-preserving
   * selection of the stored rows, and under a project filter every kept row's
   * Project contains the filter, ignoring case.
   */
  lemma ListedSound(files: Files, storage: Option<string>, project: Option<string>)
    ensures forall k :: 0 <= k < |Listed(files, storage, project)| ==>
      var (name, rows) := Listed(files, storage, project)[k];
      name in StorageNames && Wanted(storage, name) && Stored(files, name).Some?
      && rows != [] && IsSubsequence(rows, Stored(files, name).value)
      && forall e :: e in rows && project.Some? && project.value != "" ==>
           ContainsIgnoreCase(e.project, project.value)
    ensures IsSubsequence(StorageColumn(Listed(files, storage, project)), StorageNames)
  {
    var r := Listed(files, storage, project);
    CollectSound(files, StorageNames, storage, ProjectFilter(project));
    CollectInOrder(files, StorageNames, storage, ProjectFilter(project));
    forall k | 0 <= k < |r|
      ensures IsSubsequence(r[k].1, Stored(files, r[k].0).value)
    {
      FilterIsSubsequence(Stored(files, r[k].0).value, ProjectFilter(project));
    }
  }

  /** Conversely, every wanted, existing storage with a row whose Project matches is listed. */
  lemma ListedComplete(files: Files, storage: Option<string>, project: Option<string>, name: string, e: Entry)
    requires name in StorageNames && Wanted(storage, name)
    requires Stored(files, name).Some? && e in Stored(files, name).value
    requires project.Some? ==> ContainsIgnoreCase(e.project, project.value)
    ensures exists rows :: (name, rows) in Listed(files, storage, project) && e in rows
  {
    var t := Stored(files, name).value;
    var f := ProjectFilter(project);
    assert Keeps(f, e);
    FilterCounts(t, f, e);
    assert multiset(Filter(t, f))[e] > 0;
    CollectComplete(files, StorageNames, storage, f);
  }

  /** `search` prints "no matches" exactly when no row of any existing file has a matching column. */
  lemma SearchedEmptyIff(files: Files, term: string)
    ensures Searched(files, term) == [] <==> !AnyRowMatches(files, term)
  {
    var f := AnyColumnContains(term);
    var r := Searched(files, term);
    if r != [] {
      CollectSound(files, StorageNames, None, f);
      var (name, rows) := r[0];
      FilterNonEmpty(Stored(files, name).value, f);
      var e :| e in Stored(files, name).value && Keeps(f, e);
      assert AnyRowMatches(files, term);
    }
    if AnyRowMatches(files, term) {
      var name, e :| name in StorageNames && Stored(files, name).Some?
        && e in Stored(files, name).value && Keeps(f, e);
      FilterNonEmpty(Stored(files, name).value, f);
      CollectComplete(files, StorageNames, None, f);
      assert (name, Filter(Stored(files, name).value, f)) in r;
    }
  }

  /**
   * After a row is appended to one storage's table (a missing file counting as
   * empty), listing that storage with a filter the row passes gives the rows
   * listed before plus exactly that row, at the end.
   */
  lemma ListAfterAppend(files: Files, storage: string, e: Entry, project: Option<string>)
    requires storage in StorageNames
    requires project.Some? ==> ContainsIgnoreCase(e.project, project.value)
    ensures
      var before := TableOrEmpty(Stored(files, storage));
      Listed(files[storage := Some(before + [e])], Some(storage), project)
        == [(storage, Filter(before, ProjectFilter(project)) + [e])]
  {
    var before := TableOrEmpty(Stored(files, storage));
    var after := files[storage := Some(before + [e])];
    var f := ProjectFilter(project);
    assert Keeps(f, e);
    StorageNamesDistinct();
    CollectOnly(after, StorageNames, storage, f);
    FilterAppend(before, e, f);
    assert Stored(after, storage) == Some(before + [e]);
  }

  /**
   * The duplicate test of `add` is exact while the project filter of `list`
   * ignores case: a row for "Proj1" is no duplicate of "proj1", yet listing
   * "proj1" shows it.
   */
  lemma ExactVersusCaseInsensitive()
    ensures !HasMatch([Entry("/mnt/a", "Proj1", "")], "/mnt/a", "proj1")
    ensures Filter([Entry("/mnt/a", "Proj1", "")], ProjectContains("proj1")) == [Entry("/mnt/a", "Proj1", "")]
  {
  }
}
