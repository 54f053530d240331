/**
 * The entry store of the LTS data manager: the four storage files held as a
 * map from storage name to table (None while the file does not exist), and
 * the four commands that read or rewrite them.
 *
 * Reading a file is looking its table up; writing a file back is replacing
 * its table in the map. The confirmation prompt of `add` is the `answer`
 * parameter; printed output is the value a method returns.
 */
module EntryStore {
  import opened TextMatch
  import opened EntryTables

  /** The prompt "Add anyway? (y/n)" is accepted when the answer lower-cases to "y". */
  predicate Affirmative(answer: string)
  {
    Lower(answer) == "y"
  }

  /** Exactly the answers "y" and "Y" confirm a duplicate add. */
  lemma AffirmativeAnswers(answer: string)
    ensures Affirmative(answer) <==> answer == "y" || answer == "Y"
  {
  }

  class LtsStore {
    /** Each storage name to its table, or None when its file does not exist. */
    var files: Files

    /** The store holds exactly the four storages of the mapping. */
    ghost predicate Valid()
      reads this
    {
      forall name :: name in files <==> name in StorageNames
    }

    /** A store over the files as they are on disk. */
    constructor (disk: Files)
      requires forall name :: name in disk <==> name in StorageNames
      ensures Valid() && files == disk
    {
      files := disk;
    }

    /**
     * `add`: appends (directory, project, notes) to the storage's table,
     * creating the file if absent. An existing row with the same Directory
     * and Project (exact, case-sensitive) makes the add depend on the answer
     * to the confirmation prompt, which is not consulted otherwise. On
     * failure no table changes.
     */
    method AddEntry(storage: string, directory: string, project: string, notes: Option<string>, answer: string)
      returns (ok: bool)
      requires Valid()
      modifies this
      ensures Valid()
      ensures ok <==> (storage in StorageNames
        && (!HasMatch(TableOrEmpty(Stored(old(files), storage)), directory, project) || Affirmative(answer)))
      ensures ok ==> files == old(files)[storage :=
        Some(TableOrEmpty(Stored(old(files), storage)) + [Entry(directory, project, NotesOrEmpty(notes))])]
      ensures !ok ==> files == old(files)
    {
      if FileName(storage).None? {
        return false;
      }
      var df := TableOrEmpty(files[storage]);
      if HasMatch(df, directory, project) {
        if !Affirmative(answer) {
          return false;
        }
      }
      df := df + [Entry(directory, project, NotesOrEmpty(notes))];
      files := files[storage := Some(df)];
      return true;
    }

    /**
     * `update`: fails, changing nothing, for an unknown storage, a missing
     * file or when no row matches (directory, project) exactly; otherwise
     * writes `notes` into every matching row, in place.
     */
    method UpdateNotes(storage: string, directory: string, project: string, notes: string)
      returns (ok: bool)
      requires Valid()
      modifies this
      ensures Valid()
      ensures ok <==> (storage in StorageNames && Stored(old(files), storage).Some?
        && HasMatch(Stored(old(files), storage).value, directory, project))
      ensures ok ==> files == old(files)[storage :=
        Some(SetNotes(Stored(old(files), storage).value, directory, project, notes))]
      ensures !ok ==> files == old(files)
    {
      if FileName(storage).None? {
        return false;
      }
      if files[storage].None? {
        return false;
      }
      var df := files[storage].value;
      if !HasMatch(df, directory, project) {
        return false;
      }
      ghost var before := df;
      var i := 0;
      while i < |df|
        invariant 0 <= i <= |df| == |before|
        invariant forall k :: 0 <= k < i ==> df[k] == SetNotes(before, directory, project, notes)[k]
        invariant forall k :: i <= k < |df| ==> df[k] == before[k]
      {
        if IsMatch(df[i], directory, project) {
          df := df[i := df[i].(notes := notes)];
        }
        i := i + 1;
      }
      assert df == SetNotes(before, directory, project, notes);
      files := files[storage := Some(df)];
      return true;
    }

    /**
     * `list`: the (storage, rows) pairs printed, visiting the storages in
     * mapping order, skipping those filtered out, missing, or left empty by
     * the project filter.
     */
    method ListEntries(storage: Option<string>, project: Option<string>)
      returns (results: seq<(string, Table)>)
      requires Valid()
      ensures results == Listed(files, storage, project)
    {
      results := [];
      for i := 0 to |StorageNames|
        invariant results == Collect(files, StorageNames[..i], storage, ProjectFilter(project))
      {
        var name := StorageNames[i];
        CollectAppend(files, StorageNames[..i], name, storage, ProjectFilter(project));
        assert StorageNames[..i + 1] == StorageNames[..i] + [name];
        if storage.Some? && storage.value != "" && storage.value != name {
          continue;
        }
        if files[name].Some? {
          var df := files[name].value;
          if project.Some? && project.value != "" {
            df := Filter(df, ProjectContains(project.value));
          } else {
            FilterAllRows(df);
          }
          if df != [] {
            results := results + [(name, df)];
          }
        }
      }
      assert StorageNames[..|StorageNames|] == StorageNames;
    }

    /**
     * `search`: the (storage, rows) pairs printed, one per existing file with
     * a row having some column that contains `term` ignoring case, and whether
     * anything matched (when not, "no matches" is printed).
     */
    method SearchAll(term: string) returns (hits: seq<(string, Table)>, found: bool)
      requires Valid()
      ensures hits == Searched(files, term)
      ensures found <==> AnyRowMatches(files, term)
    {
      hits := [];
      found := false;
      for i := 0 to |StorageNames|
        invariant hits == Collect(files, StorageNames[..i], None, AnyColumnContains(term))
        invariant found <==> hits != []
      {
        var name := StorageNames[i];
        CollectAppend(files, StorageNames[..i], name, None, AnyColumnContains(term));
        assert StorageNames[..i + 1] == StorageNames[..i] + [name];
        if files[name].Some? {
          var matches := Filter(files[name].value, AnyColumnContains(term));
          if matches != [] {
            found := true;
            hits := hits + [(name, matches)];
          }
        }
      }
      assert StorageNames[..|StorageNames|] == StorageNames;
      SearchedEmptyIff(files, term);
    }
  }

  /** The worked example: two adds of the same row to a storage whose file does not exist yet. */
  method AddTwiceExample()
  {
    var store := new LtsStore(map["data1" := None, "data3" := None, "data4" := None, "rc2" := None]);
    var ok := store.AddEntry("data1", "/mnt/a", "proj1", None, "");
    assert [] + [Entry("/mnt/a", "proj1", "")] == [Entry("/mnt/a", "proj1", "")];
    assert ok && store.files["data1"] == Some([Entry("/mnt/a", "proj1", "")]);
    assert Entry("/mnt/a", "proj1", "") in store.files["data1"].value;
    ok := store.AddEntry("data1", "/mnt/a", "proj1", None, "n");
    assert Lower("n") == "n";
    assert !ok && store.files["data1"] == Some([Entry("/mnt/a", "proj1", "")]);
    ok := store.AddEntry("data1", "/mnt/a", "proj1", Some("again"), "Y");
    AffirmativeAnswers("Y");
    assert ok && |store.files["data1"].value| == 2;
  }
}
