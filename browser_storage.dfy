/**
 * The browser store of src/storage.ts. The folder picked through the File System
 * Access API is held in the module-level `directoryHandle`; localStorage holds the
 * picked folder's name and, from the first revision of the application, a JSON
 * blob of memos under the key "memos".
 */
module BrowserStorage {
  import opened Wrappers
  import opened MemoTypes
  import opened FrontMatter
  import opened Ordering
  import opened MemoFiles

  /** A folder as the directory picker hands it back: its name and its files. */
  datatype Folder = Folder(name: string, files: map<string, string>)

  /** What `JSON.parse` makes of the localStorage item "memos". */
  datatype LegacyData = Json(memos: seq<LegacyMemo>) | Malformed

  /** The file writes of saving the memos of `ms` in order. */
  function Writes(ms: seq<LegacyMemo>): seq<(string, string)> {
    seq(|ms|, i requires 0 <= i < |ms| => (FileName(ms[i].id), EncodeBrowser(ms[i])))
  }

  /** The files after saving the memos of `ms` one after the other. */
  function Written(files: map<string, string>, ms: seq<LegacyMemo>): map<string, string> {
    Overwritten(files, Writes(ms))
  }

  /** Saving one more memo writes its file over the files saved so far. */
  lemma WrittenStep(files: map<string, string>, ms: seq<LegacyMemo>, i: nat)
    requires i < |ms|
    ensures Written(files, ms[..i + 1]) == Written(files, ms[..i])[FileName(ms[i].id) := EncodeBrowser(ms[i])]
  {
    assert Writes(ms[..i + 1])[..i] == Writes(ms[..i]);
  }

  /** A file none of the memos of `ms` is saved to keeps its state. */
  lemma WrittenOther(files: map<string, string>, ms: seq<LegacyMemo>, name: string)
    requires forall i :: 0 <= i < |ms| ==> FileName(ms[i].id) != name
    ensures name in Written(files, ms) <==> name in files
    ensures name in files ==> Written(files, ms)[name] == files[name]
  {
    OverwrittenOther(files, Writes(ms), name);
  }

  /** Every memo's file is written; it holds the memo saved to it last. */
  lemma WrittenLast(files: map<string, string>, ms: seq<LegacyMemo>, i: nat)
    requires i < |ms|
    requires forall j :: i < j < |ms| ==> ms[j].id != ms[i].id
    ensures FileName(ms[i].id) in Written(files, ms)
    ensures Written(files, ms)[FileName(ms[i].id)] == EncodeBrowser(ms[i])
  {
    var ws := Writes(ms);
    forall j | i < j < |ms| ensures ws[j].0 != ws[i].0 {
      FileNameInjective(ms[j].id, ms[i].id);
    }
    OverwrittenLast(files, ws, i);
  }

  /**
   * After the one-shot import, a legacy memo that has an order, a storable id and a
   * title the codec keeps is loaded again, with the blank line the browser template
   * adds in front of its body; an import of memos with repeated ids keeps the last.
   */
  lemma MigratedMemoIsLoaded(listing: seq<string>, files: map<string, string>, ms: seq<LegacyMemo>, i: nat)
    requires i < |ms| && ms[i].order.Some?
    requires forall j :: i < j < |ms| ==> ms[j].id != ms[i].id
    requires StorableId(ms[i].id) && OneLineTitle(ms[i].title)
    requires ms[i].title != [] && '"' !in ms[i].title && '\\' !in ms[i].title
    requires Lists(listing, Written(files, ms))
    ensures WithOrder(ms[i], 0).(body := "\n" + ms[i].body) in Loaded(listing, Written(files, ms))
  {
    var m := WithOrder(ms[i], 0);
    var after := Written(files, ms);
    WrittenLast(files, ms, i);
    assert Lift(m) == ms[i];
    BrowserRoundTrip(m);
    LoadedMemos(listing, after, m.(body := "\n" + m.body));
    assert HoldsMemo(FileName(ms[i].id), after, m.(body := "\n" + m.body));
  }

  /** The browser's persistent state as src/storage.ts sees it. */
  class BrowserStore {
    /** `directoryHandle`: the name of the picked folder, `None` until one is picked. */
    var handle: Option<string>
    /** The files of the picked folder. */
    var files: map<string, string>
    /** localStorage 'memo-directory-name'. */
    var savedName: Option<string>
    /** localStorage "memos": `None` when the item is absent. */
    var legacy: Option<LegacyData>

    ghost predicate Valid()
      reads this
    {
      handle.None? ==> files == map[]
    }

    /** A fresh page: no folder handle yet; localStorage as an earlier session left it. */
    constructor (savedName: Option<string>, legacy: Option<LegacyData>)
      ensures Valid()
      ensures handle.None? && files == map[]
      ensures this.savedName == savedName && this.legacy == legacy
    {
      handle := None;
      files := map[];
      this.savedName := savedName;
      this.legacy := legacy;
    }

    /**
     * `selectDirectory`: `picked` is what `showDirectoryPicker` resolves with, `None`
     * when the user cancels or the picker fails. A picked folder becomes the handle
     * and its name is remembered; otherwise nothing changes and the result is null.
     */
    method SelectDirectory(picked: Option<Folder>) returns (r: Option<string>)
      requires Valid()
      modifies this`handle, this`files, this`savedName
      ensures Valid()
      ensures picked.None? ==>
        r.None? && handle == old(handle) && files == old(files) && savedName == old(savedName)
      ensures picked.Some? ==>
        && r == Some(picked.value.name)
        && handle == r && savedName == r && files == picked.value.files
    {
      if picked.None? {
        return None;
      }
      handle := Some(picked.value.name);
      files := picked.value.files;
      savedName := Some(picked.value.name);
      r := handle;
    }

    /** `getDirectoryHandle`: the handle picked in this session, if any. */
    method GetDirectoryHandle() returns (r: Option<string>)
      ensures r == handle
    {
      r := handle;
    }

    /** `saveMemoToFile`: throws without a folder; otherwise (over)writes `${id}.md`. */
    method Save(m: LegacyMemo) returns (ok: bool)
      requires Valid()
      modifies this`files
      ensures Valid()
      ensures ok == handle.Some?
      ensures files == if ok then old(files)[FileName(m.id) := EncodeBrowser(m)] else old(files)
    {
      var h := GetDirectoryHandle();
      if h.None? {
        return false;
      }
      files := files[FileName(m.id) := EncodeBrowser(m)];
      ok := true;
    }

    /**
     * `deleteMemoFile`: throws without a folder, and `removeEntry` throws when the
     * file does not exist; otherwise `${id}.md` is removed and no other file.
     */
    method Delete(id: string) returns (ok: bool)
      requires Valid()
      modifies this`files
      ensures Valid()
      ensures ok == (handle.Some? && FileName(id) in old(files))
      ensures files == if ok then old(files) - {FileName(id)} else old(files)
    {
      var h := GetDirectoryHandle();
      if h.None? || FileName(id) !in files {
        return false;
      }
      files := files - {FileName(id)};
      ok := true;
    }

    /**
     * `loadMemosFromDirectory`: nothing without a folder; otherwise the memos of the
     * Markdown files that parse, in iteration order `listing`, sorted by order.
     */
    method LoadAll(listing: seq<string>) returns (memos: seq<Memo>)
      requires Lists(listing, files)
      ensures memos == if handle.None? then [] else Loaded(listing, files)
    {
      var h := GetDirectoryHandle();
      if h.None? {
        return [];
      }
      ghost var all := Parsed(listing, files);
      assert |all| == |listing| by {
        if listing != [] {
          ParsedAt(listing, files, 0);
        }
      }
      var found: seq<Memo> := [];
      var i := 0;
      while i < |listing|
        invariant 0 <= i <= |listing|
        invariant found == Present(all[..i])
      {
        var name := listing[i];
        ParsedAt(listing, files, i);
        assert all[..i + 1][..i] == all[..i];
        if IsMarkdownName(name) {
          var parsed := Decode(files[name]);
          if parsed.Some? {
            found := found + [parsed.value];
          }
        }
        i := i + 1;
      }
      assert all[..|listing|] == all;
      memos := SortByOrder(found);
    }

    /**
     * `migrateFromLocalStorage`: nothing when the item is absent or unparseable; the
     * legacy memos, with the item kept, when no folder is picked; otherwise every
     * legacy memo is saved as a file, in order, and the item is removed.
     */
    method MigrateFromLocalStorage() returns (memos: seq<LegacyMemo>)
      requires Valid()
      modifies this`files, this`legacy
      ensures Valid()
      ensures old(legacy).None? || old(legacy) == Some(Malformed) ==>
        memos == [] && files == old(files) && legacy == old(legacy)
      ensures old(legacy).Some? && old(legacy).value.Json? && handle.None? ==>
        memos == old(legacy).value.memos && files == old(files) && legacy == old(legacy)
      ensures old(legacy).Some? && old(legacy).value.Json? && handle.Some? ==>
        memos == old(legacy).value.memos && files == Written(old(files), memos) && legacy.None?
    {
      if legacy.None? || legacy.value.Malformed? {
        return [];
      }
      var ms := legacy.value.memos;
      var h := GetDirectoryHandle();
      if h.None? {
        return ms;
      }
      var i := 0;
      while i < |ms|
        invariant 0 <= i <= |ms|
        invariant Valid() && handle.Some? && legacy == old(legacy)
        invariant files == Written(old(files), ms[..i])
      {
        WrittenStep(old(files), ms, i);
        var _ := Save(ms[i]);
        i := i + 1;
      }
      assert ms[..|ms|] == ms;
      legacy := None;
      memos := ms;
    }
  }
}
