/**
 * The memos directory of the server (`../memos`), one Markdown file per memo; the
 * order `readdir` lists the files in is the `listing` parameter of the reading methods.
 */
module BackendStorage {
  import opened Wrappers
  import opened MemoTypes
  import opened FrontMatter
  import opened Ordering
  import opened MemoFiles

  /** A memo the round trip keeps is found by the next load after it was saved. */
  lemma SavedMemoIsLoaded(listing: seq<string>, files: map<string, string>, m: Memo)
    requires StorableId(m.id) && OneLineTitle(m.title)
    requires m.title != [] && '"' !in m.title && '\\' !in m.title
    requires Lists(listing, files[FileName(m.id) := Encode(m)])
    ensures m in Loaded(listing, files[FileName(m.id) := Encode(m)])
  {
    var after := files[FileName(m.id) := Encode(m)];
    RoundTrip(m);
    LoadedMemos(listing, after, m);
    assert HoldsMemo(FileName(m.id), after, m);
  }

  /** The memos directory `../memos` of the server. */
  class MemoDirectory {
    /** Whether the directory exists (`existsSync(MEMOS_DIR)`). */
    var present: bool
    /** The files of the directory, by name. */
    var files: map<string, string>
    /** Whether writing a file succeeds; a failing `writeFile` rejects. */
    var writable: bool

    ghost predicate Valid()
      reads this
    {
      !present ==> files == map[]
    }

    constructor (present: bool, files: map<string, string>, writable: bool)
      requires present || files == map[]
      ensures Valid()
      ensures this.present == present && this.files == files && this.writable == writable
    {
      this.present := present;
      this.files := files;
      this.writable := writable;
    }

    /** `ensureDirectory`: creates the directory when it is missing. */
    method EnsureDirectory()
      requires Valid()
      modifies this`present
      ensures Valid() && present && files == old(files)
    {
      if !present {
        present := true;
      }
    }

    /** `saveMemoToFile`: writes `${id}.md`, replacing that file and no other. */
    method Save(m: Memo) returns (ok: bool)
      requires Valid()
      modifies this`present, this`files
      ensures Valid() && present
      ensures ok == writable
      ensures files == if ok then old(files)[FileName(m.id) := Encode(m)] else old(files)
    {
      EnsureDirectory();
      if writable {
        files := files[FileName(m.id) := Encode(m)];
        ok := true;
      } else {
        ok := false;
      }
    }

    /** `deleteMemoFile`: removes `${id}.md` when it exists, and does nothing otherwise. */
    method Delete(id: string)
      requires Valid()
      modifies this`files
      ensures Valid()
      ensures files == old(files) - {FileName(id)}
      ensures FileName(id) !in old(files) ==> files == old(files)
    {
      var name := FileName(id);
      if name in files {
        files := files - {name};
      }
    }

    /** The loop and sort of `loadMemosFromDirectory` over an existing directory. */
    method ReadAll(listing: seq<string>) returns (memos: seq<Memo>)
      requires Lists(listing, files)
      ensures memos == Loaded(listing, files)
    {
      ghost var all := Parsed(listing, files);
      assert |all| == |listing| by {
        if listing != [] {
          ParsedAt(listing, files, 0);
        }
      }
      var found: seq<Memo> := [];
      var i := 0;
      while i < |listing|
        invariant 0 <= i <= |listing|
        invariant found == Present(all[..i])
      {
        var name := listing[i];
        ParsedAt(listing, files, i);
        assert all[..i + 1][..i] == all[..i];
        if IsMarkdownName(name) {
          var parsed := Decode(files[name]);
          if parsed.Some? {
            found := found + [parsed.value];
          }
        }
        i := i + 1;
      }
      assert all[..|listing|] == all;
      memos := SortByOrder(found);
    }

    /** `loadMemosFromDirectory`: creates the directory if needed, then reads it. */
    method LoadAll(listing: seq<string>) returns (memos: seq<Memo>)
      requires Valid() && Lists(listing, files)
      modifies this`present
      ensures Valid() && present && files == old(files)
      ensures memos == Loaded(listing, files)
    {
      EnsureDirectory();
      memos := ReadAll(listing);
    }
  }
}
