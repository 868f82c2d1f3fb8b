/**
 * src/repository.ts: `FileSystemMemoRepository`, the persistence port of the React
 * revision. It has no state of its own: every method reads or changes the browser
 * store of src/storage.ts, and a storage call that throws is an `ok == false` result.
 */
module Repository {
  import opened Wrappers
  import opened MemoTypes
  import opened FrontMatter
  import opened MemoFiles
  import opened BrowserStorage

  class FileSystemMemoRepository {
    /** The module state of src/storage.ts the repository delegates to. */
    const store: BrowserStore

    ghost predicate Valid()
      reads this, store
    {
      store.Valid()
    }

    constructor (store: BrowserStore)
      requires store.Valid()
      ensures Valid() && this.store == store
    {
      this.store := store;
    }

    /** `ensureDirectory`: whether a folder handle is already held; nothing changes. */
    method EnsureDirectory() returns (ok: bool)
      ensures ok <==> store.handle.Some?
    {
      var handle := store.GetDirectoryHandle();
      ok := handle.Some?;
    }

    /**
     * `requestDirectory`: asks the picker; true exactly when a folder was picked, which
     * then is the handle and the saved name. A failed pick changes nothing.
     */
    method RequestDirectory(picked: Option<Folder>) returns (ok: bool)
      requires Valid()
      modifies store`handle, store`files, store`savedName
      ensures Valid()
      ensures ok <==> picked.Some?
      ensures ok ==>
        && store.handle == Some(picked.value.name) && store.savedName == Some(picked.value.name)
        && store.files == picked.value.files
      ensures !ok ==>
        store.handle == old(store.handle) && store.files == old(store.files) && store.savedName == old(store.savedName)
      ensures store.legacy == old(store.legacy)
    {
      var handle := store.SelectDirectory(picked);
      ok := handle.Some?;
    }

    /** `loadAll`: the memos `loadMemosFromDirectory` returns. */
    method LoadAll(listing: seq<string>) returns (memos: seq<Memo>)
      requires Lists(listing, store.files)
      ensures memos == if store.handle.None? then [] else Loaded(listing, store.files)
    {
      memos := store.LoadAll(listing);
    }

    /** `saveOne`: `saveMemoToFile`, which fails without a folder. */
    method SaveOne(m: Memo) returns (ok: bool)
      requires Valid()
      modifies store`files
      ensures Valid()
      ensures ok == store.handle.Some?
      ensures store.files == if ok then old(store.files)[FileName(m.id) := EncodeBrowser(Lift(m))] else old(store.files)
    {
      ok := store.Save(Lift(m));
    }

    /** `deleteOne`: `deleteMemoFile`, which fails without a folder or without the file. */
    method DeleteOne(id: string) returns (ok: bool)
      requires Valid()
      modifies store`files
      ensures Valid()
      ensures ok == (store.handle.Some? && FileName(id) in old(store.files))
      ensures store.files == if ok then old(store.files) - {FileName(id)} else old(store.files)
    {
      ok := store.Delete(id);
    }

    /** `migrateFromLegacyStorage`: `migrateFromLocalStorage`, with its three outcomes. */
    method MigrateFromLegacyStorage() returns (memos: seq<LegacyMemo>)
      requires Valid()
      modifies store`files, store`legacy
      ensures Valid()
      ensures old(store.legacy).None? || old(store.legacy) == Some(Malformed) ==>
        memos == [] && store.files == old(store.files) && store.legacy == old(store.legacy)
      ensures old(store.legacy).Some? && old(store.legacy).value.Json? && store.handle.None? ==>
        memos == old(store.legacy).value.memos && store.files == old(store.files) && store.legacy == old(store.legacy)
      ensures old(store.legacy).Some? && old(store.legacy).value.Json? && store.handle.Some? ==>
        memos == old(store.legacy).value.memos && store.files == Written(old(store.files), memos) && store.legacy.None?
    {
      memos := store.MigrateFromLocalStorage();
    }
  }
}
