/**
 * src/useMemos.ts: the state of the React revision (`memos`, `selectedMemoId`,
 * `isEditMode`, `status`) and its actions, over `FileSystemMemoRepository`. React's
 * state setters become field assignments; a repository call that throws ends the
 * action where the source's `catch` does. The directory listing, the folder the
 * picker returns, and the ids and clock readings of new memos are parameters.
 */
module MemoHook {
  import opened Wrappers
  import opened MemoTypes
  import opened FrontMatter
  import opened Ordering
  import opened Migration
  import opened MemoFiles
  import opened BrowserStorage
  import opened Repository

  datatype AppStatus = Loading | NeedDirectory | Ready

  /** `updateMemo`'s map: the memo with id `id` takes the edit and the clock reading. */
  function Updated(s: seq<Memo>, id: string, title: string, body: string, now: nat): (r: seq<Memo>)
    ensures |r| == |s| && Ids(r) == Ids(s)
  {
    seq(|s|, i requires 0 <= i < |s| =>
      if s[i].id == id then s[i].(title := title, body := body, updatedAt := now) else s[i])
  }

  /**
   * The memo with the id takes the edit and the clock reading; only it changes, and
   * only in title, body and `updatedAt`.
   */
  lemma UpdatedTouchesOnlyId(s: seq<Memo>, id: string, title: string, body: string, now: nat, i: nat)
    requires i < |s|
    ensures var r := Updated(s, id, title, body, now);
      && (s[i].id == id ==> r[i].title == title && r[i].body == body && r[i].updatedAt == now)
      && SameExceptOrder(r[i], s[i]) == (s[i].id != id || (s[i].title == title && s[i].body == body && s[i].updatedAt == now))
      && r[i].order == s[i].order && r[i].createdAt == s[i].createdAt && r[i].id == s[i].id
  {
  }

  /** A later edit of the same memo overwrites an earlier one. */
  lemma UpdatedLastWins(s: seq<Memo>, id: string, t1: string, b1: string, n1: nat, t2: string, b2: string, n2: nat)
    ensures Updated(Updated(s, id, t1, b1, n1), id, t2, b2, n2) == Updated(s, id, t2, b2, n2)
  {
    var a := Updated(Updated(s, id, t1, b1, n1), id, t2, b2, n2);
    var b := Updated(s, id, t2, b2, n2);
    forall i | 0 <= i < |s| ensures a[i] == b[i] {
      assert Updated(s, id, t1, b1, n1)[i].id == s[i].id;
    }
  }

  /**
   * After deleting the memo at `k` (ids unique, more than one memo), the memo selected
   * is the one just above it, or the new first memo when the first was deleted.
   */
  lemma DeleteSelectsPrevious(s: seq<Memo>, k: nat)
    requires UniqueIds(s) && 1 < |s| && k < |s|
    ensures var rest := Renumbered(WithoutId(s, s[k].id));
      IdAt(rest, SelectionAfterDelete(IndexOfId(s, s[k].id))) == Some(if k == 0 then s[1].id else s[k - 1].id)
  {
    WithoutIdIsRemoveAt(s, s[k].id, k);
    IndexOfUniqueId(s, k);
    var sel := SelectionAfterDelete(k);
    RemoveAtIndex(s, k, sel);
  }

  /** What a load settles on: the loaded memos, or the initial ones when there are none. */
  function LoadOutcome(loaded: seq<Memo>, initial: seq<Memo>): seq<Memo> {
    if loaded != [] then loaded else initial
  }

  class MemosHook {
    var memos: seq<Memo>
    var selectedMemoId: Option<string>
    var isEditMode: bool
    var status: AppStatus
    /** `memoRepository`. */
    const repo: FileSystemMemoRepository

    ghost predicate Valid()
      reads this, repo, repo.store
    {
      repo.Valid()
    }

    /** The hook's initial state, before `initializeApp` runs. */
    constructor (repo: FileSystemMemoRepository)
      requires repo.Valid()
      ensures Valid() && this.repo == repo
      ensures memos == [] && selectedMemoId.None? && !isEditMode && status == Loading
    {
      memos := [];
      selectedMemoId := None;
      isEditMode := false;
      status := Loading;
      this.repo := repo;
    }

    /** What the repository's `loadAll` returns for `listing`. */
    ghost function Stored(listing: seq<string>): seq<Memo>
      reads repo, repo.store
      requires Lists(listing, repo.store.files)
    {
      if repo.store.handle.None? then [] else Loaded(listing, repo.store.files)
    }

    /** `for (const memo of ms) await memoRepository.saveOne(memo)`: stops at the first failure. */
    method SaveAll(ms: seq<Memo>) returns (ok: bool)
      requires Valid()
      modifies repo.store`files
      ensures Valid()
      ensures ok == (ms == [] || repo.store.handle.Some?)
      ensures repo.store.files ==
        if repo.store.handle.Some? then Written(old(repo.store.files), LiftAll(ms)) else old(repo.store.files)
    {
      var i := 0;
      while i < |ms|
        invariant 0 <= i <= |ms|
        invariant Valid()
        invariant repo.store.handle.Some? ==> repo.store.files == Written(old(repo.store.files), LiftAll(ms)[..i])
        invariant repo.store.handle.None? ==> repo.store.files == old(repo.store.files) && i == 0
      {
        WrittenStep(old(repo.store.files), LiftAll(ms), i);
        ok := repo.SaveOne(ms[i]);
        if !ok {
          return;
        }
        i := i + 1;
      }
      assert LiftAll(ms)[..|ms|] == LiftAll(ms);
      ok := true;
    }

    /**
     * `loadMemos`: the stored memos, passed through `applyMigrations` (which keeps a
     * loaded list as it is), or, when there are none, the initial memos, which are
     * saved first; the first memo is selected. A failing save leaves the state alone.
     */
    method LoadMemos(listing: seq<string>, ids: seq<string>, stamps: seq<nat>)
      requires Valid() && Lists(listing, repo.store.files)
      requires |ids| == InitialCount && |stamps| == InitialCount
      modifies this`memos, this`selectedMemoId, repo.store`files
      ensures Valid()
      ensures var loaded := old(Stored(listing));
        var initial := CreateInitialMemos(InitialCount, ids, stamps);
        if loaded == [] && repo.store.handle.None? then
          memos == old(memos) && selectedMemoId == old(selectedMemoId) && repo.store.files == old(repo.store.files)
        else
          && memos == LoadOutcome(loaded, initial)
          && selectedMemoId == IdAt(memos, 0)
          && repo.store.files == if loaded == [] then Written(old(repo.store.files), LiftAll(initial)) else old(repo.store.files)
    {
      var loadedMemos := repo.LoadAll(listing);
      if |loadedMemos| == 0 {
        var initialMemos := CreateInitialMemos(InitialCount, ids, stamps);
        var ok := SaveAll(initialMemos);
        if !ok {
          return;
        }
        loadedMemos := initialMemos;
      } else {
        LoadedMemos(listing, repo.store.files, loadedMemos[0]);
        EnsureOrderFieldOfSorted(loadedMemos);
        loadedMemos := ApplyMigrations(LiftAll(loadedMemos));
      }
      memos := loadedMemos;
      selectedMemoId := IdAt(loadedMemos, 0);
    }

    /**
     * The branch of `initializeApp` without a folder: show the legacy memos after
     * `applyMigrations`, or the initial memos when there are none, and wait for a folder.
     */
    method StartWithoutDirectory(ids: seq<string>, stamps: seq<nat>)
      requires Valid() && repo.store.handle.None?
      requires |ids| == InitialCount && |stamps| == InitialCount
      modifies this`memos, this`selectedMemoId, this`status, repo.store`files, repo.store`legacy
      ensures Valid() && status == NeedDirectory && selectedMemoId == IdAt(memos, 0)
      ensures repo.store.files == old(repo.store.files) && repo.store.legacy == old(repo.store.legacy)
      ensures var legacy := old(repo.store.legacy);
        memos == if legacy.Some? && legacy.value.Json? && legacy.value.memos != []
                 then ApplyMigrations(legacy.value.memos)
                 else CreateInitialMemos(InitialCount, ids, stamps)
    {
      var migratedMemos := repo.MigrateFromLegacyStorage();
      if |migratedMemos| > 0 {
        var processedMemos := ApplyMigrations(migratedMemos);
        memos := processedMemos;
        selectedMemoId := IdAt(processedMemos, 0);
        status := NeedDirectory;
      } else {
        var initialMemos := CreateInitialMemos(InitialCount, ids, stamps);
        memos := initialMemos;
        selectedMemoId := IdAt(initialMemos, 0);
        status := NeedDirectory;
      }
    }

    /**
     * `initializeApp`: with a folder, load and become ready; without one, show the
     * legacy memos or the initial ones and wait for a folder.
     */
    method InitializeApp(listing: seq<string>, ids: seq<string>, stamps: seq<nat>)
      requires Valid() && Lists(listing, repo.store.files)
      requires |ids| == InitialCount && |stamps| == InitialCount
      modifies this`memos, this`selectedMemoId, this`status, repo.store`files, repo.store`legacy
      ensures Valid()
      ensures repo.store.handle.Some? ==>
        var initial := CreateInitialMemos(InitialCount, ids, stamps);
        && status == Ready && memos == LoadOutcome(old(Stored(listing)), initial)
        && selectedMemoId == IdAt(memos, 0)
        && repo.store.files == (if old(Stored(listing)) == [] then Written(old(repo.store.files), LiftAll(initial)) else old(repo.store.files))
        && repo.store.legacy == old(repo.store.legacy)
      ensures repo.store.handle.None? ==>
        && status == NeedDirectory && selectedMemoId == IdAt(memos, 0)
        && repo.store.files == old(repo.store.files) && repo.store.legacy == old(repo.store.legacy)
        && var legacy := old(repo.store.legacy);
           memos == if legacy.Some? && legacy.value.Json? && legacy.value.memos != []
                    then ApplyMigrations(legacy.value.memos)
                    else CreateInitialMemos(InitialCount, ids, stamps)
    {
      status := Loading;
      var hasDirectory := repo.EnsureDirectory();
      if hasDirectory {
        LoadMemos(listing, ids, stamps);
        status := Ready;
      } else {
        StartWithoutDirectory(ids, stamps);
      }
    }

    /** The autosave effect's guard: there are memos and the app is ready. */
    predicate AutosaveFires()
      reads this
    {
      |memos| > 0 && status == Ready
    }

    /** The autosave effect: `saveAllMemos` when the guard holds; a failure is only reported. */
    method Autosave()
      requires Valid()
      modifies repo.store`files
      ensures Valid()
      ensures repo.store.files ==
        if AutosaveFires() && repo.store.handle.Some? then Written(old(repo.store.files), LiftAll(memos))
        else old(repo.store.files)
    {
      if AutosaveFires() {
        var _ := SaveAll(memos);
      }
    }

    /**
     * `selectDirectory`: when the picker returns a folder, it becomes the handle and the
     * saved name, it is loaded (an empty folder receives the initial memos), and the app
     * becomes ready; when the pick fails or is cancelled, nothing changes.
     */
    method SelectDirectory(picked: Option<Folder>, listing: seq<string>, ids: seq<string>, stamps: seq<nat>)
      requires Valid()
      requires picked.Some? ==> Lists(listing, picked.value.files)
      requires |ids| == InitialCount && |stamps| == InitialCount
      modifies this`memos, this`selectedMemoId, this`status, repo.store`handle, repo.store`files, repo.store`savedName
      ensures Valid() && repo.store.legacy == old(repo.store.legacy)
      ensures picked.None? ==>
        && memos == old(memos) && selectedMemoId == old(selectedMemoId) && status == old(status)
        && repo.store.handle == old(repo.store.handle) && repo.store.files == old(repo.store.files)
        && repo.store.savedName == old(repo.store.savedName)
      ensures picked.Some? ==>
        var loaded := Loaded(listing, picked.value.files);
        var initial := CreateInitialMemos(InitialCount, ids, stamps);
        && status == Ready && repo.store.handle == Some(picked.value.name)
        && repo.store.savedName == Some(picked.value.name)
        && memos == LoadOutcome(loaded, initial)
        && selectedMemoId == IdAt(memos, 0)
        && repo.store.files == if loaded == [] then Written(picked.value.files, LiftAll(initial)) else picked.value.files
    {
      var success := repo.RequestDirectory(picked);
      if success {
        LoadMemos(listing, ids, stamps);
        status := Ready;
      }
    }

    /** `addMemo`: only when ready; appends a new memo, selects it and starts editing. */
    method AddMemo(id: string, now: nat)
      modifies this`memos, this`selectedMemoId, this`isEditMode
      ensures status != Ready ==>
        memos == old(memos) && selectedMemoId == old(selectedMemoId) && isEditMode == old(isEditMode)
      ensures status == Ready ==>
        && memos == old(memos) + [CreateNewMemo(|old(memos)|, id, now, NoPatch)]
        && selectedMemoId == Some(id) && isEditMode
    {
      if status != Ready {
        return;
      }
      var newMemo := CreateNewMemo(|memos|, id, now, NoPatch);
      memos := memos + [newMemo];
      selectedMemoId := Some(newMemo.id);
      isEditMode := true;
    }

    /** `selectMemo`: select `id` and leave edit mode. */
    method SelectMemo(id: string)
      modifies this`selectedMemoId, this`isEditMode
      ensures selectedMemoId == Some(id) && !isEditMode
    {
      selectedMemoId := Some(id);
      isEditMode := false;
    }

    /** `updateMemo`: the memo with id `id` takes the edit; every other memo is untouched. */
    method UpdateMemo(id: string, title: string, body: string, now: nat)
      modifies this`memos
      ensures memos == Updated(old(memos), id, title, body, now)
    {
      memos := Updated(memos, id, title, body, now);
    }

    /**
     * `deleteMemo`: the last memo is never deleted, and a failed file deletion changes
     * nothing; otherwise the memo is dropped, orders are renumbered to positions, and
     * the memo above the deleted one is selected.
     */
    method DeleteMemo(id: string)
      requires Valid()
      modifies this`memos, this`selectedMemoId, this`isEditMode, repo.store`files
      ensures Valid()
      ensures var ok := |old(memos)| != 1 && repo.store.handle.Some? && FileName(id) in old(repo.store.files);
        if !ok then
          && memos == old(memos) && selectedMemoId == old(selectedMemoId) && isEditMode == old(isEditMode)
          && repo.store.files == old(repo.store.files)
        else
          && memos == Renumbered(WithoutId(old(memos), id))
          && selectedMemoId == IdAt(memos, SelectionAfterDelete(IndexOfId(old(memos), id)))
          && !isEditMode && repo.store.files == old(repo.store.files) - {FileName(id)}
    {
      if |memos| == 1 {
        return;
      }
      var ok := repo.DeleteOne(id);
      if !ok {
        return;
      }
      var newMemos := Renumber(WithoutId(memos, id));
      var deletedIndex := IndexOfId(memos, id);
      var newSelectedIndex := SelectionAfterDelete(deletedIndex);
      memos := newMemos;
      selectedMemoId := IdAt(newMemos, newSelectedIndex);
      isEditMode := false;
    }

    /** `reorderMemos`: splice the memo at `dragIndex` to `dropIndex`, then renumber. */
    method ReorderMemos(dragIndex: nat, dropIndex: nat)
      requires dragIndex < |memos| && dropIndex < |memos|
      modifies this`memos
      ensures memos == Renumbered(Move(old(memos), dragIndex, dropIndex))
      ensures multiset(Ids(memos)) == multiset(Ids(old(memos)))
    {
      MoveRenumberedKeepsContents(memos, dragIndex, dropIndex);
      memos := Renumber(Move(memos, dragIndex, dropIndex));
    }

    /** `toggleEditMode`. */
    method ToggleEditMode()
      modifies this`isEditMode
      ensures isEditMode == !old(isEditMode)
    {
      isEditMode := !isEditMode;
    }
  }
}
