/**
 * src/index.ts: the first, DOM-only revision of the application. Its state is the
 * three globals `memos`, `memoIndex` (the selected position) and `draggedMemoId`,
 * and the localStorage slot the memos are saved to after every change. Ids and
 * timestamps drawn by `crypto.randomUUID` and `Date.now` are parameters.
 */
module VanillaApp {
  import opened Wrappers
  import opened MemoTypes
  import opened Ordering
  import opened Migration

  class MemoPage {
    /** `memos`: every memo, in list order. */
    var memos: seq<Memo>
    /** `memoIndex`: the position of the selected memo. */
    var memoIndex: nat
    /** `draggedMemoId`: the id a drag started on, if any. */
    var draggedMemoId: Option<string>
    /** The localStorage slot `saveLocalStorage` writes and `readLocalStorage` reads. */
    var stored: seq<LegacyMemo>

    /** Ids are unique and, once there are memos, the selection is one of them. */
    ghost predicate Valid()
      reads this
    {
      && UniqueIds(memos)
      && (memos != [] ==> memoIndex < |memos|)
    }

    /** The page before `init`: no memos, the first position selected, nothing dragged. */
    constructor (stored: seq<LegacyMemo>)
      ensures Valid()
      ensures memos == [] && memoIndex == 0 && draggedMemoId.None? && this.stored == stored
    {
      memos := [];
      memoIndex := 0;
      draggedMemoId := None;
      this.stored := stored;
    }

    /** `newMemo`: a blank memo placed after the existing ones. */
    method NewMemo(id: string, now: nat) returns (m: Memo)
      ensures m == CreateNewMemo(|memos|, id, now, NoPatch)
      ensures m.order == |memos| && m.body == "" && m.createdAt == m.updatedAt == now
    {
      m := Memo(id, DefaultTitle(|memos|), "", now, now, |memos|);
    }

    /** `saveLocalStorage(STORAGE_KEY, memos)`. */
    method SaveToStorage()
      modifies this`stored
      ensures stored == LiftAll(memos)
    {
      stored := LiftAll(memos);
    }

    /**
     * `init`: an empty store is seeded with two new memos, which are saved; otherwise
     * each memo without an order takes its position, and the list is sorted by order.
     */
    method Init(id1: string, id2: string, now1: nat, now2: nat)
      requires memos == [] && memoIndex == 0
      requires UniqueIds(Filled(stored)) && id1 != id2
      modifies this`memos, this`stored
      ensures Valid() && memos != []
      ensures old(stored) == [] ==>
        && memos == [CreateNewMemo(0, id1, now1, NoPatch), CreateNewMemo(1, id2, now2, NoPatch)]
        && stored == LiftAll(memos)
      ensures old(stored) != [] ==> memos == EnsureOrderField(old(stored)) && stored == old(stored)
    {
      var read := stored;
      if read == [] {
        var first := NewMemo(id1, now1);
        memos := memos + [first];
        var second := NewMemo(id2, now2);
        memos := memos + [second];
        SaveToStorage();
      } else {
        var filled: seq<Memo> := [];
        var i := 0;
        while i < |read|
          invariant 0 <= i <= |read|
          invariant filled == Filled(read)[..i]
        {
          filled := filled + [WithOrder(read[i], i)];
          i := i + 1;
        }
        assert filled == Filled(read);
        memos := SortByOrder(filled);
        EnsureOrderFieldSpec(read, 0);
        SortByOrderKeepsUniqueIds(filled);
      }
    }

    /** `handleDragStart`: remember the id of the memo the drag started on. */
    method DragStart(id: Option<string>)
      modifies this`draggedMemoId
      ensures draggedMemoId == id
    {
      draggedMemoId := id;
    }

    /** `handleDragEnd`: the drag is over. */
    method DragEnd()
      modifies this`draggedMemoId
      ensures draggedMemoId.None?
    {
      draggedMemoId := None;
    }

    /** Whether `handleDrop` acts: both ids are set (non-empty) and differ. */
    predicate DropActs(dragged: Option<string>, target: Option<string>) {
      && dragged.Some? && dragged.value != ""
      && target.Some? && target.value != ""
      && dragged.value != target.value
    }

    /** The two splices of `handleDrop` and the renumbering after them. */
    method MoveMemo(from: nat, to: nat)
      requires from < |memos| && to < |memos|
      modifies this`memos
      ensures memos == Renumbered(Move(old(memos), from, to))
    {
      var draggedMemo := memos[from];
      memos := RemoveAt(memos, from);
      memos := InsertAt(memos, to, draggedMemo);
      assert memos == Move(old(memos), from, to);
      memos := Renumber(memos);
    }

    /**
     * The body of `handleDrop` once it acts: the dragged memo is spliced out and back
     * in at the target's position, orders are renumbered to positions, and the
     * selection follows the memo now at the selected position, which is that position.
     */
    method Drop(draggedId: string, targetId: string)
      requires Valid() && memos != []
      requires HasId(memos, draggedId) && HasId(memos, targetId)
      modifies this`memos, this`memoIndex, this`stored
      ensures Valid()
      ensures memos == Renumbered(Move(old(memos), IndexOfId(old(memos), draggedId), IndexOfId(old(memos), targetId)))
      ensures memoIndex == old(memoIndex) && stored == LiftAll(memos)
      ensures multiset(Ids(memos)) == multiset(Ids(old(memos)))
    {
      var draggedIndex := IndexOfId(memos, draggedId);
      var targetIndex := IndexOfId(memos, targetId);
      MoveRenumberedLookup(memos, draggedIndex, targetIndex, memoIndex);
      MoveMemo(draggedIndex, targetIndex);
      var currentMemoId := memos[memoIndex].id;
      memoIndex := IndexOfId(memos, currentMemoId);
      SaveToStorage();
    }

    /** `handleDrop` on the memo with id `targetId`: nothing happens unless `DropActs`. */
    method HandleDrop(targetId: Option<string>)
      requires Valid() && memos != []
      requires DropActs(draggedMemoId, targetId) ==>
        HasId(memos, draggedMemoId.value) && HasId(memos, targetId.value)
      modifies this`memos, this`memoIndex, this`stored
      ensures Valid()
      ensures !DropActs(draggedMemoId, targetId) ==>
        memos == old(memos) && memoIndex == old(memoIndex) && stored == old(stored)
      ensures DropActs(draggedMemoId, targetId) ==>
        && memos == Renumbered(Move(old(memos), IndexOfId(old(memos), draggedMemoId.value),
                                    IndexOfId(old(memos), targetId.value)))
        && memoIndex == old(memoIndex) && stored == LiftAll(memos)
    {
      if DropActs(draggedMemoId, targetId) {
        Drop(draggedMemoId.value, targetId.value);
      }
    }

    /** `clickSaveMemo`: the selected memo takes the edited title and body and is stamped. */
    method ClickSave(title: string, body: string, now: nat)
      requires Valid() && memos != []
      modifies this`memos, this`stored
      ensures Valid()
      ensures memos == old(memos)[memoIndex := old(memos)[memoIndex].(title := title, body := body, updatedAt := now)]
      ensures stored == LiftAll(memos)
    {
      var memo := memos[memoIndex];
      memos := memos[memoIndex := memo.(title := title, body := body, updatedAt := now)];
      assert forall k :: 0 <= k < |memos| ==> memos[k].id == old(memos)[k].id;
      SaveToStorage();
    }

    /** `clickAddMemo`: a new memo is appended and selected. */
    method ClickAdd(id: string, now: nat)
      requires Valid() && !HasId(memos, id)
      modifies this`memos, this`memoIndex, this`stored
      ensures Valid()
      ensures memos == old(memos) + [CreateNewMemo(|old(memos)|, id, now, NoPatch)]
      ensures memoIndex == |old(memos)| && stored == LiftAll(memos)
    {
      var m := NewMemo(id, now);
      memos := memos + [m];
      SaveToStorage();
      memoIndex := |memos| - 1;
    }

    /**
     * `clickDeleteMemo`: the last memo is never deleted; otherwise the selected memo is
     * removed, orders are renumbered to positions, and the selection moves one up
     * unless it was the first.
     */
    method ClickDelete()
      requires Valid() && memos != []
      modifies this`memos, this`memoIndex, this`stored
      ensures Valid()
      ensures |old(memos)| == 1 ==>
        memos == old(memos) && memoIndex == old(memoIndex) && stored == old(stored)
      ensures |old(memos)| > 1 ==>
        && memos == Renumbered(RemoveAt(old(memos), old(memoIndex)))
        && memoIndex == SelectionAfterDelete(old(memoIndex))
        && stored == LiftAll(memos)
    {
      if |memos| == 1 {
        return;
      }
      var memoId := memos[memoIndex].id;
      WithoutIdIsRemoveAt(memos, memoId, memoIndex);
      RemoveAtKeepsUniqueIds(memos, memoIndex);
      RenumberedIds(RemoveAt(memos, memoIndex));
      memos := WithoutId(memos, memoId);
      memos := Renumber(memos);
      SaveToStorage();
      if 1 <= memoIndex {
        memoIndex := memoIndex - 1;
      }
    }
  }
}
