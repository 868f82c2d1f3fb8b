/**
 * frontend/src/useMemos.ts: the hook of the client/server revision. Memos live on
 * the backend; every call to it is recorded in `requests`, and its outcome (the
 * memos or memo it answered with, or a failure) is a parameter. Edits are coalesced
 * in `pendingUpdates` and sent by an explicit flush in place of the 1000 ms debounce.
 */
module FrontendHook {
  import opened Wrappers
  import opened MemoTypes
  import opened Ordering
  import MemoHook

  datatype ClientStatus = Loading | Ready | Error

  /** The title and body of a pending edit. */
  datatype Edit = Edit(title: string, body: string)

  /** A call the client makes to the backend that changes what it stores. */
  datatype Request =
    | CreateRequest(title: string, body: string)
    | UpdateRequest(id: string, edit: Edit)
    | DeleteRequest(id: string)
    | ReorderRequest(orderedIds: seq<string>)

  /** The title and body of the memo `loadMemos` creates when there are none. */
  const FirstTitle := "はじめてのメモ"
  const FirstBody := "ここにメモを書きます。"
  /** The title of the memo `addMemo` creates. */
  const AddedTitle := "新規メモ"

  /** `pendingUpdates`: a JavaScript `Map`, kept as its entries in insertion order. */
  type Pending = seq<(string, Edit)>

  function Keys(p: Pending): seq<string> {
    seq(|p|, i requires 0 <= i < |p| => p[i].0)
  }

  /** A `Map` holds each key once. */
  predicate UniqueKeys(p: Pending) {
    forall i, j :: 0 <= i < j < |p| ==> p[i].0 != p[j].0
  }

  /** `Map.get`. */
  function Lookup(p: Pending, k: string): Option<Edit>
    decreases |p|
  {
    if p == [] then None else if p[0].0 == k then Some(p[0].1) else Lookup(p[1..], k)
  }

  /** `Map.set`: an existing key keeps its place and takes the new value; a new key goes last. */
  function Set(p: Pending, k: string, e: Edit): Pending
    decreases |p|
  {
    if p == [] then [(k, e)]
    else if p[0].0 == k then [(k, e)] + p[1..]
    else [p[0]] + Set(p[1..], k, e)
  }

  /** After `set`, the key holds the new edit and every other key what it held. */
  lemma {:induction false} SetLookup(p: Pending, k: string, e: Edit, q: string)
    ensures Lookup(Set(p, k, e), q) == if q == k then Some(e) else Lookup(p, q)
    decreases |p|
  {
    if p != [] && p[0].0 != k {
      SetLookup(p[1..], k, e, q);
      assert Set(p, k, e)[1..] == Set(p[1..], k, e);
    }
  }

  /** `set` keeps the keys in their order and appends a new key at the end. */
  lemma {:induction false} SetKeys(p: Pending, k: string, e: Edit)
    ensures Keys(Set(p, k, e)) == if k in Keys(p) then Keys(p) else Keys(p) + [k]
    decreases |p|
  {
    if p != [] && p[0].0 != k {
      SetKeys(p[1..], k, e);
      assert Keys(p) == [p[0].0] + Keys(p[1..]);
      assert Keys(Set(p, k, e)) == [p[0].0] + Keys(Set(p[1..], k, e));
    } else if p != [] {
      assert Keys(Set(p, k, e)) == [k] + Keys(p[1..]);
      assert Keys(p) == [k] + Keys(p[1..]);
    }
  }

  /** `set` keeps a map's keys unique. */
  lemma SetUnique(p: Pending, k: string, e: Edit)
    requires UniqueKeys(p)
    ensures UniqueKeys(Set(p, k, e))
  {
    SetKeys(p, k, e);
    var r := Set(p, k, e);
    forall i, j | 0 <= i < j < |r| ensures r[i].0 != r[j].0 {
      assert Keys(r)[i] == r[i].0 && Keys(r)[j] == r[j].0;
      if j < |p| {
        assert Keys(p)[i] == p[i].0 && Keys(p)[j] == p[j].0;
      } else {
        assert Keys(p)[i] == p[i].0;
      }
    }
  }

  /** A later edit of the same memo overwrites an earlier one in the map. */
  lemma {:induction false} SetLastWins(p: Pending, k: string, e1: Edit, e2: Edit)
    ensures Set(Set(p, k, e1), k, e2) == Set(p, k, e2)
    decreases |p|
  {
    if p != [] && p[0].0 != k {
      SetLastWins(p[1..], k, e1, e2);
      assert Set(p, k, e1)[0] == p[0] && Set(p, k, e1)[1..] == Set(p[1..], k, e1);
    }
  }

  /** The update requests a flush of `p` sends, one per entry, in the map's order. */
  function UpdateRequests(p: Pending): seq<Request> {
    seq(|p|, i requires 0 <= i < |p| => UpdateRequest(p[i].0, p[i].1))
  }

  class ClientHook {
    var memos: seq<Memo>
    var selectedMemoId: Option<string>
    var isEditMode: bool
    var status: ClientStatus
    var pendingUpdates: Pending
    /** Every request sent to the backend so far, oldest first. */
    var requests: seq<Request>

    ghost predicate Valid()
      reads this
    {
      UniqueKeys(pendingUpdates)
    }

    constructor ()
      ensures Valid()
      ensures memos == [] && selectedMemoId.None? && !isEditMode && status == Loading
      ensures pendingUpdates == [] && requests == []
    {
      memos := [];
      selectedMemoId := None;
      isEditMode := false;
      status := Loading;
      pendingUpdates := [];
      requests := [];
    }

    /**
     * `loadMemos`: `all` is what `getAll` answers (`None` when it fails) and `created`
     * what `create` answers. With no memos, one first memo is created. Success selects
     * the first memo and makes the client ready; any failure makes it `Error`.
     */
    method LoadMemos(all: Option<seq<Memo>>, created: Option<Memo>)
      modifies this`memos, this`selectedMemoId, this`status, this`requests
      ensures all.None? ==>
        status == Error && memos == old(memos) && selectedMemoId == old(selectedMemoId) && requests == old(requests)
      ensures all.Some? && all.value != [] ==>
        && status == Ready && memos == all.value && selectedMemoId == Some(all.value[0].id)
        && requests == old(requests)
      ensures all == Some([]) ==> requests == old(requests) + [CreateRequest(FirstTitle, FirstBody)]
      ensures all == Some([]) && created.None? ==>
        status == Error && memos == old(memos) && selectedMemoId == old(selectedMemoId)
      ensures all == Some([]) && created.Some? ==>
        status == Ready && memos == [created.value] && selectedMemoId == Some(created.value.id)
    {
      status := Loading;
      if all.None? {
        status := Error;
        return;
      }
      var loadedMemos := all.value;
      if |loadedMemos| == 0 {
        requests := requests + [CreateRequest(FirstTitle, FirstBody)];
        if created.None? {
          status := Error;
          return;
        }
        loadedMemos := [created.value];
      }
      memos := loadedMemos;
      selectedMemoId := IdAt(loadedMemos, 0);
      status := Ready;
    }

    /**
     * `debouncedSave` with the current map: one update request per entry, in order;
     * a failed request (`ok[i]` false) is only reported, and the map is cleared anyway.
     */
    method Flush(ok: seq<bool>)
      requires |ok| == |pendingUpdates|
      modifies this`pendingUpdates, this`requests
      ensures Valid()
      ensures requests == old(requests) + UpdateRequests(old(pendingUpdates))
      ensures pendingUpdates == []
    {
      var updates := pendingUpdates;
      var i := 0;
      while i < |updates|
        invariant 0 <= i <= |updates|
        invariant requests == old(requests) + UpdateRequests(updates[..i])
      {
        assert UpdateRequests(updates[..i + 1]) == UpdateRequests(updates[..i]) + [UpdateRequest(updates[i].0, updates[i].1)];
        requests := requests + [UpdateRequest(updates[i].0, updates[i].1)];
        i := i + 1;
      }
      assert updates[..|updates|] == updates;
      pendingUpdates := [];
    }

    /** The save effect's guard: edits are pending and the client is ready. */
    predicate FlushFires()
      reads this
    {
      |pendingUpdates| > 0 && status == Ready
    }

    /** The save effect: flush when the guard holds, otherwise nothing is sent. */
    method SaveEffect(ok: seq<bool>)
      requires |ok| == |pendingUpdates|
      requires Valid()
      modifies this`pendingUpdates, this`requests
      ensures Valid()
      ensures old(FlushFires()) ==>
        requests == old(requests) + UpdateRequests(old(pendingUpdates)) && pendingUpdates == []
      ensures !old(FlushFires()) ==> requests == old(requests) && pendingUpdates == old(pendingUpdates)
    {
      if FlushFires() {
        Flush(ok);
      }
    }

    /** `addMemo`: the memo the backend created is appended and selected; a failure changes nothing. */
    method AddMemo(created: Option<Memo>)
      modifies this`memos, this`selectedMemoId, this`isEditMode, this`requests
      ensures requests == old(requests) + [CreateRequest(AddedTitle, "")]
      ensures created.None? ==>
        memos == old(memos) && selectedMemoId == old(selectedMemoId) && isEditMode == old(isEditMode)
      ensures created.Some? ==>
        memos == old(memos) + [created.value] && selectedMemoId == Some(created.value.id) && isEditMode
    {
      requests := requests + [CreateRequest(AddedTitle, "")];
      if created.None? {
        return;
      }
      var newMemo := created.value;
      memos := memos + [newMemo];
      selectedMemoId := Some(newMemo.id);
      isEditMode := true;
    }

    /** `selectMemo`. */
    method SelectMemo(id: string)
      modifies this`selectedMemoId, this`isEditMode
      ensures selectedMemoId == Some(id) && !isEditMode
    {
      selectedMemoId := Some(id);
      isEditMode := false;
    }

    /**
     * `updateMemo`: the memo with id `id` takes the edit at once, and the edit is
     * queued under its id, replacing an edit still pending for it.
     */
    method UpdateMemo(id: string, title: string, body: string, now: nat)
      requires Valid()
      modifies this`memos, this`pendingUpdates
      ensures Valid()
      ensures memos == MemoHook.Updated(old(memos), id, title, body, now)
      ensures pendingUpdates == Set(old(pendingUpdates), id, Edit(title, body))
      ensures Lookup(pendingUpdates, id) == Some(Edit(title, body))
      ensures forall q :: q != id ==> Lookup(pendingUpdates, q) == Lookup(old(pendingUpdates), q)
    {
      SetUnique(pendingUpdates, id, Edit(title, body));
      forall q ensures Lookup(Set(pendingUpdates, id, Edit(title, body)), q) ==
        if q == id then Some(Edit(title, body)) else Lookup(pendingUpdates, q)
      {
        SetLookup(pendingUpdates, id, Edit(title, body), q);
      }
      memos := MemoHook.Updated(memos, id, title, body, now);
      pendingUpdates := Set(pendingUpdates, id, Edit(title, body));
    }

    /**
     * `deleteMemo`: the last memo is never deleted, and a delete the backend refuses
     * (`serverOk` false) changes nothing; otherwise the memo is dropped, orders are
     * renumbered to positions, and the memo above the deleted one is selected.
     */
    method DeleteMemo(id: string, serverOk: bool)
      modifies this`memos, this`selectedMemoId, this`isEditMode, this`requests
      ensures |old(memos)| == 1 ==> requests == old(requests)
      ensures |old(memos)| != 1 ==> requests == old(requests) + [DeleteRequest(id)]
      ensures |old(memos)| == 1 || !serverOk ==>
        memos == old(memos) && selectedMemoId == old(selectedMemoId) && isEditMode == old(isEditMode)
      ensures |old(memos)| != 1 && serverOk ==>
        && memos == Renumbered(WithoutId(old(memos), id))
        && selectedMemoId == IdAt(memos, SelectionAfterDelete(IndexOfId(old(memos), id)))
        && !isEditMode
    {
      if |memos| == 1 {
        return;
      }
      requests := requests + [DeleteRequest(id)];
      if !serverOk {
        return;
      }
      var newMemos := Renumbered(WithoutId(memos, id));
      var deletedIndex := IndexOfId(memos, id);
      var newSelectedIndex := SelectionAfterDelete(deletedIndex);
      memos := newMemos;
      selectedMemoId := IdAt(newMemos, newSelectedIndex);
      isEditMode := false;
    }

    /**
     * `reorderMemos`: splice the memo at `dragIndex` to `dropIndex`, renumber, and
     * send the ids in exactly their new order.
     */
    method ReorderMemos(dragIndex: nat, dropIndex: nat)
      requires dragIndex < |memos| && dropIndex < |memos|
      modifies this`memos, this`requests
      ensures memos == Renumbered(Move(old(memos), dragIndex, dropIndex))
      ensures OrdersArePositions(memos) && multiset(Ids(memos)) == multiset(Ids(old(memos)))
      ensures requests == old(requests) + [ReorderRequest(Move(Ids(old(memos)), dragIndex, dropIndex))]
    {
      MoveRenumberedKeepsContents(memos, dragIndex, dropIndex);
      IdsOfMove(memos, dragIndex, dropIndex);
      RenumberedIds(Move(memos, dragIndex, dropIndex));
      var updatedMemos := Renumbered(Move(memos, dragIndex, dropIndex));
      requests := requests + [ReorderRequest(Ids(updatedMemos))];
      memos := updatedMemos;
    }

    /** `toggleEditMode`. */
    method ToggleEditMode()
      modifies this`isEditMode
      ensures isEditMode == !old(isEditMode)
    {
      isEditMode := !isEditMode;
    }
  }
}
