/**
 * src/migration.ts: the normalisation applied to memos as they are read (a missing
 * `order` is filled in and the list sorted by order) and the factories for new memos.
 * `crypto.randomUUID` and `Date.now` are parameters.
 */
module Migration {
  import opened Wrappers
  import opened MemoTypes
  import opened FrontMatter
  import opened Ordering

  /** The map step of `ensureOrderField`: a memo without an order takes its position. */
  function Filled(memos: seq<LegacyMemo>): seq<Memo> {
    seq(|memos|, i requires 0 <= i < |memos| => WithOrder(memos[i], i))
  }

  /** `ensureOrderField`: fill the missing orders, then sort by order (stably). */
  function EnsureOrderField(memos: seq<LegacyMemo>): seq<Memo> {
    SortByOrder(Filled(memos))
  }

  /** A memo that already has an order passes through the fill step as it was. */
  lemma FilledKeepsOrdered(memos: seq<LegacyMemo>, i: nat)
    requires i < |memos| && memos[i].order.Some?
    ensures Lift(Filled(memos)[i]) == memos[i]
  {
  }

  /** A memo without an order comes out with its position as order, and nothing else changed. */
  lemma FilledFillsMissing(memos: seq<LegacyMemo>, i: nat)
    requires i < |memos| && memos[i].order.None?
    ensures Lift(Filled(memos)[i]) == memos[i].(order := Some(i))
  {
  }

  /**
   * The result of `ensureOrderField` has the input's length, holds exactly the filled
   * memos (a permutation), is sorted by order, and keeps memos of equal order in their
   * input order.
   */
  lemma EnsureOrderFieldSpec(memos: seq<LegacyMemo>, k: nat)
    ensures |EnsureOrderField(memos)| == |memos|
    ensures multiset(EnsureOrderField(memos)) == multiset(Filled(memos))
    ensures SortedByOrder(EnsureOrderField(memos))
    ensures HavingOrder(EnsureOrderField(memos), k) == HavingOrder(Filled(memos), k)
  {
    SortByOrderPermutes(Filled(memos));
    SortByOrderStable(Filled(memos), k);
  }

  /** Every memo read through the legacy shape has its order, so the fill step changes nothing. */
  lemma FilledOfLifted(s: seq<Memo>)
    ensures Filled(LiftAll(s)) == s
  {
    assert forall i :: 0 <= i < |s| ==> Filled(LiftAll(s))[i] == s[i];
  }

  /** `ensureOrderField` is idempotent: normalising a normalised list gives it back. */
  lemma EnsureOrderFieldIdempotent(memos: seq<LegacyMemo>)
    ensures EnsureOrderField(LiftAll(EnsureOrderField(memos))) == EnsureOrderField(memos)
  {
    var r := EnsureOrderField(memos);
    FilledOfLifted(r);
    SortByOrderOfSorted(r);
  }

  /** A list already in order with every order present is left exactly as it is. */
  lemma EnsureOrderFieldOfSorted(s: seq<Memo>)
    requires SortedByOrder(s)
    ensures EnsureOrderField(LiftAll(s)) == s
  {
    FilledOfLifted(s);
    SortByOrderOfSorted(s);
  }

  /**
   * `applyMigrations`: the one migration so far is `ensureOrderField`, so the result
   * is sorted, a permutation of the filled input, and already normalised.
   */
  function ApplyMigrations(memos: seq<LegacyMemo>): (r: seq<Memo>)
    ensures |r| == |memos| && SortedByOrder(r)
    ensures multiset(r) == multiset(Filled(memos))
    ensures EnsureOrderField(LiftAll(r)) == r
  {
    var result := EnsureOrderField(memos);
    EnsureOrderFieldSpec(memos, 0);
    EnsureOrderFieldIdempotent(memos);
    result
  }

  /** The fields a `Partial<Memo>` may set; `None` where the partial leaves a field out. */
  datatype MemoPatch = MemoPatch(
    id: Option<string>,
    title: Option<string>,
    body: Option<string>,
    createdAt: Option<nat>,
    updatedAt: Option<nat>,
    order: Option<nat>)

  const NoPatch := MemoPatch(None, None, None, None, None, None)

  /** The default title of the memo created at position `order`: `new memo ${order + 1}`. */
  function DefaultTitle(order: nat): string {
    "new memo " + NatToString(order + 1)
  }

  /**
   * `createNewMemo(order, partial)` with `id` the fresh UUID and `now` the clock:
   * the defaults, each overridden by the field the partial sets.
   */
  function CreateNewMemo(order: nat, id: string, now: nat, partial: MemoPatch): Memo {
    Memo(partial.id.GetOr(id), partial.title.GetOr(DefaultTitle(order)), partial.body.GetOr(""),
         partial.createdAt.GetOr(now), partial.updatedAt.GetOr(now), partial.order.GetOr(order))
  }

  /** Without a partial, a new memo is empty, was never edited, and sits at `order`. */
  lemma NewMemoDefaults(order: nat, id: string, now: nat)
    ensures var m := CreateNewMemo(order, id, now, NoPatch);
      && m.id == id && m.order == order && m.title == DefaultTitle(order) && m.body == ""
      && m.createdAt == m.updatedAt == now
  {
  }

  /**
   * The spread puts the partial last, so each field the partial sets overrides its
   * own default, and each field it leaves unset keeps the default.
   */
  lemma PartialOverridesDefaults(order: nat, id: string, now: nat, p: MemoPatch)
    ensures var m := CreateNewMemo(order, id, now, p);
      && m.id == (if p.id.Some? then p.id.value else id)
      && m.title == (if p.title.Some? then p.title.value else DefaultTitle(order))
      && m.body == (if p.body.Some? then p.body.value else "")
      && m.createdAt == (if p.createdAt.Some? then p.createdAt.value else now)
      && m.updatedAt == (if p.updatedAt.Some? then p.updatedAt.value else now)
      && m.order == (if p.order.Some? then p.order.value else order)
  {
  }

  /** `createInitialMemos()`'s default count. */
  const InitialCount: nat := 2

  /**
   * `createInitialMemos(count)`: `count` new memos at positions 0, ..., count-1;
   * `ids[i]` and `stamps[i]` are what the i-th `createNewMemo` call draws.
   */
  function CreateInitialMemos(count: nat, ids: seq<string>, stamps: seq<nat>): (r: seq<Memo>)
    requires |ids| == count && |stamps| == count
    ensures |r| == count
    ensures OrdersArePositions(r)
    ensures forall i :: 0 <= i < count ==> r[i] == CreateNewMemo(i, ids[i], stamps[i], NoPatch)
  {
    seq(count, i requires 0 <= i < count => CreateNewMemo(i, ids[i], stamps[i], NoPatch))
  }

  /** The initial memos are already normalised: `applyMigrations` leaves them as they are. */
  lemma InitialMemosNormalised(count: nat, ids: seq<string>, stamps: seq<nat>)
    requires |ids| == count && |stamps| == count
    ensures SortedByOrder(CreateInitialMemos(count, ids, stamps))
    ensures ApplyMigrations(LiftAll(CreateInitialMemos(count, ids, stamps))) == CreateInitialMemos(count, ids, stamps)
  {
    var s := CreateInitialMemos(count, ids, stamps);
    assert SortedByOrder(s);
    EnsureOrderFieldOfSorted(s);
  }
}
