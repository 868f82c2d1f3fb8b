/**
 * The ordering engine shared by every revision: the stable sort by `order` that all loaders
 * and the migration apply (`Array.prototype.sort` with the comparator `a.order - b.order`,
 * which is stable), renumbering `order := position`, the splice-style single-element move,
 * removal by id, `findIndex` and the selection rule after a delete.
 */
module Ordering {
  import opened Wrappers
  import opened MemoTypes

  /** `order` never decreases along `s`. */
  predicate SortedByOrder(s: seq<Memo>) {
    forall i, j :: 0 <= i < j < |s| ==> s[i].order <= s[j].order
  }

  /** Every memo's order is its position: the orders of `s` are exactly 0, 1, ..., |s|-1. */
  predicate OrdersArePositions(s: seq<Memo>) {
    forall i :: 0 <= i < |s| ==> s[i].order == i
  }

  /** The memos of `s` whose order is `k`, in the sequence order of `s`. */
  function HavingOrder(s: seq<Memo>, k: nat): (r: seq<Memo>)
    ensures |r| <= |s|
  {
    if s == [] then []
    else (if s[0].order == k then [s[0]] else []) + HavingOrder(s[1..], k)
  }

  lemma HavingOrderAppend(a: seq<Memo>, b: seq<Memo>, k: nat)
    ensures HavingOrder(a + b, k) == HavingOrder(a, k) + HavingOrder(b, k)
  {
    if a != [] {
      var head := if a[0].order == k then [a[0]] else [];
      assert (a + b)[0] == a[0] && (a + b)[1..] == a[1..] + b;
      HavingOrderAppend(a[1..], b, k);
      calc {
        HavingOrder(a + b, k);
        head + HavingOrder(a[1..] + b, k);
        head + (HavingOrder(a[1..], k) + HavingOrder(b, k));
        (head + HavingOrder(a[1..], k)) + HavingOrder(b, k);
      }
    } else {
      assert a + b == b;
    }
  }

  lemma HavingOrderSingleton(a: Memo, k: nat)
    ensures HavingOrder([a], k) == if a.order == k then [a] else []
  {
    assert [a][1..] == [];
  }

  // ---------------------------------------------------------------------------
  // Stable sort by order

  /** Puts `x` just before the first memo of `t` whose order is at least `x.order`. */
  function InsertByOrder(x: Memo, t: seq<Memo>): (r: seq<Memo>)
    ensures |r| == |t| + 1
  {
    if t == [] then [x]
    else if x.order <= t[0].order then [x] + t
    else [t[0]] + InsertByOrder(x, t[1..])
  }

  lemma {:induction false} InsertByOrderPermutes(x: Memo, t: seq<Memo>)
    ensures multiset(InsertByOrder(x, t)) == multiset(t) + multiset{x}
  {
    if t != [] && x.order > t[0].order {
      InsertByOrderPermutes(x, t[1..]);
      assert t == [t[0]] + t[1..];
    }
  }

  lemma SortedCons(a: Memo, r: seq<Memo>)
    requires SortedByOrder(r)
    requires r == [] || a.order <= r[0].order
    ensures SortedByOrder([a] + r)
  {
    var s := [a] + r;
    forall i, j | 0 <= i < j < |s| ensures s[i].order <= s[j].order {
      if i == 0 {
        assert s[j] == r[j - 1];
      } else {
        assert s[i] == r[i - 1] && s[j] == r[j - 1];
      }
    }
  }

  lemma {:induction false} InsertByOrderSorted(x: Memo, t: seq<Memo>)
    requires SortedByOrder(t)
    ensures SortedByOrder(InsertByOrder(x, t))
    ensures InsertByOrder(x, t)[0].order == if t == [] || x.order <= t[0].order then x.order else t[0].order
  {
    if t == [] {
    } else if x.order <= t[0].order {
      SortedCons(x, t);
    } else {
      var t' := t[1..];
      assert SortedByOrder(t');
      InsertByOrderSorted(x, t');
      SortedCons(t[0], InsertByOrder(x, t'));
    }
  }

  lemma HavingOrderCons(a: Memo, s: seq<Memo>, k: nat)
    ensures HavingOrder([a] + s, k) == (if a.order == k then [a] else []) + HavingOrder(s, k)
  {
    assert ([a] + s)[0] == a && ([a] + s)[1..] == s;
  }

  lemma {:induction false} InsertByOrderStable(x: Memo, t: seq<Memo>, k: nat)
    ensures HavingOrder(InsertByOrder(x, t), k) == HavingOrder([x] + t, k)
  {
    if t != [] && x.order > t[0].order {
      var t' := t[1..];
      var u := InsertByOrder(x, t');
      assert t == [t[0]] + t';
      InsertByOrderStable(x, t', k);
      HavingOrderCons(t[0], u, k);
      HavingOrderCons(x, t', k);
      HavingOrderCons(t[0], t', k);
      HavingOrderCons(x, t, k);
      var rest := HavingOrder(t', k);
      if x.order == k {
        calc {
          HavingOrder(InsertByOrder(x, t), k);
          HavingOrder(u, k);
          [x] + rest;
          [x] + HavingOrder(t, k);
        }
      } else if t[0].order == k {
        calc {
          HavingOrder(InsertByOrder(x, t), k);
          [t[0]] + HavingOrder(u, k);
          [t[0]] + rest;
          HavingOrder(t, k);
        }
      } else {
        calc {
          HavingOrder(InsertByOrder(x, t), k);
          HavingOrder(u, k);
          rest;
          HavingOrder(t, k);
        }
      }
    }
  }

  /**
   * `memos.sort((a, b) => a.order - b.order)`: a stable insertion sort, from the back.
   */
  function SortByOrder(s: seq<Memo>): (r: seq<Memo>)
    ensures |r| == |s|
    ensures SortedByOrder(r)
  {
    if s == [] then []
    else
      var rest := SortByOrder(s[1..]);
      InsertByOrderSorted(s[0], rest);
      InsertByOrder(s[0], rest)
  }

  /** The sort is a permutation of its input. */
  lemma {:induction false} SortByOrderPermutes(s: seq<Memo>)
    ensures multiset(SortByOrder(s)) == multiset(s)
  {
    if s != [] {
      SortByOrderPermutes(s[1..]);
      InsertByOrderPermutes(s[0], SortByOrder(s[1..]));
      assert s == [s[0]] + s[1..];
    }
  }

  /** The sort is stable: memos with equal order keep their relative input order. */
  lemma {:induction false} SortByOrderStable(s: seq<Memo>, k: nat)
    ensures HavingOrder(SortByOrder(s), k) == HavingOrder(s, k)
  {
    if s != [] {
      SortByOrderStable(s[1..], k);
      InsertByOrderStable(s[0], SortByOrder(s[1..]), k);
      HavingOrderCons(s[0], SortByOrder(s[1..]), k);
      HavingOrderCons(s[0], s[1..], k);
      assert [s[0]] + s[1..] == s;
    }
  }

  /** Sorting an already sorted sequence changes nothing. */
  lemma {:induction false} SortByOrderOfSorted(s: seq<Memo>)
    requires SortedByOrder(s)
    ensures SortByOrder(s) == s
  {
    if s != [] {
      SortByOrderOfSorted(s[1..]);
      assert s == [s[0]] + s[1..];
    }
  }

  // ---------------------------------------------------------------------------
  // Renumbering

  /** `memos.forEach((memo, index) => memo.order = index)` as a value. */
  function Renumbered(s: seq<Memo>): (r: seq<Memo>)
    ensures |r| == |s|
    ensures OrdersArePositions(r)
    ensures forall i :: 0 <= i < |s| ==> SameExceptOrder(r[i], s[i])
  {
    seq(|s|, i requires 0 <= i < |s| => s[i].(order := i))
  }
  /** `memos.forEach((memo, index) => { memo.order = index; })` over a list. */
  method Renumber(s: seq<Memo>) returns (r: seq<Memo>)
    ensures r == Renumbered(s)
  {
    r := s;
    var i := 0;
    while i < |r|
      invariant 0 <= i <= |r| == |s|
      invariant forall k :: 0 <= k < i ==> r[k] == s[k].(order := k)
      invariant forall k :: i <= k < |r| ==> r[k] == s[k]
    {
      r := r[i := r[i].(order := i)];
      i := i + 1;
    }
  }


  /** The orders of `s`, in sequence order. */
  function Orders(s: seq<Memo>): seq<nat> {
    seq(|s|, i requires 0 <= i < |s| => s[i].order)
  }

  /** The sequence 0, 1, ..., n-1. */
  function Range(n: nat): seq<nat> {
    seq(n, i requires 0 <= i < n => i)
  }

  /** Renumbering settles the order invariant: the orders are exactly 0, ..., n-1, sorted. */
  lemma RenumberedOrders(s: seq<Memo>)
    ensures SortedByOrder(Renumbered(s))
    ensures Orders(Renumbered(s)) == Range(|s|)
    ensures multiset(Orders(Renumbered(s))) == multiset(Range(|s|))
  {
  }

  /** Renumbering ignores the orders it is given and keeps ids in place. */
  lemma RenumberedIds(s: seq<Memo>)
    ensures Ids(Renumbered(s)) == Ids(s)
    ensures UniqueIds(s) <==> UniqueIds(Renumbered(s))
  {
  }

  // ---------------------------------------------------------------------------
  // Splice-style move

  /** `s` without its element at index `i` (`s.splice(i, 1)` as a value). */
  function RemoveAt<T>(s: seq<T>, i: nat): (r: seq<T>)
    requires i < |s|
    ensures |r| == |s| - 1
  {
    s[..i] + s[i+1..]
  }

  lemma RemoveAtPermutes<T>(s: seq<T>, i: nat)
    requires i < |s|
    ensures multiset(RemoveAt(s, i)) + multiset{s[i]} == multiset(s)
  {
    assert s == s[..i] + [s[i]] + s[i+1..];
  }

  /** `s` with `x` inserted before index `i` (`s.splice(i, 0, x)` as a value). */
  function InsertAt<T>(s: seq<T>, i: nat, x: T): (r: seq<T>)
    requires i <= |s|
    ensures |r| == |s| + 1
    ensures r[i] == x
  {
    s[..i] + [x] + s[i..]
  }

  lemma InsertAtPermutes<T>(s: seq<T>, i: nat, x: T)
    requires i <= |s|
    ensures multiset(InsertAt(s, i, x)) == multiset(s) + multiset{x}
  {
    assert s == s[..i] + s[i..];
  }

  /**
   * `const [m] = s.splice(from, 1); s.splice(to, 0, m)`: the element at `from` ends up at `to`,
   * and taking it out again leaves every other element in its original relative order.
   */
  function Move<T>(s: seq<T>, from: nat, to: nat): (r: seq<T>)
    requires from < |s| && to < |s|
    ensures |r| == |s|
    ensures r[to] == s[from]
    ensures RemoveAt(r, to) == RemoveAt(s, from)
    ensures multiset(r) == multiset(s)
  {
    var r := InsertAt(RemoveAt(s, from), to, s[from]);
    assert RemoveAt(r, to) == RemoveAt(s, from);
    RemoveAtPermutes(s, from);
    InsertAtPermutes(RemoveAt(s, from), to, s[from]);
    r
  }

  /** Moving an element onto its own position is the identity. */
  lemma MoveToSelf<T>(s: seq<T>, i: nat)
    requires i < |s|
    ensures Move(s, i, i) == s
  {
    assert s == s[..i] + [s[i]] + s[i+1..];
  }

  /** Move followed by renumbering keeps the order invariant and the multiset of contents. */
  lemma MoveRenumberedKeepsContents(s: seq<Memo>, from: nat, to: nat)
    requires from < |s| && to < |s|
    ensures OrdersArePositions(Renumbered(Move(s, from, to)))
    ensures Renumbered(Move(s, from, to))[to].id == s[from].id
    ensures multiset(Ids(Renumbered(Move(s, from, to)))) == multiset(Ids(s))
  {
    var m := Move(s, from, to);
    IdsOfMove(s, from, to);
    RenumberedIds(m);
  }

  lemma RemoveAtIndex<T>(s: seq<T>, k: nat, i: nat)
    requires k < |s| && i < |s| - 1
    ensures RemoveAt(s, k)[i] == if i < k then s[i] else s[i + 1]
  {
  }

  lemma InsertAtIndex<T>(s: seq<T>, k: nat, x: T, i: nat)
    requires k <= |s| && i <= |s|
    ensures InsertAt(s, k, x)[i] == if i < k then s[i] else if i == k then x else s[i - 1]
  {
  }

  /** The position of `s` whose element the move puts at position `i`. */
  function MovedFrom(i: nat, from: nat, to: nat): nat {
    if i == to then from
    else
      var j := if i < to then i else i - 1;
      if j < from then j else j + 1
  }

  lemma MoveIndex<T>(s: seq<T>, from: nat, to: nat, i: nat)
    requires from < |s| && to < |s| && i < |s|
    ensures MovedFrom(i, from, to) < |s|
    ensures Move(s, from, to)[i] == s[MovedFrom(i, from, to)]
  {
    var rest := RemoveAt(s, from);
    InsertAtIndex(rest, to, s[from], i);
    if i != to {
      RemoveAtIndex(s, from, if i < to then i else i - 1);
    }
  }

  /** A move neither duplicates nor drops a memo, so unique ids stay unique. */
  lemma MoveKeepsUniqueIds(s: seq<Memo>, from: nat, to: nat)
    requires from < |s| && to < |s| && UniqueIds(s)
    ensures UniqueIds(Move(s, from, to))
  {
    var r := Move(s, from, to);
    forall i, j | 0 <= i < j < |r| ensures r[i].id != r[j].id {
      MoveIndex(s, from, to, i);
      MoveIndex(s, from, to, j);
    }
  }

  /** Removing a memo keeps the others' ids unique. */
  lemma RemoveAtKeepsUniqueIds(s: seq<Memo>, k: nat)
    requires k < |s| && UniqueIds(s)
    ensures UniqueIds(RemoveAt(s, k))
  {
    var r := RemoveAt(s, k);
    forall i, j | 0 <= i < j < |r| ensures r[i].id != r[j].id {
      RemoveAtIndex(s, k, i);
      RemoveAtIndex(s, k, j);
    }
  }

  /** A sort is a permutation, so it keeps ids unique. */
  lemma SortByOrderKeepsUniqueIds(s: seq<Memo>)
    requires UniqueIds(s)
    ensures UniqueIds(SortByOrder(s))
  {
    var r := SortByOrder(s);
    SortByOrderPermutes(s);
    forall i, j | 0 <= i < j < |r| ensures r[i].id != r[j].id {
      assert r[i] in multiset(s) && r[j] in multiset(s);
      var a :| 0 <= a < |s| && s[a] == r[i];
      var b :| 0 <= b < |s| && s[b] == r[j];
      if a == b {
        PermutationDistinct(s, r, i, j);
      }
    }
  }

  /** Two positions of a permutation of a list with unique ids hold different memos. */
  lemma PermutationDistinct(s: seq<Memo>, r: seq<Memo>, i: nat, j: nat)
    requires UniqueIds(s) && multiset(r) == multiset(s)
    requires i < j < |r|
    ensures r[i] != r[j]
  {
    if r[i] == r[j] {
      var x := r[i];
      assert multiset(r)[x] >= 2 by {
        assert r == r[..i] + [x] + r[i + 1..j] + [x] + r[j + 1..];
      }
      UniqueCount(s, x);
    }
  }

  /** In a list with unique ids, a memo occurs at most once. */
  lemma {:induction false} UniqueCount(s: seq<Memo>, x: Memo)
    requires UniqueIds(s)
    ensures multiset(s)[x] <= 1
    decreases |s|
  {
    if s != [] {
      UniqueIdsTail(s);
      UniqueCount(s[1..], x);
      assert s == [s[0]] + s[1..];
      if s[0] == x {
        assert x !in s[1..] by {
          forall k | 0 <= k < |s[1..]| ensures s[1..][k] != x {
            assert s[1..][k] == s[k + 1];
          }
        }
      }
    }
  }

  /**
   * After a move and renumbering, ids are still unique, the same ids are present,
   * and looking up the id at any position finds that position.
   */
  lemma MoveRenumberedLookup(s: seq<Memo>, from: nat, to: nat, sel: nat)
    requires UniqueIds(s) && from < |s| && to < |s| && sel < |s|
    ensures UniqueIds(Renumbered(Move(s, from, to)))
    ensures multiset(Ids(Renumbered(Move(s, from, to)))) == multiset(Ids(s))
    ensures IndexOfId(Renumbered(Move(s, from, to)), Renumbered(Move(s, from, to))[sel].id) == sel
  {
    MoveKeepsUniqueIds(s, from, to);
    MoveRenumberedKeepsContents(s, from, to);
    RenumberedIds(Move(s, from, to));
    IndexOfUniqueId(Renumbered(Move(s, from, to)), sel);
  }

  /** Taking ids commutes with the move. */
  lemma IdsOfMove(s: seq<Memo>, from: nat, to: nat)
    requires from < |s| && to < |s|
    ensures Ids(Move(s, from, to)) == Move(Ids(s), from, to)
  {
    var ids := Ids(s);
    var r := Ids(Move(s, from, to));
    var q := Move(ids, from, to);
    forall i | 0 <= i < |s| ensures r[i] == q[i] {
      InsertAtIndex(RemoveAt(s, from), to, s[from], i);
      InsertAtIndex(RemoveAt(ids, from), to, ids[from], i);
      if i < to {
        RemoveAtIndex(s, from, i);
        RemoveAtIndex(ids, from, i);
      } else if i > to {
        RemoveAtIndex(s, from, i - 1);
        RemoveAtIndex(ids, from, i - 1);
      }
    }
  }

  // ---------------------------------------------------------------------------
  // Removal by id, findIndex and the selection rule

  /** `memos.filter((memo) => memo.id !== id)`. */
  function WithoutId(s: seq<Memo>, id: string): (r: seq<Memo>)
    ensures |r| <= |s|
    ensures !HasId(s, id) ==> r == s
  {
    if s == [] then []
    else if s[0].id == id then WithoutId(s[1..], id)
    else [s[0]] + WithoutId(s[1..], id)
  }

  /** The filter keeps exactly the memos whose id differs, and no memo with the removed id. */
  lemma {:induction false} WithoutIdMembers(s: seq<Memo>, id: string)
    ensures forall m :: m in WithoutId(s, id) <==> m in s && m.id != id
  {
    if s != [] {
      WithoutIdMembers(s[1..], id);
      assert s == [s[0]] + s[1..];
    }
  }

  lemma UniqueIdsTail(s: seq<Memo>)
    requires s != [] && UniqueIds(s)
    ensures UniqueIds(s[1..])
  {
    var t := s[1..];
    forall i, j | 0 <= i < j < |t| ensures t[i].id != t[j].id {
      assert t[i] == s[i + 1] && t[j] == s[j + 1];
    }
  }

  /** With unique ids, removing a present id is removing its one position. */
  lemma {:induction false} WithoutIdIsRemoveAt(s: seq<Memo>, id: string, k: nat)
    requires UniqueIds(s)
    requires k < |s| && s[k].id == id
    ensures WithoutId(s, id) == RemoveAt(s, k)
  {
    var t := s[1..];
    UniqueIdsTail(s);
    if k == 0 {
      forall j | 0 <= j < |t| ensures t[j].id != id {
        assert t[j] == s[j + 1];
      }
      assert WithoutId(s, id) == t;
      assert RemoveAt(s, 0) == t;
    } else {
      assert s[0].id != s[k].id;
      WithoutIdIsRemoveAt(t, id, k - 1);
      assert WithoutId(s, id) == [s[0]] + RemoveAt(t, k - 1);
      assert t[..k-1] == s[1..k] && t[k..] == s[k+1..];
      assert s[..k] == [s[0]] + s[1..k];
      calc {
        [s[0]] + RemoveAt(t, k - 1);
        [s[0]] + (s[1..k] + s[k+1..]);
        ([s[0]] + s[1..k]) + s[k+1..];
        RemoveAt(s, k);
      }
    }
  }

  /** `memos.findIndex((m) => m.id === id)`: the first position holding `id`, or -1. */
  function IndexOfId(s: seq<Memo>, id: string): (r: int)
    ensures -1 <= r < |s|
    ensures r == -1 <==> !HasId(s, id)
    ensures r >= 0 ==> s[r].id == id && forall j :: 0 <= j < r ==> s[j].id != id
  {
    if s == [] then -1
    else if s[0].id == id then 0
    else
      var k := IndexOfId(s[1..], id);
      assert HasId(s[1..], id) ==> HasId(s, id) by {
        if HasId(s[1..], id) {
          var j :| 0 <= j < |s[1..]| && s[1..][j].id == id;
          assert s[j + 1].id == id;
        }
      }
      assert HasId(s, id) ==> HasId(s[1..], id) by {
        if HasId(s, id) {
          var j :| 0 <= j < |s| && s[j].id == id;
          assert j > 0 && s[1..][j - 1].id == id;
        }
      }
      if k == -1 then -1 else k + 1
  }

  /** With unique ids, the position of the memo at `k` is `k`. */
  lemma IndexOfUniqueId(s: seq<Memo>, k: nat)
    requires UniqueIds(s) && k < |s|
    ensures IndexOfId(s, s[k].id) == k
  {
  }

  /** `Math.max(0, deletedIndex - 1)`: the position selected once the memo at `deletedIndex` is gone. */
  function SelectionAfterDelete(deletedIndex: int): nat {
    if deletedIndex - 1 > 0 then deletedIndex - 1 else 0
  }

  /** `s[i]?.id`: the id at position `i`, if there is one. */
  function IdAt(s: seq<Memo>, i: int): Option<string> {
    if 0 <= i < |s| then Some(s[i].id) else None
  }
}
