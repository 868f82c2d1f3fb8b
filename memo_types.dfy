/**
 * The memo record shared by every revision of the application, and the legacy shape
 * (a record whose `order` may be missing) that older stores and JSON blobs produce.
 * Timestamps are milliseconds since the epoch; they and `order` are natural numbers.
 */
module MemoTypes {
  import opened Wrappers

  datatype Memo = Memo(
    id: string,
    title: string,
    body: string,
    createdAt: nat,
    updatedAt: nat,
    order: nat)

  /** A memo as a legacy store hands it back: `order` is `None` where the field is undefined. */
  datatype LegacyMemo = LegacyMemo(
    id: string,
    title: string,
    body: string,
    createdAt: nat,
    updatedAt: nat,
    order: Option<nat>)

  /** A well-typed memo seen through the legacy shape (its order is present). */
  function Lift(m: Memo): LegacyMemo {
    LegacyMemo(m.id, m.title, m.body, m.createdAt, m.updatedAt, Some(m.order))
  }

  function LiftAll(s: seq<Memo>): seq<LegacyMemo> {
    seq(|s|, i requires 0 <= i < |s| => Lift(s[i]))
  }

  /** A legacy memo whose order is missing takes `fallback`; every other field is kept. */
  function WithOrder(m: LegacyMemo, fallback: nat): Memo {
    Memo(m.id, m.title, m.body, m.createdAt, m.updatedAt, m.order.GetOr(fallback))
  }

  /** Two memos agree on everything except possibly `order`. */
  predicate SameExceptOrder(a: Memo, b: Memo) {
    a.id == b.id && a.title == b.title && a.body == b.body
    && a.createdAt == b.createdAt && a.updatedAt == b.updatedAt
  }

  /** No two memos of `s` share an id. */
  predicate UniqueIds(s: seq<Memo>) {
    forall i, j :: 0 <= i < j < |s| ==> s[i].id != s[j].id
  }

  /** Some memo of `s` has the id `id`. */
  predicate HasId(s: seq<Memo>, id: string) {
    exists i :: 0 <= i < |s| && s[i].id == id
  }

  function Ids(s: seq<Memo>): seq<string> {
    seq(|s|, i requires 0 <= i < |s| => s[i].id)
  }
}
