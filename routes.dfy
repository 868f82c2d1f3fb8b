/**
 * backend/src/routes/memos.ts: the REST handlers of the server. Each handler is a
 * method on the server's memos directory that answers with a status code and a
 * payload; a save that rejects is caught and answered with 500. The request's JSON
 * body is already decoded into parameters, and `crypto.randomUUID` and `Date.now`
 * are parameters too.
 */
module MemoRoutes {
  import opened Wrappers
  import opened MemoTypes
  import opened FrontMatter
  import opened Ordering
  import opened MemoFiles
  import opened BackendStorage

  /** The JSON a handler answers with. */
  datatype Payload =
    | MemoList(memos: seq<Memo>)
    | OneMemo(memo: Memo)
    | Deleted
    | Failure(message: string)

  datatype Response = Response(status: nat, payload: Payload)

  const NotFound := "メモが見つかりません"
  const CreateFailed := "メモの作成に失敗しました"
  const UpdateFailed := "メモの更新に失敗しました"
  const ReorderFailed := "メモの並び替えに失敗しました"
  /** The title POST gives a memo whose input title is empty. */
  const DefaultTitle := "新規メモ"

  /** `memos.find((m) => m.id === id)`: the first memo with that id. */
  function FindById(s: seq<Memo>, id: string): (r: Option<Memo>)
    ensures r.Some? <==> HasId(s, id)
    ensures r.Some? ==> r.value in s && r.value.id == id
    ensures r.Some? ==> exists k :: 0 <= k < |s| && s[k] == r.value && forall j :: 0 <= j < k ==> s[j].id != id
  {
    var k := IndexOfId(s, id);
    if k < 0 then None else Some(s[k])
  }

  /** With unique ids, the memo found for an id is the one memo holding it. */
  lemma FindUnique(s: seq<Memo>, k: nat)
    requires UniqueIds(s) && k < |s|
    ensures FindById(s, s[k].id) == Some(s[k])
  {
    IndexOfUniqueId(s, k);
  }

  /** The map step of PUT /reorder: each listed id's memo numbered by its place in the list. */
  function Numbered(memos: seq<Memo>, orderedIds: seq<string>): seq<Option<Memo>> {
    seq(|orderedIds|, i requires 0 <= i < |orderedIds| =>
      match FindById(memos, orderedIds[i]) { case Some(m) => Some(m.(order := i)) case None => None })
  }

  /** PUT /reorder's `orderedMemos`: the map step, then the unknown ids filtered out. */
  function Reordered(memos: seq<Memo>, orderedIds: seq<string>): seq<Memo> {
    Present(Numbered(memos, orderedIds))
  }

  /**
   * Each reordered memo is a stored memo whose id is listed, with everything but its
   * order kept and the order its place in the list; every listed known id is there.
   */
  lemma ReorderedMembers(memos: seq<Memo>, orderedIds: seq<string>, m: Memo)
    ensures m in Reordered(memos, orderedIds) <==>
      exists i :: 0 <= i < |orderedIds| && HasId(memos, orderedIds[i]) &&
        m == FindById(memos, orderedIds[i]).value.(order := i)
  {
    var n := Numbered(memos, orderedIds);
    PresentMembers(n, m);
    if m in Reordered(memos, orderedIds) {
      var i :| 0 <= i < |n| && n[i] == Some(m);
      assert HasId(memos, orderedIds[i]);
    }
    if exists i :: 0 <= i < |orderedIds| && HasId(memos, orderedIds[i]) &&
        m == FindById(memos, orderedIds[i]).value.(order := i) {
      var i :| 0 <= i < |orderedIds| && HasId(memos, orderedIds[i]) &&
        m == FindById(memos, orderedIds[i]).value.(order := i);
      assert n[i] == Some(m);
    }
  }

  /**
   * The orders given are the list positions of the known ids: strictly increasing
   * and below the list's length, with gaps where unknown ids were dropped.
   */
  lemma {:induction false} ReorderedOrders(memos: seq<Memo>, orderedIds: seq<string>)
    ensures var r := Reordered(memos, orderedIds);
      && (forall j :: 0 <= j < |r| ==> r[j].order < |orderedIds|)
      && (forall j, k :: 0 <= j < k < |r| ==> r[j].order < r[k].order)
    decreases |orderedIds|
  {
    if orderedIds != [] {
      var last := |orderedIds| - 1;
      var init := orderedIds[..last];
      ReorderedOrders(memos, init);
      var n := Numbered(memos, orderedIds);
      assert n[..last] == Numbered(memos, init);
      var rest := Reordered(memos, init);
      var r := Reordered(memos, orderedIds);
      if n[last].Some? {
        assert r == rest + [n[last].value];
        assert n[last].value.order == last;
        forall j | 0 <= j < |rest| ensures r[j].order < last {
          assert r[j] == rest[j];
        }
      } else {
        assert r == rest;
      }
    }
  }

  /** The files after saving the memos of `ms` one after the other. */
  function Saved(files: map<string, string>, ms: seq<Memo>): map<string, string> {
    Overwritten(files, seq(|ms|, i requires 0 <= i < |ms| => (FileName(ms[i].id), Encode(ms[i]))))
  }

  /** Saving one more memo writes its file over the files saved so far. */
  lemma SavedStep(files: map<string, string>, ms: seq<Memo>, i: nat)
    requires i < |ms|
    ensures Saved(files, ms[..i + 1]) == Saved(files, ms[..i])[FileName(ms[i].id) := Encode(ms[i])]
  {
    var ws := seq(|ms[..i + 1]|, j requires 0 <= j < |ms[..i + 1]| => (FileName(ms[..i + 1][j].id), Encode(ms[..i + 1][j])));
    assert ws[..i] == seq(|ms[..i]|, j requires 0 <= j < |ms[..i]| => (FileName(ms[..i][j].id), Encode(ms[..i][j])));
  }

  /** A memo whose id is not listed keeps its file as it was: PUT /reorder does not rewrite it. */
  lemma ReorderLeavesUnlisted(files: map<string, string>, memos: seq<Memo>, orderedIds: seq<string>, id: string)
    requires id !in orderedIds
    ensures var after := Saved(files, Reordered(memos, orderedIds));
      && (FileName(id) in after <==> FileName(id) in files)
      && (FileName(id) in files ==> after[FileName(id)] == files[FileName(id)])
  {
    var r := Reordered(memos, orderedIds);
    var ws := seq(|r|, i requires 0 <= i < |r| => (FileName(r[i].id), Encode(r[i])));
    forall i | 0 <= i < |ws| ensures ws[i].0 != FileName(id) {
      ReorderedMembers(memos, orderedIds, r[i]);
      FileNameInjective(r[i].id, id);
    }
    OverwrittenOther(files, ws, FileName(id));
  }

  /** The server's routes over its memos directory. */
  class MemoServer {
    const dir: MemoDirectory

    ghost predicate Valid()
      reads this, dir
    {
      dir.Valid()
    }

    constructor (dir: MemoDirectory)
      requires dir.Valid()
      ensures Valid() && this.dir == dir
    {
      this.dir := dir;
    }

    /** GET /: every stored memo, as a load returns them. */
    method GetAll(listing: seq<string>) returns (resp: Response)
      requires Valid() && Lists(listing, dir.files)
      modifies dir`present
      ensures Valid() && dir.files == old(dir.files)
      ensures resp == Response(200, MemoList(Loaded(listing, dir.files)))
    {
      var memos := dir.LoadAll(listing);
      resp := Response(200, MemoList(memos));
    }

    /** GET /:id: the first loaded memo with that id, or 404. */
    method GetOne(listing: seq<string>, id: string) returns (resp: Response)
      requires Valid() && Lists(listing, dir.files)
      modifies dir`present
      ensures Valid() && dir.files == old(dir.files)
      ensures var memos := Loaded(listing, dir.files);
        if HasId(memos, id) then resp == Response(200, OneMemo(FindById(memos, id).value))
        else resp == Response(404, Failure(NotFound))
      ensures resp.status == 200 ==>
        resp.payload.OneMemo? && resp.payload.memo.id == id &&
        exists name :: name in dir.files && HoldsMemo(name, dir.files, resp.payload.memo)
    {
      var memos := dir.LoadAll(listing);
      var memo := FindById(memos, id);
      if memo.None? {
        return Response(404, Failure(NotFound));
      }
      LoadedMemos(listing, dir.files, memo.value);
      resp := Response(200, OneMemo(memo.value));
    }

    /**
     * POST /: a new memo with the drawn id and clock reading, the title defaulted when
     * empty, and the next order, saved and answered with 201; 500 when the save fails.
     */
    method Create(listing: seq<string>, title: string, body: string, id: string, now: nat) returns (resp: Response)
      requires Valid() && Lists(listing, dir.files)
      modifies dir`present, dir`files
      ensures Valid()
      ensures var m := Memo(id, if title == "" then DefaultTitle else title, body, now, now,
                            |Loaded(listing, old(dir.files))|);
        if dir.writable then resp == Response(201, OneMemo(m)) && dir.files == old(dir.files)[FileName(id) := Encode(m)]
        else resp == Response(500, Failure(CreateFailed)) && dir.files == old(dir.files)
    {
      var memos := dir.LoadAll(listing);
      var newMemo := Memo(id, if title == "" then DefaultTitle else title, body, now, now, |memos|);
      var ok := dir.Save(newMemo);
      if !ok {
        return Response(500, Failure(CreateFailed));
      }
      resp := Response(201, OneMemo(newMemo));
    }

    /**
     * PUT /:id: 404 and no change for an unknown id; otherwise the memo takes the given
     * title and body (a field left out keeps its value) and the clock reading, keeps
     * its id, creation time and order, and is saved; 500 when the save fails.
     */
    method Update(listing: seq<string>, id: string, title: Option<string>, body: Option<string>, now: nat)
      returns (resp: Response)
      requires Valid() && Lists(listing, dir.files)
      modifies dir`present, dir`files
      ensures Valid()
      ensures var memos := Loaded(listing, old(dir.files));
        if !HasId(memos, id) then
          resp == Response(404, Failure(NotFound)) && dir.files == old(dir.files)
        else
          var found := FindById(memos, id).value;
          var m := Memo(id, title.GetOr(found.title), body.GetOr(found.body), found.createdAt, now, found.order);
          if dir.writable then resp == Response(200, OneMemo(m)) && dir.files == old(dir.files)[FileName(id) := Encode(m)]
          else resp == Response(500, Failure(UpdateFailed)) && dir.files == old(dir.files)
    {
      var memos := dir.LoadAll(listing);
      var memo := FindById(memos, id);
      if memo.None? {
        return Response(404, Failure(NotFound));
      }
      var updatedMemo := memo.value.(
        title := if title.Some? then title.value else memo.value.title,
        body := if body.Some? then body.value else memo.value.body,
        updatedAt := now);
      var ok := dir.Save(updatedMemo);
      if !ok {
        return Response(500, Failure(UpdateFailed));
      }
      resp := Response(200, OneMemo(updatedMemo));
    }

    /**
     * DELETE /:id: 404 and no change for an id no loaded memo has; otherwise the file
     * `${id}.md` is removed, and no other.
     */
    method Delete(listing: seq<string>, id: string) returns (resp: Response)
      requires Valid() && Lists(listing, dir.files)
      modifies dir`present, dir`files
      ensures Valid()
      ensures if HasId(Loaded(listing, old(dir.files)), id) then
          resp == Response(200, Deleted) && dir.files == old(dir.files) - {FileName(id)}
        else
          resp == Response(404, Failure(NotFound)) && dir.files == old(dir.files)
    {
      var memos := dir.LoadAll(listing);
      var memo := FindById(memos, id);
      if memo.None? {
        return Response(404, Failure(NotFound));
      }
      dir.Delete(id);
      resp := Response(200, Deleted);
    }

    /**
     * PUT /reorder: each listed id's memo is saved with its place in the list as its
     * order, in list order, and the saved memos are the answer. As writability does
     * not change, either every save succeeds or the first fails and nothing is saved.
     */
    method Reorder(listing: seq<string>, orderedIds: seq<string>) returns (resp: Response)
      requires Valid() && Lists(listing, dir.files)
      modifies dir`present, dir`files
      ensures Valid()
      ensures var ordered := Reordered(Loaded(listing, old(dir.files)), orderedIds);
        if dir.writable || ordered == [] then
          resp == Response(200, MemoList(ordered)) && dir.files == Saved(old(dir.files), ordered)
        else
          resp == Response(500, Failure(ReorderFailed)) && dir.files == old(dir.files)
    {
      var memos := dir.LoadAll(listing);
      var orderedMemos := Reordered(memos, orderedIds);
      var i := 0;
      while i < |orderedMemos|
        invariant 0 <= i <= |orderedMemos|
        invariant Valid()
        invariant dir.files == Saved(old(dir.files), orderedMemos[..i])
        invariant !dir.writable ==> i == 0
      {
        SavedStep(old(dir.files), orderedMemos, i);
        var ok := dir.Save(orderedMemos[i]);
        if !ok {
          assert orderedMemos[..0] == [];
          return Response(500, Failure(ReorderFailed));
        }
        i := i + 1;
      }
      assert orderedMemos[..|orderedMemos|] == orderedMemos;
      resp := Response(200, MemoList(orderedMemos));
    }
  }
}
