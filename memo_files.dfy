/**
 * The memos directory as both storage revisions read and write it: one Markdown
 * file `${id}.md` per memo, a directory being a map from file name to content and
 * its listing order (`readdir`, or the directory handle's async iteration) a
 * sequence of names given by the caller.
 */
module MemoFiles {
  import opened Wrappers
  import opened MemoTypes
  import opened FrontMatter
  import opened Ordering

  /** `name.endsWith('.md')`. */
  predicate IsMarkdownName(name: string) {
    |name| >= 3 && name[|name| - 3..] == ".md"
  }

  /** `${id}.md`: the file that holds the memo with that id. */
  function FileName(id: string): (r: string)
    ensures IsMarkdownName(r)
    ensures |r| == |id| + 3 && r[..|id|] == id
  {
    id + ".md"
  }

  /** Different ids are kept in different files. */
  lemma FileNameInjective(a: string, b: string)
    ensures FileName(a) == FileName(b) <==> a == b
  {
    if FileName(a) == FileName(b) {
      assert a == FileName(a)[..|a|] && b == FileName(b)[..|b|];
    }
  }

  /** `listing` names every file of `files` exactly once, as a directory listing does. */
  predicate Lists(listing: seq<string>, files: map<string, string>) {
    && (forall i :: 0 <= i < |listing| ==> listing[i] in files)
    && (forall n :: n in files ==> n in listing)
    && (forall i, j :: 0 <= i < j < |listing| ==> listing[i] != listing[j])
  }

  /** What `parseMarkdownFile` makes of each listed file; a file that is not Markdown gives nothing. */
  function Parsed(names: seq<string>, files: map<string, string>): seq<Option<Memo>>
    requires forall i :: 0 <= i < |names| ==> names[i] in files
  {
    seq(|names|, i requires 0 <= i < |names| =>
      if IsMarkdownName(names[i]) then Decode(files[names[i]]) else None)
  }

  /** Entry `i` of `Parsed` is the parse of the i-th listed file. */
  lemma ParsedAt(names: seq<string>, files: map<string, string>, i: nat)
    requires forall j :: 0 <= j < |names| ==> names[j] in files
    requires i < |names|
    ensures |Parsed(names, files)| == |names|
    ensures Parsed(names, files)[i] == if IsMarkdownName(names[i]) then Decode(files[names[i]]) else None
  {
  }

  /** The values present in `s`, in order: `if (memo) memos.push(memo)`. */
  function Present<T>(s: seq<Option<T>>): (r: seq<T>)
    ensures |r| <= |s|
    decreases |s|
  {
    if s == [] then []
    else if s[|s| - 1].Some? then Present(s[..|s| - 1]) + [s[|s| - 1].value]
    else Present(s[..|s| - 1])
  }

  /** `Present` keeps exactly the values that occur in `s`. */
  lemma {:induction false} PresentMembers<T>(s: seq<Option<T>>, x: T)
    ensures x in Present(s) <==> exists i :: 0 <= i < |s| && s[i] == Some(x)
    decreases |s|
  {
    if s != [] {
      var init := s[..|s| - 1];
      PresentMembers(init, x);
      if x in Present(s) && x !in Present(init) {
        assert s[|s| - 1] == Some(x);
      }
      if exists i :: 0 <= i < |s| && s[i] == Some(x) {
        var i :| 0 <= i < |s| && s[i] == Some(x);
        if i < |init| {
          assert init[i] == s[i];
        }
      }
    }
  }

  /** The result of `loadMemosFromDirectory` over the directory listed by `listing`. */
  function Loaded(listing: seq<string>, files: map<string, string>): seq<Memo>
    requires forall i :: 0 <= i < |listing| ==> listing[i] in files
  {
    SortByOrder(Present(Parsed(listing, files)))
  }

  /** File `name` of `files` is a Markdown file that parses to `m`. */
  predicate HoldsMemo(name: string, files: map<string, string>, m: Memo)
    requires name in files
  {
    IsMarkdownName(name) && Decode(files[name]) == Some(m)
  }

  /**
   * What a load yields: the memos the Markdown files parse to, one per such file
   * (`Present(Parsed(..))` as a multiset), sorted by order; a memo is loaded exactly
   * when some Markdown file of the directory parses to it.
   */
  lemma LoadedMemos(listing: seq<string>, files: map<string, string>, m: Memo)
    requires Lists(listing, files)
    ensures SortedByOrder(Loaded(listing, files))
    ensures multiset(Loaded(listing, files)) == multiset(Present(Parsed(listing, files)))
    ensures m in Loaded(listing, files) <==> exists name :: name in files && HoldsMemo(name, files, m)
  {
    var parsed := Parsed(listing, files);
    var read := Present(parsed);
    SortByOrderPermutes(read);
    assert m in SortByOrder(read) <==> m in read by {
      assert m in SortByOrder(read) <==> m in multiset(SortByOrder(read));
    }
    PresentMembers(parsed, m);
    if exists name :: name in files && HoldsMemo(name, files, m) {
      var name :| name in files && HoldsMemo(name, files, m);
      var i :| 0 <= i < |listing| && listing[i] == name;
      assert parsed[i] == Some(m);
    }
    if m in read {
      var i :| 0 <= i < |parsed| && parsed[i] == Some(m);
      assert HoldsMemo(listing[i], files, m);
    }
  }

  /** Files of equal order come out in listing order. */
  lemma LoadedStable(listing: seq<string>, files: map<string, string>, k: nat)
    requires Lists(listing, files)
    ensures HavingOrder(Loaded(listing, files), k) == HavingOrder(Present(Parsed(listing, files)), k)
  {
    SortByOrderStable(Present(Parsed(listing, files)), k);
  }

  /** The map after writing each `(key, value)` of `ws`, one after the other. */
  function Overwritten<K, V>(m: map<K, V>, ws: seq<(K, V)>): map<K, V>
    decreases |ws|
  {
    if ws == [] then m else Overwritten(m, ws[..|ws| - 1])[ws[|ws| - 1].0 := ws[|ws| - 1].1]
  }

  /** A key no write touches keeps its state (present with its value, or absent). */
  lemma {:induction false} OverwrittenOther<K, V>(m: map<K, V>, ws: seq<(K, V)>, k: K)
    requires forall i :: 0 <= i < |ws| ==> ws[i].0 != k
    ensures k in Overwritten(m, ws) <==> k in m
    ensures k in m ==> Overwritten(m, ws)[k] == m[k]
    decreases |ws|
  {
    if ws != [] {
      OverwrittenOther(m, ws[..|ws| - 1], k);
    }
  }

  /** A written key holds the value of its last write. */
  lemma {:induction false} OverwrittenLast<K, V>(m: map<K, V>, ws: seq<(K, V)>, i: nat)
    requires i < |ws|
    requires forall j :: i < j < |ws| ==> ws[j].0 != ws[i].0
    ensures ws[i].0 in Overwritten(m, ws) && Overwritten(m, ws)[ws[i].0] == ws[i].1
    decreases |ws|
  {
    var init := ws[..|ws| - 1];
    if i < |ws| - 1 {
      assert init[i] == ws[i];
      assert forall j :: i < j < |init| ==> init[j].0 != init[i].0 by {
        forall j | i < j < |init| ensures init[j].0 != init[i].0 {
          assert init[j] == ws[j];
        }
      }
      OverwrittenLast(m, init, i);
    }
  }
}
