/** The "recent searches" list of the search page: a most-recently-used list
    of at most five Riot IDs in which case-insensitive duplicates collapse to
    the newest spelling. */
module Recent {
  import opened Text

  /** The list keeps this many entries. */
  const MaxRecent := 5

  /** Two Riot IDs name the same entry when they agree after lowering. */
  predicate SameId(a: string, b: string) {
    Lower(a) == Lower(b)
  }

  /** The entries of s that do not name id, in their original order: the
      filter step of an update. */
  function WithoutId(s: seq<string>, id: string): (r: seq<string>)
    ensures |r| <= |s|
    ensures forall x :: x in r ==> x in s && !SameId(x, id)
    ensures forall x :: x in s && !SameId(x, id) ==> x in r
  {
    if s == [] then []
    else if SameId(s[0], id) then WithoutId(s[1..], id)
    else [s[0]] + WithoutId(s[1..], id)
  }

  /** The filter drops every occurrence of an entry naming id and keeps
      every other entry exactly as often as it occurs in s. */
  lemma {:induction false} WithoutIdCounts(s: seq<string>, id: string)
    ensures forall x :: multiset(WithoutId(s, id))[x] == if SameId(x, id) then 0 else multiset(s)[x]
  {
    if s != [] {
      WithoutIdCounts(s[1..], id);
      assert s == [s[0]] + s[1..];
    }
  }

  /** The list after id is searched for: every entry naming id is dropped,
      id goes to the front, and only the first MaxRecent entries are kept. */
  function Added(s: seq<string>, id: string): (r: seq<string>)
    ensures 1 <= |r| <= MaxRecent && r[0] == id
    ensures forall k :: 1 <= k < |r| ==> !SameId(r[k], id)
    ensures forall x :: x in r ==> x == id || x in s
    ensures r[1..] <= WithoutId(s, id)
    ensures |r| == if 1 + |WithoutId(s, id)| < MaxRecent then 1 + |WithoutId(s, id)| else MaxRecent
  {
    var front := [id] + WithoutId(s, id);
    if |front| > MaxRecent then front[..MaxRecent] else front
  }

  /** No two entries of s name the same Riot ID. */
  predicate DistinctIds(s: seq<string>) {
    forall i, j :: 0 <= i < j < |s| ==> !SameId(s[i], s[j])
  }

  /** a occurs in b with its order kept and possibly other elements between
      (matched greedily from the left). */
  predicate IsSubsequence(a: seq<string>, b: seq<string>)
    decreases |b|
  {
    a == [] || (b != [] && if a[0] == b[0] then IsSubsequence(a[1..], b[1..]) else IsSubsequence(a, b[1..]))
  }

  /** Filtering keeps the surviving entries in their original order. */
  lemma {:induction false} WithoutIdIsSubsequence(s: seq<string>, id: string)
    ensures IsSubsequence(WithoutId(s, id), s)
  {
    if s != [] {
      WithoutIdIsSubsequence(s[1..], id);
      var rest := WithoutId(s[1..], id);
      if SameId(s[0], id) && rest != [] {
        assert rest[0] in rest;
        assert rest[0] != s[0];
      }
    }
  }

  /** A prefix of a subsequence is a subsequence. */
  lemma {:induction false} PrefixOfSubsequence(p: seq<string>, a: seq<string>, b: seq<string>)
    requires p <= a && IsSubsequence(a, b)
    ensures IsSubsequence(p, b)
    decreases |b|
  {
    if p != [] {
      assert a != [] && b != [] && p[0] == a[0];
      if a[0] == b[0] {
        assert p[1..] <= a[1..];
        PrefixOfSubsequence(p[1..], a[1..], b[1..]);
      } else {
        PrefixOfSubsequence(p, a, b[1..]);
      }
    }
  }

  /** Old entries that survive an update keep their relative order. */
  lemma AddedKeepsOrder(s: seq<string>, id: string)
    ensures IsSubsequence(Added(s, id)[1..], s)
  {
    WithoutIdIsSubsequence(s, id);
    PrefixOfSubsequence(Added(s, id)[1..], WithoutId(s, id), s);
  }

  /** Filtering a list without duplicates leaves one without duplicates. */
  lemma {:induction false} WithoutIdDistinct(s: seq<string>, id: string)
    requires DistinctIds(s)
    ensures DistinctIds(WithoutId(s, id))
  {
    if s != [] {
      var tail := s[1..];
      assert DistinctIds(tail) by {
        forall i, j | 0 <= i < j < |tail| ensures !SameId(tail[i], tail[j]) {
          assert tail[i] == s[i + 1] && tail[j] == s[j + 1];
        }
      }
      WithoutIdDistinct(tail, id);
      var rest := WithoutId(tail, id);
      if !SameId(s[0], id) {
        var r := [s[0]] + rest;
        forall i, j | 0 <= i < j < |r| ensures !SameId(r[i], r[j]) {
          if i == 0 {
            assert r[j] == rest[j - 1] && rest[j - 1] in rest;
            var k :| 0 <= k < |tail| && tail[k] == r[j];
            assert s[k + 1] == r[j];
          } else {
            assert r[i] == rest[i - 1] && r[j] == rest[j - 1];
          }
        }
      }
    }
  }

  /** An update keeps the list free of case-insensitive duplicates. */
  lemma AddedDistinct(s: seq<string>, id: string)
    requires DistinctIds(s)
    ensures DistinctIds(Added(s, id))
  {
    WithoutIdDistinct(s, id);
    var w := WithoutId(s, id);
    var front := [id] + w;
    assert DistinctIds(front) by {
      forall i, j | 0 <= i < j < |front| ensures !SameId(front[i], front[j]) {
        assert front[j] == w[j - 1] && w[j - 1] in w;
        if i > 0 { assert front[i] == w[i - 1]; }
      }
    }
  }

  /** Filtering a list none of whose entries names id changes nothing. */
  lemma {:induction false} WithoutIdUnchanged(s: seq<string>, id: string)
    requires forall k :: 0 <= k < |s| ==> !SameId(s[k], id)
    ensures WithoutId(s, id) == s
  {
    if s != [] {
      WithoutIdUnchanged(s[1..], id);
      assert [s[0]] + s[1..] == s;
    }
  }

  /** Searching for the same ID twice in a row gives the list that searching
      once gives. */
  lemma AddedIdempotent(s: seq<string>, id: string)
    ensures Added(Added(s, id), id) == Added(s, id)
  {
    var r := Added(s, id);
    var tail := r[1..];
    assert forall k :: 0 <= k < |tail| ==> !SameId(tail[k], id) by {
      forall k | 0 <= k < |tail| ensures !SameId(tail[k], id) { assert tail[k] == r[k + 1]; }
    }
    WithoutIdUnchanged(tail, id);
    assert r == [id] + tail;
    assert WithoutId(r, id) == tail;
  }

  /** The list of recent searches, which the page keeps in browser storage. */
  class RecentSearches {
    var items: seq<string>

    /** What the update keeps true: bounded length and no case-insensitive
        duplicates. */
    ghost predicate Valid()
      reads this
    {
      |items| <= MaxRecent && DistinctIds(items)
    }

    /** Nothing stored yet: the page reads an empty list. */
    constructor ()
      ensures items == [] && Valid()
    {
      items := [];
    }

    /** A list read back from storage, as stored. */
    constructor Restore(stored: seq<string>)
      ensures items == stored
    {
      items := stored;
    }

    /** Records a search for id: read the list, drop the entries naming id,
        put id in front, keep the first MaxRecent, store the list. */
    method Add(id: string)
      modifies this
      ensures items == Added(old(items), id)
      ensures 1 <= |items| <= MaxRecent && items[0] == id
      ensures forall k :: 1 <= k < |items| ==> !SameId(items[k], id)
      ensures IsSubsequence(items[1..], old(items))
      ensures old(DistinctIds(items)) ==> Valid()
    {
      var recent := items;
      var kept: seq<string> := [];
      var i := 0;
      while i < |recent|
        invariant 0 <= i <= |recent|
        invariant kept == WithoutId(recent[..i], id)
      {
        WithoutIdSnoc(recent[..i], recent[i], id);
        assert recent[..i + 1] == recent[..i] + [recent[i]];
        if !SameId(recent[i], id) {
          kept := kept + [recent[i]];
        }
        i := i + 1;
      }
      assert recent[..i] == recent;
      recent := [id] + kept;
      if |recent| > MaxRecent {
        recent := recent[..MaxRecent];
      }
      items := recent;
      AddedKeepsOrder(old(items), id);
      if old(DistinctIds(items)) {
        AddedDistinct(old(items), id);
      }
    }
  }

  /** Filtering one more entry at the end either appends it or drops it. */
  lemma {:induction false} WithoutIdSnoc(s: seq<string>, x: string, id: string)
    ensures WithoutId(s + [x], id) == WithoutId(s, id) + (if SameId(x, id) then [] else [x])
  {
    var tail := if SameId(x, id) then [] else [x];
    if s == [] {
      assert s + [x] == [x] && [x][1..] == [];
    } else {
      var t := s + [x];
      assert t[0] == s[0] && t[1..] == s[1..] + [x];
      WithoutIdSnoc(s[1..], x, id);
      var w := WithoutId(s[1..], id);
      if SameId(s[0], id) {
        assert WithoutId(t, id) == w + tail;
      } else {
        assert WithoutId(t, id) == [s[0]] + (w + tail);
        assert [s[0]] + (w + tail) == ([s[0]] + w) + tail;
      }
    }
  }
}
