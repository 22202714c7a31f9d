/**
 * The list shown to the user (`render`, script.js:216-231): the notes that
 * pass the pinned, tag and search filters (`matchesSearch`,
 * script.js:206-214), ordered by a stable sort that puts pinned notes first
 * and then orders by update time, newest or oldest first.
 */
module Query {
  import opened Seqs
  import opened Text
  import opened Notes

  /** The filter and sort settings kept in `state` (script.js:6-11). */
  datatype View = View(search: string, tag: string, sortRecent: bool, pinnedOnly: bool)

  /** The tag filter value that lets every note through. */
  const AnyTag: string := "*"

  /**
   * `matchesSearch`: `q` (already lower-cased when it was stored) is empty
   * or occurs in the lower-cased title, content or one of the tags.
   */
  predicate MatchesSearch(n: Note, q: string) {
    || q == []
    || Contains(Lower(n.title), q)
    || Contains(Lower(n.content), q)
    || exists k :: 0 <= k < |n.tags| && Contains(Lower(n.tags[k]), q)
  }

  /** The predicate of the `notes.filter` call in `render`. */
  predicate Visible(n: Note, v: View) {
    && (!v.pinnedOnly || n.pinned)
    && (v.tag == AnyTag || v.tag in n.tags)
    && MatchesSearch(n, v.search)
  }

  /**
   * The filtered list: exactly the visible notes, in storage order. Storage
   * itself is a value here, so it is never reordered.
   */
  function FilterVisible(notes: seq<Note>, v: View): (r: seq<Note>)
    ensures IsSubseq(r, notes)
    ensures forall n :: n in r <==> n in notes && Visible(n, v)
  {
    var p := (n: Note) => Visible(n, v);
    FilterIsSubseq(notes, p);
    FilterMembers(notes, p);
    Filter(notes, p)
  }

  /** Every copy of a visible note is kept, and no copy of another. */
  lemma FilterVisibleCount(notes: seq<Note>, v: View)
    ensures forall n :: multiset(FilterVisible(notes, v))[n] ==
                        if Visible(n, v) then multiset(notes)[n] else 0
  {
    FilterCount(notes, (n: Note) => Visible(n, v));
  }

  /**
   * The sort comparator returns a negative number exactly when `a` must come
   * before `b`: `a` is pinned and `b` is not, or both agree on pinning and
   * `a` is newer (when sorting by most recent) or older (otherwise).
   */
  predicate Precedes(a: Note, b: Note, recent: bool) {
    if a.pinned != b.pinned then a.pinned
    else if recent then a.updated > b.updated
    else a.updated < b.updated
  }

  /** The sort key: notes with equal keys compare as equal. */
  function Key(n: Note): (bool, int) { (n.pinned, n.updated) }

  lemma PrecedesDistinguishesKeys(a: Note, b: Note, recent: bool)
    ensures Key(a) == Key(b) <==> !Precedes(a, b, recent) && !Precedes(b, a, recent)
  {
  }

  ghost predicate Sorted(s: seq<Note>, recent: bool) {
    forall i, j :: 0 <= i < j < |s| ==> !Precedes(s[j], s[i], recent)
  }

  /** Place `x` after the notes that precede it and before all others. */
  function Insert(x: Note, s: seq<Note>, recent: bool): (r: seq<Note>)
    ensures multiset(r) == multiset(s) + multiset{x}
    ensures |r| == |s| + 1
  {
    if s == [] then [x]
    else if Precedes(s[0], x, recent) then
      assert s == [s[0]] + s[1..];
      [s[0]] + Insert(x, s[1..], recent)
    else
      [x] + s
  }

  lemma {:induction false} InsertSorted(x: Note, s: seq<Note>, recent: bool)
    requires Sorted(s, recent)
    ensures Sorted(Insert(x, s, recent), recent)
  {
    if s == [] {
      assert Insert(x, s, recent) == [x];
    } else if Precedes(s[0], x, recent) {
      var rest := Insert(x, s[1..], recent);
      InsertSorted(x, s[1..], recent);
      forall k | 0 <= k < |rest| ensures !Precedes(rest[k], s[0], recent) {
        InsertElements(x, s[1..], recent, k);
        if rest[k] != x {
          var j :| 0 <= j < |s[1..]| && s[1..][j] == rest[k];
          assert s[j + 1] == rest[k];
        }
      }
      SortedCons(s[0], rest, recent);
      assert Insert(x, s, recent) == [s[0]] + rest;
    } else {
      forall j | 0 <= j < |s| ensures !Precedes(s[j], x, recent) {
        assert !Precedes(s[j], s[0], recent);
      }
      SortedCons(x, s, recent);
      assert Insert(x, s, recent) == [x] + s;
    }
  }

  /** Every entry of an insertion is the inserted note or an entry of the list. */
  lemma InsertElements(x: Note, s: seq<Note>, recent: bool, k: nat)
    requires k < |Insert(x, s, recent)|
    ensures Insert(x, s, recent)[k] == x || Insert(x, s, recent)[k] in s
  {
    var r := Insert(x, s, recent);
    assert r[k] in multiset(r);
  }

  /** A note that no entry of a sorted list precedes can go in front of it. */
  lemma SortedCons(a: Note, s: seq<Note>, recent: bool)
    requires Sorted(s, recent)
    requires forall k :: 0 <= k < |s| ==> !Precedes(s[k], a, recent)
    ensures Sorted([a] + s, recent)
  {
    var r := [a] + s;
    forall i, j | 0 <= i < j < |r| ensures !Precedes(r[j], r[i], recent) {
      assert r[j] == s[j - 1];
      if i > 0 {
        assert r[i] == s[i - 1];
      }
    }
  }

  /**
   * `list.sort(comparator)`. ECMAScript requires the sort to be stable, which
   * the insertion of each element before its equals in the sorted rest gives.
   */
  function SortNotes(s: seq<Note>, recent: bool): (r: seq<Note>)
    ensures multiset(r) == multiset(s)
    ensures |r| == |s|
    ensures Sorted(r, recent)
  {
    if s == [] then []
    else
      assert s == [s[0]] + s[1..];
      InsertSorted(s[0], SortNotes(s[1..], recent), recent);
      Insert(s[0], SortNotes(s[1..], recent), recent)
  }

  /** The notes of `s` whose sort key is `k`, in their order in `s`. */
  function WithKey(s: seq<Note>, k: (bool, int)): seq<Note> {
    if s == [] then [] else (if Key(s[0]) == k then [s[0]] else []) + WithKey(s[1..], k)
  }

  lemma WithKeyCons(a: Note, s: seq<Note>, k: (bool, int))
    ensures WithKey([a] + s, k) == (if Key(a) == k then [a] else []) + WithKey(s, k)
  {
    assert ([a] + s)[0] == a && ([a] + s)[1..] == s;
  }

  lemma {:induction false} InsertWithKey(x: Note, s: seq<Note>, recent: bool, k: (bool, int))
    ensures WithKey(Insert(x, s, recent), k) == (if Key(x) == k then [x] else []) + WithKey(s, k)
  {
    if s == [] {
      assert Insert(x, s, recent) == [x] + [];
      WithKeyCons(x, [], k);
    } else if Precedes(s[0], x, recent) {
      var rest := Insert(x, s[1..], recent);
      var here := if Key(x) == k then [x] else [];
      var first := if Key(s[0]) == k then [s[0]] else [];
      var w := WithKey(s[1..], k);
      assert Insert(x, s, recent) == [s[0]] + rest;
      assert WithKey([s[0]] + rest, k) == first + (here + w) by {
        InsertWithKey(x, s[1..], recent, k);
        WithKeyCons(s[0], rest, k);
      }
      assert WithKey(s, k) == first + w by {
        WithKeyCons(s[0], s[1..], k);
        assert s == [s[0]] + s[1..];
      }
      assert first == [] || here == [] by {
        PrecedesDistinguishesKeys(s[0], x, recent);
      }
      SwapEmpty(first, here, w);
    } else {
      assert Insert(x, s, recent) == [x] + s;
      WithKeyCons(x, s, k);
    }
  }

  /** Two sequences of which one is empty commute in front of a third. */
  lemma SwapEmpty(a: seq<Note>, b: seq<Note>, c: seq<Note>)
    requires a == [] || b == []
    ensures a + (b + c) == b + (a + c)
  {
    if a == [] {
      assert a + (b + c) == b + c == b + (a + c);
    } else {
      assert a + (b + c) == a + c == b + (a + c);
    }
  }

  /** Stability: notes with equal keys keep their relative order. */
  lemma {:induction false} SortStable(s: seq<Note>, recent: bool, k: (bool, int))
    ensures WithKey(SortNotes(s, recent), k) == WithKey(s, k)
  {
    if s != [] {
      SortStable(s[1..], recent, k);
      InsertWithKey(s[0], SortNotes(s[1..], recent), recent, k);
    }
  }

  /** Sortedness spelled out: pinned first, then by update time. */
  lemma SortedOrder(s: seq<Note>, recent: bool)
    requires Sorted(s, recent)
    ensures forall i, j :: 0 <= i < j < |s| ==> s[i].pinned || !s[j].pinned
    ensures forall i, j :: 0 <= i < j < |s| && s[i].pinned == s[j].pinned ==>
      if recent then s[i].updated >= s[j].updated else s[i].updated <= s[j].updated
  {
  }

  /** The list `render` displays. */
  function VisibleNotes(notes: seq<Note>, v: View): seq<Note> {
    SortNotes(FilterVisible(notes, v), v.sortRecent)
  }

  /**
   * What is displayed: the visible notes, each as often as stored and
   * nothing else; pinned ones first; update times monotonic within each
   * group; equal keys in storage order.
   */
  lemma VisibleNotesSpec(notes: seq<Note>, v: View)
    ensures var r := VisibleNotes(notes, v);
      && (forall n :: multiset(r)[n] == if Visible(n, v) then multiset(notes)[n] else 0)
      && (forall i, j :: 0 <= i < j < |r| ==> r[i].pinned || !r[j].pinned)
      && (forall i, j :: 0 <= i < j < |r| && r[i].pinned == r[j].pinned ==>
            if v.sortRecent then r[i].updated >= r[j].updated else r[i].updated <= r[j].updated)
      && (forall k :: WithKey(r, k) == WithKey(FilterVisible(notes, v), k))
  {
    var f := FilterVisible(notes, v);
    var r := VisibleNotes(notes, v);
    FilterVisibleCount(notes, v);
    SortedOrder(r, v.sortRecent);
    forall k ensures WithKey(r, k) == WithKey(f, k) {
      SortStable(f, v.sortRecent, k);
    }
  }

  /**
   * The query is stored lower-cased, so a note matches when some stretch of
   * its title equals the typed text up to the letter case of both.
   */
  lemma SearchIgnoresCase(n: Note, typed: string)
    requires ContainsIgnoringCase(n.title, typed)
    ensures MatchesSearch(n, Lower(typed))
  {
    var i :| 0 <= i <= |n.title| && Lower(typed) <= Lower(n.title[i..]);
    assert Lower(n.title)[i..] == Lower(n.title[i..]);
  }

  /** "HELLO" typed into the search box finds the title "Hello", which does not contain it verbatim. */
  lemma SearchIgnoresCaseExample()
    ensures !Contains("Hello", "HELLO")
    ensures MatchesSearch(Note("a", "Hello", "", [], false, 0, 0), Lower("HELLO"))
  {
    var title: string := "Hello";
    var typed: string := "HELLO";
    forall i | 0 <= i <= |title| ensures !(typed <= title[i..]) {
      if i == 0 {
        assert title[i..][1] != typed[1];
      }
    }
    assert ContainsIgnoringCase(title, typed) by {
      assert title[0..] == title;
      assert Lower(typed) <= Lower(title[0..]);
    }
    SearchIgnoresCase(Note("a", "Hello", "", [], false, 0, 0), typed);
  }
}
