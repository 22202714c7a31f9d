/**
 * The tag choices offered by `renderTagUI` (script.js:196-204): every tag
 * used by some note, once, in ascending string order (script.js:197), and
 * the first eight of them as quick-filter buttons (script.js:200-201).
 */
module TagList {
  import opened Seqs
  import opened Notes

  const QuickTagCount: nat := 8

  /**
   * The order of the default `Array.prototype.sort`: lexicographic by
   * character code, a proper prefix first.
   */
  predicate LexLe(a: string, b: string) {
    a == [] || (b != [] && (a[0] < b[0] || (a[0] == b[0] && LexLe(a[1..], b[1..]))))
  }

  lemma {:induction false} LexTotal(a: string, b: string)
    ensures LexLe(a, b) || LexLe(b, a)
  {
    if a != [] && b != [] && a[0] == b[0] {
      LexTotal(a[1..], b[1..]);
    }
  }

  lemma {:induction false} LexTransitive(a: string, b: string, c: string)
    requires LexLe(a, b) && LexLe(b, c)
    ensures LexLe(a, c)
  {
    if a != [] && a[0] == b[0] && b[0] == c[0] {
      LexTransitive(a[1..], b[1..], c[1..]);
    }
  }

  ghost predicate Ascending(s: seq<string>) {
    forall i, j :: 0 <= i < j < |s| ==> LexLe(s[i], s[j])
  }

  function InsertString(x: string, s: seq<string>): (r: seq<string>)
    ensures multiset(r) == multiset(s) + multiset{x}
    ensures |r| == |s| + 1
  {
    if s == [] then [x]
    else if LexLe(x, s[0]) then [x] + s
    else
      assert s == [s[0]] + s[1..];
      [s[0]] + InsertString(x, s[1..])
  }

  lemma {:induction false} InsertStringAscending(x: string, s: seq<string>)
    requires Ascending(s)
    ensures Ascending(InsertString(x, s))
  {
    if s != [] {
      if LexLe(x, s[0]) {
        forall j | 0 < j < |s| ensures LexLe(x, s[j]) {
          LexTransitive(x, s[0], s[j]);
        }
      } else {
        LexTotal(x, s[0]);
        var rest := InsertString(x, s[1..]);
        InsertStringAscending(x, s[1..]);
        assert s == [s[0]] + s[1..];
        forall k | 0 <= k < |rest| ensures LexLe(s[0], rest[k]) {
          assert rest[k] in multiset(rest);
          if rest[k] != x {
            assert rest[k] in multiset(s[1..]);
            var j :| 0 <= j < |s[1..]| && s[1..][j] == rest[k];
            assert s[j + 1] == rest[k];
          }
        }
      }
    }
  }

  /** `.sort()` on strings. */
  function SortStrings(s: seq<string>): (r: seq<string>)
    ensures multiset(r) == multiset(s)
    ensures |r| == |s|
    ensures Ascending(r)
  {
    if s == [] then []
    else
      assert s == [s[0]] + s[1..];
      InsertStringAscending(s[0], SortStrings(s[1..]));
      InsertString(s[0], SortStrings(s[1..]))
  }

  /** `notes.flatMap(n => n.tags)`. */
  function AllNoteTags(notes: seq<Note>): (r: seq<string>)
    ensures forall t :: t in r <==> exists i :: 0 <= i < |notes| && t in notes[i].tags
  {
    if notes == [] then []
    else
      var rest := AllNoteTags(notes[1..]);
      assert forall i :: 0 < i < |notes| ==> notes[i] == notes[1..][i - 1];
      notes[0].tags + rest
  }

  /** A sequence without repeats has every count at most one. */
  lemma {:induction false} NoDupsCount<T>(s: seq<T>, x: T)
    requires NoDups(s)
    ensures multiset(s)[x] <= 1
  {
    if s != [] {
      NoDupsCount(s[1..], x);
      assert s == [s[0]] + s[1..];
    }
  }

  /** Two equal entries make a count of at least two. */
  lemma {:induction false} RepeatCount<T>(s: seq<T>, i: nat, j: nat)
    requires i < j < |s| && s[i] == s[j]
    ensures multiset(s)[s[i]] >= 2
  {
    assert s == s[..j] + s[j..];
    assert s[i] in s[..j];
    assert s[j] in s[j..];
  }

  /**
   * The tag filter choices: each tag in use appears, nothing else appears,
   * and the list is strictly ascending, so no tag appears twice.
   */
  function AllTags(notes: seq<Note>): (r: seq<string>)
    ensures forall t :: t in r <==> exists i :: 0 <= i < |notes| && t in notes[i].tags
    ensures forall i, j :: 0 <= i < j < |r| ==> LexLe(r[i], r[j]) && r[i] != r[j]
  {
    var d := Dedup(AllNoteTags(notes));
    var r := SortStrings(d);
    forall t ensures t in r <==> t in d {
      assert t in r <==> t in multiset(r);
      assert t in d <==> t in multiset(d);
    }
    forall i, j | 0 <= i < j < |r| ensures r[i] != r[j] {
      if r[i] == r[j] {
        RepeatCount(r, i, j);
        NoDupsCount(d, r[i]);
        assert false;
      }
    }
    r
  }

  /** The quick-filter buttons: the first eight tags in ascending order. */
  function QuickTags(notes: seq<Note>): (r: seq<string>)
    ensures |r| <= QuickTagCount && r <= AllTags(notes)
    ensures forall t :: t in AllTags(notes) && t !in r ==>
      |r| == QuickTagCount && forall u :: u in r ==> LexLe(u, t)
  {
    var all := AllTags(notes);
    var r := Take(all, QuickTagCount);
    forall t | t in all && t !in r ensures |r| == QuickTagCount && forall u :: u in r ==> LexLe(u, t) {
      var j :| 0 <= j < |all| && all[j] == t;
      assert j >= |r|;
      forall u | u in r ensures LexLe(u, t) {
        var i :| 0 <= i < |r| && r[i] == u;
        assert all[i] == u;
      }
    }
    r
  }
}
