/**
 * Tag normalisation (`cleanTags`, script.js:56-61): split the raw input on
 * commas, trim every piece, drop the empty ones, keep the first occurrence
 * of each distinct piece and keep at most six of them.
 */
module Tags {
  import opened Seqs
  import opened Text

  const MaxTags: nat := 6

  /** A normalised tag list: no repeats, at most six, each tag trimmed, non-empty and comma-free. */
  ghost predicate TagsClean(tags: seq<string>) {
    && NoDups(tags)
    && |tags| <= MaxTags
    && forall k :: 0 <= k < |tags| ==> tags[k] != [] && IsTrimmed(tags[k]) && ',' !in tags[k]
  }

  /** `parts.map(t => t.trim())`. */
  function TrimAll(parts: seq<string>): (r: seq<string>)
    ensures |r| == |parts|
    ensures forall k :: 0 <= k < |r| ==> r[k] == Trim(parts[k])
  {
    if parts == [] then [] else [Trim(parts[0])] + TrimAll(parts[1..])
  }

  function NonEmpty(t: string): bool { t != [] }

  /** `str.split(",").map(t => t.trim()).filter(Boolean)`. */
  function Pieces(s: string): seq<string> {
    Filter(TrimAll(Split(s)), NonEmpty)
  }

  /** A piece is exactly a non-empty trimmed comma-separated segment; none holds a comma. */
  lemma PiecesAre(s: string)
    ensures forall t :: t in Pieces(s) <==> t != [] && t in TrimAll(Split(s))
    ensures forall t :: t in Pieces(s) ==> IsTrimmed(t) && ',' !in t
  {
    FilterMembers(TrimAll(Split(s)), NonEmpty);
    TrimmedPieces(Split(s));
  }

  lemma TrimmedPieces(segs: seq<string>)
    requires forall k :: 0 <= k < |segs| ==> ',' !in segs[k]
    ensures forall t :: t in Filter(TrimAll(segs), NonEmpty) ==> IsTrimmed(t) && ',' !in t
  {
    var trimmed := TrimAll(segs);
    FilterMembers(trimmed, NonEmpty);
    forall t | t in Filter(trimmed, NonEmpty) ensures ',' !in t {
      assert t in trimmed;
      var k :| 0 <= k < |trimmed| && trimmed[k] == t;
      assert t == Trim(segs[k]);
      TrimKeepsOut(segs[k], ',');
    }
  }

  /** Trimming removes characters, it never adds one. */
  lemma TrimKeepsOut(s: string, c: char)
    requires c !in s
    ensures c !in Trim(s)
  {
    var r := Trim(s);
    var i := TrimSlice(s);
    forall j | 0 <= j < |r| ensures r[j] != c {
      assert r[j] == s[i + j];
    }
  }

  /** `cleanTags(str)`. */
  function CleanTags(s: string): (r: seq<string>)
    ensures s == [] ==> r == []
    ensures TagsClean(r)
    ensures forall t :: t in r ==> t in Pieces(s)
  {
    if s == [] then []
    else
      var pieces := Pieces(s);
      PiecesAre(s);
      var d := Dedup(pieces);
      var r := Take(d, MaxTags);
      assert forall k :: 0 <= k < |r| ==> r[k] == d[k] && r[k] in pieces;
      r
  }

  /** The tags come out in the order in which they first appear in the input. */
  lemma CleanTagsOrder(s: string)
    ensures forall i, j :: 0 <= i < j < |CleanTags(s)| ==>
      FirstIndex(Pieces(s), CleanTags(s)[i]) < FirstIndex(Pieces(s), CleanTags(s)[j])
  {
    if s != [] {
      DedupOrder(Pieces(s));
      var d := Dedup(Pieces(s));
      assert forall i :: 0 <= i < |CleanTags(s)| ==> CleanTags(s)[i] == d[i];
    }
  }

  /**
   * A piece is dropped only when six earlier distinct pieces were kept
   * already: the result is the first six distinct pieces.
   */
  lemma CleanTagsDropsOnlyLater(s: string, t: string)
    requires t in Pieces(s) && t !in CleanTags(s)
    ensures |CleanTags(s)| == MaxTags
    ensures forall u :: u in CleanTags(s) ==> FirstIndex(Pieces(s), u) < FirstIndex(Pieces(s), t)
  {
    var d := Dedup(Pieces(s));
    DedupOrder(Pieces(s));
    var r := CleanTags(s);
    assert t in d;
    var k :| 0 <= k < |d| && d[k] == t;
    assert r == d[..MaxTags];
    forall u | u in r ensures FirstIndex(Pieces(s), u) < FirstIndex(Pieces(s), t) {
      var i :| 0 <= i < |r| && r[i] == u;
    }
  }

  /** `" " + x` trims to what `x` trims to. */
  lemma TrimLeadingBlank(x: string)
    ensures Trim(" " + x) == Trim(x)
  {
    assert (" " + x)[1..] == x;
  }

  /** Trimming the pieces of `tags.join(", ")` gives the tags back. */
  lemma {:induction false} TrimSplitJoin(tags: seq<string>)
    requires |tags| >= 1
    requires forall k :: 0 <= k < |tags| ==> IsTrimmed(tags[k]) && ',' !in tags[k]
    ensures TrimAll(Split(Join(tags, ", "))) == tags
  {
    if |tags| == 1 {
      SplitNoComma(tags[0]);
      TrimTrimmed(tags[0]);
    } else {
      var rest := Join(tags[1..], ", ");
      TrimSplitJoin(tags[1..]);
      assert Join(tags, ", ") == tags[0] + ", " + rest;
      SplitAfterSeparator(tags[0], rest);
      TrimTrimmed(tags[0]);
      TrimAllAfterSeparator(tags[0], Split(rest));
    }
  }

  lemma TrimAllAfterSeparator(a: string, sp: seq<string>)
    requires |sp| >= 1 && IsTrimmed(a)
    ensures TrimAll([a] + [" " + sp[0]] + sp[1..]) == [a] + TrimAll(sp)
  {
    BlankedPiecesTrimAlike(a, sp);
    TrimTrimmed(a);
    TrimAllFront(a, sp);
  }

  /** A blank in front of the second piece makes no difference once trimmed. */
  lemma BlankedPiecesTrimAlike(a: string, sp: seq<string>)
    requires |sp| >= 1
    ensures TrimAll([a] + [" " + sp[0]] + sp[1..]) == TrimAll([a] + sp)
  {
    var parts := [a] + [" " + sp[0]] + sp[1..];
    var plain := [a] + sp;
    forall k | 0 <= k < |parts| ensures Trim(parts[k]) == Trim(plain[k]) {
      BlankedPieceTrimsAlike(a, sp, k);
    }
    TrimAllAlike(parts, plain);
  }

  lemma BlankedPieceTrimsAlike(a: string, sp: seq<string>, k: nat)
    requires |sp| >= 1 && k <= |sp|
    ensures Trim(([a] + [" " + sp[0]] + sp[1..])[k]) == Trim(([a] + sp)[k])
  {
    var parts := [a] + [" " + sp[0]] + sp[1..];
    var plain := [a] + sp;
    if k == 1 {
      assert parts[1] == " " + sp[0] && plain[1] == sp[0];
      TrimLeadingBlank(sp[0]);
    } else {
      assert parts[k] == plain[k];
    }
  }

  /** Lists whose pieces trim alike trim to the same list. */
  lemma TrimAllAlike(p: seq<string>, q: seq<string>)
    requires |p| == |q| && forall k :: 0 <= k < |p| ==> Trim(p[k]) == Trim(q[k])
    ensures TrimAll(p) == TrimAll(q)
  {
    var tp, tq := TrimAll(p), TrimAll(q);
    assert forall k :: 0 <= k < |tp| ==> tp[k] == tq[k];
  }

  /** A trimmed piece in front stays as it is. */
  lemma TrimAllFront(a: string, sp: seq<string>)
    requires Trim(a) == a
    ensures TrimAll([a] + sp) == [a] + TrimAll(sp)
  {
    assert ([a] + sp)[1..] == sp;
  }

  /** The pieces of `a + ", " + rest` for a comma-free `a`. */
  lemma SplitAfterSeparator(a: string, rest: string)
    requires ',' !in a
    ensures Split(a + ", " + rest) == [a] + [" " + Split(rest)[0]] + Split(rest)[1..]
  {
    var b := " " + rest;
    var c := [','] + b;
    assert a + ", " + rest == a + c;
    SplitPrefix(a, c);
    SplitComma(b);
    SplitPrefix(" ", rest);
    assert a + [] == a;
  }

  lemma {:induction false} DedupDistinct<T(!new)>(s: seq<T>)
    requires NoDups(s)
    ensures Dedup(s) == s
  {
    if s != [] {
      var init := s[..|s| - 1];
      DedupDistinct(init);
      assert s[|s| - 1] !in init;
      assert init + [s[|s| - 1]] == s;
    }
  }

  /**
   * The edit dialog shows a note's tags joined with ", " (script.js:162) and
   * cleans that text again on save (script.js:181): saving without touching
   * the tags keeps them exactly.
   */
  lemma CleanTagsOfJoined(tags: seq<string>)
    requires TagsClean(tags)
    ensures CleanTags(Join(tags, ", ")) == tags
  {
    if tags != [] {
      var text := Join(tags, ", ");
      TrimSplitJoin(tags);
      FilterKeepsAll(tags, NonEmpty);
      assert Pieces(text) == tags;
      DedupDistinct(tags);
      assert |text| > 0 by {
        if |tags| > 1 {
          assert text == tags[0] + ", " + Join(tags[1..], ", ");
        }
      }
    }
  }

  /** Cleaning is idempotent on its own output, as written into a note. */
  lemma CleanTagsStable(s: string)
    ensures CleanTags(Join(CleanTags(s), ", ")) == CleanTags(s)
  {
    CleanTagsOfJoined(CleanTags(s));
  }
}
