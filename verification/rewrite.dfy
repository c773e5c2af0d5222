/**
 * Python's `str.replace(old, new)` for a non-empty `old`, and the batch
 * path's `fix_img_paths`, which rewrites absolute `/static/` asset
 * references into paths relative to the output directory.
 */
module Rewrite {
  import opened Results

  /** `p` occurs in `s` starting at index `i`. */
  predicate OccursAt(s: string, p: string, i: nat) {
    i + |p| <= |s| && s[i..i + |p|] == p
  }

  /** Dropping the first character shifts every occurrence one place left. */
  lemma OccursShift(s: string, p: string, j: nat)
    requires |s| > 0
    ensures OccursAt(s, p, j + 1) <==> OccursAt(s[1..], p, j)
  {
    if j + 1 + |p| <= |s| {
      assert s[j + 1..j + 1 + |p|] == s[1..][j..j + |p|];
    }
  }

  /** Every occurrence past the first character is an occurrence in the rest, one place earlier. */
  lemma OccursShiftAll(s: string, p: string)
    requires |s| > 0
    ensures forall j: nat :: 0 < j ==> (OccursAt(s, p, j) <==> OccursAt(s[1..], p, j - 1))
  {
    forall j: nat | 0 < j ensures OccursAt(s, p, j) <==> OccursAt(s[1..], p, j - 1) {
      OccursShift(s, p, j - 1);
    }
  }

  /** Python's `s.find(p)`: the leftmost occurrence, if any. */
  function Find(s: string, p: string): (r: Option<nat>)
    requires |p| > 0
    ensures r.Some? ==> OccursAt(s, p, r.value) && forall j :: 0 <= j < r.value ==> !OccursAt(s, p, j)
    ensures r.None? ==> forall j :: 0 <= j ==> !OccursAt(s, p, j)
    decreases |s|
  {
    if |s| < |p| then None
    else if s[..|p|] == p then Some(0)
    else
      var rest := Find(s[1..], p);
      OccursShiftAll(s, p);
      assert !OccursAt(s, p, 0);
      if rest.None? then None else Some(rest.value + 1)
  }

  /**
   * Python's `s.replace(p, q)`: a left-to-right scan that rewrites every
   * occurrence of `p` it meets and resumes after it, so occurrences never
   * overlap. Without an occurrence, and when `q` is `p`, nothing changes.
   */
  function Replace(s: string, p: string, q: string): (r: string)
    requires |p| > 0
    ensures Find(s, p).None? ==> r == s
    ensures q == p ==> r == s
    decreases |s|
  {
    if |s| < |p| then s
    else if s[..|p|] == p then
      var rest := Replace(s[|p|..], p, q);
      assert q == p ==> q + rest == s by {
        if q == p {
          assert s == s[..|p|] + s[|p|..];
        }
      }
      q + rest
    else
      var rest := Replace(s[1..], p, q);
      assert Find(s, p).None? ==> Find(s[1..], p).None?;
      assert [s[0]] + s[1..] == s;
      [s[0]] + rest
  }

  /** Python's `s.split(p)`: the pieces between the left-to-right, non-overlapping occurrences. */
  function Split(s: string, p: string): (r: seq<string>)
    requires |p| > 0
    ensures |r| > 0
    ensures forall k :: 0 <= k < |r| ==> Find(r[k], p).None?
    decreases |s|
  {
    match Find(s, p)
    case None => [s]
    case Some(i) =>
      var head := s[..i];
      assert forall j :: 0 <= j ==> (OccursAt(head, p, j) ==> OccursAt(s, p, j));
      [head] + Split(s[i + |p|..], p)
  }

  /** Python's `q.join(pieces)`. */
  function Join(pieces: seq<string>, q: string): string
    requires |pieces| > 0
  {
    if |pieces| == 1 then pieces[0] else pieces[0] + q + Join(pieces[1..], q)
  }

  /** Python's `s.count(p)`: the number of non-overlapping occurrences. */
  function Count(s: string, p: string): nat
    requires |p| > 0
  {
    |Split(s, p)| - 1
  }

  /** Where `p` does not start at index `k`, the scan copies `s[k]` and moves on. */
  lemma CopyAt(s: string, p: string, q: string, k: nat)
    requires |p| > 0 && k + |p| <= |s| && !OccursAt(s, p, k)
    ensures Replace(s[k..], p, q) == [s[k]] + Replace(s[k + 1..], p, q)
  {
    var u := s[k..];
    assert u[..|p|] == s[k..k + |p|];
    assert u[1..] == s[k + 1..];
  }

  /** Where `p` starts at index `i`, the scan writes `q` and resumes after the occurrence. */
  lemma RewriteAt(s: string, p: string, q: string, i: nat)
    requires |p| > 0 && OccursAt(s, p, i)
    ensures Replace(s[i..], p, q) == q + Replace(s[i + |p|..], p, q)
  {
    var u := s[i..];
    assert u[..|p|] == s[i..i + |p|];
    assert u[|p|..] == s[i + |p|..];
  }

  /** Putting `s[k]` back in front of the slice that follows it. */
  lemma ConsSlice(s: string, k: nat, i: nat, q: string, tail: string)
    requires k < i <= |s|
    ensures [s[k]] + (s[k + 1..i] + q + tail) == s[k..i] + q + tail
  {
    assert [s[k]] + s[k + 1..i] == s[k..i];
  }

  /** One copied character in front of a scan that already reached the occurrence at `i`. */
  lemma CopyStep(s: string, p: string, q: string, k: nat, i: nat)
    requires |p| > 0 && k < i && OccursAt(s, p, i) && !OccursAt(s, p, k)
    requires Replace(s[k + 1..], p, q) == s[k + 1..i] + q + Replace(s[i + |p|..], p, q)
    ensures Replace(s[k..], p, q) == s[k..i] + q + Replace(s[i + |p|..], p, q)
  {
    CopyAt(s, p, q, k);
    ConsSlice(s, k, i, q, Replace(s[i + |p|..], p, q));
  }

  /** From index `k` up to an occurrence at `i` with none in between, the scan copies then rewrites. */
  lemma {:induction false} CopyUpTo(s: string, p: string, q: string, k: nat, i: nat)
    requires |p| > 0 && k <= i && OccursAt(s, p, i)
    requires forall j :: k <= j < i ==> !OccursAt(s, p, j)
    ensures Replace(s[k..], p, q) == s[k..i] + q + Replace(s[i + |p|..], p, q)
    decreases i - k
  {
    if k < i {
      CopyUpTo(s, p, q, k + 1, i);
      CopyStep(s, p, q, k, i);
    } else {
      RewriteAt(s, p, q, i);
    }
  }

  /** The scan copies everything before the leftmost occurrence and rewrites that occurrence. */
  lemma ReplaceAtFirst(s: string, p: string, q: string, i: nat)
    requires |p| > 0 && Find(s, p) == Some(i)
    ensures Replace(s, p, q) == s[..i] + q + Replace(s[i + |p|..], p, q)
  {
    CopyUpTo(s, p, q, 0, i);
    assert s[0..] == s;
  }

  /** Splitting at the leftmost occurrence: the piece before it, then the pieces after it. */
  lemma SplitAt(s: string, p: string, i: nat)
    requires |p| > 0 && Find(s, p) == Some(i)
    ensures Split(s, p) == [s[..i]] + Split(s[i + |p|..], p)
  {
    var r := Split(s, p);
    assert r == [s[..i]] + Split(s[i + |p|..], p);
  }

  /** Joining a piece in front of at least one more puts the separator between them. */
  lemma JoinCons(head: string, rest: seq<string>, q: string)
    requires |rest| > 0
    ensures Join([head] + rest, q) == head + q + Join(rest, q)
  {
    assert ([head] + rest)[1..] == rest;
  }

  /**
   * Reference definition: replacing is splitting on `p` and joining with `q`,
   * so every character outside the rewritten occurrences is kept, in order.
   */
  lemma {:induction false} ReplaceIsSplitJoin(s: string, p: string, q: string)
    requires |p| > 0
    ensures Replace(s, p, q) == Join(Split(s, p), q)
    decreases |s|
  {
    match Find(s, p)
    case None =>
    case Some(i) =>
      ReplaceAtFirst(s, p, q, i);
      ReplaceIsSplitJoin(s[i + |p|..], p, q);
      SplitAt(s, p, i);
      JoinCons(s[..i], Split(s[i + |p|..], p), q);
  }

  /** Splitting on `p` and joining with `p` gives back the original string. */
  lemma {:induction false} SplitJoinRoundTrip(s: string, p: string)
    requires |p| > 0
    ensures Join(Split(s, p), p) == s
    decreases |s|
  {
    match Find(s, p)
    case None =>
    case Some(i) =>
      SplitJoinRoundTrip(s[i + |p|..], p);
      var rest := Split(s[i + |p|..], p);
      assert ([s[..i]] + rest)[1..] == rest;
      assert s == s[..i] + s[i..i + |p|] + s[i + |p|..];
  }

  /** Total length of the pieces. */
  function TotalLength(pieces: seq<string>): nat {
    if |pieces| == 0 then 0 else |pieces[0]| + TotalLength(pieces[1..])
  }

  lemma {:induction false} JoinLength(pieces: seq<string>, q: string)
    requires |pieces| > 0
    ensures |Join(pieces, q)| == TotalLength(pieces) + (|pieces| - 1) * |q|
    decreases |pieces|
  {
    if |pieces| > 1 {
      JoinLength(pieces[1..], q);
      var k := |pieces| - 2;
      assert (k + 1) * |q| == k * |q| + |q|;
    }
  }

  /** Each rewritten occurrence changes the length by `|q| - |p|`. */
  lemma ReplaceLength(s: string, p: string, q: string)
    requires |p| > 0
    ensures |Replace(s, p, q)| == |s| + Count(s, p) * (|q| - |p|)
  {
    var pieces := Split(s, p);
    ReplaceIsSplitJoin(s, p, q);
    SplitJoinRoundTrip(s, p);
    JoinLength(pieces, q);
    JoinLength(pieces, p);
    var c := |pieces| - 1;
    assert c * (|q| - |p|) == c * |q| - c * |p|;
  }

  /** The absolute asset prefix in rendered certificate markup. */
  const AbsoluteStatic: string := "/static/"

  /** The same prefix made relative to the output directory. */
  const RelativeStatic: string := "static/"

  /** The batch path's `fix_img_paths`: `html.replace('/static/', 'static/')`. */
  function FixImgPaths(html: string): (r: string)
    ensures |r| == |html| - Count(html, AbsoluteStatic)
    ensures r == Join(Split(html, AbsoluteStatic), RelativeStatic)
  {
    ReplaceLength(html, AbsoluteStatic, RelativeStatic);
    ReplaceIsSplitJoin(html, AbsoluteStatic, RelativeStatic);
    Replace(html, AbsoluteStatic, RelativeStatic)
  }

  /** The markup is left untouched exactly when it has no `/static/` in it. */
  lemma FixImgPathsUnchangedIff(html: string)
    ensures FixImgPaths(html) == html <==> Find(html, AbsoluteStatic).None?
  {
    if Find(html, AbsoluteStatic).Some? {
      assert |Split(html, AbsoluteStatic)| > 1;
    }
  }

  /** Rewriting is not idempotent: a doubled slash leaves a fresh `/static/` behind. */
  lemma FixImgPathsNotIdempotent()
    ensures FixImgPaths("//static/") == "/static/"
    ensures FixImgPaths(FixImgPaths("//static/")) == "static/"
  {
    var s := "//static/";
    assert s[..8][1] != AbsoluteStatic[1];
    assert !OccursAt(s, AbsoluteStatic, 0);
    assert s[1..] == AbsoluteStatic;
    assert Replace(s[1..], AbsoluteStatic, RelativeStatic) == RelativeStatic + Replace([], AbsoluteStatic, RelativeStatic);
    assert Replace(AbsoluteStatic, AbsoluteStatic, RelativeStatic) == RelativeStatic + Replace([], AbsoluteStatic, RelativeStatic);
  }
}
