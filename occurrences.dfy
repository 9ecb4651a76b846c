/** Where a newline-terminated text can occur in a string. Both patch markers
    end with their only newline; the facts here are stated for any such text,
    so that they are proved once and apply to either marker. */
module Occurrences {
  import opened JsString

  /** `t` has a newline as its last character and nowhere else. Such a text
      cannot overlap a copy of itself. */
  predicate NewlineOnlyAtEnd(t: string) {
    |t| > 0 && t[|t| - 1] == '\n' && forall j :: 0 <= j < |t| - 1 ==> t[j] != '\n'
  }

  /** `a` and `z` can both occur in one text only side by side: each ends
      with its only newline, and where their newlines would coincide (`z`
      starting `|a| - |z|` characters into `a`) their characters differ. */
  predicate DisjointMarkers(a: string, z: string) {
    NewlineOnlyAtEnd(a) && NewlineOnlyAtEnd(z) && (|z| <= |a| ==> a[|a| - |z|] != z[0])
  }

  /** An occurrence of a newline-terminated text cannot start before another
      occurrence and reach into it. */
  lemma NoStraddle(s: string, t: string, hi: int, j: int)
    requires NewlineOnlyAtEnd(t) && OccursAt(s, t, hi)
    requires 0 <= j < hi < j + |t|
    ensures !OccursAt(s, t, j)
  {
    var x := j + |t| - 1;
    assert s[x] == s[hi..hi + |t|][x - hi] == t[x - hi] != '\n';
    if j + |t| <= |s| {
      assert s[j..j + |t|][|t| - 1] == s[x];
    }
  }

  /** Searching from `lo` for a newline-terminated text finds the occurrence
      at `hi` when no occurrence lies wholly between `lo` and `hi`. */
  lemma FirstOccurrenceAt(s: string, t: string, lo: nat, hi: nat)
    requires NewlineOnlyAtEnd(t) && lo <= hi <= |s| && OccursAt(s, t, hi)
    requires forall j :: lo <= j && j + |t| <= hi ==> !OccursAt(s, t, j)
    ensures IndexFrom(s, t, lo) == hi
  {
    forall j | lo <= j < hi ensures !OccursAt(s, t, j) {
      if j + |t| > hi {
        NoStraddle(s, t, hi, j);
      }
    }
  }

  /** `t` does not occur anywhere inside the middle part `b` of `a + b + c`. */
  lemma NoOccurrenceInside(a: string, b: string, c: string, t: string)
    requires !Contains(b, t)
    ensures forall j :: |a| <= j && j + |t| <= |a| + |b| ==> !OccursAt(a + b + c, t, j)
  {
    var s := a + b + c;
    forall j | |a| <= j && j + |t| <= |a| + |b| ensures !OccursAt(s, t, j) {
      assert s[j..j + |t|] == b[j - |a|..j - |a| + |t|];
      assert !OccursAt(b, t, j - |a|);
    }
  }

  /** In `w + a + p + z`, with `a` absent from `w`, the first `a` is the one
      right after `w`. */
  lemma FirstAfterPrefix(w: string, a: string, p: string, z: string)
    requires NewlineOnlyAtEnd(a) && !Contains(w, a)
    ensures IndexOf(w + a + p + z, a) == |w|
  {
    var s := w + a + p + z;
    NoOccurrenceInside([], w, a + p + z, a);
    assert [] + w + (a + p + z) == s;
    assert s[|w|..|w| + |a|] == a;
    FirstOccurrenceAt(s, a, 0, |w|);
  }

  /** In `w + a + p + z`, with `z` absent from `p`, the first `z` after `a`
      is the final one. */
  lemma FirstAfterMiddle(w: string, a: string, p: string, z: string)
    requires NewlineOnlyAtEnd(z) && !Contains(p, z)
    ensures IndexFrom(w + a + p + z, z, |w| + |a|) == |w| + |a| + |p|
  {
    var s := w + a + p + z;
    var n := |w| + |a| + |p|;
    NoOccurrenceInside(w + a, p, z, z);
    assert s[n..n + |z|] == z;
    FirstOccurrenceAt(s, z, |w| + |a|, n);
  }

  /** The last occurrence of `z` in a text ending with `z` is that ending. */
  lemma LastAtEnd(w: string, a: string, p: string, z: string)
    ensures LastIndexOf(w + a + p + z, z) == |w| + |a| + |p|
  {
    var s := w + a + p + z;
    assert s[|s| - |z|..] == z;
    assert OccursAt(s, z, |s| - |z|);
  }

  /** Cutting `w + a + p + z` from the end of `w` to its end leaves `w`. */
  lemma CutAround(w: string, a: string, p: string, z: string)
    ensures var s := w + a + p + z; s[..|w|] + s[|s|..] == w
  {
    var s := w + a + p + z;
    assert s[..|w|] == w;
  }

  /** `w + (a + p + z)` regrouped. */
  lemma Regroup(w: string, a: string, p: string, z: string)
    ensures w + (a + p + z) == w + a + p + z
  {
  }

  /** Two blocks `a + p + z` and `a + q + z` after `w` form one region from
      the first `a` to the last `z`. */
  lemma RegroupTwo(w: string, a: string, p: string, z: string, q: string)
    ensures w + (a + p + z) + (a + q + z) == w + a + (p + z + a + q) + z
  {
  }

  /** No `z` starts inside an occurrence of `a`. */
  lemma NotInsideOther(s: string, a: string, z: string, i: nat, j: nat)
    requires DisjointMarkers(a, z)
    requires OccursAt(s, a, i) && i <= j < i + |a|
    ensures !OccursAt(s, z, j)
  {
    if j + |z| <= |s| {
      var w := s[j..j + |z|];
      var x := j + |z| - 1;
      var y := i + |a| - 1;
      if x < y {
        assert w[|z| - 1] == s[i..i + |a|][x - i] != '\n';
      } else if x > y {
        assert w[y - j] == s[i..i + |a|][|a| - 1] == '\n';
      } else {
        assert w[0] == s[i..i + |a|][j - i];
      }
    }
  }

  /** With `a` at `i` and `z` at `j >= i`, the text from one to the end of
      the other is `a`, the text between them, and `z`. */
  lemma SpanBetween(s: string, a: string, z: string, i: nat, j: nat)
    requires DisjointMarkers(a, z)
    requires OccursAt(s, a, i) && OccursAt(s, z, j) && i <= j
    ensures i + |a| <= j
    ensures s[i..j + |z|] == a + s[i + |a|..j] + z
  {
    forall k | i <= k < i + |a| ensures !OccursAt(s, z, k) {
      NotInsideOther(s, a, z, i, k);
    }
    var span := s[i..j + |z|];
    var mid := s[i + |a|..j];
    assert |span| == |a + mid + z|;
    forall k | 0 <= k < |span| ensures span[k] == (a + mid + z)[k] {
      if k < |a| {
        assert span[k] == s[i..i + |a|][k];
      } else if k >= |a| + |mid| {
        assert span[k] == s[j..j + |z|][k - |a| - |mid|];
      }
    }
  }

  /** `b + (a + x + z) + c` regrouped. */
  lemma RegroupInside(b: string, a: string, x: string, z: string, c: string)
    ensures b + (a + x + z) + c == b + a + x + z + c
  {
  }
}
