// The markers of the Fluent Design patch block and the regular expression
// `patchRegex` built from them.
//
// The markers are interpolated into `new RegExp(...)` without escaping, so
// in the compiled pattern `/*` means "any number of `/`" and ` *` means "any
// number of spaces". One marker therefore compiles to the language
//
// "/"^k + text + " "^m + "/\n"
//
// where `text` is the marker between its `/*` and its ` */`
//
// and the whole pattern is such a piece for `Start`, then `[\s\S]*?` (any
// text, as short as possible), then such a piece for `End`. The literal
// markers themselves, which have `*` between that text and the closing `/`,
// are not in that language.
//
// JavaScript finds a match by backtracking from the leftmost start. Both
// greedy quantifiers are followed by a character they cannot consume, so
// each marker piece matches at a given position in at most one way; the
// lazy body makes the match end at the first `End` piece. `FirstMatch` is
// that search written out; `FirstMatchIsLeftmostLazy` proves it returns the
// leftmost match with the shortest body, as the declarative `IsMatch`
// defines matches.
module PatchPattern {
  import opened Wrappers
  import opened JsString
  import opened Occurrences

  const TagStart: string := "/* Fluent Design Patch -- Start */\n"
  const TagEnd: string := "/* Fluent Design Patch -- End */\n"

  // The text between the leading `/*` and the trailing ` */` of each marker:
  // what a marker piece of the compiled pattern must match verbatim.
  const StartText: string := " Fluent Design Patch -- Start"
  const EndText: string := " Fluent Design Patch -- End"

  // A text a marker piece can be built from: it does not start with a
  // slash (which the greedy `/*` before it would take), and it holds no
  // newline and no `*`.
  predicate PieceText(lit: string) {
    |lit| > 0 && lit[0] != '/' && '\n' !in lit && '*' !in lit
  }

  function Rep(c: char, n: nat): (r: string)
    ensures |r| == n && forall j :: 0 <= j < n ==> r[j] == c
  {
    if n == 0 then [] else [c] + Rep(c, n - 1)
  }

  /** The text one marker piece of `patchRegex` matches, with `k` slashes and
      `m` spaces. */
  function TagText(k: nat, lit: string, m: nat): string {
    Rep('/', k) + lit + Rep(' ', m) + "/\n"
  }

  /** `t` is, as a whole, matched by the piece of `patchRegex` compiled from
      a marker with text `lit`. */
  ghost predicate IsTagInstance(t: string, lit: string) {
    exists k: nat, m: nat :: t == TagText(k, lit, m)
  }

  /** `s[i..e]` is matched by the marker piece with text `lit`. */
  ghost predicate TagAt(s: string, i: int, e: int, lit: string) {
    0 <= i <= e <= |s| && IsTagInstance(s[i..e], lit)
  }

  /** The pattern with pieces for `sw` and `ew` matches `s[i..e]` with body
      `s[a..b]`. */
  ghost predicate IsMatchOf(s: string, i: int, a: int, b: int, e: int, sw: string, ew: string) {
    TagAt(s, i, a, sw) && a <= b && TagAt(s, b, e, ew)
  }

  /** The pattern with pieces for `sw` and `ew` has no match in `s`. */
  ghost predicate NoMatchOf(s: string, sw: string, ew: string) {
    forall i, a, b, e :: !IsMatchOf(s, i, a, b, e, sw, ew)
  }

  /** `patchRegex` has no match in `s`. */
  ghost predicate NoMatch(s: string) {
    NoMatchOf(s, StartText, EndText)
  }

  /** A match of `patchRegex` in `s`: the matched text is `s[start..end]`,
      its body `s[bodyStart..bodyEnd]`. */
  datatype Match = Match(start: nat, bodyStart: nat, bodyEnd: nat, end: nat) {
    predicate WithinBounds(s: string) {
      start <= bodyStart <= bodyEnd <= end <= |s|
    }
  }

  /** The match JavaScript reports: the leftmost one, and of those starting
      there the one with the shortest body. */
  ghost predicate IsFirstMatchOf(s: string, m: Match, sw: string, ew: string) {
    && IsMatchOf(s, m.start, m.bodyStart, m.bodyEnd, m.end, sw, ew)
    && forall i, a, b, e :: IsMatchOf(s, i, a, b, e, sw, ew) ==> m.start < i || (m.start == i && m.bodyEnd <= b)
  }

  /** `m` is the match `patchRegex.exec(s)` reports. */
  ghost predicate IsFirstMatch(s: string, m: Match) {
    IsFirstMatchOf(s, m, StartText, EndText)
  }

  /** Length of the run of `c` that starts at `i`. */
  function RunLength(s: string, i: nat, c: char): (n: nat)
    requires i <= |s|
    ensures i + n <= |s|
    ensures forall j :: i <= j < i + n ==> s[j] == c
    ensures i + n < |s| ==> s[i + n] != c
    decreases |s| - i
  {
    if i < |s| && s[i] == c then 1 + RunLength(s, i + 1, c) else 0
  }

  // Where the marker piece with text `lit`, tried at `i`, ends: the greedy `/*`
  // takes every slash, the literal text must follow, the greedy ` *` takes
  // every space, then `/` and a newline must follow.
  function TagEndAt(s: string, i: nat, lit: string): (r: Option<nat>)
    requires i <= |s|
    ensures r.Some? ==> i < r.value <= |s|
  {
    var p := i + RunLength(s, i, '/');
    if OccursAt(s, lit, p) then
      var q := p + |lit|;
      var n := q + RunLength(s, q, ' ');
      if n + 2 <= |s| && s[n..n + 2] == "/\n" then Some(n + 2) else None
    else None
  }

  /** The character of a marker piece at index `j`, region by region. */
  lemma TagTextAt(k: nat, lit: string, m: nat, j: nat)
    requires j < |TagText(k, lit, m)|
    ensures |TagText(k, lit, m)| == k + |lit| + m + 2
    ensures j < k ==> TagText(k, lit, m)[j] == '/'
    ensures k <= j < k + |lit| ==> TagText(k, lit, m)[j] == lit[j - k]
    ensures k + |lit| <= j < k + |lit| + m ==> TagText(k, lit, m)[j] == ' '
    ensures j == k + |lit| + m ==> TagText(k, lit, m)[j] == '/'
    ensures j == k + |lit| + m + 1 ==> TagText(k, lit, m)[j] == '\n'
  {
    assert TagText(k, lit, m) == Rep('/', k) + lit + Rep(' ', m) + "/\n";
  }

  /** `TagEndAt` agrees with the language of the marker piece: it reports end
      `e` exactly when `s[i..e]` is matched by the piece. */
  lemma TagEndAtCorrect(s: string, i: nat, e: nat, lit: string)
    requires PieceText(lit)
    requires i <= e <= |s|
    ensures TagEndAt(s, i, lit) == Some(e) <==> IsTagInstance(s[i..e], lit)
  {
    if TagEndAt(s, i, lit) == Some(e) {
      TagEndAtSound(s, i, e, lit);
    }
    if IsTagInstance(s[i..e], lit) {
      var k: nat, m: nat :| s[i..e] == TagText(k, lit, m);
      TagEndAtComplete(s, i, lit, k, m);
    }
  }

  lemma TagEndAtSound(s: string, i: nat, e: nat, lit: string)
    requires i <= e <= |s|
    requires TagEndAt(s, i, lit) == Some(e)
    ensures IsTagInstance(s[i..e], lit)
  {
    var k := RunLength(s, i, '/');
    var q := i + k + |lit|;
    var m := RunLength(s, q, ' ');
    TagFromParts(s, i, lit, k, m);
  }

  /** Slashes, the literal text, spaces, then `/` and a newline make up the
      text of a marker piece. */
  lemma TagFromParts(s: string, i: nat, lit: string, k: nat, m: nat)
    requires i + k + |lit| + m + 2 <= |s|
    requires forall j :: i <= j < i + k ==> s[j] == '/'
    requires s[i + k..i + k + |lit|] == lit
    requires forall j :: i + k + |lit| <= j < i + k + |lit| + m ==> s[j] == ' '
    requires var n := i + k + |lit| + m; s[n..n + 2] == "/\n"
    ensures s[i..i + k + |lit| + m + 2] == TagText(k, lit, m)
  {
    var p := i + k;
    var q := p + |lit|;
    var n := q + m;
    RunIsRep(s, i, '/', k);
    RunIsRep(s, q, ' ', m);
    SliceFourParts(s, i, p, q, n, n + 2);
  }

  /** A run of `n` copies of `c` at `i` is `Rep(c, n)`. */
  lemma RunIsRep(s: string, i: nat, c: char, n: nat)
    requires i + n <= |s|
    requires forall j :: i <= j < i + n ==> s[j] == c
    ensures s[i..i + n] == Rep(c, n)
  {
    var r := Rep(c, n);
    forall j | 0 <= j < n ensures s[i..i + n][j] == r[j] {
      assert s[i..i + n][j] == s[i + j];
    }
  }

  /** A slice cut at four points is the concatenation of its four parts. */
  lemma SliceFourParts(s: string, a: nat, b: nat, c: nat, d: nat, e: nat)
    requires a <= b <= c <= d <= e <= |s|
    ensures s[a..e] == s[a..b] + s[b..c] + s[c..d] + s[d..e]
  {
    assert s[a..e] == s[a..b] + s[b..e];
    assert s[b..e] == s[b..c] + s[c..e];
    assert s[c..e] == s[c..d] + s[d..e];
  }

  lemma TagEndAtComplete(s: string, i: nat, lit: string, k: nat, m: nat)
    requires PieceText(lit)
    requires i + |TagText(k, lit, m)| <= |s|
    requires s[i..i + |TagText(k, lit, m)|] == TagText(k, lit, m)
    ensures TagEndAt(s, i, lit) == Some(i + |TagText(k, lit, m)|)
  {
    TagTextAt(k, lit, m, 0);
    TagRunsAt(s, i, lit, k, m);
    TagLiteralAt(s, i, lit, k, m);
    TagCloseAt(s, i, lit, k, m);
    TagEndAtFromParts(s, i, lit, k, m);
  }

  /** `TagEndAt` read off the four parts of a marker piece. */
  lemma TagEndAtFromParts(s: string, i: nat, lit: string, k: nat, m: nat)
    requires i + k + |lit| + m + 2 <= |s|
    requires RunLength(s, i, '/') == k
    requires s[i + k..i + k + |lit|] == lit
    requires RunLength(s, i + k + |lit|, ' ') == m
    requires var n := i + k + |lit| + m; s[n..n + 2] == "/\n"
    ensures TagEndAt(s, i, lit) == Some(i + k + |lit| + m + 2)
  {
  }

  /** Text matched by a marker piece at `i` starts with its `k` slashes and
      has its `m` spaces after the text. */
  lemma TagRunsAt(s: string, i: nat, lit: string, k: nat, m: nat)
    requires PieceText(lit)
    requires i + |TagText(k, lit, m)| <= |s|
    requires s[i..i + |TagText(k, lit, m)|] == TagText(k, lit, m)
    ensures RunLength(s, i, '/') == k
    ensures RunLength(s, i + k + |lit|, ' ') == m
  {
    var t := TagText(k, lit, m);
    var q := i + k + |lit|;
    forall j | i <= j < i + k ensures s[j] == '/' {
      TagTextAt(k, lit, m, j - i);
      assert s[j] == s[i..i + |t|][j - i];
    }
    TagTextAt(k, lit, m, k);
    assert s[i + k] == s[i..i + |t|][k];
    RunLengthIs(s, i, '/', k);
    forall j | q <= j < q + m ensures s[j] == ' ' {
      TagTextAt(k, lit, m, j - i);
      assert s[j] == s[i..i + |t|][j - i];
    }
    TagTextAt(k, lit, m, q + m - i);
    assert s[q + m] == s[i..i + |t|][q + m - i];
    RunLengthIs(s, q, ' ', m);
  }

  lemma TagLiteralAt(s: string, i: nat, lit: string, k: nat, m: nat)
    requires i + |TagText(k, lit, m)| <= |s|
    requires s[i..i + |TagText(k, lit, m)|] == TagText(k, lit, m)
    ensures var p := i + k; s[p..p + |lit|] == lit
  {
    var t := TagText(k, lit, m);
    var p := i + k;
    TagTextAt(k, lit, m, 0);
    forall j | 0 <= j < |lit| ensures s[p..p + |lit|][j] == lit[j] {
      TagTextAt(k, lit, m, k + j);
      assert s[p..p + |lit|][j] == s[i..i + |t|][k + j];
    }
  }

  lemma TagCloseAt(s: string, i: nat, lit: string, k: nat, m: nat)
    requires i + |TagText(k, lit, m)| <= |s|
    requires s[i..i + |TagText(k, lit, m)|] == TagText(k, lit, m)
    ensures var n := i + k + |lit| + m; s[n..n + 2] == "/\n"
  {
    var t := TagText(k, lit, m);
    var n := i + k + |lit| + m;
    TagTextAt(k, lit, m, n - i);
    TagTextAt(k, lit, m, n + 1 - i);
    assert s[n] == s[i..i + |t|][n - i];
    assert s[n + 1] == s[i..i + |t|][n + 1 - i];
  }

  /** A run of exactly `n` copies of `c` starting at `i` has length `n`. */
  lemma RunLengthIs(s: string, i: nat, c: char, n: nat)
    requires i + n <= |s|
    requires forall j :: i <= j < i + n ==> s[j] == c
    requires i + n < |s| ==> s[i + n] != c
    ensures RunLength(s, i, c) == n
  {
  }

  /** The first position at or after `from` where the piece with text `lit`
      matches, with the end of that piece. */
  function FindTag(s: string, from: nat, lit: string): (r: Option<(nat, nat)>)
    requires from <= |s|
    ensures r.Some? ==> from <= r.value.0 <= |s| && TagEndAt(s, r.value.0, lit) == Some(r.value.1)
    ensures forall b :: from <= b <= |s| && (r.None? || b < r.value.0) ==> TagEndAt(s, b, lit).None?
    decreases |s| - from
  {
    match TagEndAt(s, from, lit)
    case Some(e) => Some((from, e))
    case None => if from == |s| then None else FindTag(s, from + 1, lit)
  }

  /** The pattern with pieces for `sw` and `ew` has a match starting at `i`. */
  predicate StartsMatch(s: string, i: nat, sw: string, ew: string)
    requires i <= |s|
  {
    MatchAt(s, i, sw, ew).Some?
  }

  /** The match starting at `i`, if any: the piece for `sw` there, then the
      first piece for `ew` after it. */
  function MatchAt(s: string, i: nat, sw: string, ew: string): (r: Option<Match>)
    requires i <= |s|
    ensures r.Some? ==> && r.value.start == i
                        && TagEndAt(s, i, sw) == Some(r.value.bodyStart)
                        && FindTag(s, r.value.bodyStart, ew) == Some((r.value.bodyEnd, r.value.end))
    ensures r.None? ==> TagEndAt(s, i, sw).None? || FindTag(s, TagEndAt(s, i, sw).value, ew).None?
  {
    match TagEndAt(s, i, sw)
    case Some(a) =>
      (match FindTag(s, a, ew)
       case Some((b, e)) => Some(Match(i, a, b, e))
       case None => None)
    case None => None
  }

  /** The first position in `from..hi` at which `f` reports a match, or
      `hi + 1` when there is none: the scan over start positions that a
      backtracking regular expression engine performs. */
  function FirstSome(f: nat -> Option<Match>, from: nat, hi: nat): (k: nat)
    requires from <= hi + 1
    ensures from <= k <= hi + 1
    ensures k <= hi ==> f(k).Some?
    ensures forall j :: from <= j < k ==> f(j).None?
    decreases hi + 1 - from
  {
    if from > hi || f(from).Some? then from else FirstSome(f, from + 1, hi)
  }

  /** The match starting at each position of `s`. */
  function MatchesIn(s: string, sw: string, ew: string): nat -> Option<Match> {
    (i: nat) => if i <= |s| then MatchAt(s, i, sw, ew) else None
  }

  /** The search for the pattern with pieces for `sw` and `ew`: the match at
      the first position where one starts. */
  function FirstMatchOf(s: string, sw: string, ew: string): (r: Option<Match>)
    ensures r.Some? ==> r.value.start <= |s| && MatchAt(s, r.value.start, sw, ew) == r
  {
    var k := FirstSome(MatchesIn(s, sw, ew), 0, |s|);
    if k <= |s| then MatchAt(s, k, sw, ew) else None
  }

  /** The search skips no position where a match starts. */
  lemma FirstMatchOfSkipsNone(s: string, sw: string, ew: string, i: nat)
    requires i <= |s|
    requires FirstMatchOf(s, sw, ew).None? || i < FirstMatchOf(s, sw, ew).value.start
    ensures !StartsMatch(s, i, sw, ew)
  {
    var f := MatchesIn(s, sw, ew);
    var k := FirstSome(f, 0, |s|);
    assert f(i) == MatchAt(s, i, sw, ew);
    if k <= |s| {
      assert f(k) == MatchAt(s, k, sw, ew);
    }
  }

  /** `patchRegex.exec(s)`, as a match or `None`. */
  function FirstMatch(s: string): (r: Option<Match>)
    ensures r.Some? ==> r.value.WithinBounds(s)
  {
    FirstMatchOf(s, StartText, EndText)
  }

  /** The search finds a match exactly when there is one, and then the
      leftmost one with the shortest body. */
  lemma FirstMatchOfIsLeftmostLazy(s: string, sw: string, ew: string)
    requires PieceText(sw) && PieceText(ew)
    ensures FirstMatchOf(s, sw, ew).None? <==> NoMatchOf(s, sw, ew)
    ensures FirstMatchOf(s, sw, ew).Some? ==> IsFirstMatchOf(s, FirstMatchOf(s, sw, ew).value, sw, ew)
  {
    var r := FirstMatchOf(s, sw, ew);
    forall i, a, b, e | IsMatchOf(s, i, a, b, e, sw, ew)
      ensures r.Some? && (r.value.start < i || (r.value.start == i && r.value.bodyEnd <= b))
    {
      TagEndAtCorrect(s, i, a, sw);
      TagEndAtCorrect(s, b, e, ew);
      assert FindTag(s, a, ew).Some?;
      assert StartsMatch(s, i, sw, ew);
      if r.None? || i < r.value.start {
        FirstMatchOfSkipsNone(s, sw, ew, i);
      }
    }
    if r.Some? {
      var m := r.value;
      TagEndAtCorrect(s, m.start, m.bodyStart, sw);
      TagEndAtCorrect(s, m.bodyEnd, m.end, ew);
      assert IsMatchOf(s, m.start, m.bodyStart, m.bodyEnd, m.end, sw, ew);
    }
  }

  /** Any leftmost, shortest match is the one the search returns. */
  lemma FirstMatchOfUnique(s: string, m: Match, sw: string, ew: string)
    requires PieceText(sw) && PieceText(ew)
    requires IsFirstMatchOf(s, m, sw, ew)
    ensures FirstMatchOf(s, sw, ew) == Some(m)
  {
    FirstMatchOfIsLeftmostLazy(s, sw, ew);
    var f := FirstMatchOf(s, sw, ew).value;
    assert IsMatchOf(s, f.start, f.bodyStart, f.bodyEnd, f.end, sw, ew);
    assert IsMatchOf(s, m.start, m.bodyStart, m.bodyEnd, m.end, sw, ew);
    assert f.start == m.start && f.bodyEnd == m.bodyEnd;
    TagEndAtCorrect(s, m.start, m.bodyStart, sw);
    TagEndAtCorrect(s, f.start, f.bodyStart, sw);
    TagEndAtCorrect(s, m.bodyEnd, m.end, ew);
    TagEndAtCorrect(s, f.bodyEnd, f.end, ew);
  }

  /** `FirstMatch` finds a match exactly when `patchRegex` matches, and then
      the leftmost match with the shortest body. */
  lemma FirstMatchIsLeftmostLazy(s: string)
    ensures FirstMatch(s).None? <==> NoMatch(s)
    ensures FirstMatch(s).Some? ==> FirstMatch(s).value.WithinBounds(s) && IsFirstMatch(s, FirstMatch(s).value)
  {
    TextsArePieceTexts();
    FirstMatchOfIsLeftmostLazy(s, StartText, EndText);
  }

  /** The declarative description pins the match down: any match that is
      leftmost with the shortest body is the one `FirstMatch` returns. */
  lemma FirstMatchUnique(s: string, m: Match)
    requires IsFirstMatch(s, m)
    ensures FirstMatch(s) == Some(m)
  {
    TextsArePieceTexts();
    FirstMatchOfUnique(s, m, StartText, EndText);
  }

  /** Both marker texts start with a space and hold no newline and no `*`. */
  lemma TextsArePieceTexts()
    ensures PieceText(StartText) && PieceText(EndText)
  {
  }

  /** Each marker ends with its only newline, preceded by `*` and `/`. */
  lemma MarkerFacts()
    ensures NewlineOnlyAtEnd(TagStart) && NewlineOnlyAtEnd(TagEnd)
    ensures TagStart[|TagStart| - 3] == '*' && TagEnd[|TagEnd| - 3] == '*'
  {
    MarkersEndWithNewline();
  }

  /** Each marker holds one newline, at its end. */
  lemma MarkersEndWithNewline()
    ensures NewlineOnlyAtEnd(TagStart) && NewlineOnlyAtEnd(TagEnd)
  {
  }

  /** The markers hold no `$`, and the end marker does not start with a
      character that could follow `$` in a replacement pattern. */
  lemma MarkersDollarFree()
    ensures '$' !in TagStart && '$' !in TagEnd && !IsPatternChar(TagEnd[0])
  {
  }

  /** The two markers end with their only newline and cannot overlap. */
  lemma MarkersDisjoint()
    ensures DisjointMarkers(TagStart, TagEnd) && DisjointMarkers(TagEnd, TagStart)
  {
    MarkerFacts();
  }

  /** What every text matched by a marker piece looks like: it ends with its
      only newline, and the character two before that newline is a space or
      the text's last character, never `*`. */
  predicate TagShaped(t: string) {
    && |t| >= 3 && t[|t| - 1] == '\n' && t[|t| - 3] != '*'
    && forall j :: 0 <= j < |t| - 1 ==> t[j] != '\n'
  }

  lemma TagInstanceShape(t: string, lit: string)
    requires PieceText(lit)
    ensures IsTagInstance(t, lit) ==> TagShaped(t)
  {
    if IsTagInstance(t, lit) {
      var k: nat, m: nat :| t == TagText(k, lit, m);
        assert '\n' !in lit && '*' !in lit;
      TagTextAt(k, lit, m, 0);
      TagTextAt(k, lit, m, |t| - 1);
      TagTextAt(k, lit, m, |t| - 3);
      if m == 0 {
        assert t[|t| - 3] == lit[|lit| - 1];
      }
      forall j | 0 <= j < |t| - 1 ensures t[j] != '\n' {
        TagTextAt(k, lit, m, j);
        if k <= j < k + |lit| {
          assert lit[j - k] in lit;
        }
      }
    }
  }

  /** No piece of `s` is matched by the marker piece with text `lit`. */
  ghost predicate NoTagIn(s: string, lit: string) {
    forall i, e :: !TagAt(s, i, e, lit)
  }

  /** No piece of `s` is matched by the `Start` marker piece. */
  ghost predicate NoStartTagIn(s: string) {
    NoTagIn(s, StartText)
  }

  /** Every marker piece holds a newline, so a text without one holds none. */
  lemma NoStartTagWithoutNewline(s: string)
    requires '\n' !in s
    ensures NoStartTagIn(s)
  {
    TextsArePieceTexts();
    forall i, e | 0 <= i <= e <= |s| ensures !IsTagInstance(s[i..e], StartText) {
      TagInstanceShape(s[i..e], StartText);
      if e - i >= 3 {
        assert s[i..e][e - i - 1] in s;
      }
    }
  }

  /** What the markers look like at their end: the only newline is last,
      two characters after a `*`. */
  predicate StarClosed(m: string) {
    NewlineOnlyAtEnd(m) && |m| >= 3 && m[|m| - 3] == '*'
  }

  /** A text ending inside or at the end of a `*`-closed marker at `n` is not
      shaped like a marker piece. */
  lemma NotShapedEndingInMarker(x: string, n: nat, mk: string, i: nat, e: nat)
    requires StarClosed(mk) && n + |mk| <= |x| && x[n..n + |mk|] == mk
    requires i <= e && n < e <= n + |mk|
    ensures !TagShaped(x[i..e])
  {
    if e - i >= 3 {
      if e < n + |mk| {
        assert x[i..e][e - i - 1] == x[n..n + |mk|][e - 1 - n] != '\n';
      } else if e - 3 >= i {
        assert x[i..e][e - i - 3] == x[n..n + |mk|][|mk| - 3] == '*';
      }
    }
  }

  /** A text that runs across a newline before its last character is not
      shaped like a marker piece. */
  lemma NotShapedAcrossNewline(x: string, k: nat, i: nat, e: nat)
    requires i <= k && k + 1 < e <= |x| && x[k] == '\n'
    ensures !TagShaped(x[i..e])
  {
    assert x[i..e][k - i] == '\n';
  }

  /** Surrounding text with `*`-closed markers creates no marker piece for
      `lit`: a piece cannot run across a newline, and the text before each
      marker's newline is `*` and `/`, never a space or a letter. */
  lemma NoTagAround(t: string, a: string, p: string, z: string, lit: string)
    requires StarClosed(a) && StarClosed(z) && PieceText(lit)
    requires NoTagIn(t, lit) && NoTagIn(p, lit)
    ensures NoTagIn(t + a + p + z, lit)
  {
    var x := t + a + p + z;
    var n1 := |t|;
    var n2 := n1 + |a|;
    var n3 := n2 + |p|;
    assert x[..n1] == t && x[n2..n3] == p && x[n1..n2] == a && x[n3..] == z;
    forall i, e | 0 <= i <= e <= |x| ensures !IsTagInstance(x[i..e], lit) {
      TagInstanceShape(x[i..e], lit);
      if e <= n1 {
        assert x[i..e] == x[..n1][i..e];
        assert !TagAt(t, i, e, lit);
      } else if e <= n2 {
        NotShapedEndingInMarker(x, n1, a, i, e);
      } else if e <= n3 && i >= n2 {
        assert x[i..e] == x[n2..n3][i - n2..e - n2];
        assert !TagAt(p, i - n2, e - n2, lit);
      } else if e <= n3 {
        assert x[n2 - 1] == x[n1..n2][|a| - 1];
        NotShapedAcrossNewline(x, n2 - 1, i, e);
      } else {
        NotShapedEndingInMarker(x, n3, z, i, e);
      }
    }
  }

  /** Surrounding text with the literal markers creates no `Start` piece. */
  lemma NoStartTagAroundBlock(t: string, p: string)
    requires NoStartTagIn(t) && NoStartTagIn(p)
    ensures NoStartTagIn(t + TagStart + p + TagEnd)
  {
    MarkerFacts();
    TextsArePieceTexts();
    NoTagAround(t, TagStart, p, TagEnd, StartText);
  }

  /** A match of a pattern made of marker `a`, any text, marker `z`, all
      literal: `a` at `i` and `z` at `b`. */
  ghost predicate IsLiteralMatchOf(s: string, i: int, b: int, a: string, z: string) {
    OccursAt(s, a, i) && i + |a| <= b && OccursAt(s, z, b)
  }

  /** A match of the pattern the markers were evidently meant to compile to,
      `TagStart`, any text, `TagEnd`, all literal. */
  ghost predicate IsLiteralMatch(s: string, i: int, b: int) {
    IsLiteralMatchOf(s, i, b, TagStart, TagEnd)
  }

  /** The first match of `a`, any text, `z`: the first `a` and the first `z`
      after it. When the first `a` has no `z` after it, no later one has
      either. */
  function LiteralFirstMatchOf(s: string, a: string, z: string): (r: Option<Match>)
    ensures r.Some? ==> r.value.WithinBounds(s)
  {
    var i := IndexOf(s, a);
    if i < 0 then None
    else
      var b := IndexFrom(s, z, i + |a|);
      if b < 0 then None else Some(Match(i, i + |a|, b, b + |z|))
  }

  /** The first match of the escaped pattern. */
  function LiteralFirstMatch(s: string): (r: Option<Match>)
    ensures r.Some? ==> r.value.WithinBounds(s)
  {
    LiteralFirstMatchOf(s, TagStart, TagEnd)
  }

  /** `LiteralFirstMatchOf` finds the leftmost literal match with the
      shortest body, and finds none exactly when there is none. */
  lemma LiteralFirstMatchOfIsLeftmostLazy(s: string, a: string, z: string)
    ensures LiteralFirstMatchOf(s, a, z).None? <==> forall i, b :: !IsLiteralMatchOf(s, i, b, a, z)
    ensures LiteralFirstMatchOf(s, a, z).Some? ==>
              var m := LiteralFirstMatchOf(s, a, z).value;
              && m.bodyStart == m.start + |a| && m.end == m.bodyEnd + |z|
              && IsLiteralMatchOf(s, m.start, m.bodyEnd, a, z)
              && forall i, b :: IsLiteralMatchOf(s, i, b, a, z) ==> m.start < i || (m.start == i && m.bodyEnd <= b)
  {
    var i0 := IndexOf(s, a);
    forall i, b | IsLiteralMatchOf(s, i, b, a, z)
      ensures LiteralFirstMatchOf(s, a, z).Some?
      ensures i0 < i || (i0 == i && LiteralFirstMatchOf(s, a, z).value.bodyEnd <= b)
    {
      assert i0 != -1 && i0 <= i;
      assert OccursAt(s, z, b) && i0 + |a| <= b;
    }
    if LiteralFirstMatchOf(s, a, z).Some? {
      assert IsLiteralMatchOf(s, i0, LiteralFirstMatchOf(s, a, z).value.bodyEnd, a, z);
    }
  }

  /** `LiteralFirstMatch` finds the leftmost literal match with the shortest
      body, and finds none exactly when there is none. */
  lemma LiteralFirstMatchIsLeftmostLazy(s: string)
    ensures LiteralFirstMatch(s).None? <==> forall i, b :: !IsLiteralMatch(s, i, b)
    ensures LiteralFirstMatch(s).Some? ==>
              var m := LiteralFirstMatch(s).value;
              && m.bodyStart == m.start + |TagStart| && m.end == m.bodyEnd + |TagEnd|
              && IsLiteralMatch(s, m.start, m.bodyEnd)
              && forall i, b :: IsLiteralMatch(s, i, b) ==> m.start < i || (m.start == i && m.bodyEnd <= b)
  {
    LiteralFirstMatchOfIsLeftmostLazy(s, TagStart, TagEnd);
    forall i, b | IsLiteralMatchOf(s, i, b, TagStart, TagEnd) ensures IsLiteralMatch(s, i, b) {
    }
    forall i, b | IsLiteralMatch(s, i, b) ensures IsLiteralMatchOf(s, i, b, TagStart, TagEnd) {
    }
  }

  /** In `w + a + p + z`, with no `a` in `w` and no `z` in `p`, the literal
      match is `a + p + z` itself. */
  lemma LiteralMatchAround(w: string, a: string, p: string, z: string)
    requires NewlineOnlyAtEnd(a) && NewlineOnlyAtEnd(z)
    requires !Contains(w, a) && !Contains(p, z)
    ensures var s := w + (a + p + z);
            LiteralFirstMatchOf(s, a, z) == Some(Match(|w|, |w| + |a|, |s| - |z|, |s|))
  {
    Regroup(w, a, p, z);
    var s := w + a + p + z;
    FirstAfterPrefix(w, a, p, z);
    FirstAfterMiddle(w, a, p, z);
    assert IndexOf(s, a) == |w| && IndexFrom(s, z, |w| + |a|) == |w| + |a| + |p|;
  }
}
