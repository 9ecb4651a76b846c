/** The JavaScript string built-ins the patcher relies on: `indexOf`,
    `lastIndexOf`, `trim`, and the `$`-pattern expansion that
    `String.prototype.replace` applies to a replacement string.
    Strings are sequences of characters, where JavaScript's are sequences of
    UTF-16 code units: the two agree on every index only while the text holds
    no character outside the Basic Multilingual Plane. The markers searched
    for are ASCII. */
module JsString {

  /** `t` occurs in `s` starting at index `i`. */
  predicate OccursAt(s: string, t: string, i: int) {
    0 <= i && i + |t| <= |s| && s[i..i + |t|] == t
  }

  /** `t` occurs somewhere in `s`. */
  ghost predicate Contains(s: string, t: string) {
    exists i :: OccursAt(s, t, i)
  }

  /** `s.indexOf(t, from)`: the first occurrence at or after `from`, or -1. */
  function IndexFrom(s: string, t: string, from: nat): (r: int)
    requires from <= |s|
    ensures r == -1 || (from <= r && OccursAt(s, t, r))
    ensures forall j :: from <= j && (r == -1 || j < r) ==> !OccursAt(s, t, j)
    decreases |s| - from
  {
    if from + |t| > |s| then -1
    else if OccursAt(s, t, from) then from
    else IndexFrom(s, t, from + 1)
  }

  /** `s.indexOf(t)`. */
  function IndexOf(s: string, t: string): (r: int)
    ensures r == -1 <==> !Contains(s, t)
    ensures r != -1 ==> OccursAt(s, t, r) && forall j :: j < r ==> !OccursAt(s, t, j)
  {
    IndexFrom(s, t, 0)
  }

  /** The last occurrence at or before `from`, or -1. */
  function LastFrom(s: string, t: string, from: int): (r: int)
    requires from <= |s| - |t|
    ensures r == -1 || (0 <= r <= from && OccursAt(s, t, r))
    ensures forall j :: r < j <= from ==> !OccursAt(s, t, j)
    decreases from + 1
  {
    if from < 0 then -1
    else if OccursAt(s, t, from) then from
    else LastFrom(s, t, from - 1)
  }

  /** `s.lastIndexOf(t)`. */
  function LastIndexOf(s: string, t: string): (r: int)
    ensures r == -1 <==> !Contains(s, t)
    ensures r != -1 ==> OccursAt(s, t, r) && forall j :: r < j ==> !OccursAt(s, t, j)
  {
    LastFrom(s, t, |s| - |t|)
  }

  /** The code points `String.prototype.trim` removes besides the range
      U+2000..U+200A: ECMAScript WhiteSpace (tab, vertical tab, form feed,
      space, no-break space, zero-width no-break space and the other Unicode
      space separators) and LineTerminator (LF, CR, U+2028, U+2029). */
  const WhitespaceCodes: seq<int> :=
    [0x09, 0x0B, 0x0C, 0x20, 0xA0, 0xFEFF, 0x1680, 0x202F, 0x205F, 0x3000,
     0x0A, 0x0D, 0x2028, 0x2029]

  /** The characters `trim` removes. */
  predicate IsJsWhitespace(c: char) {
    c as int in WhitespaceCodes || 0x2000 <= c as int <= 0x200A
  }

  predicate AllWhitespace(s: string) {
    forall j :: 0 <= j < |s| ==> IsJsWhitespace(s[j])
  }

  /** Where the run of whitespace that starts at `i` ends. */
  function SkipSpace(s: string, i: nat): (e: nat)
    requires i <= |s|
    ensures i <= e <= |s|
    ensures forall j :: i <= j < e ==> IsJsWhitespace(s[j])
    ensures e < |s| ==> !IsJsWhitespace(s[e])
    decreases |s| - i
  {
    if i < |s| && IsJsWhitespace(s[i]) then SkipSpace(s, i + 1) else i
  }

  /** Where the run of whitespace that ends at `e` starts, not going below
      `lo`. */
  function SkipSpaceBack(s: string, lo: nat, e: nat): (b: nat)
    requires lo <= e <= |s|
    ensures lo <= b <= e
    ensures forall j :: b <= j < e ==> IsJsWhitespace(s[j])
    ensures lo < b ==> !IsJsWhitespace(s[b - 1])
    decreases e - lo
  {
    if lo < e && IsJsWhitespace(s[e - 1]) then SkipSpaceBack(s, lo, e - 1) else e
  }

  /** `s.trim()`: `s` without its leading and trailing whitespace. */
  function Trim(s: string): (r: string)
    ensures r == [] || (!IsJsWhitespace(r[0]) && !IsJsWhitespace(r[|r| - 1]))
    ensures exists i :: OccursAt(s, r, i) && AllWhitespace(s[..i]) && AllWhitespace(s[i + |r|..])
  {
    var i := SkipSpace(s, 0);
    var e := SkipSpaceBack(s, i, |s|);
    TrimmedSlice(s, i, e);
    s[i..e]
  }

  /** The slice between the leading and the trailing whitespace has the
      shape `trim` promises. */
  lemma TrimmedSlice(s: string, i: nat, e: nat)
    requires i <= e <= |s|
    requires forall j :: 0 <= j < i ==> IsJsWhitespace(s[j])
    requires forall j :: e <= j < |s| ==> IsJsWhitespace(s[j])
    requires i < e ==> !IsJsWhitespace(s[i]) && !IsJsWhitespace(s[e - 1])
    ensures var r := s[i..e]; r == [] || (!IsJsWhitespace(r[0]) && !IsJsWhitespace(r[|r| - 1]))
    ensures OccursAt(s, s[i..e], i) && AllWhitespace(s[..i]) && AllWhitespace(s[e..])
  {
    forall j | 0 <= j < i ensures IsJsWhitespace(s[..i][j]) {
      assert s[..i][j] == s[j];
    }
    forall j | 0 <= j < |s| - e ensures IsJsWhitespace(s[e..][j]) {
      assert s[e..][j] == s[e + j];
    }
  }

  /** A text trims to nothing exactly when every character of it is whitespace. */
  lemma BlankIffAllWhitespace(s: string)
    ensures Trim(s) == [] <==> AllWhitespace(s)
  {
    var r := Trim(s);
    var i :| OccursAt(s, r, i) && AllWhitespace(s[..i]) && AllWhitespace(s[i + |r|..]);
    if r == [] {
      forall j | 0 <= j < |s| ensures IsJsWhitespace(s[j]) {
        if j < i {
          assert s[j] == s[..i][j];
        } else {
          assert s[j] == s[i..][j - i];
        }
      }
    } else {
      assert s[i] == r[0];
    }
  }

  /** `!s.trim()`: the text is empty once trimmed, which is the case exactly
      when it holds only whitespace. */
  function IsBlank(s: string): (b: bool)
    ensures b <==> AllWhitespace(s)
  {
    BlankIffAllWhitespace(s);
    Trim(s) == []
  }

  /** Appending text to a text with a non-whitespace character keeps it. */
  lemma NotAllWhitespaceAppend(a: string, b: string)
    requires !AllWhitespace(a)
    ensures !AllWhitespace(a + b)
  {
    var j :| 0 <= j < |a| && !IsJsWhitespace(a[j]);
    assert (a + b)[j] == a[j];
  }

  /** The characters that follow `$` in a replacement pattern when no capture
      group exists: `$$`, `$&`, `` $` `` and `$'`. */
  predicate IsPatternChar(c: char) {
    c == '$' || c == '&' || c == '`' || c == '\''
  }

  /** `t` starts with one of the two-character patterns. */
  predicate PatternAt(t: string) {
    |t| >= 2 && t[0] == '$' && IsPatternChar(t[1])
  }

  /** What the pattern `$c` stands for. */
  function PatternValue(c: char, matched: string, before: string, after: string): string {
    match c
    case '$' => "$"
    case '&' => matched
    case '`' => before
    case _ => after
  }

  /** GetSubstitution for a regular expression without capture groups: the
      replacement string that `replace` inserts, with `$$` read as `$`, `$&`
      as the matched text, `` $` `` as the text before the match and `$'` as
      the text after it; every other character, a lone `$` included, is
      copied. */
  function Substitute(template: string, matched: string, before: string, after: string): (r: string)
    ensures '$' !in template ==> r == template
    decreases |template|
  {
    if |template| == 0 then []
    else if PatternAt(template) then
      PatternValue(template[1], matched, before, after) + Substitute(template[2..], matched, before, after)
    else
      assert '$' !in template ==> '$' !in template[1..] && template == [template[0]] + template[1..];
      [template[0]] + Substitute(template[1..], matched, before, after)
  }

  /** A `$`-free head is copied and the rest is expanded on its own. */
  lemma {:induction false} SubstituteLiteralHead(a: string, b: string, matched: string, before: string, after: string)
    requires '$' !in a
    ensures Substitute(a + b, matched, before, after) == a + Substitute(b, matched, before, after)
    decreases |a|
  {
    if |a| > 0 {
      assert (a + b)[0] == a[0] != '$';
      assert (a + b)[1..] == a[1..] + b;
      assert '$' !in a[1..];
      SubstituteLiteralHead(a[1..], b, matched, before, after);
      var rest := Substitute(b, matched, before, after);
      assert Substitute(a + b, matched, before, after) == [a[0]] + (a[1..] + rest);
      assert [a[0]] + (a[1..] + rest) == ([a[0]] + a[1..]) + rest;
      assert a == [a[0]] + a[1..];
    } else {
      assert a + b == b;
    }
  }

  /** A `$`-free tail that does not start with a pattern character is copied
      after the expansion of what precedes it. */
  lemma {:induction false} SubstituteLiteralTail(b: string, c: string, matched: string, before: string, after: string)
    requires '$' !in c
    requires |c| == 0 || !IsPatternChar(c[0])
    ensures Substitute(b + c, matched, before, after) == Substitute(b, matched, before, after) + c
    decreases |b|
  {
    var x := b + c;
    if |b| == 0 {
      assert x == c;
    } else if PatternAt(b) {
      assert x[0] == b[0] && x[1] == b[1];
      assert x[2..] == b[2..] + c;
      SubstituteLiteralTail(b[2..], c, matched, before, after);
      var v := PatternValue(b[1], matched, before, after);
      assert Substitute(x, matched, before, after) == v + (Substitute(b[2..], matched, before, after) + c);
    } else {
      assert x[0] == b[0];
      assert !PatternAt(x) by {
        if |b| >= 2 {
          assert x[1] == b[1];
        } else if |x| >= 2 {
          assert x[1] == c[0];
        }
      }
      assert x[1..] == b[1..] + c;
      SubstituteLiteralTail(b[1..], c, matched, before, after);
      assert Substitute(x, matched, before, after) == [b[0]] + (Substitute(b[1..], matched, before, after) + c);
    }
  }

  /** Text wrapped between a `$`-free head and a `$`-free tail that does not
      start with a pattern character: only the middle is expanded. */
  lemma SubstituteWrapped(a: string, p: string, z: string, matched: string, before: string, after: string)
    requires '$' !in a && '$' !in z && (|z| == 0 || !IsPatternChar(z[0]))
    ensures Substitute(a + p + z, matched, before, after) == a + Substitute(p, matched, before, after) + z
  {
    assert a + p + z == a + (p + z);
    SubstituteLiteralHead(a, p + z, matched, before, after);
    SubstituteLiteralTail(p, z, matched, before, after);
  }
}
