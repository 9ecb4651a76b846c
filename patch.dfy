/** The text transforms behind the install and uninstall commands: the
    contents of one target file in, the new contents or an error out. Reading
    and writing the files, locating them and the logging around them are not
    part of this module. */
module Patch {
  import opened Wrappers
  import opened JsString
  import opened PatchPattern
  import opened Occurrences

  /** Why a transform refused to produce new contents. */
  datatype PatchError =
    | TargetEmpty    // the target file holds only whitespace
    | PatchEmpty     // the payload file holds only whitespace
    | PatchNotFound  // uninstall: a marker is missing from the target

  /** The marked block that install writes: start marker, payload, end
      marker. It adds no `$` of its own, so `replace` expands only what the
      payload holds. */
  function Block(payload: string): (r: string)
    ensures |r| == |TagStart| + |payload| + |TagEnd|
    ensures '$' !in payload ==> '$' !in r
  {
    MarkersDollarFree();
    TagStart + payload + TagEnd
  }

  /** Install's last step: with a match, `target.replace(pattern, block)`,
      which expands the `$` patterns of `block` and replaces that match only;
      without one, `target + block`. */
  function ReplaceOrAppend(target: string, block: string, m: Option<Match>): (r: string)
    requires m.Some? ==> m.value.WithinBounds(target)
    ensures m.None? ==> |r| == |target| + |block| && r[..|target|] == target && r[|target|..] == block
    ensures m.Some? ==>
              var kept := |target| - m.value.end;
              && |r| >= m.value.start + kept
              && r[..m.value.start] == target[..m.value.start]
              && r[|r| - kept..] == target[m.value.end..]
  {
    match m
    case None => target + block
    case Some(f) =>
      var before := target[..f.start];
      var after := target[f.end..];
      var x := Substitute(block, target[f.start..f.end], before, after);
      assert (before + x + after)[..f.start] == before;
      assert (before + x + after)[|before + x|..] == after;
      before + x + after
  }

  /** The install transform as written: a blank target is refused first, then
      a blank payload; otherwise the first match of `patchRegex` is replaced
      by the block, or the block is appended when there is no match. */
  function Install(target: string, payload: string): (r: Result<string, PatchError>)
    ensures r == Failure(TargetEmpty) <==> AllWhitespace(target)
    ensures r == Failure(PatchEmpty) <==> !AllWhitespace(target) && AllWhitespace(payload)
    ensures r.Success? <==> !AllWhitespace(target) && !AllWhitespace(payload)
  {
    if IsBlank(target) then Failure(TargetEmpty)
    else if IsBlank(payload) then Failure(PatchEmpty)
    else Success(ReplaceOrAppend(target, Block(payload), FirstMatch(target)))
  }

  /** The install transform with the markers escaped in the pattern, so that
      it matches the literal start marker, any text, and the first literal end
      marker after it. Everything else is as in `Install`. */
  function InstallLiteral(target: string, payload: string): (r: Result<string, PatchError>)
    ensures r == Failure(TargetEmpty) <==> AllWhitespace(target)
    ensures r == Failure(PatchEmpty) <==> !AllWhitespace(target) && AllWhitespace(payload)
    ensures r.Success? <==> !AllWhitespace(target) && !AllWhitespace(payload)
  {
    if IsBlank(target) then Failure(TargetEmpty)
    else if IsBlank(payload) then Failure(PatchEmpty)
    else Success(ReplaceOrAppend(target, Block(payload), LiteralFirstMatch(target)))
  }

  /** The uninstall transform: a blank target is refused; otherwise the text
      from the first start marker to the end of the last end marker is cut
      out, and a missing marker is an error. */
  function Uninstall(target: string): (r: Result<string, PatchError>)
    ensures r == Failure(TargetEmpty) <==> AllWhitespace(target)
    ensures r == Failure(PatchNotFound) <==>
              !AllWhitespace(target) && (!Contains(target, TagStart) || !Contains(target, TagEnd))
    ensures r.Success? ==> |r.value| <= |target| + |target| - |TagStart| - |TagEnd|
  {
    if IsBlank(target) then Failure(TargetEmpty)
    else
      var i := IndexOf(target, TagStart);
      var j := LastIndexOf(target, TagEnd);
      if i == -1 || j == -1 then Failure(PatchNotFound)
      else Success(target[..i] + target[j + |TagEnd|..])
  }

  lemma InstallIs(target: string, payload: string)
    requires !AllWhitespace(target) && !AllWhitespace(payload)
    ensures Install(target, payload) == Success(ReplaceOrAppend(target, Block(payload), FirstMatch(target)))
  {
  }

  lemma InstallLiteralIs(target: string, payload: string)
    requires !AllWhitespace(target) && !AllWhitespace(payload)
    ensures InstallLiteral(target, payload)
         == Success(ReplaceOrAppend(target, Block(payload), LiteralFirstMatch(target)))
  {
  }

  lemma UninstallIs(target: string, i: nat, j: nat)
    requires !AllWhitespace(target)
    requires IndexOf(target, TagStart) == i && LastIndexOf(target, TagEnd) == j
    ensures j + |TagEnd| <= |target|
    ensures Uninstall(target) == Success(target[..i] + target[j + |TagEnd|..])
  {
  }

  /** The block's markers survive the `$` expansion of `replace`; only the
      payload between them is expanded. */
  lemma SubstituteBlock(payload: string, matched: string, before: string, after: string)
    ensures Substitute(Block(payload), matched, before, after)
         == TagStart + Substitute(payload, matched, before, after) + TagEnd
  {
    MarkersDollarFree();
    SubstituteWrapped(TagStart, payload, TagEnd, matched, before, after);
  }

  /** Without a match of `patchRegex`, install appends the block to the
      target and changes nothing else. */
  lemma InstallAppendsWithoutMatch(target: string, payload: string)
    requires !AllWhitespace(target) && !AllWhitespace(payload)
    requires NoMatch(target)
    ensures Install(target, payload) == Success(target + Block(payload))
  {
    FirstMatchIsLeftmostLazy(target);
    InstallIs(target, payload);
  }

  /** With a match, install replaces the leftmost, shortest match `m` and only
      it: the text before and after it is kept, the markers are written as
      they are and the payload goes through the `$` expansion of `replace`
      (a no-op for a payload without `$`). */
  lemma InstallReplacesFirstMatch(target: string, payload: string, m: Match)
    requires !AllWhitespace(target) && !AllWhitespace(payload)
    requires IsFirstMatch(target, m)
    ensures m.WithinBounds(target)
    ensures var before := target[..m.start];
            var after := target[m.end..];
            Install(target, payload)
              == Success(before + TagStart + Substitute(payload, target[m.start..m.end], before, after)
                         + TagEnd + after)
    ensures '$' !in payload ==>
              Install(target, payload) == Success(target[..m.start] + Block(payload) + target[m.end..])
  {
    FirstMatchUnique(target, m);
    InstallWithMatch(target, payload, m);
  }

  lemma InstallWithMatch(target: string, payload: string, m: Match)
    requires !AllWhitespace(target) && !AllWhitespace(payload)
    requires FirstMatch(target) == Some(m)
    ensures m.WithinBounds(target)
    ensures var before := target[..m.start];
            var after := target[m.end..];
            Install(target, payload)
              == Success(before + TagStart + Substitute(payload, target[m.start..m.end], before, after)
                         + TagEnd + after)
    ensures '$' !in payload ==>
              Install(target, payload) == Success(target[..m.start] + Block(payload) + target[m.end..])
  {
    InstallIs(target, payload);
    ReplaceWithBlock(target, payload, m);
    if '$' !in payload {
      ReplaceWithLiteralBlock(target, payload, m);
    }
  }

  /** Replacing a match by a block keeps the markers and expands the payload. */
  lemma ReplaceWithBlock(target: string, payload: string, m: Match)
    requires m.WithinBounds(target)
    ensures var before := target[..m.start];
            var after := target[m.end..];
            ReplaceOrAppend(target, Block(payload), Some(m))
              == before + TagStart + Substitute(payload, target[m.start..m.end], before, after) + TagEnd + after
  {
    var before := target[..m.start];
    var after := target[m.end..];
    var x := Substitute(payload, target[m.start..m.end], before, after);
    SubstituteBlock(payload, target[m.start..m.end], before, after);
    RegroupInside(before, TagStart, x, TagEnd, after);
  }

  /** A block whose payload holds no `$` replaces a match as it is. */
  lemma ReplaceWithLiteralBlock(target: string, payload: string, m: Match)
    requires m.WithinBounds(target) && '$' !in payload
    ensures ReplaceOrAppend(target, Block(payload), Some(m)) == target[..m.start] + Block(payload) + target[m.end..]
  {
  }

  /** Uninstall cuts from the first start marker `i` to the end of the last
      end marker `j`: the result is the text before `i` followed by the text
      after that marker. */
  lemma UninstallCutsFirstStartToLastEnd(target: string, i: nat, j: nat)
    requires !AllWhitespace(target)
    requires OccursAt(target, TagStart, i) && forall k :: k < i ==> !OccursAt(target, TagStart, k)
    requires OccursAt(target, TagEnd, j) && forall k :: j < k ==> !OccursAt(target, TagEnd, k)
    ensures Uninstall(target) == Success(target[..i] + target[j + |TagEnd|..])
  {
    assert IndexOf(target, TagStart) == i;
    assert LastIndexOf(target, TagEnd) == j;
    UninstallIs(target, i, j);
  }

  /** When the end marker at `j` follows the start marker at `i`, the text
      from one to the other is a whole marked block: the two markers do not
      overlap. */
  lemma UninstallRemovesMarkedSpan(target: string, i: nat, j: nat)
    requires OccursAt(target, TagStart, i) && OccursAt(target, TagEnd, j) && i <= j
    ensures i + |TagStart| <= j
    ensures target[i..j + |TagEnd|] == Block(target[i + |TagStart|..j])
  {
    MarkersDisjoint();
    SpanBetween(target, TagStart, TagEnd, i, j);
  }

  /** When the last end marker comes before the first start marker, uninstall
      does not check the order: the text between the two markers is kept
      twice and both markers stay. */
  lemma UninstallMisorderedDuplicates(target: string, i: nat, j: nat)
    requires !AllWhitespace(target)
    requires OccursAt(target, TagStart, i) && forall k :: k < i ==> !OccursAt(target, TagStart, k)
    requires OccursAt(target, TagEnd, j) && forall k :: j < k ==> !OccursAt(target, TagEnd, k)
    requires j < i
    ensures j + |TagEnd| <= i
    ensures var e := j + |TagEnd|;
            Uninstall(target) == Success(target[..e] + target[e..i] + target[e..i] + target[i..])
  {
    assert j + |TagEnd| <= i by {
      MarkersDisjoint();
      if i < j + |TagEnd| {
        NotInsideOther(target, TagEnd, TagStart, j, i);
      }
    }
    UninstallCutsFirstStartToLastEnd(target, i, j);
    KeepBothSides(target, j + |TagEnd|, i);
  }

  /** Keeping the text before `i` and the text from `e` on, with `e <= i`,
      keeps `target[e..i]` twice. */
  lemma KeepBothSides(target: string, e: nat, i: nat)
    requires e <= i <= |target|
    ensures target[..i] + target[e..] == target[..e] + target[e..i] + target[e..i] + target[i..]
  {
    var front, between, back := target[..e], target[e..i], target[i..];
    assert target[..i] == front + between;
    assert target[e..] == between + back;
  }

  /** Uninstalling from a target followed by one marked region (a start
      marker, any text, an end marker) gives the target back. */
  lemma UninstallRemovesTrailingRegion(target: string, mid: string)
    requires !AllWhitespace(target) && !Contains(target, TagStart)
    ensures Uninstall(target + TagStart + mid + TagEnd) == Success(target)
  {
    var s := target + TagStart + mid + TagEnd;
    MarkersDisjoint();
    FirstAfterPrefix(target, TagStart, mid, TagEnd);
    LastAtEnd(target, TagStart, mid, TagEnd);
    NotAllWhitespaceAppend(target, TagStart + mid + TagEnd);
    Regroup(target, TagStart, mid, TagEnd);
    UninstallIs(s, |target|, |s| - |TagEnd|);
    CutAround(target, TagStart, mid, TagEnd);
  }

  /** Uninstall removes a block appended to a target without start marker. */
  lemma UninstallRemovesBlock(target: string, payload: string)
    requires !AllWhitespace(target) && !Contains(target, TagStart)
    ensures Uninstall(target + Block(payload)) == Success(target)
  {
    UninstallRemovesTrailingRegion(target, payload);
    Regroup(target, TagStart, payload, TagEnd);
  }

  /** Round trip: installing into a target that holds no match and no start
      marker appends the block, and uninstalling gives the target back. */
  lemma UninstallInvertsInstall(target: string, payload: string)
    requires !AllWhitespace(target) && !AllWhitespace(payload)
    requires NoMatch(target) && !Contains(target, TagStart)
    ensures Install(target, payload) == Success(target + Block(payload))
    ensures Uninstall(Install(target, payload).value) == Success(target)
  {
    InstallAppendsWithoutMatch(target, payload);
    UninstallRemovesBlock(target, payload);
  }

  /** Every match of `patchRegex` begins with a `Start` piece. */
  lemma NoMatchWithoutStartTag(s: string)
    requires NoStartTagIn(s)
    ensures NoMatch(s)
  {
  }

  /** A target and payload without `Start` pieces give an installed text in
      which `patchRegex` still finds nothing. */
  lemma NoMatchAfterBlock(target: string, payload: string)
    requires NoStartTagIn(target) && NoStartTagIn(payload)
    ensures NoMatch(target + Block(payload))
  {
    NoStartTagAroundBlock(target, payload);
    Regroup(target, TagStart, payload, TagEnd);
    NoMatchWithoutStartTag(target + Block(payload));
  }

  /** As written, `patchRegex` does not match the block install wrote, so
      installing again appends a second block after the first instead of
      replacing it. */
  lemma ReinstallAppendsSecondBlock(target: string, payload: string, payload2: string)
    requires !AllWhitespace(target) && !AllWhitespace(payload) && !AllWhitespace(payload2)
    requires NoStartTagIn(target) && NoStartTagIn(payload)
    ensures Install(target, payload) == Success(target + Block(payload))
    ensures Install(target + Block(payload), payload2) == Success(target + Block(payload) + Block(payload2))
  {
    NoMatchWithoutStartTag(target);
    InstallAppendsWithoutMatch(target, payload);
    NoMatchAfterBlock(target, payload);
    NotAllWhitespaceAppend(target, Block(payload));
    InstallAppendsWithoutMatch(target + Block(payload), payload2);
  }

  /** One concrete page: two installs leave two blocks in it. */
  lemma ReinstallOnPageDuplicatesBlock()
    ensures var page := "<html><head></head></html>";
            var style := "<style>x</style>";
            Install(page, style) == Success(page + Block(style))
            && Install(page + Block(style), style) == Success(page + Block(style) + Block(style))
  {
    var page := "<html><head></head></html>";
    var style := "<style>x</style>";
    assert !IsJsWhitespace(page[0]) && !IsJsWhitespace(style[0]);
    NoStartTagWithoutNewline(page);
    NoStartTagWithoutNewline(style);
    ReinstallAppendsSecondBlock(page, style, style);
  }

  /** Even after a second install, uninstall removes both blocks and gives
      the target back: it cuts from the first start marker to the last end
      marker. */
  lemma UninstallRemovesBothBlocks(target: string, payload: string, payload2: string)
    requires !AllWhitespace(target) && !Contains(target, TagStart)
    ensures Uninstall(target + Block(payload) + Block(payload2)) == Success(target)
  {
    var mid := payload + TagEnd + TagStart + payload2;
    RegroupTwo(target, TagStart, payload, TagEnd, payload2);
    UninstallRemovesTrailingRegion(target, mid);
  }

  /** With the markers escaped, the block install wrote is the first match,
      provided its payload holds no end marker and the target no start
      marker. */
  lemma LiteralMatchIsBlock(target: string, payload: string)
    requires !Contains(target, TagStart) && !Contains(payload, TagEnd)
    ensures var s := target + Block(payload);
            LiteralFirstMatch(s)
              == Some(Match(|target|, |target| + |TagStart|, |s| - |TagEnd|, |s|))
  {
    MarkersEndWithNewline();
    LiteralMatchAround(target, TagStart, payload, TagEnd);
  }

  /** With the markers escaped, installing again replaces the block install
      wrote, provided the old payload holds no end marker: the target keeps
      one block, holding the new payload after the `$` expansion of
      `replace` (with the old block as the matched text). */
  lemma LiteralReinstallReplacesBlock(target: string, payload: string, payload2: string)
    requires !AllWhitespace(target) && !AllWhitespace(payload) && !AllWhitespace(payload2)
    requires !Contains(target, TagStart) && !Contains(payload, TagEnd)
    ensures InstallLiteral(target, payload) == Success(target + Block(payload))
    ensures InstallLiteral(target + Block(payload), payload2)
         == Success(target + TagStart + Substitute(payload2, Block(payload), target, []) + TagEnd)
    ensures '$' !in payload2 ==>
              InstallLiteral(target + Block(payload), payload2) == Success(target + Block(payload2))
  {
    InstallLiteralAppends(target, payload);
    var s := target + Block(payload);
    LiteralReinstallIs(target, payload, payload2);
    ReplaceWholeSuffix(target, Block(payload), payload2, |target| + |TagStart|, |s| - |TagEnd|);
  }

  /** The second install with escaped markers replaces the installed block. */
  lemma LiteralReinstallIs(target: string, payload: string, payload2: string)
    requires !AllWhitespace(target) && !AllWhitespace(payload2)
    requires !Contains(target, TagStart) && !Contains(payload, TagEnd)
    ensures var s := target + Block(payload);
            var m := Match(|target|, |target| + |TagStart|, |s| - |TagEnd|, |s|);
            m.WithinBounds(s) && InstallLiteral(s, payload2) == Success(ReplaceOrAppend(s, Block(payload2), Some(m)))
  {
    LiteralMatchIsBlock(target, payload);
    NotAllWhitespaceAppend(target, Block(payload));
    InstallLiteralIs(target + Block(payload), payload2);
  }

  /** Replacing a match that spans everything after `w` keeps `w` and puts
      the new block after it. */
  lemma ReplaceWholeSuffix(w: string, b: string, payload: string, bs: nat, be: nat)
    requires |w| <= bs <= be <= |w + b|
    ensures var m := Match(|w|, bs, be, |w + b|);
            ReplaceOrAppend(w + b, Block(payload), Some(m))
              == w + TagStart + Substitute(payload, b, w, []) + TagEnd
    ensures '$' !in payload ==>
              ReplaceOrAppend(w + b, Block(payload), Some(Match(|w|, bs, be, |w + b|))) == w + Block(payload)
  {
    var s := w + b;
    var m := Match(|w|, bs, be, |s|);
    BlockParts(w, b);
    ReplaceWithBlock(s, payload, m);
    assert w + TagStart + Substitute(payload, b, w, []) + TagEnd + [] == w + TagStart + Substitute(payload, b, w, []) + TagEnd;
    if '$' !in payload {
      ReplaceWithLiteralBlock(s, payload, m);
      assert w + Block(payload) + [] == w + Block(payload);
    }
  }

  /** The pieces of `w + b` around `b`. */
  lemma BlockParts(w: string, b: string)
    ensures var s := w + b; s[..|w|] == w && s[|w|..|s|] == b && s[|s|..] == []
  {
  }

  /** With the markers escaped, installing into a target without start
      marker appends the block. */
  lemma InstallLiteralAppends(target: string, payload: string)
    requires !AllWhitespace(target) && !AllWhitespace(payload)
    requires !Contains(target, TagStart)
    ensures InstallLiteral(target, payload) == Success(target + Block(payload))
  {
    assert IndexOf(target, TagStart) == -1;
    InstallLiteralIs(target, payload);
  }

  /** Round trip with the escaped markers: install then uninstall gives the
      target back whenever the target holds no start marker. */
  lemma UninstallInvertsInstallLiteral(target: string, payload: string)
    requires !AllWhitespace(target) && !AllWhitespace(payload)
    requires !Contains(target, TagStart)
    ensures InstallLiteral(target, payload) == Success(target + Block(payload))
    ensures Uninstall(InstallLiteral(target, payload).value) == Success(target)
  {
    InstallLiteralAppends(target, payload);
    UninstallRemovesBlock(target, payload);
  }
}
