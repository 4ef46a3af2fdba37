/**
  The block structure of a file, read as stretches of lines: where each block starts and ends, and
  which class that gives its lines.  No state is carried from line to line here.
 */
module LinkifyStretches {
  import opened Wrappers
  import opened LinkifyBlocks
  import opened LinkifyClassify

  // ----- Ends of blocks -----

  datatype Closer = RuleOrDots | CommentEnd | TagEnd(tag: Tag) | FenceEnd(marker: Marker)

  predicate Closes(word: WordChars, c: Closer, raw: string) {
    match c
    case RuleOrDots => Line(raw) == "---" || Line(raw) == "..."
    case CommentEnd => Has(word, CommentClose, Line(raw))
    case TagEnd(tag) => Has(word, TagClose(tag), Line(raw))
    case FenceEnd(m) => FenceClose(Line(raw), m)
  }

  /** The first line from k on that closes, or the number of lines. */
  function FirstClose(word: WordChars, lines: seq<string>, c: Closer, k: nat): (e: nat)
    requires k <= |lines|
    ensures k <= e <= |lines| && (e < |lines| ==> Closes(word, c, lines[e]))
    ensures forall j :: k <= j < e ==> !Closes(word, c, lines[j])
    decreases |lines| - k
  {
    if k == |lines| || Closes(word, c, lines[k]) then k else FirstClose(word, lines, c, k + 1)
  }

  /** The line after the one that closes. */
  function EndFrom(word: WordChars, lines: seq<string>, c: Closer, k: nat): (e: nat)
    requires k <= |lines|
    ensures k <= e <= |lines|
  {
    var e := FirstClose(word, lines, c, k);
    if e < |lines| then e + 1 else e
  }

  // ----- Stretches -----

  /** The line after the front matter. */
  function Start(word: WordChars, lines: seq<string>): (i: nat)
    ensures i <= |lines|
  {
    if lines != [] && Line(lines[0]) == "---" then EndFrom(word, lines, RuleOrDots, 1) else 0
  }

  predicate OpensComment(word: WordChars, raw: string) {
    Has(word, CommentOpen, Line(raw)) && !Has(word, CommentClose, Line(raw))
  }

  /** The first block tag of the line, unless the line closes it. */
  function OpenTag(word: WordChars, raw: string): Option<Tag> {
    var t := FirstTag(word, Line(raw));
    if t.Some? && Has(word, TagClose(t.value), Line(raw)) then None else t
  }

  /** The line after the comment that line i opens, or after line i. */
  function CommentUpTo(word: WordChars, lines: seq<string>, i: nat): (m: nat)
    requires i < |lines|
    ensures i < m <= |lines|
  {
    if OpensComment(word, lines[i]) then EndFrom(word, lines, CommentEnd, i + 1) else i + 1
  }

  /** The line after the block that line i opens, or after line i. */
  function BlockUpTo(word: WordChars, lines: seq<string>, i: nat): (e: nat)
    requires i < |lines|
    ensures i < e <= |lines|
  {
    var fence := FenceOpen(Line(lines[i]));
    if fence.Some? then EndFrom(word, lines, FenceEnd(fence.value), i + 1)
    else
      var m := CommentUpTo(word, lines, i);
      var tag := OpenTag(word, lines[i]);
      if tag.Some? then EndFrom(word, lines, TagEnd(tag.value), m) else m
  }

  /** Going from block to block, starting at `from`, one comes to line i. */
  ghost predicate Reaches(word: WordChars, lines: seq<string>, from: nat, i: nat)
    decreases |lines| - from
  {
    from == i || (from < i && from < |lines| && Reaches(word, lines, BlockUpTo(word, lines, from), i))
  }

  /** Line i is in no block that an earlier line opened. */
  ghost predicate Outside(word: WordChars, lines: seq<string>, i: nat) {
    Reaches(word, lines, Start(word, lines), i)
  }

  predicate AfterBlank(lines: seq<string>, i: nat)
    requires i < |lines|
  {
    i == 0 || IsBlank(Line(lines[i - 1]))
  }

  /** The class of line j of the block, or single line, that starts at i. */
  function ClassInBlock(word: WordChars, lines: seq<string>, i: nat, j: nat): Class
    requires i < |lines| && i <= j
  {
    if FenceOpen(Line(lines[i])).Some? then SkipFence
    else if j == i then
      (if OpenTag(word, lines[i]).Some? then SkipHtmlBlock
       else if AfterBlank(lines, i) && IsIndented(lines[i]) then SkipIndented
       else Prose)
    else if j < CommentUpTo(word, lines, i) then SkipHtmlComment
    else SkipHtmlBlock
  }

  // ----- The classifier inside a block -----

  predicate InBlock(st: State, c: Closer, tag: Option<Tag>) {
    match c
    case RuleOrDots => st.front && !st.comment && st.tag.None? && st.fence.None?
    case CommentEnd => !st.front && st.comment && st.tag == tag && st.fence.None?
    case TagEnd(t) => !st.front && !st.comment && st.tag == Some(t) && st.fence.None?
    case FenceEnd(m) => !st.front && !st.comment && st.tag.None? && st.fence == Some(m)
  }

  function SkipOf(c: Closer): Class {
    match c
    case RuleOrDots => SkipFrontMatter
    case CommentEnd => SkipHtmlComment
    case TagEnd(_) => SkipHtmlBlock
    case FenceEnd(_) => SkipFence
  }

  /** The state outside every block, except for a tag block that a comment interrupted. */
  function Between(tag: Option<Tag>, blank: bool): State {
    State(false, false, tag, None, blank)
  }

  lemma {:induction false} StaysInBlock(
    word: WordChars, lines: seq<string>, c: Closer, tag: Option<Tag>, k: nat, j: nat)
    requires 0 < k <= |lines| && k <= j <= FirstClose(word, lines, c, k)
    requires InBlock(StateBefore(word, lines, k), c, tag)
    ensures InBlock(StateBefore(word, lines, j), c, tag)
    ensures j < |lines| ==> ClassOf(word, lines, j) == SkipOf(c)
    decreases j
  {
    hide Line, Has, FenceOpen, FenceClose, FirstTag, IsBlank, IsIndented, FirstClose;
    if j == k {
    } else {
      StaysInBlock(word, lines, c, tag, k, j - 1);
      assert !Closes(word, c, lines[j - 1]);
    }
  }

  lemma LeavesBlock(word: WordChars, lines: seq<string>, c: Closer, tag: Option<Tag>, k: nat)
    requires 0 < k <= |lines| && InBlock(StateBefore(word, lines, k), c, tag)
    requires FirstClose(word, lines, c, k) < |lines|
    ensures var e := FirstClose(word, lines, c, k);
            StateBefore(word, lines, e + 1) ==
            Between(if c.CommentEnd? then tag else None, IsBlank(Line(lines[e])))
  {
    hide Line, Has, FenceOpen, FenceClose, FirstTag, IsBlank, IsIndented, FirstClose;
    StaysInBlock(word, lines, c, tag, k, FirstClose(word, lines, c, k));
  }

  /** Every line of a block up to its end is skipped, and behind it comes what was before. */
  lemma BlockRun(word: WordChars, lines: seq<string>, c: Closer, tag: Option<Tag>, k: nat)
    requires 0 < k <= |lines| && InBlock(StateBefore(word, lines, k), c, tag)
    ensures var e := EndFrom(word, lines, c, k);
            && (forall j :: k <= j < e ==> ClassOf(word, lines, j) == SkipOf(c))
            && (e < |lines| ==>
                  && e > 0
                  && StateBefore(word, lines, e) ==
                     Between(if c.CommentEnd? then tag else None, IsBlank(Line(lines[e - 1]))))
  {
    hide StateBefore, ClassOf, InBlock, FirstClose;
    var f := FirstClose(word, lines, c, k);
    forall j | k <= j <= f && j < |lines| ensures ClassOf(word, lines, j) == SkipOf(c) {
      StaysInBlock(word, lines, c, tag, k, j);
    }
    if f < |lines| {
      LeavesBlock(word, lines, c, tag, k);
    }
  }

  // ----- From block to block -----

  lemma FrontIs(word: WordChars, lines: seq<string>)
    ensures forall j :: 0 <= j < Start(word, lines) ==> ClassOf(word, lines, j) == SkipFrontMatter
    ensures Start(word, lines) < |lines| ==>
              StateBefore(word, lines, Start(word, lines)) == Between(None, AfterBlank(lines, Start(word, lines)))
  {
    hide Has, FenceOpen, FenceClose, FirstTag, IsIndented, EndFrom;
    if lines != [] && Line(lines[0]) == "---" {
      hide Line, IsBlank;
      assert ClassOf(word, lines, 0) == SkipFrontMatter;
      assert InBlock(StateBefore(word, lines, 1), RuleOrDots, None);
      BlockRun(word, lines, RuleOrDots, None, 1);
    }
  }

  /** What the classifier makes of a line outside every block. */
  lemma OutsideStep(word: WordChars, lines: seq<string>, i: nat)
    requires i < |lines| && StateBefore(word, lines, i) == Between(None, AfterBlank(lines, i))
    ensures ClassOf(word, lines, i) == ClassInBlock(word, lines, i, i)
    ensures var fence := FenceOpen(Line(lines[i]));
            var next := StateBefore(word, lines, i + 1);
            if fence.Some? then InBlock(next, FenceEnd(fence.value), None)
            else
              && !next.front && next.fence.None? && next.tag == OpenTag(word, lines[i])
              && next.comment == OpensComment(word, lines[i])
              && (next.tag.None? ==> next.prevBlank == IsBlank(Line(lines[i])))
  {
    hide Line, Has, FenceOpen, FenceClose, FirstTag, IsBlank, IsIndented;
  }

  lemma FenceLines(word: WordChars, lines: seq<string>, i: nat, m: Marker)
    requires i < |lines| && FenceOpen(Line(lines[i])) == Some(m)
    requires InBlock(StateBefore(word, lines, i + 1), FenceEnd(m), None)
    ensures var e := BlockUpTo(word, lines, i);
            && (forall j :: i < j < e ==> ClassOf(word, lines, j) == SkipFence)
            && (e < |lines| ==> StateBefore(word, lines, e) == Between(None, AfterBlank(lines, e)))
  {
    hide StateBefore, ClassOf, FenceOpen, Line, EndFrom, IsBlank, InBlock, CommentUpTo, OpenTag;
    BlockRun(word, lines, FenceEnd(m), None, i + 1);
    forall j | i < j < BlockUpTo(word, lines, i) ensures ClassOf(word, lines, j) == SkipFence {
      assert ClassOf(word, lines, j) == SkipOf(FenceEnd(m));
    }
  }

  lemma FenceStretch(word: WordChars, lines: seq<string>, i: nat)
    requires i < |lines| && StateBefore(word, lines, i) == Between(None, AfterBlank(lines, i))
    requires FenceOpen(Line(lines[i])).Some?
    ensures forall j :: i <= j < BlockUpTo(word, lines, i) ==>
              ClassOf(word, lines, j) == ClassInBlock(word, lines, i, j)
    ensures var e := BlockUpTo(word, lines, i);
            e < |lines| ==> StateBefore(word, lines, e) == Between(None, AfterBlank(lines, e))
  {
    hide StateBefore, ClassOf, FenceOpen, Line, BlockUpTo, AfterBlank, InBlock, CommentUpTo, OpenTag, IsIndented;
    OutsideStep(word, lines, i);
    FenceLines(word, lines, i, FenceOpen(Line(lines[i])).value);
  }

  lemma CommentStretch(word: WordChars, lines: seq<string>, i: nat)
    requires i < |lines| && StateBefore(word, lines, i) == Between(None, AfterBlank(lines, i))
    requires FenceOpen(Line(lines[i])).None?
    ensures forall j :: i <= j < CommentUpTo(word, lines, i) ==>
              ClassOf(word, lines, j) == ClassInBlock(word, lines, i, j)
    ensures var m := CommentUpTo(word, lines, i);
            var tag := OpenTag(word, lines[i]);
            m < |lines| ==>
              var st := StateBefore(word, lines, m);
              && !st.front && !st.comment && st.fence.None? && st.tag == tag
              && (tag.None? ==> st.prevBlank == AfterBlank(lines, m))
  {
    hide StateBefore, ClassOf, FenceOpen, Line, EndFrom, IsBlank, OpenTag, OpensComment, ClassInBlock, CommentUpTo;
    OutsideStep(word, lines, i);
    if OpensComment(word, lines[i]) {
      CommentLines(word, lines, i, OpenTag(word, lines[i]));
    } else {
      NoComment(word, lines, i);
    }
  }

  lemma NoComment(word: WordChars, lines: seq<string>, i: nat)
    requires i < |lines| && !OpensComment(word, lines[i])
    ensures CommentUpTo(word, lines, i) == i + 1
  {
  }

  lemma CommentLines(word: WordChars, lines: seq<string>, i: nat, tag: Option<Tag>)
    requires i < |lines| && FenceOpen(Line(lines[i])).None? && OpensComment(word, lines[i])
    requires var st := StateBefore(word, lines, i + 1);
             !st.front && st.fence.None? && st.tag == tag && st.comment
    ensures var m := CommentUpTo(word, lines, i);
            && (forall j :: i < j < m ==> ClassOf(word, lines, j) == ClassInBlock(word, lines, i, j))
            && (m < |lines| ==> StateBefore(word, lines, m) == Between(tag, AfterBlank(lines, m)))
  {
    hide StateBefore, ClassOf, FenceOpen, Line, EndFrom, IsBlank, OpenTag, OpensComment, IsIndented, InBlock;
    var m := CommentUpTo(word, lines, i);
    assert InBlock(StateBefore(word, lines, i + 1), CommentEnd, tag) by {
      CommentState(StateBefore(word, lines, i + 1), tag);
    }
    BlockRun(word, lines, CommentEnd, tag, i + 1);
    forall j | i < j < m ensures ClassOf(word, lines, j) == ClassInBlock(word, lines, i, j) {
      assert ClassOf(word, lines, j) == SkipOf(CommentEnd);
    }
  }

  lemma CommentState(st: State, tag: Option<Tag>)
    requires !st.front && st.fence.None? && st.tag == tag && st.comment
    ensures InBlock(st, CommentEnd, tag)
  {
  }

  /** The classes of a block, and that the line behind it is outside again. */
  lemma BlockIs(word: WordChars, lines: seq<string>, i: nat)
    requires i < |lines| && StateBefore(word, lines, i) == Between(None, AfterBlank(lines, i))
    ensures forall j :: i <= j < BlockUpTo(word, lines, i) ==>
              ClassOf(word, lines, j) == ClassInBlock(word, lines, i, j)
    ensures var e := BlockUpTo(word, lines, i);
            e < |lines| ==> StateBefore(word, lines, e) == Between(None, AfterBlank(lines, e))
  {
    hide StateBefore, ClassOf, FenceOpen, Line, EndFrom, IsBlank, OpenTag, CommentUpTo;
    if FenceOpen(Line(lines[i])).Some? {
      FenceStretch(word, lines, i);
    } else {
      CommentStretch(word, lines, i);
      var m, tag := CommentUpTo(word, lines, i), OpenTag(word, lines[i]);
      if tag.Some? && m < |lines| {
        BlockRun(word, lines, TagEnd(tag.value), None, m);
      }
    }
  }

  lemma {:induction false} ReachedState(word: WordChars, lines: seq<string>, from: nat, i: nat)
    requires from <= |lines| && i < |lines| && Reaches(word, lines, from, i)
    requires from < |lines| ==> StateBefore(word, lines, from) == Between(None, AfterBlank(lines, from))
    ensures StateBefore(word, lines, i) == Between(None, AfterBlank(lines, i))
    decreases |lines| - from
  {
    hide StateBefore, BlockUpTo, AfterBlank;
    if from == i {
    } else {
      BlockIs(word, lines, from);
      ReachedState(word, lines, BlockUpTo(word, lines, from), i);
    }
  }

  /** From every line outside every block, the lines up to the end of the block it opens have the
      classes of that block, and the line behind is outside again. */
  lemma BlockClasses(word: WordChars, lines: seq<string>, i: nat)
    requires i < |lines| && Outside(word, lines, i)
    ensures forall j :: i <= j < BlockUpTo(word, lines, i) ==>
              ClassOf(word, lines, j) == ClassInBlock(word, lines, i, j)
    ensures Outside(word, lines, BlockUpTo(word, lines, i))
  {
    hide StateBefore, ClassOf, ClassInBlock, BlockUpTo, Start, AfterBlank;
    FrontIs(word, lines);
    ReachedState(word, lines, Start(word, lines), i);
    BlockIs(word, lines, i);
    ReachesNext(word, lines, Start(word, lines), i);
  }

  lemma {:induction false} ReachesNext(word: WordChars, lines: seq<string>, from: nat, i: nat)
    requires i < |lines| && Reaches(word, lines, from, i)
    ensures Reaches(word, lines, from, BlockUpTo(word, lines, i))
    decreases |lines| - from
  {
    hide BlockUpTo;
    if from == i {
    } else {
      ReachesNext(word, lines, BlockUpTo(word, lines, from), i);
    }
  }

  // ----- Every line -----

  lemma {:induction false} BlockAround(word: WordChars, lines: seq<string>, from: nat, j: nat) returns (i: nat)
    requires from <= j < |lines|
    ensures i <= j < BlockUpTo(word, lines, i) && Reaches(word, lines, from, i)
    decreases |lines| - from
  {
    hide BlockUpTo;
    if j < BlockUpTo(word, lines, from) {
      i := from;
    } else {
      i := BlockAround(word, lines, BlockUpTo(word, lines, from), j);
    }
  }

  /** Every line is in the front matter or in the block of one line outside every block. */
  lemma EveryLine(word: WordChars, lines: seq<string>, j: nat) returns (i: nat)
    requires j < |lines|
    ensures j < Start(word, lines) ==> ClassOf(word, lines, j) == SkipFrontMatter
    ensures j >= Start(word, lines) ==>
              && i <= j < BlockUpTo(word, lines, i) && Outside(word, lines, i)
              && ClassOf(word, lines, j) == ClassInBlock(word, lines, i, j)
  {
    hide ClassOf, ClassInBlock, BlockUpTo, Start, StateBefore;
    i := 0;
    FrontIs(word, lines);
    if j >= Start(word, lines) {
      i := BlockAround(word, lines, Start(word, lines), j);
      BlockClasses(word, lines, i);
    }
  }

  /** Front matter is what stands before the line after the closing rule. */
  lemma FrontMatterIff(word: WordChars, lines: seq<string>, j: nat)
    requires j < |lines|
    ensures ClassOf(word, lines, j) == SkipFrontMatter <==> j < Start(word, lines)
  {
    hide ClassOf, BlockUpTo, Start, Outside;
    var i := EveryLine(word, lines, j);
  }

  /** A line is in a fence exactly when a line outside every block opens one at or before it and no
      line between, up to the one before it, closes that marker. */
  lemma FenceIff(word: WordChars, lines: seq<string>, j: nat)
    requires j < |lines|
    ensures ClassOf(word, lines, j) == SkipFence <==>
            exists i :: 0 <= i <= j && Outside(word, lines, i) && FenceOpen(Line(lines[i])).Some?
                        && forall k :: i < k < j ==> !FenceClose(Line(lines[k]), FenceOpen(Line(lines[i])).value)
  {
    hide ClassOf, Start, Outside, FenceOpen, FenceClose, Line;
    if ClassOf(word, lines, j) == SkipFence {
      var i := EveryLine(word, lines, j);
      FenceReach(word, lines, i, j);
    }
    if i :| 0 <= i <= j && Outside(word, lines, i) && FenceOpen(Line(lines[i])).Some?
            && forall k :: i < k < j ==> !FenceClose(Line(lines[k]), FenceOpen(Line(lines[i])).value)
    {
      FenceReach(word, lines, i, j);
      BlockClasses(word, lines, i);
    }
  }

  lemma FenceReach(word: WordChars, lines: seq<string>, i: nat, j: nat)
    requires i <= j < |lines| && FenceOpen(Line(lines[i])).Some?
    ensures j < BlockUpTo(word, lines, i) <==>
            forall k :: i < k < j ==> !FenceClose(Line(lines[k]), FenceOpen(Line(lines[i])).value)
  {
    hide FenceOpen, FenceClose, Line, FirstClose;
    var m := FenceOpen(Line(lines[i])).value;
    var e := FirstClose(word, lines, FenceEnd(m), i + 1);
    assert forall k :: i < k < e ==> !Closes(word, FenceEnd(m), lines[k]);
    assert e < |lines| ==> Closes(word, FenceEnd(m), lines[e]);
  }

  /** A line is prose exactly when it is outside every block, opens neither a fence nor a tag block,
      and is not indented behind a blank line. */
  lemma ProseIff(word: WordChars, lines: seq<string>, j: nat)
    requires j < |lines|
    ensures ClassOf(word, lines, j) == Prose <==>
            && Outside(word, lines, j) && FenceOpen(Line(lines[j])).None? && OpenTag(word, lines[j]).None?
            && !(IsIndented(lines[j]) && (j == 0 || IsBlank(Line(lines[j - 1]))))
  {
    hide ClassOf, Start, Outside, FenceOpen, Line, OpenTag, BlockUpTo, IsIndented, IsBlank;
    var i := EveryLine(word, lines, j);
    if Outside(word, lines, j) {
      BlockClasses(word, lines, j);
    }
  }

  /** A line is in a multi-line comment exactly when a line outside every block, which opens no fence,
      opens a comment before it that no line between closes. */
  lemma CommentIff(word: WordChars, lines: seq<string>, j: nat)
    requires j < |lines|
    ensures ClassOf(word, lines, j) == SkipHtmlComment <==>
            exists i :: 0 <= i < j && Outside(word, lines, i) && FenceOpen(Line(lines[i])).None?
                        && OpensComment(word, lines[i])
                        && forall k :: i < k < j ==> !Has(word, CommentClose, Line(lines[k]))
  {
    hide ClassOf, Start, Outside, FenceOpen, Line, OpenTag, OpensComment, Has;
    if ClassOf(word, lines, j) == SkipHtmlComment {
      var i := EveryLine(word, lines, j);
      CommentReach(word, lines, i, j);
    }
    if i :| 0 <= i < j && Outside(word, lines, i) && FenceOpen(Line(lines[i])).None? && OpensComment(word, lines[i])
            && forall k :: i < k < j ==> !Has(word, CommentClose, Line(lines[k]))
    {
      CommentReach(word, lines, i, j);
      BlockClasses(word, lines, i);
    }
  }

  lemma CommentReach(word: WordChars, lines: seq<string>, i: nat, j: nat)
    requires i < j < |lines|
    ensures j < CommentUpTo(word, lines, i) <==>
            OpensComment(word, lines[i]) && forall k :: i < k < j ==> !Has(word, CommentClose, Line(lines[k]))
  {
    hide OpensComment, Line, FirstClose, Has;
    var e := FirstClose(word, lines, CommentEnd, i + 1);
    assert forall k :: i < k < e ==> !Closes(word, CommentEnd, lines[k]);
    assert e < |lines| ==> Closes(word, CommentEnd, lines[e]);
  }

  /** A line is in a tag block exactly when it opens one outside every block, or such a line before it
      does, behind the comment that line may open too, and no line between closes the tag. */
  lemma TagBlockIff(word: WordChars, lines: seq<string>, j: nat)
    requires j < |lines|
    ensures ClassOf(word, lines, j) == SkipHtmlBlock <==>
            exists i :: 0 <= i <= j && Outside(word, lines, i) && FenceOpen(Line(lines[i])).None?
                        && OpenTag(word, lines[i]).Some?
                        && (i == j || InTagBlock(word, lines, i, j))
  {
    hide ClassOf, Start, Outside, FenceOpen, Line, OpenTag, OpensComment, Has, CommentUpTo, InTagBlock;
    if ClassOf(word, lines, j) == SkipHtmlBlock {
      var i := EveryLine(word, lines, j);
      if i < j {
        TagReach(word, lines, i, j);
      }
    }
    if i :| 0 <= i <= j && Outside(word, lines, i) && FenceOpen(Line(lines[i])).None? && OpenTag(word, lines[i]).Some?
            && (i == j || InTagBlock(word, lines, i, j))
    {
      BlockClasses(word, lines, i);
      if i < j {
        TagReach(word, lines, i, j);
      }
    }
  }

  ghost predicate InTagBlock(word: WordChars, lines: seq<string>, i: nat, j: nat)
    requires i < j < |lines| && OpenTag(word, lines[i]).Some?
  {
    var m := CommentUpTo(word, lines, i);
    m <= j && forall k :: m <= k < j ==> !Has(word, TagClose(OpenTag(word, lines[i]).value), Line(lines[k]))
  }

  lemma TagReach(word: WordChars, lines: seq<string>, i: nat, j: nat)
    requires i < j < |lines| && FenceOpen(Line(lines[i])).None? && OpenTag(word, lines[i]).Some?
    ensures CommentUpTo(word, lines, i) <= j < BlockUpTo(word, lines, i) <==> InTagBlock(word, lines, i, j)
  {
    hide OpenTag, Line, FirstClose, Has, CommentUpTo, FenceOpen;
    var c, m := TagEnd(OpenTag(word, lines[i]).value), CommentUpTo(word, lines, i);
    var e := FirstClose(word, lines, c, m);
    assert forall k :: m <= k < e ==> !Closes(word, c, lines[k]);
    assert e < |lines| ==> Closes(word, c, lines[e]);
  }
}
