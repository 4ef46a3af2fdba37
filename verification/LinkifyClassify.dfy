/** classify_lines (raxis/scripts/linkify-md.py): which lines of a file are prose. */
module LinkifyClassify {
  import opened Wrappers
  import opened Linkify
  import opened LinkifyBlocks

  // ----- Tests on one line -----

  /** str.rstrip of one character. */
  function StripEnd(s: string, c: char): string {
    if s != [] && s[|s| - 1] == c then StripEnd(s[..|s| - 1], c) else s
  }

  function Line(raw: string): string {
    StripEnd(StripEnd(raw, '\n'), '\r')
  }

  predicate IsBlank(s: string) {
    forall k :: 0 <= k < |s| ==> IsSpace(s[k])
  }

  predicate IsIndented(raw: string) {
    "    " <= raw || "\t" <= raw
  }

  function RunOf(s: string, c: char): (n: nat)
    ensures n <= |s| && (forall k :: 0 <= k < n ==> s[k] == c) && (n < |s| ==> s[n] != c)
  {
    if s == [] || s[0] != c then 0 else 1 + RunOf(s[1..], c)
  }

  datatype Marker = Marker(c: char, len: nat)

  /** At most three blanks, then three or more of one fence character. */
  function FenceOpen(line: string): Option<Marker> {
    var k := SpanLen(line, true);
    if k > 3 || k == |line| || (line[k] != TICK && line[k] != '~') then None
    else
      var n := RunOf(line[k..], line[k]);
      if n < 3 then None else Some(Marker(line[k], n))
  }

  /** At most three blanks, at least as many of the fence character, and nothing but blanks. */
  predicate FenceClose(line: string, m: Marker) {
    var k := SpanLen(line, true);
    && k <= 3
    && var n := RunOf(line[k..], m.c);
       n >= m.len && IsBlank(line[k + n..])
  }

  predicate Has(word: WordChars, p: Pattern, line: string) {
    Find(word, p, line).Some?
  }

  function FirstTag(word: WordChars, line: string): Option<Tag> {
    match Find(word, TagOpen, line)
    case Some(Opens(t)) => Some(t)
    case _ => None
  }

  // ----- The state machine -----

  datatype State = State(front: bool, comment: bool, tag: Option<Tag>, fence: Option<Marker>, prevBlank: bool)

  function Init(lines: seq<string>): State {
    State(lines != [] && Line(lines[0]) == "---", false, None, None, true)
  }

  function Step(word: WordChars, st: State, first: bool, raw: string): (Class, State) {
    var line := Line(raw);
    var next := st.(prevBlank := IsBlank(line));
    if st.front then
      (SkipFrontMatter, next.(front := first || (line != "---" && line != "...")))
    else if st.comment then
      (SkipHtmlComment, next.(comment := !Has(word, CommentClose, line)))
    else if st.tag.Some? then
      (SkipHtmlBlock, next.(tag := if Has(word, TagClose(st.tag.value), line) then None else st.tag))
    else if st.fence.Some? then
      (SkipFence, next.(fence := if FenceClose(line, st.fence.value) then None else st.fence))
    else if FenceOpen(line).Some? then
      (SkipFence, next.(fence := FenceOpen(line), prevBlank := false))
    else
      var after := next.(comment := Has(word, CommentOpen, line) && !Has(word, CommentClose, line));
      var tag := FirstTag(word, line);
      if tag.Some? && !Has(word, TagClose(tag.value), line) then
        (SkipHtmlBlock, after.(tag := tag, prevBlank := false))
      else if st.prevBlank && IsIndented(raw) then (SkipIndented, after)
      else (Prose, after)
  }

  /** The state before line n. */
  function StateBefore(word: WordChars, lines: seq<string>, n: nat): State
    requires n <= |lines|
  {
    if n == 0 then Init(lines) else Step(word, StateBefore(word, lines, n - 1), n == 1, lines[n - 1]).1
  }

  function ClassOf(word: WordChars, lines: seq<string>, i: nat): Class
    requires i < |lines|
  {
    Step(word, StateBefore(word, lines, i), i == 0, lines[i]).0
  }

  /** classify_lines: one pass over the lines with its flags. */
  method ClassifyLines(word: WordChars, lines: seq<string>) returns (out: seq<Class>)
    ensures |out| == |lines| && forall i :: 0 <= i < |lines| ==> out[i] == ClassOf(word, lines, i)
  {
    hide Find, FenceOpen, FenceClose, Line, IsBlank, IsIndented;
    out := [];
    var front := lines != [] && Line(lines[0]) == "---";
    var fence: Option<Marker>, comment, tag: Option<Tag>, prevBlank := None, false, None, true;
    for i := 0 to |lines|
      invariant |out| == i && forall k :: 0 <= k < i ==> out[k] == ClassOf(word, lines, k)
      invariant StateBefore(word, lines, i) == State(front, comment, tag, fence, prevBlank)
    {
      var raw := lines[i];
      var line := Line(raw);
      var blank := IsBlank(line);
      if front {
        out := out + [SkipFrontMatter];
        if i > 0 && (line == "---" || line == "...") {
          front := false;
        }
        prevBlank := blank;
        continue;
      }
      if comment {
        out := out + [SkipHtmlComment];
        if Has(word, CommentClose, line) {
          comment := false;
        }
        prevBlank := blank;
        continue;
      }
      if tag.Some? {
        out := out + [SkipHtmlBlock];
        if Has(word, TagClose(tag.value), line) {
          tag := None;
        }
        prevBlank := blank;
        continue;
      }
      if fence.Some? {
        out := out + [SkipFence];
        if FenceClose(line, fence.value) {
          fence := None;
        }
        prevBlank := blank;
        continue;
      }
      var marker := FenceOpen(line);
      if marker.Some? {
        fence := marker;
        out := out + [SkipFence];
        prevBlank := false;
        continue;
      }
      if Has(word, CommentOpen, line) && !Has(word, CommentClose, line) {
        comment := true;
      }
      var hb := FirstTag(word, line);
      if hb.Some? && !Has(word, TagClose(hb.value), line) {
        tag := hb;
        out := out + [SkipHtmlBlock];
        prevBlank := false;
        continue;
      }
      if prevBlank && IsIndented(raw) {
        out := out + [SkipIndented];
        prevBlank := blank;
        continue;
      }
      out := out + [Prose];
      prevBlank := blank;
    }
  }

  // ----- What a prose line must keep -----

  /** Line b passes the tests of a prose line a with the same results. */
  ghost predicate SameLook(word: WordChars, a: string, b: string) {
    && (FenceOpen(Line(b)).Some? ==> FenceOpen(Line(a)).Some?)
    && (Line(b) == "---" ==> Line(a) == "---")
    && (IsIndented(a) <==> IsIndented(b)) && (IsBlank(Line(a)) <==> IsBlank(Line(b)))
    && FirstTag(word, Line(a)) == FirstTag(word, Line(b))
    && forall p: Pattern :: Has(word, p, Line(a)) <==> Has(word, p, Line(b))
  }

  lemma ProseStep(word: WordChars, st: State, first: bool, a: string, b: string)
    requires Step(word, st, first, a).0.Prose? && SameLook(word, a, b)
    ensures Step(word, st, first, b) == Step(word, st, first, a)
  {
    hide FenceOpen, FenceClose, Line, IsBlank, IsIndented, Has, FirstTag;
  }

  /** Replacing prose lines by lines of the same look changes no classification. */
  lemma {:induction false} StatesKept(word: WordChars, lines: seq<string>, other: seq<string>, n: nat)
    requires |other| == |lines| && n <= |lines|
    requires forall i :: 0 <= i < |lines| ==>
               other[i] == lines[i] || (ClassOf(word, lines, i).Prose? && SameLook(word, lines[i], other[i]))
    ensures StateBefore(word, other, n) == StateBefore(word, lines, n)
    ensures n < |lines| ==> ClassOf(word, other, n) == ClassOf(word, lines, n)
  {
    hide Step, SameLook;
    if n == 0 {
      if lines != [] && other[0] != lines[0] {
        FirstIsNoRule(word, lines, other[0]);
      }
    } else {
      StatesKept(word, lines, other, n - 1);
      if other[n - 1] != lines[n - 1] {
        ProseStep(word, StateBefore(word, lines, n - 1), n == 1, lines[n - 1], other[n - 1]);
      }
    }
    if n < |lines| && other[n] != lines[n] {
      ProseStep(word, StateBefore(word, lines, n), n == 0, lines[n], other[n]);
    }
  }

  lemma FirstIsNoRule(word: WordChars, lines: seq<string>, b: string)
    requires lines != [] && ClassOf(word, lines, 0).Prose? && SameLook(word, lines[0], b)
    ensures Line(lines[0]) != "---" && Line(b) != "---"
  {
    hide Line, FenceOpen, IsBlank, IsIndented, Has, FirstTag;
  }
}
