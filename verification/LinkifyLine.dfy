/** linkify_line and its comment finder as the script runs them: index loops over the line. */
module LinkifyLine {
  import opened Wrappers
  import opened Linkify
  import opened LinkifyIdempotence

  // ----- HTML comment spans -----

  const OPENER: string := "<!--"
  const CLOSER: string := "-->"

  predicate At(line: string, pat: string, i: nat) {
    i + |pat| <= |line| && line[i..i + |pat|] == pat
  }

  /** str.find: the first occurrence at or after i. */
  function Find(line: string, pat: string, i: nat): (o: Option<nat>)
    ensures o.Some? ==> i <= o.value && At(line, pat, o.value) && forall k :: i <= k < o.value ==> !At(line, pat, k)
    ensures o.None? ==> forall k :: i <= k ==> !At(line, pat, k)
    decreases |line| - i
  {
    if i >= |line| then (if At(line, pat, i) then Some(i) else None)
    else if At(line, pat, i) then Some(i)
    else Find(line, pat, i + 1)
  }

  predicate Covered(spans: seq<(nat, nat)>, pos: nat) {
    exists k :: 0 <= k < |spans| && spans[k].0 <= pos < spans[k].1
  }

  /** The comment state in front of position i of the line. */
  function StateAt(line: string, i: nat): CommentState
    requires i <= |line|
  {
    Fold(Outside(0), line[..i])
  }

  lemma StateStep(line: string, i: nat)
    requires i < |line|
    ensures StateAt(line, i + 1) == StepComment(StateAt(line, i), line[i])
  {
    assert line[..i + 1] == line[..i] + [line[i]];
    FoldConcat(Outside(0), line[..i], [line[i]]);
    assert [line[i]][1..] == [];
  }

  lemma StateSkip(line: string, i: nat, e: nat)
    requires i <= e <= |line|
    ensures StateAt(line, e) == Fold(StateAt(line, i), line[i..e])
  {
    assert line[..e] == line[..i] + line[i..e];
    FoldConcat(Outside(0), line[..i], line[i..e]);
  }

  lemma OpenerChars(line: string, j: nat)
    ensures At(line, OPENER, j) <==>
            j + 4 <= |line| && line[j] == '<' && line[j + 1] == '!' && line[j + 2] == '-' && line[j + 3] == '-'
  {
    if j + 4 <= |line| {
      assert line[j..j + 4] == [line[j], line[j + 1], line[j + 2], line[j + 3]];
    }
  }

  lemma CloserChars(line: string, j: nat)
    ensures At(line, CLOSER, j) <==> j + 3 <= |line| && line[j] == '-' && line[j + 1] == '-' && line[j + 2] == '>'
  {
    if j + 3 <= |line| {
      assert line[j..j + 3] == [line[j], line[j + 1], line[j + 2]];
    }
  }

  /** From a fresh state, without an opener, the automaton stays outside and remembers how
      much of an opener it has just read. */
  lemma {:induction false} StaysOutside(line: string, i: nat, m: nat)
    requires i <= m <= |line| && StateAt(line, i) == Outside(0)
    requires forall k :: i <= k && k + 4 <= m ==> !At(line, OPENER, k)
    ensures var q := StateAt(line, m);
            && q.Outside? && q.seen <= 3 && q.seen <= m - i
            && (q.seen == 1 ==> line[m - 1] == '<')
            && (q.seen == 2 ==> line[m - 2] == '<' && line[m - 1] == '!')
            && (q.seen == 3 ==> line[m - 3] == '<' && line[m - 2] == '!' && line[m - 1] == '-')
  {
    hide StateAt, At;
    if i == m {
    } else {
      StaysOutside(line, i, m - 1);
      StateStep(line, m - 1);
      if m - 4 >= i {
        OpenerChars(line, m - 4);
      }
    }
  }

  lemma {:induction false} StaysInside(line: string, i: nat, m: nat)
    requires i <= m <= |line| && StateAt(line, i) == Inside(0)
    requires forall k :: i <= k && k + 3 <= m ==> !At(line, CLOSER, k)
    ensures var q := StateAt(line, m);
            && q.Inside? && q.seen <= 2 && q.seen <= m - i
            && (q.seen >= 1 ==> line[m - 1] == '-')
            && (q.seen == 2 ==> line[m - 2] == '-')
  {
    hide StateAt, At;
    if i == m {
    } else {
      StaysInside(line, i, m - 1);
      StateStep(line, m - 1);
      if m - 3 >= i {
        CloserChars(line, m - 3);
      }
    }
  }

  lemma Opens(line: string, i: nat, j: nat)
    requires i <= j && At(line, OPENER, j) && StateAt(line, i) == Outside(0)
    requires forall k :: i <= k < j ==> !At(line, OPENER, k)
    ensures StateAt(line, j + 4) == Inside(0)
  {
    hide StateAt;
    StaysOutside(line, i, j);
    OpenerChars(line, j);
    StateStep(line, j);
    StateStep(line, j + 1);
    StateStep(line, j + 2);
    StateStep(line, j + 3);
  }

  lemma Closes(line: string, i: nat, k: nat)
    requires i <= k && At(line, CLOSER, k) && StateAt(line, i) == Inside(0)
    requires forall l :: i <= l < k ==> !At(line, CLOSER, l)
    ensures StateAt(line, k + 3) == Outside(0)
  {
    hide StateAt;
    StaysInside(line, i, k);
    CloserChars(line, k);
    StateStep(line, k);
    StateStep(line, k + 1);
    StateStep(line, k + 2);
  }

  /** spans covers exactly the backticks before i that the automaton meets inside a comment. */
  ghost predicate SpansUpTo(line: string, spans: seq<(nat, nat)>, i: nat)
    requires i <= |line|
  {
    && (forall k :: 0 <= k < |spans| ==> spans[k].1 <= i)
    && (forall p :: 0 <= p < i && line[p] == TICK ==> (Covered(spans, p) <==> StateAt(line, p).Inside?))
  }

  /** The comment that starts at j runs to the first closer, or to the end of the line. */
  function CommentEnd(line: string, close: Option<nat>): nat {
    if close.Some? then close.value + 3 else |line|
  }

  lemma InsideComment(line: string, i: nat, j: nat, p: nat)
    requires i <= j && At(line, OPENER, j) && StateAt(line, i) == Outside(0)
    requires forall k :: i <= k < j ==> !At(line, OPENER, k)
    requires p < CommentEnd(line, Find(line, CLOSER, j + 4)) && p < |line| && line[p] == TICK && i <= p
    ensures StateAt(line, p).Inside? <==> j <= p
  {
    hide StateAt, At;
    if p < j {
      StaysOutside(line, i, p);
    } else {
      OpenerChars(line, j);
      Opens(line, i, j);
      var close := Find(line, CLOSER, j + 4);
      if close.Some? {
        CloserChars(line, close.value);
      }
      StaysInside(line, j + 4, p);
    }
  }

  lemma ExtendSpans(line: string, spans: seq<(nat, nat)>, i: nat, j: nat, e: nat)
    requires i <= j && At(line, OPENER, j) && StateAt(line, i) == Outside(0)
    requires forall k :: i <= k < j ==> !At(line, OPENER, k)
    requires e == CommentEnd(line, Find(line, CLOSER, j + 4)) && e <= |line|
    requires SpansUpTo(line, spans, i)
    ensures SpansUpTo(line, spans + [(j, e)], e)
  {
    hide StateAt, At, Find;
    var wider := spans + [(j, e)];
    forall p | 0 <= p < e && line[p] == TICK ensures Covered(wider, p) <==> StateAt(line, p).Inside? {
      CoveredAppend(spans, (j, e), p);
      if i <= p {
        InsideComment(line, i, j, p);
      }
    }
    assert i <= e by { EndAfter(line, j); }
  }

  lemma EndAfter(line: string, j: nat)
    requires At(line, OPENER, j)
    ensures j < CommentEnd(line, Find(line, CLOSER, j + 4))
  {
  }

  lemma CoveredAppend(spans: seq<(nat, nat)>, s: (nat, nat), p: nat)
    ensures Covered(spans + [s], p) <==> Covered(spans, p) || s.0 <= p < s.1
  {
    var w := spans + [s];
    assert w[|spans|] == s && forall k :: 0 <= k < |spans| ==> w[k] == spans[k];
  }

  /** _strip_html_comments: the spans agree with the automaton at every backtick. */
  method StripHtmlComments(line: string) returns (spans: seq<(nat, nat)>)
    ensures forall p :: 0 <= p < |line| && line[p] == TICK ==> (Covered(spans, p) <==> StateAt(line, p).Inside?)
  {
    hide StateAt, At;
    spans := [];
    var i := 0;
    assert StateAt(line, 0) == Outside(0) by { StateStart(line); }
    while true
      invariant i <= |line| && StateAt(line, i) == Outside(0)
      invariant SpansUpTo(line, spans, i)
      decreases |line| - i
    {
      var open := Find(line, OPENER, i);
      if open.None? {
        forall p | i <= p < |line| && line[p] == TICK ensures !StateAt(line, p).Inside? {
          StaysOutside(line, i, p);
        }
        break;
      }
      var j := open.value;
      OpenerChars(line, j);
      var close := Find(line, CLOSER, j + 4);
      if close.None? {
        ExtendSpans(line, spans, i, j, |line|);
        spans := spans + [(j, |line|)];
        break;
      }
      CloserChars(line, close.value);
      ExtendSpans(line, spans, i, j, close.value + 3);
      Opens(line, i, j);
      Closes(line, j + 4, close.value);
      spans := spans + [(j, close.value + 3)];
      i := close.value + 3;
    }
  }

  lemma StateStart(line: string)
    ensures StateAt(line, 0) == Outside(0)
  {
  }

  // ----- The line -----

  /** What is still to be written for the text from i on. */
  ghost function Remaining(line: string, i: nat, resolve: Resolver): Pieces
    requires i <= |line|
  {
    Scan(line[i..], StateAt(line, i), i > 0 && line[i - 1] == '[', resolve)
  }

  /** Length of the run at i, by the inner loop. */
  method MeasureRun(line: string, i: nat) returns (k: nat)
    requires i <= |line|
    ensures k == i + RunLen(line[i..])
  {
    k := i;
    while k < |line| && line[k] == TICK
      invariant i <= k <= |line|
      invariant RunLen(line[i..]) == (k - i) + RunLen(line[k..])
    {
      assert line[k..][1..] == line[k + 1..];
      k := k + 1;
    }
  }

  lemma FindClosePlain(line: string, j: nat, n: nat)
    requires j < |line| && line[j] != TICK
    ensures FindClose(line[j..], n) == Shift(FindClose(line[j + 1..], n), 1)
  {
    assert line[j..][1..] == line[j + 1..];
  }

  lemma FindCloseRun(line: string, j: nat, n: nat, k: nat)
    requires j < |line| && line[j] == TICK && k == j + RunLen(line[j..])
    ensures j < k <= |line|
    ensures FindClose(line[j..], n) == if k - j == n then Some(0) else Shift(FindClose(line[k..], n), k - j)
  {
    hide FindClose;
    FindCloseHead(line[j..], n);
    assert line[j..][k - j..] == line[k..];
  }

  lemma FindCloseEnd(line: string, n: nat)
    ensures FindClose(line[|line|..], n) == None
  {
  }

  /** The search for a closing run of the same length. */
  method FindClosingRun(line: string, start: nat, runLen: nat) returns (close: Option<nat>)
    requires start <= |line| && runLen > 0
    ensures close == Shift(FindClose(line[start..], runLen), start)
  {
    hide FindClose, RunLen;
    var j := start;
    while j < |line|
      invariant start <= j <= |line|
      invariant FindClose(line[start..], runLen) == Shift(FindClose(line[j..], runLen), j - start)
    {
      if line[j] == TICK {
        var k := MeasureRun(line, j);
        FindCloseRun(line, j, runLen, k);
        if k - j == runLen {
          return Some(j);
        }
        j := k;
      } else {
        FindClosePlain(line, j, runLen);
        j := j + 1;
      }
    }
    FindCloseEnd(line, runLen);
    return None;
  }

  lemma RemainingPlain(line: string, i: nat, resolve: Resolver)
    requires i < |line| && line[i] != TICK
    ensures Remaining(line, i, resolve) == Kept([line[i]], Remaining(line, i + 1, resolve))
  {
    hide Scan, StateAt;
    ScanPlain(line[i], line[i + 1..], StateAt(line, i), i > 0 && line[i - 1] == '[', resolve);
    assert line[i..] == [line[i]] + line[i + 1..];
    StateStep(line, i);
  }

  lemma RemainingStray(line: string, i: nat, e: nat, resolve: Resolver)
    requires i < |line| && line[i] == TICK && e == i + RunLen(line[i..]) && FindClose(line[e..], e - i).None?
    ensures e > i && Remaining(line, i, resolve) == Kept(line[i..e], Remaining(line, e, resolve))
  {
    hide Fold, FindClose, Judge;
    var s, n := line[i..], e - i;
    assert s[..n] == line[i..e] && s[n..] == line[e..];
    StateSkip(line, i, e);
    assert line[e - 1] == s[n - 1] == TICK;
  }

  lemma RemainingSpan(line: string, i: nat, c: nat, d: nat, e: nat, resolve: Resolver)
    requires i < |line| && line[i] == TICK && c == i + RunLen(line[i..]) && FindClose(line[c..], c - i) == Some(d - c)
    requires c <= d && e == d + (c - i)
    ensures i < c <= d < e <= |line|
    ensures Remaining(line, i, resolve) ==
            Piece(Judge(StateAt(line, i), i > 0 && line[i - 1] == '[', c - i, line[c..d], line[e..], resolve),
                  line[i..e], line[c..d], Remaining(line, e, resolve))
  {
    hide Fold, Judge, FindClose, Scan, RunLen, Piece, StateAt;
    var s, n := line[i..], c - i;
    assert s[n..] == line[c..];
    FindCloseRun(line, i, 0, c);
    ScanClosed(s, StateAt(line, i), i > 0 && line[i - 1] == '[', resolve, n, d - c);
    assert s[n..n + (d - c)] == line[c..d];
    assert s[..e - i] == line[i..e];
    assert s[e - i..] == line[e..];
    StateSkip(line, i, e);
    FindCloseTick(line[c..], n, d - c);
    assert line[e - 1] == line[c..][d - c + n - 1];
  }

  /** What has been written so far, followed by what the rest yields, is what `all` yields. */
  ghost predicate Written(all: Pieces, text: string, edits: nat, warnings: seq<string>, rest: Pieces) {
    && Output(all) == text + Output(rest)
    && Edits(all) == edits + Edits(rest)
    && Warnings(all) == warnings + Warnings(rest)
  }

  lemma WriteKept(all: Pieces, text: string, edits: nat, warnings: seq<string>, t: string, rest: Pieces)
    requires Written(all, text, edits, warnings, Kept(t, rest))
    ensures Written(all, text + t, edits, warnings, rest)
  {
    assert text + (t + Output(rest)) == text + t + Output(rest);
  }

  lemma WriteUnresolved(
    all: Pieces, text: string, edits: nat, warnings: seq<string>, t: string, f: string, rest: Pieces)
    requires Written(all, text, edits, warnings, Unresolved(t, f, rest))
    ensures Written(all, text + t, edits, warnings + [f], rest)
  {
    assert text + (t + Output(rest)) == text + t + Output(rest);
    assert warnings + ([f] + Warnings(rest)) == warnings + [f] + Warnings(rest);
  }

  lemma WriteLinked(
    all: Pieces, text: string, edits: nat, warnings: seq<string>, c: string, r: Ref, t: string, rest: Pieces)
    requires Written(all, text, edits, warnings, Linked(c, r, t, rest))
    ensures Written(all, text + Wrapped(r, t), edits + 1, warnings, rest)
  {
    assert Output(Linked(c, r, t, rest)) == Wrapped(r, t) + Output(rest);
    assert text + (Wrapped(r, t) + Output(rest)) == text + Wrapped(r, t) + Output(rest);
  }

  /** linkify_line.  The file names of unresolved references stand for the warnings. */
  method LinkifyLine(line: string, resolve: Resolver) returns (text: string, edits: nat, warnings: seq<string>)
    ensures text == LinkifyText(line, resolve)
    ensures edits == Edits(ScanLine(line, resolve))
    ensures warnings == Warnings(ScanLine(line, resolve))
  {
    hide StateAt, Remaining, Fold, Find, FindClose, RunLen, ParseRef, SpanLen, Written, ScanLine, Covered, Wrapped;
    text, edits, warnings := "", 0, [];
    var spans := StripHtmlComments(line);
    var i := 0;
    ghost var all := ScanLine(line, resolve);
    ScanStart(line, all, resolve);
    while i < |line|
      invariant i <= |line|
      invariant Written(all, text, edits, warnings, Remaining(line, i, resolve))
    {
      if line[i] != TICK {
        RemainingPlain(line, i, resolve);
        WriteKept(all, text, edits, warnings, [line[i]], Remaining(line, i + 1, resolve));
        text := text + [line[i]];
        i := i + 1;
        continue;
      }
      var start := i;
      i := MeasureRun(line, i);
      var runLen := i - start;
      assert runLen > 0 && i <= |line| by { FindCloseRun(line, start, 0, i); }
      var close := FindClosingRun(line, i, runLen);
      if close.None? {
        RemainingStray(line, start, i, resolve);
        WriteKept(all, text, edits, warnings, line[start..i], Remaining(line, i, resolve));
        text := text + line[start..i];
        continue;
      }
      var end := close.value + runLen;
      RemainingSpan(line, start, i, close.value, end, resolve);
      var content := line[i..close.value];
      ghost var rest := Remaining(line, end, resolve);
      i := end;
      var existing := start > 0 && line[start - 1] == '[' && "](" <= line[end..];
      if Covered(spans, start) || runLen != 1 || existing || ParseRef(content).None? {
        WriteKept(all, text, edits, warnings, line[start..end], rest);
        text := text + line[start..end];
        continue;
      }
      var ref := ParseRef(content).value;
      var resolved := resolve(ref.file);
      if resolved.None? {
        WriteUnresolved(all, text, edits, warnings, line[start..end], ref.file, rest);
        warnings := warnings + [ref.file];
        text := text + line[start..end];
      } else {
        WriteLinked(all, text, edits, warnings, content, ref, resolved.value, rest);
        text := text + Wrapped(ref, resolved.value);
        edits := edits + 1;
      }
    }
    ScanEnd(line, all, text, edits, warnings, resolve);
  }

  lemma ScanStart(line: string, all: Pieces, resolve: Resolver)
    requires all == ScanLine(line, resolve)
    ensures Written(all, "", 0, [], Remaining(line, 0, resolve))
  {
    assert line[0..] == line;
    assert Remaining(line, 0, resolve) == all;
  }

  lemma ScanEnd(line: string, all: Pieces, text: string, edits: nat, warnings: seq<string>, resolve: Resolver)
    requires Written(all, text, edits, warnings, Remaining(line, |line|, resolve))
    ensures text == Output(all) && edits == Edits(all) && warnings == Warnings(all)
  {
    assert Remaining(line, |line|, resolve) == Done;
  }
}
