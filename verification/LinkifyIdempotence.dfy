/** Running the line rewrite twice changes nothing, and erasing the wrappers undoes it. */
module LinkifyIdempotence {
  import opened Wrappers
  import opened Linkify

  predicate TickFree(s: string) {
    forall k :: 0 <= k < |s| ==> s[k] != TICK
  }

  /** s is empty or does not start with a backtick, so it cannot lengthen a run before it. */
  predicate Plain(s: string) {
    s == [] || s[0] != TICK
  }

  // ----- Runs seen through concatenation -----

  lemma {:induction false} RunLenConcat(x: string, y: string)
    requires Plain(y)
    ensures RunLen(x + y) == RunLen(x)
    decreases |x|
  {
    if x == [] {
      assert x + y == y;
    } else if x[0] == TICK {
      assert (x + y)[1..] == x[1..] + y;
      RunLenConcat(x[1..], y);
    }
  }

  /** One unfolding of the search. */
  lemma FindCloseHead(s: string, n: nat)
    requires s != []
    ensures s[0] != TICK ==> FindClose(s, n) == Shift(FindClose(s[1..], n), 1)
    ensures s[0] == TICK ==> var k := RunLen(s);
              FindClose(s, n) == if k == n then Some(0) else Shift(FindClose(s[k..], n), k)
  {
    hide RunLen, Shift;
  }

  lemma {:induction false} FindCloseTickFree(p: string, y: string, n: nat)
    requires TickFree(p)
    ensures FindClose(p + y, n) == Shift(FindClose(y, n), |p|)
    decreases |p|
  {
    if p == [] {
      assert p + y == y;
    } else {
      assert (p + y)[1..] == p[1..] + y;
      FindCloseTickFree(p[1..], y, n);
    }
  }

  /** A closing run inside x is found whatever plain text follows. */
  lemma {:induction false} FindCloseLocal(x: string, y: string, n: nat)
    requires Plain(y)
    ensures FindClose(x + y, n) == if FindClose(x, n).Some? then FindClose(x, n) else Shift(FindClose(y, n), |x|)
    decreases |x|
  {
    hide FindClose, RunLen;
    if x == [] {
      assert x + y == y;
      NoClose(n);
    } else if x[0] != TICK {
      assert (x + y)[1..] == x[1..] + y;
      FindCloseLocal(x[1..], y, n);
      FindCloseHead(x, n);
      FindCloseHead(x + y, n);
    } else {
      var k := RunLen(x);
      FindCloseLocal(x[k..], y, n);
      FindCloseRunConcat(x, y, k, n);
    }
  }

  lemma NoClose(n: nat)
    ensures FindClose("", n) == None
  {
  }

  lemma FindCloseRunConcat(x: string, y: string, k: nat, n: nat)
    requires x != [] && x[0] == TICK && k == RunLen(x) && Plain(y)
    ensures FindClose(x, n) == if k == n then Some(0) else Shift(FindClose(x[k..], n), k)
    ensures FindClose(x + y, n) == if k == n then Some(0) else Shift(FindClose(x[k..] + y, n), k)
  {
    hide FindClose, RunLen;
    RunLenConcat(x, y);
    assert (x + y)[k..] == x[k..] + y;
    FindCloseHead(x, n);
    FindCloseHead(x + y, n);
  }

  // ----- One step of the scan -----

  /** A run of backticks and nothing else. */
  predicate IsRun(w: string) {
    w != [] && RunLen(w) == |w|
  }

  /** An opening run of m backticks, j characters of content and the closing run. */
  predicate IsSpan(w: string, m: nat, j: nat) {
    m > 0 && |w| == m + j + m && RunLen(w) == m && FindClose(w[m..], m) == Some(j)
  }

  function Content(w: string, m: nat, j: nat): string
    requires |w| == m + j + m
  {
    w[m..m + j]
  }

  function Piece(v: Verdict, w: string, content: string, rest: Pieces): Pieces {
    match v
    case Leave => Kept(w, rest)
    case Warn(f) => Unresolved(w, f, rest)
    case Link(r, t) => Linked(content, r, t, rest)
  }

  /** Whatever starts with a backtick starts with a stray run or with a closed span. */
  lemma Cut(s: string) returns (closed: bool, w: string, y: string, m: nat, j: nat)
    requires s != [] && s[0] == TICK
    ensures s == w + y && w != [] && Plain(y)
    ensures if closed then IsSpan(w, m, j) else IsRun(w) && FindClose(y, |w|).None?
  {
    hide FindClose, RunLen;
    m, j := RunLen(s), 0;
    assert m > 0;
    var close := FindClose(s[m..], m);
    closed := close.Some?;
    if closed {
      j := close.value;
      var e := m + j + m;
      w, y := s[..e], s[e..];
      assert y != [] ==> y[0] == s[m..][j + m];
      assert s == w + y && s[m..] == w[m..] + y;
      RunLenConcat(w, y);
      FindCloseLocal(w[m..], y, m);
      FindCloseFits(y, m);
    } else {
      w, y := s[..m], s[m..];
      assert s == w + y;
      RunLenConcat(w, y);
    }
  }

  lemma FindCloseFits(y: string, m: nat)
    requires m > 0
    ensures FindClose(y, m).Some? ==> m <= |y|
  {
  }

  lemma ScanPlain(c: char, y: string, q: CommentState, b: bool, resolve: Resolver)
    requires c != TICK
    ensures Scan([c] + y, q, b, resolve) == Kept([c], Scan(y, StepComment(q, c), c == '[', resolve))
  {
    hide RunLen, FindClose, Fold, Judge;
    assert ([c] + y)[..1] == [c] && ([c] + y)[1..] == y;
  }

  lemma ScanStray(w: string, y: string, q: CommentState, b: bool, resolve: Resolver)
    requires IsRun(w) && Plain(y) && FindClose(y, |w|).None?
    ensures Scan(w + y, q, b, resolve) == Kept(w, Scan(y, Fold(q, w), false, resolve))
  {
    hide FindClose, Fold, Judge;
    RunLenConcat(w, y);
    assert (w + y)[..|w|] == w && (w + y)[|w|..] == y;
  }

  lemma ScanSpan(w: string, m: nat, j: nat, y: string, q: CommentState, b: bool, resolve: Resolver)
    requires IsSpan(w, m, j) && Plain(y)
    ensures Scan(w + y, q, b, resolve) ==
            Piece(Judge(q, b, m, Content(w, m, j), y, resolve), w, Content(w, m, j),
                  Scan(y, Fold(q, w), false, resolve))
  {
    hide FindClose, Fold, Judge, RunLen, Scan;
    var z := w + y;
    assert z[0] == w[0] == TICK;
    RunLenConcat(w, y);
    assert z[m..] == w[m..] + y;
    FindCloseLocal(w[m..], y, m);
    ScanClosed(z, q, b, resolve, m, j);
    assert z[..|w|] == w && z[|w|..] == y && z[m..m + j] == w[m..m + j];
  }

  /** One unfolding of the scan at a closed span. */
  lemma ScanClosed(s: string, q: CommentState, b: bool, resolve: Resolver, n: nat, j: nat)
    requires s != [] && s[0] == TICK && n == RunLen(s) && FindClose(s[n..], n) == Some(j)
    ensures var e := n + j + n;
            && e <= |s|
            && Scan(s, q, b, resolve) == Piece(Judge(q, b, n, s[n..n + j], s[e..], resolve), s[..e], s[n..n + j],
                                               Scan(s[e..], Fold(q, s[..e]), false, resolve))
  {
    hide FindClose, RunLen, Judge, Fold;
  }

  // ----- The head of a rewritten line -----

  lemma OutputHead(s: string, q: CommentState, b: bool, resolve: Resolver)
    ensures Plain(s) ==> Plain(Output(Scan(s, q, b, resolve)))
    ensures "](" <= s ==> "](" <= Output(Scan(s, q, b, resolve))
  {
    hide Scan;
    if s == [] {
      assert Scan(s, q, b, resolve) == Done by { ScanEmpty(q, b, resolve); }
    } else if s[0] != TICK {
      var q1 := StepComment(q, s[0]);
      ScanPlain(s[0], s[1..], q, b, resolve);
      assert s == [s[0]] + s[1..];
      if "](" <= s {
        var s2 := s[2..];
        assert s[1..] == ['('] + s2;
        ScanPlain('(', s2, q1, false, resolve);
      }
    }
  }

  lemma ScanEmpty(q: CommentState, b: bool, resolve: Resolver)
    ensures Scan("", q, b, resolve) == Done
  {
  }

  // ----- A link, read back -----

  function Wrapped(r: Ref, t: string): string {
    "[" + Span(r) + "](" + t + ")"
  }

  /** The text of a link is again a closed span. */
  lemma WrappedShape(r: Ref)
    requires r.file != "" && TICK !in r.file + r.anchor
    ensures IsSpan(Span(r), 1, |r.file + r.anchor|)
  {
    var c := r.file + r.anchor;
    assert Span(r) == "`" + (c + "`");
    assert c[0] in c;
    OneRun(Span(r));
    assert Span(r)[1..] == c + "`";
    FindCloseTickFree(c, "`", 1);
    assert RunLen("`") == 1 by { assert "`"[1..] == []; }
  }

  lemma OneRun(s: string)
    requires |s| > 1 && s[0] == TICK && s[1] != TICK
    ensures RunLen(s) == 1
  {
    assert s[1..][0] == s[1];
  }

  // ----- The comment state across a link -----

  lemma {:induction false} FoldClean(q: CommentState, t: string)
    requires CleanTarget(t) && (q.Outside? ==> q.seen == 0)
    ensures Fold(q, t).Outside? <==> q.Outside?
    ensures Fold(q, t).Outside? ==> Fold(q, t).seen == 0
    decreases |t|
  {
    if t == [] {
    } else {
      assert t[0] in t && forall c :: c in t[1..] ==> c in t;
      FoldClean(StepComment(q, t[0]), t[1..]);
    }
  }

  /** A backtick forgets partial openers and closers. */
  function Settled(q: CommentState): CommentState {
    if q.Outside? then Outside(0) else Inside(0)
  }

  lemma FoldSpan(q: CommentState, c: string)
    ensures Fold(q, "`" + c + "`") == Settled(Fold(Settled(q), c))
  {
    FoldConcat(q, "`", c + "`");
    FoldConcat(Settled(q), c, "`");
    assert "`" + (c + "`") == "`" + c + "`";
    assert Fold(q, "`") == Settled(q) by { assert "`"[1..] == []; }
    var z := Fold(Settled(q), c);
    assert Fold(z, "`") == Settled(z) by { assert "`"[1..] == []; }
  }

  lemma FoldWrapper(q: CommentState, t: string)
    requires CleanTarget(t) && q == Settled(q)
    ensures Fold(q, "](" + t + ")") == q
  {
    FoldConcat(q, "](" + t, ")");
    assert "](" + t + ")" == ("](" + t) + ")";
    FoldClean(q, "](" + t);
    var z := Fold(q, "](" + t);
    assert Fold(z, ")") == Settled(z) by { assert ")"[1..] == []; }
  }

  /** After a link the scanner is in the state it had after the bare span. */
  lemma FoldLink(q: CommentState, content: string, r: Ref, t: string)
    requires CleanTarget(t)
    requires content == r.file + r.anchor || content == r.file + r.anchor + "\n"
    ensures Fold(Fold(StepComment(q, '['), Span(r)), "](" + t + ")") == Fold(q, "`" + content + "`")
  {
    var c := r.file + r.anchor;
    assert Span(r) == "`" + c + "`";
    FoldSpan(StepComment(q, '['), c);
    FoldSpan(q, content);
    FoldConcat(Settled(q), c, "\n");
    assert Fold(Fold(Settled(q), c), "\n") == StepComment(Fold(Settled(q), c), '\n') by { assert "\n"[1..] == []; }
    FoldWrapper(Fold(q, "`" + content + "`"), t);
  }

  // ----- Second pass -----

  /** Text without backticks is copied, whatever follows it. */
  lemma {:induction false} ScanTickFree(p: string, y: string, q: CommentState, b: bool, resolve: Resolver)
    requires TickFree(p) && p != []
    ensures Edits(Scan(p + y, q, b, resolve)) == Edits(Scan(y, Fold(q, p), p[|p| - 1] == '[', resolve))
    decreases |p|
  {
    hide Scan;
    assert p + y == [p[0]] + (p[1..] + y);
    ScanPlain(p[0], p[1..] + y, q, b, resolve);
    if |p| > 1 {
      ScanTickFree(p[1..], y, StepComment(q, p[0]), p[0] == '[', resolve);
    } else {
      assert p[1..] == [] && p[1..] + y == y;
    }
  }

  lemma LinkSpan(q: CommentState, b: bool, w: string, m: nat, j: nat, y: string, resolve: Resolver)
    requires CleanTargets(resolve) && IsSpan(w, m, j)
    requires Judge(q, b, m, Content(w, m, j), y, resolve).Link?
    ensures var v := Judge(q, b, m, Content(w, m, j), y, resolve);
            && ParseRef(Content(w, m, j)) == Some(v.ref) && CleanTarget(v.target)
            && w == "`" + Content(w, m, j) + "`"
  {
    hide ParseRef, CleanTarget, FindClose;
    var v := Judge(q, b, m, Content(w, m, j), y, resolve);
    assert m == 1 && resolve(v.ref.file) == Some(v.target);
    assert w[m..][j] == TICK by { FindCloseTick(w[m..], m, j); }
  }

  lemma {:induction false} FindCloseTick(s: string, m: nat, j: nat)
    requires m > 0 && FindClose(s, m) == Some(j)
    ensures j + m <= |s| && s[j] == TICK && s[j + m - 1] == TICK
    decreases |s|
  {
    hide FindClose, RunLen;
    if s == [] {
      NoClose(m);
    } else {
      FindCloseHead(s, m);
      if s[0] != TICK {
        FindCloseTick(s[1..], m, j - 1);
      } else if RunLen(s) != m {
        FindCloseTick(s[RunLen(s)..], m, j - RunLen(s));
      }
    }
  }

  /** Rewriting keeps every run length: no run of length n appears. */
  lemma {:induction false} NoNewRun(s: string, q: CommentState, b: bool, resolve: Resolver, n: nat)
    requires CleanTargets(resolve) && FindClose(s, n).None?
    ensures FindClose(Output(Scan(s, q, b, resolve)), n).None?
    decreases |s|
  {
    hide Scan, FindClose, CleanTargets, Fold, IsSpan, IsRun, Plain;
    if s == [] {
      ScanEmpty(q, b, resolve);
      assert Output(Done) == s;
    } else if s[0] != TICK {
      var y, q1 := s[1..], StepComment(q, s[0]);
      assert s == [s[0]] + y;
      ScanPlain(s[0], y, q, b, resolve);
      FindCloseTickFree([s[0]], y, n);
      NoNewRun(y, q1, s[0] == '[', resolve, n);
      FindCloseTickFree([s[0]], Output(Scan(y, q1, s[0] == '[', resolve)), n);
    } else {
      var closed, w, y, m, j := Cut(s);
      var q1 := Fold(q, w);
      FindCloseLocal(w, y, n);
      NoNewRun(y, q1, false, resolve, n);
      OutputHead(y, q1, false, resolve);
      if closed {
        NoNewRunSpan(w, m, j, y, q, b, resolve, n);
      } else {
        ScanStray(w, y, q, b, resolve);
        FindCloseLocal(w, Output(Scan(y, q1, false, resolve)), n);
      }
    }
  }

  lemma NoNewRunSpan(w: string, m: nat, j: nat, y: string, q: CommentState, b: bool, resolve: Resolver, n: nat)
    requires CleanTargets(resolve) && IsSpan(w, m, j) && Plain(y) && FindClose(w, n).None?
    requires var z := Output(Scan(y, Fold(q, w), false, resolve));
             Plain(z) && FindClose(z, n).None?
    ensures FindClose(Output(Scan(w + y, q, b, resolve)), n).None?
  {
    hide Scan, FindClose, Judge, CleanTargets, Fold, IsSpan, Plain, Content;
    var z := Output(Scan(y, Fold(q, w), false, resolve));
    SpanLength(w, m, j);
    ScanSpan(w, m, j, y, q, b, resolve);
    FindCloseLocal(w, z, n);
    var v := Judge(q, b, m, Content(w, m, j), y, resolve);
    if v.Link? {
      LinkSpan(q, b, w, m, j, y, resolve);
      WrappedRuns(w, Content(w, m, j), v.ref, v.target, z, n);
    }
  }

  lemma TailTickFree(t: string)
    requires CleanTarget(t)
    ensures TickFree("](" + t + ")")
  {
    forall k | 0 <= k < |t| ensures t[k] != TICK {
      assert t[k] in t;
    }
  }

  lemma WrappedRuns(x: string, content: string, r: Ref, t: string, y: string, n: nat)
    requires ParseRef(content) == Some(r) && CleanTarget(t)
    requires x == "`" + content + "`" && FindClose(x, n).None?
    requires FindClose(y, n).None?
    ensures FindClose(Wrapped(r, t) + y, n).None?
  {
    hide ParseRef, FindClose, RunLen;
    ParseRefText(content);
    assert n != 1 by { NotOneRun(content, n); }
    var c, tail := r.file + r.anchor, "](" + t + ")";
    TailTickFree(t);
    assert FindClose(tail + y, n).None? by { FindCloseTickFree(tail, y, n); }
    assert FindClose("`" + (tail + y), n).None? by { AfterTick(tail + y, n); }
    assert FindClose(c + ("`" + (tail + y)), n).None? by { FindCloseTickFree(c, "`" + (tail + y), n); }
    assert c[0] in c;
    assert FindClose("`" + (c + ("`" + (tail + y))), n).None? by { AfterTick(c + ("`" + (tail + y)), n); }
    FindCloseTickFree("[", "`" + (c + ("`" + (tail + y))), n);
    assert Wrapped(r, t) + y == "[" + ("`" + (c + ("`" + (tail + y))));
  }

  lemma NotOneRun(content: string, n: nat)
    requires content != "" && content[0] != TICK && FindClose("`" + content + "`", n).None?
    ensures n != 1
  {
    OneRun("`" + content + "`");
  }

  lemma AfterTick(y: string, n: nat)
    requires y != [] && y[0] != TICK && n != 1 && FindClose(y, n).None?
    ensures FindClose("`" + y, n).None?
  {
    OneRun("`" + y);
    assert ("`" + y)[1..] == y;
  }

  /** The second pass finds nothing to link. */
  lemma {:induction false} SecondPassIdle(s: string, q: CommentState, b: bool, resolve: Resolver)
    requires CleanTargets(resolve)
    ensures Edits(Scan(Output(Scan(s, q, b, resolve)), q, b, resolve)) == 0
    decreases |s|
  {
    hide Scan, FindClose, Judge, CleanTargets, Fold, IsSpan, IsRun, Content, Plain;
    if s == [] {
      ScanEmpty(q, b, resolve);
      assert Output(Done) == "";
    } else if s[0] != TICK {
      var y, q1 := s[1..], StepComment(q, s[0]);
      assert s == [s[0]] + y;
      ScanPlain(s[0], y, q, b, resolve);
      SecondPassIdle(y, q1, s[0] == '[', resolve);
      ScanPlain(s[0], Output(Scan(y, q1, s[0] == '[', resolve)), q, b, resolve);
    } else {
      var closed, w, y, m, j := Cut(s);
      var q1 := Fold(q, w);
      var z := Output(Scan(y, q1, false, resolve));
      SecondPassIdle(y, q1, false, resolve);
      OutputHead(y, q1, false, resolve);
      if closed {
        SecondPassSpan(w, m, j, y, q, b, resolve);
      } else {
        ScanStray(w, y, q, b, resolve);
        NoNewRun(y, q1, false, resolve, |w|);
        ScanStray(w, z, q, b, resolve);
      }
    }
  }

  lemma SecondPassSpan(w: string, m: nat, j: nat, y: string, q: CommentState, b: bool, resolve: Resolver)
    requires CleanTargets(resolve) && IsSpan(w, m, j) && Plain(y)
    ensures var z := Output(Scan(y, Fold(q, w), false, resolve));
            Edits(Scan(Output(Scan(w + y, q, b, resolve)), q, b, resolve)) == Edits(Scan(z, Fold(q, w), false, resolve))
  {
    hide Scan, FindClose, CleanTargets, Fold, IsSpan, Plain, ParseRef, CleanTarget;
    var c := Content(w, m, j) by { hide *; SpanLength(w, m, j); }
    var z := Output(Scan(y, Fold(q, w), false, resolve));
    ScanSpan(w, m, j, y, q, b, resolve);
    OutputHead(y, Fold(q, w), false, resolve);
    var v := Judge(q, b, m, c, y, resolve);
    if v.Link? {
      LinkSpan(q, b, w, m, j, y, resolve);
      SecondPassLink(c, v.ref, v.target, z, q, b, resolve);
    } else {
      ScanSpan(w, m, j, z, q, b, resolve);
    }
  }

  lemma SpanLength(w: string, m: nat, j: nat)
    requires IsSpan(w, m, j)
    ensures |w| == m + j + m
  {
  }

  lemma SecondPassLink(content: string, r: Ref, t: string, y: string, q: CommentState, b: bool, resolve: Resolver)
    requires ParseRef(content) == Some(r) && CleanTarget(t)
    ensures Edits(Scan(Wrapped(r, t) + y, q, b, resolve)) ==
            Edits(Scan(y, Fold(q, "`" + content + "`"), false, resolve))
  {
    hide ParseRef, Scan, Fold, FindClose, RunLen;
    ParseRefText(content);
    var tail := "](" + t + ")";
    var q0 := StepComment(q, '[');
    var q1 := Fold(q0, Span(r));
    assert Wrapped(r, t) + y == ['['] + (Span(r) + (tail + y));
    ScanPlain('[', Span(r) + (tail + y), q, b, resolve);
    WrappedShape(r);
    ScanSpan(Span(r), 1, |r.file + r.anchor|, tail + y, q0, true, resolve);
    assert "](" <= tail + y;
    TailTickFree(t);
    ScanTickFree(tail, y, q1, false, resolve);
    FoldLink(q, content, r, t);
  }

  // ----- Main results -----

  /** Linkifying a linkified line makes no edit and returns it unchanged. */
  lemma Idempotent(line: string, resolve: Resolver)
    requires CleanTargets(resolve)
    ensures LinkifyText(LinkifyText(line, resolve), resolve) == LinkifyText(line, resolve)
    ensures Edits(ScanLine(LinkifyText(line, resolve), resolve)) == 0
  {
    hide Scan;
    SecondPassIdle(line, Outside(0), false, resolve);
    IdleScan(LinkifyText(line, resolve), Outside(0), false, resolve);
  }

  /** A scan without links returns its input. */
  lemma {:induction false} IdleScan(s: string, q: CommentState, b: bool, resolve: Resolver)
    requires Edits(Scan(s, q, b, resolve)) == 0
    ensures Output(Scan(s, q, b, resolve)) == s
    decreases |s|
  {
    hide Scan, FindClose, Judge, Fold, IsSpan, IsRun, Content, Plain;
    if s == [] {
      ScanEmpty(q, b, resolve);
    } else if s[0] != TICK {
      assert s == [s[0]] + s[1..];
      ScanPlain(s[0], s[1..], q, b, resolve);
      IdleScan(s[1..], StepComment(q, s[0]), s[0] == '[', resolve);
    } else {
      var closed, w, y, m, j := Cut(s);
      if closed {
        ScanSpan(w, m, j, y, q, b, resolve);
      } else {
        ScanStray(w, y, q, b, resolve);
      }
      IdleScan(y, Fold(q, w), false, resolve);
    }
  }

  /** Erasing the inserted wrappers gives the line back. */
  lemma {:induction false} ErasureRestores(s: string, q: CommentState, b: bool, resolve: Resolver)
    requires '\n' !in s
    ensures Erased(Scan(s, q, b, resolve)) == s
    decreases |s|
  {
    hide Scan, FindClose, Judge, Fold, IsSpan, IsRun, Plain, ParseRef;
    if s == [] {
      ScanEmpty(q, b, resolve);
    } else if s[0] != TICK {
      assert s == [s[0]] + s[1..];
      ScanPlain(s[0], s[1..], q, b, resolve);
      ErasureRestores(s[1..], StepComment(q, s[0]), s[0] == '[', resolve);
    } else {
      var closed, w, y, m, j := Cut(s);
      ErasureRestores(y, Fold(q, w), false, resolve);
      if closed {
        ScanSpan(w, m, j, y, q, b, resolve);
        ErasedSpan(w, m, j, y, q, b, resolve);
      } else {
        ScanStray(w, y, q, b, resolve);
      }
    }
  }

  lemma ErasedSpan(w: string, m: nat, j: nat, y: string, q: CommentState, b: bool, resolve: Resolver)
    requires IsSpan(w, m, j) && '\n' !in w
    ensures var v := Judge(q, b, m, Content(w, m, j), y, resolve);
            v.Link? ==> Span(v.ref) == w
  {
    hide ParseRef, FindClose;
    var c := Content(w, m, j);
    var v := Judge(q, b, m, c, y, resolve);
    if v.Link? {
      ParseRefText(c);
      FindCloseTick(w[m..], m, j);
      assert w == "`" + c + "`";
    }
  }
}
