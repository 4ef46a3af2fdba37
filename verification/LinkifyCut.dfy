/**
  A line cut into its characters and the spans that are going to be linked.  On this cut, before
  any link is made, it can be read off whether the linked line will hold an orphan pattern.
 */
module LinkifyCut {
  import opened Basics
  import opened Wrappers
  import opened Linkify
  import opened LinkifyIdempotence

  datatype Item = Char(c: char) | Linkable(content: string, ref: Ref, target: string)
  {
    /** As it stands in the line. */
    function Before(): string {
      match this
      case Char(c) => [c]
      case Linkable(content, _, _) => "`" + content + "`"
    }

    /** As the rewrite leaves it. */
    function After(): string {
      match this
      case Char(c) => [c]
      case Linkable(_, r, t) => Wrapped(r, t)
    }

    predicate Ok() {
      Linkable? ==> ParseRef(content) == Some(ref) && CleanTarget(target)
    }
  }

  type Items = seq<Item>

  ghost predicate AllOk(xs: Items) {
    forall i :: 0 <= i < |xs| ==> xs[i].Ok()
  }

  function Chars(s: string): Items {
    seq(|s|, i requires 0 <= i < |s| => Char(s[i]))
  }

  function Source(xs: Items): string {
    if xs == [] then "" else xs[0].Before() + Source(xs[1..])
  }

  function Render(xs: Items): string {
    if xs == [] then "" else xs[0].After() + Render(xs[1..])
  }

  function Cuts(p: Pieces): Items {
    match p
    case Done => []
    case Kept(t, r) => Chars(t) + Cuts(r)
    case Unresolved(t, _, r) => Chars(t) + Cuts(r)
    case Linked(c, ref, t, r) => [Linkable(c, ref, t)] + Cuts(r)
  }

  // ----- The cut is the line, rendering it is the rewrite -----

  lemma CharsConcat(s: string, t: string)
    ensures Chars(s + t) == Chars(s) + Chars(t)
  {
  }

  lemma CharsHead(s: string, ys: Items)
    requires s != []
    ensures Chars(s) + ys == [Char(s[0])] + (Chars(s[1..]) + ys)
  {
  }

  lemma RenderHead(x: Item, ys: Items)
    ensures Render([x] + ys) == x.After() + Render(ys)
    ensures Source([x] + ys) == x.Before() + Source(ys)
  {
    assert ([x] + ys)[1..] == ys;
  }

  lemma {:induction false} RenderChars(s: string, ys: Items)
    ensures Render(Chars(s) + ys) == s + Render(ys)
    ensures Source(Chars(s) + ys) == s + Source(ys)
    decreases |s|
  {
    hide Render, Source;
    if s == [] {
      assert Chars(s) + ys == ys;
    } else {
      hide Chars;
      RenderChars(s[1..], ys);
      CharsHead(s, ys);
      RenderHead(Char(s[0]), Chars(s[1..]) + ys);
      assert s == [s[0]] + s[1..];
    }
  }

  lemma {:induction false} RenderIsOutput(p: Pieces)
    ensures Render(Cuts(p)) == Output(p)
  {
    match p
    case Done =>
    case Kept(t, r) =>
      RenderIsOutput(r);
      RenderChars(t, Cuts(r));
    case Unresolved(t, _, r) =>
      RenderIsOutput(r);
      RenderChars(t, Cuts(r));
    case Linked(c, ref, t, r) =>
      RenderIsOutput(r);
      RenderHead(Linkable(c, ref, t), Cuts(r));
  }

  lemma AllOkThen(s: string, ys: Items)
    requires AllOk(ys)
    ensures AllOk(Chars(s) + ys)
  {
  }

  lemma CutSpan(w: string, m: nat, j: nat, y: string, q: CommentState, b: bool, resolve: Resolver)
    requires CleanTargets(resolve) && IsSpan(w, m, j) && Plain(y)
    requires var rest := Cuts(Scan(y, Fold(q, w), false, resolve));
             AllOk(rest) && Source(rest) == y
    ensures var xs := Cuts(Scan(w + y, q, b, resolve));
            AllOk(xs) && Source(xs) == w + y
  {
    hide Scan, FindClose, Judge, CleanTargets, CleanTarget, ParseRef, Fold, IsSpan, Plain, Source, Content, Chars;
    var rest := Cuts(Scan(y, Fold(q, w), false, resolve));
    SpanLength(w, m, j);
    ScanSpan(w, m, j, y, q, b, resolve);
    var v := Judge(q, b, m, Content(w, m, j), y, resolve);
    if v.Link? {
      LinkSpan(q, b, w, m, j, y, resolve);
      RenderHead(Linkable(Content(w, m, j), v.ref, v.target), rest);
    } else {
      RenderChars(w, rest);
      AllOkThen(w, rest);
    }
  }

  /** The cut spells the line, and its links are what the scan found. */
  lemma {:induction false} CutIsLine(s: string, q: CommentState, b: bool, resolve: Resolver)
    requires CleanTargets(resolve)
    ensures AllOk(Cuts(Scan(s, q, b, resolve)))
    ensures Source(Cuts(Scan(s, q, b, resolve))) == s
    decreases |s|
  {
    hide Scan, FindClose, Judge, CleanTargets, Fold, IsSpan, IsRun, Plain, Source, AllOk, Chars;
    if s == [] {
      ScanEmpty(q, b, resolve);
      NothingCut();
    } else if s[0] != TICK {
      var y, q1 := s[1..], StepComment(q, s[0]);
      assert s == [s[0]] + y;
      ScanPlain(s[0], y, q, b, resolve);
      CutIsLine(y, q1, s[0] == '[', resolve);
      var rest := Cuts(Scan(y, q1, s[0] == '[', resolve));
      RenderChars([s[0]], rest);
      AllOkThen([s[0]], rest);
    } else {
      var closed, w, y, m, j := Cut(s);
      CutIsLine(y, Fold(q, w), false, resolve);
      var rest := Cuts(Scan(y, Fold(q, w), false, resolve));
      if closed {
        CutSpan(w, m, j, y, q, b, resolve);
      } else {
        ScanStray(w, y, q, b, resolve);
        RenderChars(w, rest);
        AllOkThen(w, rest);
      }
    }
  }

  lemma NothingCut()
    ensures AllOk([]) && Source([]) == ""
  {
  }

  // ----- What the cut says about orphans -----

  predicate Blank(ws: string) {
    ws != "" && forall k :: 0 <= k < |ws| ==> IsSpace(ws[k])
  }

  predicate OneLine(text: string) {
    forall k :: 0 <= k < |text| ==> text[k] != TICK && text[k] != '\n'
  }

  /** What a link target may hold: neither a closing parenthesis nor whitespace. */
  predicate InTarget(u: string) {
    forall k :: 0 <= k < |u| ==> u[k] != ')' && !IsSpace(u[k])
  }

  predicate IsMdName(file: string) {
    && |file| > 3 && file[|file| - 3..] == ".md"
    && forall k :: 0 <= k < |file| ==> file[k] != TICK && file[k] != ']' && !IsSpace(file[k])
  }

  /** Where a section anchor ends: at a span that is going to be linked, whose bracket counts as
      text of the anchor, or after some text at a single backtick. */
  predicate AnchorEnds(text: string, ys: Items) {
    && ys != []
    && (ys[0].Linkable? || (text != "" && ys[0] == Char(TICK) && (|ys| > 1 ==> ys[1] != Char(TICK))))
  }

  ghost predicate AnchorParts(xs: Items, ws: string, text: string, ys: Items) {
    xs == Chars(ws + ("§" + text)) + ys && Blank(ws) && OneLine(text) && AnchorEnds(text, ys)
  }

  /** Whitespace, a section sign and the rest of an anchor. */
  ghost predicate AnchorAhead(xs: Items) {
    exists ws, text, ys :: AnchorParts(xs, ws, text, ys)
  }

  ghost predicate TargetParts(xs: Items, u: string, ys: Items) {
    xs == Chars(u + ")") + ys && InTarget(u) && AnchorAhead(ys)
  }

  /** The rest of a target t and its parenthesis, then ys: an anchor follows the parenthesis that
      ends the target.  For a target without parentheses and whitespace this says that an anchor
      follows in ys. */
  ghost predicate CloseAhead(t: string, ys: Items, some: bool) {
    exists u, zs :: TargetParts(Chars(t + ")") + ys, u, zs) && (some ==> u != "")
  }

  /** A span that is going to be linked, without an anchor of its own, before an anchor. */
  ghost predicate FreshLink(xs: Items) {
    xs != [] && xs[0].Linkable? && xs[0].ref.anchor == "" && CloseAhead(xs[0].target, xs[1..], true)
  }

  /** A link to a file that is there already, before an anchor.  Its target may itself hold a span
      that is going to be linked; then the parenthesis of that link ends the target. */
  ghost predicate PresentParts(xs: Items, file: string, u: string, ys: Items) {
    && xs == Chars("[`" + (file + ("`](" + u))) + ys && IsMdName(file) && InTarget(u) && ys != []
    && if ys[0].Linkable? then ys[0].ref.anchor == "" && CloseAhead(ys[0].target, ys[1..], false)
       else u != "" && ys[0] == Char(')') && AnchorAhead(ys[1..])
  }

  ghost predicate PresentLink(xs: Items) {
    exists file, u, ys :: PresentParts(xs, file, u, ys)
  }

  /** Somewhere in the line a link, fresh or present, stands before an anchor. */
  ghost predicate Exposed(xs: Items) {
    xs != [] && (FreshLink(xs) || PresentLink(xs) || Exposed(xs[1..]))
  }

  // ----- Reading a rendered cut backwards -----

  /** Text at the start of the rendering is text of the cut, up to the first link. */
  lemma {:induction false} Peel(xs: Items, u: string, v: string) returns (i: nat, ys: Items)
    requires Render(xs) == u + v
    ensures i <= |u| && xs == Chars(u[..i]) + ys && Render(ys) == u[i..] + v
    ensures i == |u| || (ys != [] && ys[0].Linkable?)
    decreases |u|
  {
    if u == [] || xs[0].Linkable? {
      i, ys := 0, xs;
      assert u[0..] == u && Chars(u[..0]) + xs == xs;
    } else {
      hide Chars, Render;
      RenderTail(xs, u, v);
      i, ys := Peel(xs[1..], u[1..], v);
      PeelMore(xs, u, i, ys);
      i := i + 1;
    }
  }

  lemma RenderTail(xs: Items, u: string, v: string)
    requires xs != [] && xs[0].Char? && u != [] && Render(xs) == u + v
    ensures xs[0].c == u[0] && Render(xs[1..]) == u[1..] + v
  {
    hide Render;
    assert xs == [xs[0]] + xs[1..];
    RenderHead(xs[0], xs[1..]);
    TailOf([xs[0].c], Render(xs[1..]), u, v);
  }

  lemma TailOf(c: string, z: string, u: string, v: string)
    requires |c| == 1 && u != [] && c + z == u + v
    ensures c[0] == u[0] && z == u[1..] + v
  {
    assert (c + z)[0] == (u + v)[0];
    assert (c + z)[1..] == z && (u + v)[1..] == u[1..] + v;
  }

  lemma PeelMore(xs: Items, u: string, i: nat, ys: Items)
    requires xs != [] && u != [] && i < |u| && xs[0] == Char(u[0]) && xs[1..] == Chars(u[1..][..i]) + ys
    ensures xs == Chars(u[..i + 1]) + ys && u[1..][i..] == u[i + 1..]
  {
    assert u[..i + 1][1..] == u[1..][..i];
    CharsHead(u[..i + 1], ys);
  }

  lemma RefShape(content: string)
    requires ParseRef(content).Some?
    ensures var r := ParseRef(content).value;
            && IsMdName(r.file) && InTarget(r.file) && '[' !in r.file
            && (r.anchor == "" || IsSpace(r.anchor[0])) && TICK !in r.anchor
  {
    hide SpanLen, IsSpace;
    ParseRefText(content);
    var r := ParseRef(content).value;
    assert r.file == content[..SpanLen(content, false)];
    assert forall k :: 0 <= k < |r.file| ==> r.file[k] in r.file;
    assert TICK in r.anchor ==> TICK in r.file + r.anchor;
  }

  lemma WrappedText(f: string, a: string, t: string, z: string)
    ensures Wrapped(Ref(f, a), t) + z == "[`" + (f + (a + ("`](" + (t + (")" + z)))))
  {
    var tail := t + (")" + z);
    var s := "[" + ("`" + f + a + "`");
    assert s + "](" + t + ")" + z == s + ("](" + tail);
    Regroup("[`", f, a, "`", "](" + tail);
    assert s == "[`" + f + a + "`";
    assert "`" + ("](" + tail) == "`](" + tail;
  }

  /** The rendering of a link. */
  lemma LinkText(xs: Items)
    requires xs != [] && xs[0].Linkable?
    ensures var x := xs[0];
            Render(xs) == "[`" + (x.ref.file + (x.ref.anchor + ("`](" + (x.target + (")" + Render(xs[1..]))))))
  {
    hide Render, Wrapped;
    assert xs == [xs[0]] + xs[1..];
    RenderHead(xs[0], xs[1..]);
    WrappedText(xs[0].ref.file, xs[0].ref.anchor, xs[0].target, Render(xs[1..]));
  }

  lemma LinkHead(xs: Items)
    requires AllOk(xs) && xs != [] && xs[0].Linkable?
    ensures var s := Render(xs);
            |s| > 2 && s[0] == '[' && s[1] == TICK && s[2] != TICK
  {
    hide ParseRef, Render;
    LinkText(xs);
    RefShape(xs[0].content);
  }
}
