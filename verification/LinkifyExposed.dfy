/** The cut tells exactly whether the linked line holds an orphan pattern. */
module LinkifyExposed {
  import opened Basics
  import opened Linkify
  import opened LinkifyIdempotence
  import opened LinkifyPass
  import opened LinkifyCut

  // ----- Anchors -----

  lemma SpaceLen(ws: string, y: string)
    requires Blank(ws) && y != [] && !IsSpace(y[0])
    ensures SpanLen(ws + y, true) == |ws|
  {
    hide SpanLen, IsSpace;
    var d, k := ws + y, SpanLen(ws + y, true);
    assert d[|ws|] == y[0] && forall l :: 0 <= l < |ws| ==> d[l] == ws[l];
  }

  lemma AnchorFinds(ws: string, text: string, z: string)
    requires Blank(ws) && OneLine(text) && text != "" && Plain(z)
    ensures MatchAnchor(ws + ("§" + (text + ("`" + z)))).Some?
  {
    hide SpanLen, Until;
    var e := text + ("`" + z);
    var y := "§" + e;
    var d := ws + y;
    assert !IsSpace('§');
    hide IsSpace;
    SpaceLen(ws, y);
    assert d[|ws|] == '§' && d[|ws| + 1..] == e;
    UntilStop(text, "`" + z, c => c == TICK || c == '\n');
    assert e[|text|] == TICK;
    assert z != [] ==> e[|text| + 1] == z[0];
  }

  lemma AnchorSplit(d: string) returns (ws: string, text: string, z: string)
    requires MatchAnchor(d).Some?
    ensures Blank(ws) && OneLine(text) && text != "" && Plain(z)
    ensures d == ws + ("§" + (text + ("`" + z)))
  {
    hide SpanLen, Until, IsSpace;
    var k := SpanLen(d, true);
    var e := d[k + 1..];
    var l := Until(e, c => c == TICK || c == '\n');
    ws, text, z := d[..k], e[..l], e[l + 1..];
    assert Blank(ws) && OneLine(text) && Plain(z);
    CutAt(e, l);
    CutAt(d, k);
  }

  lemma CutAt(s: string, k: nat)
    requires k < |s|
    ensures s == s[..k] + ([s[k]] + s[k + 1..])
  {
  }

  /** A single backtick at the start of a rendering is a backtick of the line. */
  lemma TickItem(ys: Items, z: string)
    requires AllOk(ys) && Render(ys) == "`" + z && Plain(z)
    ensures ys != [] && ys[0] == Char(TICK) && (|ys| > 1 ==> ys[1] != Char(TICK))
  {
    assert ys != [];
    if ys[0].Linkable? {
      LinkHead(ys);
      assert false;
    }
    RenderTail(ys, "`", z);
    assert "`"[1..] + z == z;
  }

  lemma AnchorRead(xs: Items)
    requires AllOk(xs) && MatchAnchor(Render(xs)).Some?
    ensures AnchorAhead(xs)
  {
    hide MatchAnchor, Render, ParseRef, IsSpace, Chars;
    var ws, text, z := AnchorSplit(Render(xs));
    var u, v := ws + ("§" + text), "`" + z;
    assert Render(xs) == u + v;
    var i, ys := Peel(xs, u, v);
    PeelOk(xs, u[..i], ys);
    if i == |u| {
      assert u[..i] == u && u[i..] + v == v;
      TickItem(ys, z);
      assert AnchorParts(xs, ws, text, ys);
    } else {
      LinkHead(ys);
      AnchorBracket(ws, text, z, i);
      assert AnchorParts(xs, ws, text[..|text| - 1], ys);
    }
  }

  /** The only bracket before a backtick that an anchor can hold is its last character. */
  lemma AnchorBracket(ws: string, text: string, z: string, i: nat)
    requires Blank(ws) && OneLine(text)
    requires var u := ws + ("§" + text);
             i < |u| && (u[i..] + ("`" + z))[0] == '[' && (u[i..] + ("`" + z))[1] == TICK
    ensures text != "" && (ws + ("§" + text))[..i] == ws + ("§" + text[..|text| - 1])
  {
    var u := ws + ("§" + text);
    assert u[i] == '[';
    assert u[|ws|] == '§';
    assert forall k :: |ws| < k < |u| ==> u[k] == text[k - |ws| - 1];
    assert i + 1 == |u|;
  }

  lemma PeelOk(xs: Items, s: string, ys: Items)
    requires AllOk(xs) && xs == Chars(s) + ys
    ensures AllOk(ys)
  {
    hide Chars, ParseRef, CleanTarget;
    forall k | 0 <= k < |ys| ensures ys[k].Ok() {
      assert xs[|Chars(s)| + k] == ys[k];
    }
  }

  lemma AnchorWritten(xs: Items, ws: string, text: string, ys: Items)
    requires AllOk(xs) && AnchorParts(xs, ws, text, ys)
    ensures MatchAnchor(Render(xs)).Some?
  {
    hide MatchAnchor, ParseRef, IsSpace, Chars, Render;
    var u := ws + ("§" + text);
    PeelOk(xs, u, ys);
    RenderChars(u, ys);
    if ys[0].Linkable? {
      LinkHead(ys);
      var z := Render(ys)[2..];
      assert Render(ys) == "[" + ("`" + z);
      AnchorFinds(ws, text + "[", z);
      RegroupAnchor(ws, text, "[", "`" + z);
    } else {
      var z := Render(ys[1..]);
      PlainRender(ys[1..]);
      AnchorFinds(ws, text, z);
      RenderHead(ys[0], ys[1..]);
      assert ys == [ys[0]] + ys[1..];
      RegroupAnchor(ws, text, "", "`" + z);
      assert text + "" == text && "" + ("`" + z) == "`" + z;
    }
  }

  lemma RegroupAnchor(ws: string, p: string, q: string, z: string)
    ensures ws + ("§" + p) + (q + z) == ws + ("§" + ((p + q) + z))
  {
    assert ("§" + p) + (q + z) == "§" + ((p + q) + z);
  }

  lemma PlainRender(ys: Items)
    requires ys != [] ==> ys[0] != Char(TICK)
    ensures Plain(Render(ys))
  {
  }

  lemma AnchorIff(xs: Items)
    requires AllOk(xs)
    ensures MatchAnchor(Render(xs)).Some? <==> AnchorAhead(xs)
  {
    hide MatchAnchor, Render, AnchorParts, AllOk;
    if MatchAnchor(Render(xs)).Some? {
      AnchorRead(xs);
    }
    if ws, text, ys :| AnchorParts(xs, ws, text, ys) {
      AnchorWritten(xs, ws, text, ys);
    }
  }

  // ----- Targets -----

  lemma TargetSplit(b: string) returns (u: string, d: string)
    requires MatchTarget(b).Some?
    ensures u != "" && InTarget(u) && MatchAnchor(d).Some? && b == u + (")" + d)
  {
    hide Until, IsSpace, MatchAnchor;
    var j := Until(b, c => c == ')' || IsSpace(c));
    u, d := b[..j], b[j + 1..];
  }

  /** A link that is being read ends at the first closing parenthesis of t, or at its own. */
  lemma CloseRead(t: string, ys: Items, u: string, d: string) returns (zs: Items)
    requires AllOk(ys) && InTarget(u) && MatchAnchor(d).Some?
    requires t + (")" + Render(ys)) == u + (")" + d)
    ensures TargetParts(Chars(t + ")") + ys, u, zs)
  {
    hide MatchAnchor, Render, IsSpace, AllOk, AnchorAhead;
    var xs := Chars(t + ")") + ys;
    AllOkThen(t + ")", ys);
    RenderChars(t + ")", ys);
    assert (t + ")") + Render(ys) == t + (")" + Render(ys));
    assert (u + ")") + d == u + (")" + d);
    var i, ws := Peel(xs, u + ")", d);
    TargetNotLonger(t, Render(ys), u, d);
    NoLinkInChars(t + ")", ys, (u + ")")[..i], ws);
    assert i == |u + ")"|;
    assert (u + ")")[..i] == u + ")" && (u + ")")[i..] + d == d;
    PeelOk(xs, u + ")", ws);
    AnchorIff(ws);
    zs := ws;
  }

  lemma NoLinkInChars(s: string, ys: Items, p: string, ws: Items)
    requires Chars(s) + ys == Chars(p) + ws
    ensures |p| < |s| ==> ws != [] && ws[0].Char?
  {
    if |p| < |s| {
      assert (Chars(s) + ys)[|p|] == Char(s[|p|]);
    }
  }

  lemma TargetNotLonger(t: string, z: string, u: string, d: string)
    requires InTarget(u) && t + (")" + z) == u + (")" + d)
    ensures |u| <= |t|
  {
    assert (t + (")" + z))[|t|] == ')';
  }

  lemma CloseWritten(t: string, ys: Items, u: string, zs: Items)
    requires AllOk(ys) && TargetParts(Chars(t + ")") + ys, u, zs)
    ensures t + (")" + Render(ys)) == u + (")" + Render(zs)) && MatchAnchor(Render(zs)).Some?
  {
    hide MatchAnchor, Render, AllOk, AnchorAhead, Chars;
    AllOkThen(t + ")", ys);
    PeelOk(Chars(t + ")") + ys, u + ")", zs);
    AnchorIff(zs);
    RenderChars(t + ")", ys);
    RenderChars(u + ")", zs);
    Assoc(t, ")", Render(ys));
    Assoc(u, ")", Render(zs));
  }

  lemma CloseIff(t: string, ys: Items)
    requires AllOk(ys)
    ensures MatchTarget(t + (")" + Render(ys))).Some? <==> CloseAhead(t, ys, true)
  {
    hide MatchAnchor, MatchTarget, Render, AllOk, TargetParts;
    var b := t + (")" + Render(ys));
    if MatchTarget(b).Some? {
      var u, d := TargetSplit(b);
      var zs := CloseRead(t, ys, u, d);
    }
    if u, zs :| TargetParts(Chars(t + ")") + ys, u, zs) && u != "" {
      CloseWritten(t, ys, u, zs);
      assert InTarget(u) by { TargetIn(Chars(t + ")") + ys, u, zs); }
      MatchTargetFinds(u, Render(zs));
    }
  }

  lemma TargetIn(xs: Items, u: string, zs: Items)
    requires TargetParts(xs, u, zs)
    ensures InTarget(u)
  {
  }

  // ----- Fresh links -----

  lemma AnchorInText(f: string, a: string, z: string)
    requires IsMdName(f) && a != "" && IsSpace(a[0])
    ensures MatchOrphan("[`" + (f + (a + z))).None?
  {
    hide Until, MatchTarget, IsSpace;
    assert a[0] != TICK by { hide *; SpaceIsNoTick(a[0]); }
    var s := f + (a + z);
    UntilStop(f, a + z, c => c == TICK || c == ']' || IsSpace(c));
    assert ("[`" + s)[2..] == s && s[|f|..] == a + z;
  }

  lemma SpaceIsNoTick(c: char)
    requires IsSpace(c)
    ensures c != TICK && c != '[' && c != ')'
  {
  }

  lemma FreshIff(xs: Items)
    requires AllOk(xs) && xs != [] && xs[0].Linkable?
    ensures MatchOrphan(Render(xs)).Some? <==> FreshLink(xs)
  {
    hide MatchOrphan, MatchTarget, Render, ParseRef, IsSpace, CloseAhead, InTarget;
    var r, t, z := xs[0].ref, xs[0].target, Render(xs[1..]);
    LinkText(xs);
    RefShape(xs[0].content);
    if r.anchor == "" {
      var b := t + (")" + z);
      assert r.anchor + ("`](" + b) == "`](" + b;
      MatchOrphanFinds(r.file, b);
      CloseIff(t, xs[1..]);
    } else {
      AnchorInText(r.file, r.anchor, "`](" + (t + (")" + z)));
    }
  }

  // ----- Links that are there already -----

  lemma OrphanSplit(s: string) returns (file: string, u: string, d: string)
    requires MatchOrphan(s).Some?
    ensures IsMdName(file) && u != "" && InTarget(u) && MatchAnchor(d).Some?
    ensures s == "[`" + (file + ("`](" + (u + (")" + d))))
  {
    hide Until, MatchTarget, MatchAnchor, IsSpace, InTarget;
    var a := s[2..];
    var i := Until(a, c => c == TICK || c == ']' || IsSpace(c));
    file := a[..i];
    var b := a[i + 3..];
    u, d := TargetSplit(b);
    assert IsMdName(file);
    CutPrefix(s, "[`");
    CutPrefix(a, file);
    CutPrefix(a[i..], "`](");
    assert a[i..][3..] == b;
  }

  lemma CutPrefix(s: string, p: string)
    requires p <= s
    ensures s == p + s[|p|..]
  {
  }

  function LinkStart(file: string): string {
    "[`" + (file + "`](")
  }

  lemma LinkStartThen(file: string, b: string)
    ensures LinkStart(file) + b == "[`" + (file + ("`](" + b))
  {
    Assoc("[`", file + "`](", b);
    Assoc(file, "`](", b);
  }

  /** In the start of a link only its first character is a bracket before a backtick. */
  lemma StartBracket(file: string, b: string, i: nat)
    requires IsMdName(file) && i < |LinkStart(file)|
    requires var s := LinkStart(file)[i..] + b;
             |s| > 1 && s[0] == '[' && s[1] == TICK
    ensures i == 0
  {
    hide IsSpace;
    var h := LinkStart(file);
    var n := |file|;
    assert h[i] == '[';
    assert forall k :: 0 <= k < n ==> h[k + 2] == file[k];
    assert file[n - 1] == file[n - 3..][2] == 'd';
    assert h[n + 2] == TICK && h[n + 3] == ']' && h[n + 4] == '(';
  }

  lemma StartText(f: string, a: string, z: string)
    ensures var s := "[`" + (f + (a + z));
            && |s| >= 2 + |f| && s[0] == '[' && s[1] == TICK
            && (forall k :: 2 <= k < 2 + |f| ==> s[k] == f[k - 2])
            && (a != "" ==> |s| > 2 + |f| && s[2 + |f|] == a[0])
  {
    var y := a + z;
    var x := f + y;
    assert ("[`" + x)[2..] == x;
    assert a != "" ==> y[0] == a[0];
  }

  /** Up to the parenthesis that ends a target there is no whitespace. */
  lemma TargetText(w: string, d: string, k: nat)
    requires InTarget(w) && k <= |w|
    ensures var s := w + (")" + d);
            !IsSpace(s[k]) && (k < |w| <==> s[k] != ')')
  {
    var s := w + (")" + d);
    assert s[|w|] == ')';
    assert k < |w| ==> s[k] == w[k];
  }

  lemma StartInTarget(f: string, a: string, z: string, w: string, d: string)
    requires InTarget(f) && InTarget(w) && "[`" + (f + (a + z)) == w + (")" + d)
    ensures 2 + |f| <= |w|
  {
    hide IsSpace;
    StartText(f, a, z);
    if |w| < 2 + |f| {
      TargetText(w, d, |w|);
    }
  }

  lemma LinkInText(f: string, a: string, rest: string, w: string, d: string) returns (v: string)
    requires InTarget(f) && (a == "" || IsSpace(a[0])) && InTarget(w)
    requires "[`" + (f + (a + ("`](" + rest))) == w + (")" + d)
    ensures a == "" && InTarget(v) && rest == v + (")" + d)
  {
    hide IsSpace;
    var p, s := 2 + |f|, w + (")" + d);
    StartInTarget(f, a, "`](" + rest, w, d);
    StartText(f, a, "`](" + rest);
    TargetText(w, d, p);
    assert a == "";
    assert a + ("`](" + rest) == "`](" + rest;
    LinkStartThen(f, rest);
    var h := LinkStart(f);
    assert |h| == p + 3 && s[p..p + 3] == "`](" by { assert s == h + rest; assert h[p..] == "`]("; }
    LongStart(w, d, p, s);
    v := w[|h|..];
    assert s[|h|..] == rest;
    assert s[|h|..] == v + (")" + d);
  }

  lemma LongStart(w: string, d: string, p: nat, s: string)
    requires s == w + (")" + d) && p <= |w| && p + 3 <= |s| && s[p..p + 3] == "`]("
    ensures p + 3 <= |w|
  {
    var t := s[p..p + 3];
    assert t[0] == s[p] && t[1] == s[p + 1] && t[2] == s[p + 2];
    assert s[|w|] == ')';
  }

  lemma ParenItem(zs: Items, d: string)
    requires AllOk(zs) && Render(zs) == ")" + d
    ensures zs != [] && zs[0] == Char(')') && Render(zs[1..]) == d
  {
    assert zs != [];
    if zs[0].Linkable? {
      LinkHead(zs);
      assert false;
    }
    RenderTail(zs, ")", d);
    assert ")"[1..] + d == d;
  }

  lemma TargetRead(zs: Items, u: string, d: string) returns (i: nat, ys: Items)
    requires AllOk(zs) && Render(zs) == u + (")" + d) && u != "" && InTarget(u) && MatchAnchor(d).Some?
    ensures i <= |u| && zs == Chars(u[..i]) + ys && InTarget(u[..i]) && ys != []
    ensures if ys[0].Linkable? then ys[0].ref.anchor == "" && CloseAhead(ys[0].target, ys[1..], false)
            else i == |u| && ys[0] == Char(')') && AnchorAhead(ys[1..])
  {
    hide MatchAnchor, Render, IsSpace, ParseRef, AnchorAhead, TargetParts, CleanTarget, Chars;
    i, ys := Peel(zs, u, ")" + d);
    PeelOk(zs, u[..i], ys);
    if i == |u| {
      assert u[i..] + (")" + d) == ")" + d;
      ParenItem(ys, d);
      AnchorIff(ys[1..]);
    } else {
      LinkText(ys);
      RefShape(ys[0].content);
      var x, rest := ys[0], ys[1..];
      var v := LinkInText(x.ref.file, x.ref.anchor, x.target + (")" + Render(rest)), u[i..], d);
      var ws := CloseRead(x.target, rest, v, d);
    }
  }

  lemma NothingPeeled(xs: Items, p: string, zs: Items)
    requires xs == Chars(p) + zs
    ensures p == "" ==> xs == zs
  {
  }

  lemma PresentRead(xs: Items)
    requires AllOk(xs) && xs != [] && xs[0].Char? && MatchOrphan(Render(xs)).Some?
    ensures PresentLink(xs)
  {
    hide MatchOrphan, MatchAnchor, Render, IsSpace, AllOk, CloseAhead, AnchorAhead;
    hide InTarget, IsMdName, LinkStart, ParseRef;
    var file, u, d := OrphanSplit(Render(xs));
    var h, b := LinkStart(file), u + (")" + d);
    LinkStartThen(file, b);
    var i, zs := Peel(xs, h, b);
    PeelOk(xs, h[..i], zs);
    NothingPeeled(xs, h[..i], zs);
    if i < |h| {
      LinkHead(zs);
      StartBracket(file, b, i);
      assert false;
    }
    assert h[..i] == h && h[i..] + b == b;
    var j, ys := TargetRead(zs, u, d);
    LinkStartThen(file, u[..j]);
    CharsConcat(h, u[..j]);
    assert xs == Chars(h + u[..j]) + ys;
    assert PresentParts(xs, file, u[..j], ys);
  }

  lemma TargetWritten(u: string, ys: Items)
    requires AllOk(ys) && ys != [] && InTarget(u)
    requires if ys[0].Linkable? then ys[0].ref.anchor == "" && CloseAhead(ys[0].target, ys[1..], false)
             else u != "" && ys[0] == Char(')') && AnchorAhead(ys[1..])
    ensures MatchTarget(u + Render(ys)).Some?
  {
    hide MatchTarget, MatchAnchor, Render, IsSpace, ParseRef, AnchorAhead, TargetParts, CleanTarget, Chars;
    var rest := ys[1..];
    assert AllOk(rest);
    if ys[0].Linkable? {
      var f, t := ys[0].ref.file, ys[0].target;
      RefShape(ys[0].content);
      LinkText(ys);
      var v, zs :| TargetParts(Chars(t + ")") + rest, v, zs);
      TargetIn(Chars(t + ")") + rest, v, zs);
      CloseWritten(t, rest, v, zs);
      var d := ")" + Render(zs);
      assert "" + ("`](" + (v + d)) == "`](" + (v + d);
      LinkStartThen(f, v + d);
      Assoc(LinkStart(f), v, d);
      Assoc(u, LinkStart(f) + v, d);
      LongTarget(u, f, v);
      MatchTargetFinds(u + (LinkStart(f) + v), Render(zs));
    } else {
      assert ys == [ys[0]] + rest;
      RenderHead(ys[0], rest);
      AnchorIff(rest);
      MatchTargetFinds(u, Render(rest));
    }
  }

  lemma LongTarget(u: string, f: string, v: string)
    requires InTarget(u) && InTarget(f) && InTarget(v)
    ensures InTarget(u + (LinkStart(f) + v)) && u + (LinkStart(f) + v) != ""
  {
    assert InTarget("[`") && InTarget("`](");
    hide IsSpace;
    assert InTarget(f + "`](");
    assert InTarget(LinkStart(f));
    assert InTarget(LinkStart(f) + v);
  }

  lemma PresentWritten(xs: Items, file: string, u: string, ys: Items)
    requires AllOk(xs) && PresentParts(xs, file, u, ys)
    ensures xs[0].Char? && MatchOrphan(Render(xs)).Some?
  {
    hide MatchOrphan, MatchTarget, Render, IsSpace, AllOk, CloseAhead, AnchorAhead, InTarget;
    var head := "[`" + (file + ("`](" + u));
    assert xs[0] == Char('[');
    PeelOk(xs, head, ys);
    RenderChars(head, ys);
    TargetWritten(u, ys);
    LinkStartThen(file, u);
    Assoc(LinkStart(file), u, Render(ys));
    LinkStartThen(file, u + Render(ys));
    MatchOrphanFinds(file, u + Render(ys));
  }

  lemma OrphanAtIff(xs: Items)
    requires AllOk(xs) && xs != []
    ensures MatchOrphan(Render(xs)).Some? <==> FreshLink(xs) || PresentLink(xs)
  {
    hide MatchOrphan, Render, AllOk, PresentParts;
    if file, u, ys :| PresentParts(xs, file, u, ys) {
      PresentWritten(xs, file, u, ys);
    }
    if xs[0].Linkable? {
      FreshIff(xs);
    } else if MatchOrphan(Render(xs)).Some? {
      PresentRead(xs);
    }
  }

  // ----- The whole line -----

  lemma OrphansStep(s: string)
    requires s != []
    ensures Orphans(s) > 0 <==> MatchOrphan(s).Some? || Orphans(s[1..]) > 0
  {
    hide MatchOrphan;
  }

  /** Where no position of w starts a match, w can be left out. */
  lemma {:induction false} OrphansSkip(w: string, z: string)
    requires forall o :: 0 <= o < |w| ==> MatchOrphan((w + z)[o..]).None?
    ensures Orphans(w + z) > 0 <==> Orphans(z) > 0
    decreases |w|
  {
    hide MatchOrphan, Orphans;
    var s := w + z;
    if w == [] {
      assert s == z;
    } else {
      assert s[0..] == s && s[1..] == w[1..] + z;
      forall o | 0 <= o < |w[1..]| ensures MatchOrphan((w[1..] + z)[o..]).None? {
        assert s[1..][o..] == s[o + 1..];
      }
      OrphansSkip(w[1..], z);
      OrphansStep(s);
    }
  }

  lemma NotHere(s: string, o: nat)
    requires o < |s| && (s[o] != '[' || o + 1 == |s| || s[o + 1] != TICK)
    ensures MatchOrphan(s[o..]).None?
  {
    hide Until, MatchTarget, IsSpace;
    var x := s[o..];
    assert x[0] == s[o] && (|x| > 1 ==> x[1] == s[o + 1]);
  }

  lemma EmptyName(s: string, o: nat)
    requires o + 2 < |s| && s[o + 2] == ']'
    ensures MatchOrphan(s[o..]).None?
  {
    hide MatchTarget, IsSpace;
    var x := s[o..];
    assert x[2] == ']';
    assert x[2..] != [] && x[2..][0] == ']';
  }

  /** No match starts inside a link. */
  lemma NoneInside(f: string, a: string, t: string, z: string, o: nat)
    requires '[' !in f && TickFree(a) && TickFree(t)
    requires var w := f + (a + ("`](" + (t + ")")));
             o <= |w|
    ensures MatchOrphan(("`" + (f + (a + ("`](" + (t + ")")))) + z)[o..]).None?
  {
    hide MatchOrphan;
    var g := f + (a + ("`](" + (t + ")")));
    var s := "`" + g + z;
    var n, m := 1 + |f|, 1 + |f| + |a|;
    assert s == "`" + (g + z);
    InsideText(f, a, t, z);
    if o == m - 1 && o >= n {
      EmptyName(s, o);
    } else {
      NotHere(s, o);
    }
  }

  lemma InsideText(f: string, a: string, t: string, z: string)
    ensures var s := "`" + (f + (a + ("`](" + (t + ")")))) + z;
            var n, m := 1 + |f|, 1 + |f| + |a|;
            && |s| == m + 3 + |t| + 1 + |z| && s[0] == TICK
            && (forall k :: 1 <= k < n ==> s[k] == f[k - 1])
            && (forall k :: n <= k < m ==> s[k] == a[k - n])
            && s[m] == TICK && s[m + 1] == ']' && s[m + 2] == '('
            && (forall k :: m + 3 <= k < m + 3 + |t| ==> s[k] == t[k - m - 3])
            && s[m + 3 + |t|] == ')'
  {
  }

  lemma LinkSkipped(xs: Items)
    requires AllOk(xs) && xs != [] && xs[0].Linkable?
    ensures Orphans(Render(xs)[1..]) > 0 <==> Orphans(Render(xs[1..])) > 0
  {
    hide MatchOrphan, Orphans, Render, ParseRef, IsSpace, IsMdName, InTarget;
    var r, t, z := xs[0].ref, xs[0].target, Render(xs[1..]);
    RefShape(xs[0].content);
    LinkText(xs);
    var w := "`" + (r.file + (r.anchor + ("`](" + (t + ")"))));
    assert forall k :: 0 <= k < |t| ==> t[k] in t;
    assert TickFree(r.anchor) && TickFree(t);
    forall o | 0 <= o < |w| ensures MatchOrphan((w + z)[o..]).None? {
      NoneInside(r.file, r.anchor, t, z, o);
    }
    OrphansSkip(w, z);
    LinkTail(r.file, r.anchor, t, z);
  }

  lemma LinkTail(f: string, a: string, t: string, z: string)
    ensures ("[`" + (f + (a + ("`](" + (t + (")" + z))))))[1..] == "`" + (f + (a + ("`](" + (t + ")")))) + z
  {
    Assoc(t, ")", z);
    Assoc("`](", t + ")", z);
    Assoc(a, "`](" + (t + ")"), z);
    Assoc(f, a + ("`](" + (t + ")")), z);
    Assoc("`", f + (a + ("`](" + (t + ")"))), z);
    var y := f + (a + ("`](" + (t + (")" + z))));
    assert ("[`" + y)[1..] == "`" + y;
  }

  /** The linked line holds an orphan pattern exactly when the cut is exposed. */
  lemma {:induction false} ExposedIff(xs: Items)
    requires AllOk(xs)
    ensures Orphans(Render(xs)) > 0 <==> Exposed(xs)
  {
    hide MatchOrphan, Orphans, FreshLink, PresentLink;
    if xs == [] {
      NoOrphanInNothing();
    } else {
      assert AllOk(xs[1..]);
      ExposedIff(xs[1..]);
      OrphanAtIff(xs);
      assert Render(xs) != [];
      OrphansStep(Render(xs));
      if xs[0].Linkable? {
        LinkSkipped(xs);
      } else {
        assert Render(xs)[1..] == Render(xs[1..]);
      }
    }
  }

  lemma NoOrphanInNothing()
    ensures Orphans("") == 0
  {
  }

  /** For a target without parentheses and whitespace: a fresh link is exposed exactly when it
      has no anchor of its own and one follows. */
  lemma FreshLinkIff(xs: Items)
    requires xs != [] && xs[0].Linkable? && xs[0].target != "" && InTarget(xs[0].target)
    ensures FreshLink(xs) <==> xs[0].ref.anchor == "" && AnchorAhead(xs[1..])
  {
    hide AnchorAhead, IsSpace;
    var t, ys := xs[0].target, xs[1..];
    var c := Chars(t + ")") + ys;
    if AnchorAhead(ys) {
      assert TargetParts(c, t, ys);
    }
    if u, zs :| TargetParts(c, u, zs) {
      SameEnd(t, ys, u, zs);
    }
  }

  lemma SameEnd(t: string, ys: Items, u: string, zs: Items)
    requires InTarget(t) && InTarget(u) && Chars(t + ")") + ys == Chars(u + ")") + zs
    ensures ys == zs
  {
    hide IsSpace;
    var c := Chars(t + ")") + ys;
    assert c[|t|] == Char(')') && c[|u|] == Char(')');
    assert c[|t| + 1..] == ys && c[|u| + 1..] == zs;
  }
}
