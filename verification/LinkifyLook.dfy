/** Rewriting a prose line changes nothing that the classifier looks at. */
module LinkifyLook {
  import opened Basics
  import opened Wrappers
  import opened Linkify
  import opened LinkifyPass
  import opened LinkifyCut
  import opened LinkifyExposed
  import opened LinkifyBlocks
  import opened LinkifyClassify
  import opened LinkifyTests

  // ----- The first change -----

  ghost predicate AgreeParts(s: string, t: string, u: string, v: string, w: string) {
    && s == u + v && t == u + w
    && v != [] && (v[0] == TICK || v[0] == '[') && w != [] && w[0] == '['
  }

  /** t is s, or differs from it first where t has a bracket and s a backtick or a bracket. */
  ghost predicate Agree(s: string, t: string) {
    s == t || exists u, v, w :: AgreeParts(s, t, u, v, w)
  }

  lemma AgreeContext(z: string, s: string, t: string, y: string)
    requires Agree(s, t)
    ensures Agree(z + s + y, z + t + y)
  {
    if u, v, w :| AgreeParts(s, t, u, v, w) {
      Assoc(z, u, v);
      Assoc(z, u, w);
      Assoc(z + u, v, y);
      Assoc(z + u, w, y);
      assert AgreeParts(z + s + y, z + t + y, z + u, v + y, w + y);
    }
  }

  lemma AgreeTrans(s: string, t: string, x: string)
    requires Agree(s, t) && Agree(t, x)
    ensures Agree(s, x)
  {
    if s != t && t != x {
      var u, v, w :| AgreeParts(s, t, u, v, w);
      var u2, v2, w2 :| AgreeParts(t, x, u2, v2, w2);
      assert t[|u|] == w[0] && t[|u2|] == v2[0];
      if |u2| <= |u| {
        assert u2 == t[..|u2|] == u[..|u2|];
        var v' := u[|u2|..] + v;
        assert s == u2 + v';
        assert |u2| < |u| ==> v'[0] == u[|u2|] == t[|u2|];
        assert AgreeParts(s, x, u2, v', w2);
      } else {
        assert u == t[..|u|] == u2[..|u|];
        var w' := u2[|u|..] + w2;
        assert x == u + w';
        assert w'[0] == u2[|u|] == t[|u|];
        assert AgreeParts(s, x, u, v, w');
      }
    }
  }

  lemma SpanPrefix(u: string, v: string)
    ensures var k := SpanLen(u, true);
            k < |u| ==> SpanLen(u + v, true) == k
    ensures SpanLen(u, true) == |u| && v != [] && !IsSpace(v[0]) ==> SpanLen(u + v, true) == |u|
  {
    hide SpanLen;
    var s := u + v;
    assert forall k :: 0 <= k < |u| ==> s[k] == u[k];
    assert v != [] ==> s[|u|] == v[0];
  }

  /** A fence is decided by the first characters that are no blanks. */
  lemma FenceIs(s: string)
    ensures var k := SpanLen(s, true);
            FenceOpen(s).Some? <==>
            && k <= 3 && k + 3 <= |s| && (s[k] == TICK || s[k] == '~') && s[k + 1] == s[k] && s[k + 2] == s[k]
  {
    hide SpanLen;
    var k := SpanLen(s, true);
    if k < |s| {
      var x := s[k..];
      assert x[0] == s[k] && (|x| > 1 ==> x[1] == s[k + 1]) && (|x| > 2 ==> x[2] == s[k + 2]);
      ThreeOf(x);
    }
  }

  lemma ThreeOf(x: string)
    requires x != []
    ensures RunOf(x, x[0]) >= 3 <==> |x| >= 3 && x[1] == x[0] && x[2] == x[0]
  {
    hide RunOf;
  }

  lemma AgreeFence(s: string, t: string)
    requires Agree(s, t) && FenceOpen(t).Some?
    ensures FenceOpen(s).Some?
  {
    hide FenceOpen, SpanLen;
    FenceIs(s);
    FenceIs(t);
    if s != t {
      var u, v, w :| AgreeParts(s, t, u, v, w);
      SpanPrefix(u, v);
      SpanPrefix(u, w);
      var k := SpanLen(t, true);
      assert t[|u|] == '[' && !IsSpace('[') && !IsSpace(TICK);
      assert k + 2 < |u|;
      assert forall i :: 0 <= i < |u| ==> s[i] == u[i] && t[i] == u[i];
    }
  }

  lemma AgreeLook(s: string, t: string)
    requires Agree(s, t)
    ensures IsIndented(s) <==> IsIndented(t)
    ensures IsBlank(s) <==> IsBlank(t)
    ensures s != t ==> '[' in t
  {
    if s != t {
      var u, v, w :| AgreeParts(s, t, u, v, w);
      assert s[|u|] == v[0] && t[|u|] == '[' && !IsSpace('[') && !IsSpace(TICK);
      hide IsSpace;
      assert forall i :: 0 <= i < |u| ==> s[i] == u[i] && t[i] == u[i];
    }
  }

  // ----- The end of the line -----

  lemma LineSplits(raw: string) returns (w: string)
    ensures raw == Line(raw) + w && IsBreak(w)
  {
    hide Line;
    var r, n := TrimmedLine(raw);
    w := r + n;
  }

  /** The tests on a trimmed line are tests on the line. */
  lemma LineLook(word: WordChars, raw: string)
    requires AsciiWords(word)
    ensures FenceOpen(Line(raw)).Some? <==> FenceOpen(raw).Some?
    ensures IsBlank(Line(raw)) <==> IsBlank(raw)
    ensures forall p :: Find(word, p, Line(raw)) == Find(word, p, raw)
  {
    hide Line, Find, FenceOpen, Match;
    var w := LineSplits(raw);
    forall p ensures Find(word, p, Line(raw)) == Find(word, p, raw) {
      FindBreak(word, p, Line(raw), w);
    }
    BreakLook(Line(raw), w);
  }

  lemma BreakLook(u: string, w: string)
    requires IsBreak(w)
    ensures FenceOpen(u).Some? <==> FenceOpen(u + w).Some?
    ensures IsBlank(u) <==> IsBlank(u + w)
  {
    hide FenceOpen, SpanLen;
    var s := u + w;
    assert forall i :: 0 <= i < |u| ==> s[i] == u[i];
    assert forall i :: |u| <= i < |s| ==> s[i] == w[i - |u|];
    assert IsSpace('\r') && IsSpace('\n');
    hide IsSpace;
    FenceIs(u);
    FenceIs(s);
    SpanPrefix(u, w);
  }

  lemma LookFromFinds(word: WordChars, a: string, b: string)
    requires AsciiWords(word) && Agree(a, b)
    requires forall p :: Has(word, p, a) <==> Has(word, p, b)
    requires FirstTag(word, a) == FirstTag(word, b)
    ensures SameLook(word, a, b)
  {
    hide Line, Find, FenceOpen, IsBlank, IsIndented;
    LineLook(word, a);
    LineLook(word, b);
    if FenceOpen(b).Some? {
      AgreeFence(a, b);
    }
    AgreeLook(a, b);
    forall p: Pattern ensures Has(word, p, Line(a)) <==> Has(word, p, Line(b)) {
      assert Has(word, p, a) <==> Has(word, p, b);
    }
    if Line(b) == "---" {
      var w := LineSplits(b);
      assert '[' !in b;
    }
  }

  // ----- Linking -----

  lemma {:induction false} LeadChars(xs: Items) returns (u: string, ys: Items)
    ensures xs == Chars(u) + ys && (ys == [] || ys[0].Linkable?)
  {
    if xs == [] || xs[0].Linkable? {
      u, ys := "", xs;
      assert Chars(u) + ys == ys;
    } else {
      var v;
      v, ys := LeadChars(xs[1..]);
      u := [xs[0].c] + v;
      CharsHead(u, ys);
      assert u[1..] == v && xs == [xs[0]] + xs[1..];
    }
  }

  lemma LinkAgree(xs: Items)
    ensures Agree(Source(xs), Render(xs))
  {
    hide Source, Render;
    var u, ys := LeadChars(xs);
    RenderChars(u, ys);
    if ys == [] {
      NothingAgrees();
    } else {
      LinkText(ys);
      SourceText(ys);
      assert AgreeParts(Source(xs), Render(xs), u, Source(ys), Render(ys));
    }
  }

  lemma NothingAgrees()
    ensures Source([]) == Render([]) == ""
  {
  }

  lemma SourceText(ys: Items)
    requires ys != [] && ys[0].Linkable?
    ensures Source(ys) == "`" + (ys[0].content + ("`" + Source(ys[1..])))
  {
    hide Source;
    var c, z := ys[0].content, Source(ys[1..]);
    assert ys == [ys[0]] + ys[1..];
    RenderHead(ys[0], ys[1..]);
    Assoc("`", c, "`");
    Assoc("`", c + "`", z);
    Assoc(c, "`", z);
  }

  lemma QuotedFind(word: WordChars, p: Pattern, c: string, z: string)
    requires AsciiWords(word)
    ensures Find(word, p, "`" + (c + ("`" + z))) == Or(Find(word, p, c), Find(word, p, z))
  {
    hide Find;
    FindSkip(word, p, "`", c + ("`" + z));
    FindLocal(word, p, c, "`" + z);
    FindSkip(word, p, "`", z);
  }

  /** A link: its text, its target, what follows. */
  lemma LinkFind(word: WordChars, p: Pattern, c: string, t: string, z: string)
    requires AsciiWords(word)
    ensures Find(word, p, "[`" + (c + ("`](" + (t + (")" + z))))) ==
            Or(Find(word, p, c), Or(Find(word, p, t), Find(word, p, z)))
  {
    hide Find;
    var y := t + (")" + z);
    FindSkip(word, p, "[`", c + ("`](" + y));
    FindLocal(word, p, c, "`](" + y);
    FindSkip(word, p, "`](", y);
    FindLocal(word, p, t, ")" + z);
    FindSkip(word, p, ")", z);
  }

  /** Linking changes no search. */
  lemma {:induction false} LinkingFinds(word: WordChars, p: Pattern, xs: Items)
    requires AsciiWords(word) && AllOk(xs) && '\n' !in Source(xs)
    ensures Find(word, p, Render(xs)) == Find(word, p, Source(xs))
    decreases |xs|
  {
    hide Find, Source, Render, ParseRef, Chars, CleanTarget;
    var u, ys := LeadChars(xs);
    RenderChars(u, ys);
    PeelOk(xs, u, ys);
    if ys == [] {
      NothingAgrees();
    } else {
      var x, rest := ys[0], ys[1..];
      var s, z := Source(rest), Render(rest);
      SourceText(ys);
      LinkText(ys);
      InSource(u, x.content, s);
      ParseRefText(x.content);
      assert x.content == x.ref.file + x.ref.anchor;
      Assoc(x.ref.file, x.ref.anchor, "`](" + (x.target + (")" + z)));
      CharsLength(u);
      LinkingFinds(word, p, rest);
      FindLocal(word, p, u, Source(ys));
      FindLocal(word, p, u, Render(ys));
      QuotedFind(word, p, x.content, s);
      LinkFind(word, p, x.content, x.target, z);
      TargetFinds(word, p, x.target);
    }
  }

  lemma CharsLength(u: string)
    ensures |Chars(u)| == |u|
  {
  }

  lemma InSource(u: string, c: string, s: string)
    requires '\n' !in u + ("`" + (c + ("`" + s)))
    ensures '\n' !in c && '\n' !in s
  {
    var x := "`" + (c + ("`" + s));
    assert forall k :: k in c || k in s ==> k in c + ("`" + s);
  }

  lemma TargetFinds(word: WordChars, p: Pattern, t: string)
    requires CleanTarget(t)
    ensures Find(word, p, t).None?
  {
    assert forall k :: 0 <= k < |t| ==> t[k] in t;
    FindNone(word, p, t);
  }

  // ----- Repairing -----

  /** No target that a repair moves past an anchor holds an angle bracket. */
  predicate PlainOrphans(s: string)
    decreases |s|
  {
    if s == [] then true
    else if MatchOrphan(s).None? then PlainOrphans(s[1..])
    else
      var o := MatchOrphan(s).value;
      MatchOrphanText(s);
      '<' !in o.target && PlainOrphans(s[|o.Text()|..])
  }

  /** A line without orphans, or the text up to the first one, the orphan and the rest. */
  lemma {:induction false} RepairLead(s: string) returns (u: string, o: Option<Orphan>, z: string)
    ensures o.None? ==> RepairAll(s) == s && u == s && z == ""
    ensures o.Some? ==>
              && s == u + (o.value.Text() + z) && RepairAll(s) == u + (o.value.Repaired() + RepairAll(z))
              && IsMdName(o.value.file) && Orphans(s) == 1 + Orphans(z)
              && (PlainOrphans(s) ==> '<' !in o.value.target && PlainOrphans(z))
    decreases |s|
  {
    hide MatchOrphan, IsMdName;
    if s == [] {
      u, o, z := s, None, "";
    } else if MatchOrphan(s).None? {
      u, o, z := RepairLead(s[1..]);
      var c := s[..1];
      assert s == c + s[1..];
      if o.Some? {
        Assoc(c, u, o.value.Text() + z);
        Assoc(c, u, o.value.Repaired() + RepairAll(z));
      }
      u := c + u;
    } else {
      MatchOrphanText(s);
      OrphanName(s);
      u, o := "", MatchOrphan(s);
      z := s[|o.value.Text()|..];
      assert s == o.value.Text() + z;
    }
  }

  lemma OrphanName(s: string)
    requires MatchOrphan(s).Some?
    ensures IsMdName(MatchOrphan(s).value.file)
  {
    hide Until, MatchTarget, IsSpace;
  }

  /** A file name ends in text that no search reads past. */
  lemma NameFind(word: WordChars, p: Pattern, file: string, y: string)
    requires AsciiWords(word) && IsMdName(file)
    ensures Find(word, p, file + y) == Or(Find(word, p, file), Find(word, p, y))
  {
    hide Find, IsSpace;
    var g := file[..|file| - 3];
    assert file == g + ".md";
    Assoc(g, ".md", y);
    FindLocal(word, p, g, ".md" + y);
    FindSkip(word, p, ".md", y);
    FindLocal(word, p, g, ".md");
    FindSkip(word, p, ".md", "");
    assert ".md" + "" == ".md";
    FindNone(word, p, "");
  }

  /** The searches of an orphan and of its repair differ in the order of target and anchor. */
  lemma OrphanFind(word: WordChars, p: Pattern, o: Orphan, z: string)
    requires AsciiWords(word) && IsMdName(o.file)
    ensures var f, t, a := Find(word, p, o.file), Find(word, p, o.target), Find(word, p, o.anchor);
            && Find(word, p, o.Text() + z) == Or(f, Or(t, Or(a, Find(word, p, z))))
            && Find(word, p, o.Repaired() + z) == Or(f, Or(a, Or(t, Find(word, p, z))))
  {
    hide Find, IsMdName;
    var y := o.anchor + ("`" + z);
    OrphanTexts(o, z);
    LinkFind(word, p, o.file, o.target, y);
    FindLocal(word, p, o.anchor, "`" + z);
    FindSkip(word, p, "`", z);
    LinkFind(word, p, o.file + o.anchor, o.target, z);
    NameFind(word, p, o.file, o.anchor);
  }

  lemma OrphanTexts(o: Orphan, z: string)
    ensures o.Text() + z == "[`" + (o.file + ("`](" + (o.target + (")" + (o.anchor + ("`" + z))))))
    ensures o.Repaired() + z == "[`" + ((o.file + o.anchor) + ("`](" + (o.target + (")" + z))))
  {
    var y := o.anchor + ("`" + z);
    Regroup("[`", o.file, "`](", o.target, ")" + y);
    var x := "[`" + o.file + "`](" + o.target;
    assert x + ")" + o.anchor + "`" + z == x + (")" + y);
    Assoc("[`", o.file, o.anchor);
    Regroup("[`", o.file + o.anchor, "`](", o.target, ")" + z);
    Assoc("[`" + (o.file + o.anchor) + "`](" + o.target, ")", z);
  }

  /** Repairing neither makes a pattern appear nor disappear. */
  lemma {:induction false} RepairHas(word: WordChars, p: Pattern, s: string)
    requires AsciiWords(word)
    ensures Has(word, p, RepairAll(s)) <==> Has(word, p, s)
    decreases Orphans(s)
  {
    hide Find, MatchOrphan, IsMdName, RepairAll, Orphans;
    var u, o, z := RepairLead(s);
    if o.None? {
    } else {
      RepairHas(word, p, z);
      OrphanFind(word, p, o.value, z);
      OrphanFind(word, p, o.value, RepairAll(z));
      FindLocal(word, p, u, o.value.Text() + z);
      FindLocal(word, p, u, o.value.Repaired() + RepairAll(z));
    }
  }

  lemma {:induction false} RepairAgree(s: string)
    ensures Agree(s, RepairAll(s))
  {
    hide MatchOrphan, IsMdName, RepairAll, Orphans;
    var u, o, z := RepairLead(s);
    if o.Some? {
      assert AgreeParts(s, RepairAll(s), u, o.value.Text() + z, o.value.Repaired() + RepairAll(z));
    }
  }

  lemma {:induction false} NoTag(word: WordChars, u: string)
    requires '<' !in u
    ensures Find(word, TagOpen, u).None?
    decreases |u|
  {
    hide Names;
    if u == [] {
    } else {
      assert u[0] in u;
      NoTag(word, u[1..]);
    }
  }

  /** Then repairing keeps the first tag. */
  lemma {:induction false} RepairTag(word: WordChars, s: string)
    requires AsciiWords(word) && PlainOrphans(s)
    ensures FirstTag(word, RepairAll(s)) == FirstTag(word, s)
    ensures Find(word, TagOpen, RepairAll(s)) == Find(word, TagOpen, s)
    decreases Orphans(s)
  {
    hide Find, MatchOrphan, IsMdName, RepairAll, Orphans, PlainOrphans;
    var p := TagOpen;
    var u, o, z := RepairLead(s);
    if o.None? {
    } else {
      RepairTag(word, z);
      OrphanFind(word, p, o.value, z);
      OrphanFind(word, p, o.value, RepairAll(z));
      FindLocal(word, p, u, o.value.Text() + z);
      FindLocal(word, p, u, o.value.Repaired() + RepairAll(z));
      NoTag(word, o.value.target);
    }
  }
}
