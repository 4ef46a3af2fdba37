/** Lines on which a promise of the linkifier fails, and why its assumptions are needed. */
module LinkifyExamples {
  import opened Basics
  import opened Wrappers
  import opened Linkify
  import opened LinkifyIdempotence
  import opened LinkifyPass
  import opened LinkifyCut
  import opened LinkifyExposed
  import opened LinkifySecondPass
  import opened LinkifyBlocks
  import opened LinkifyClassify
  import opened LinkifyLook

  // ----- Two files and their references -----

  /** Both files are where their names say. */
  function Plainly(f: string): Option<string> {
    if f == "X.md" || f == "Y.md" then Some(f) else None
  }

  predicate IsExample(f: string) {
    f == "X.md" || f == "Y.md"
  }

  lemma ExampleName(f: string)
    requires IsExample(f)
    ensures |f| == 4 && IsMdName(f) && InTarget(f) && TickFree(f)
    ensures IsFileName(f) && SpanLen(f, false) == 4
  {
    hide SpanLen, IsSpace, IsFileName, IsMdName;
    ExampleChars(f);
    assert forall k :: 0 <= k < |f| ==> f[k] != ')' && f[k] != TICK;
    assert SpanLen(f, false) == 4;
    ExampleFile(f);
  }

  lemma ExampleFile(f: string)
    requires IsExample(f)
    ensures IsFileName(f) && IsMdName(f)
  {
    hide IsSpace;
    ExampleChars(f);
    assert (f[0] == 'X' || f[0] == 'Y') && f[1] == '.' && f[2] == 'm' && f[3] == 'd';
    assert f[1..] == ".md";
  }

  lemma ExampleChars(f: string)
    requires IsExample(f)
    ensures forall k :: 0 <= k < |f| ==> !IsSpace(f[k])
  {
  }

  lemma ExampleRef(f: string)
    requires IsExample(f)
    ensures ParseRef(f) == Some(Ref(f, ""))
    ensures IsSpan("`" + f + "`", 1, 4) && Content("`" + f + "`", 1, 4) == f
  {
    hide SpanLen, IsFileName, IsSpan, IsMdName, InTarget;
    ExampleName(f);
    assert f[..4] == f && f[4..] == "";
    var r := Ref(f, "");
    assert f + "" == f;
    assert TICK !in f;
    WrappedShape(r);
    assert Span(r) == "`" + f + "`";
  }

  lemma CleanExample()
    ensures CleanTargets(Plainly)
  {
    forall f | Plainly(f).Some? ensures CleanTarget(Plainly(f).value) {
      assert f == "X.md" || f == "Y.md";
    }
  }

  // ----- Cutting text and spans -----

  lemma {:induction false} CutText(p: string, y: string, q: CommentState, b: bool, resolve: Resolver)
    requires TickFree(p) && p != []
    ensures Cuts(Scan(p + y, q, b, resolve)) == Chars(p) + Cuts(Scan(y, Fold(q, p), p[|p| - 1] == '[', resolve))
    decreases |p|
  {
    hide Scan, Chars;
    assert p + y == [p[0]] + (p[1..] + y);
    ScanPlain(p[0], p[1..] + y, q, b, resolve);
    CharsConcat([p[0]], p[1..]);
    assert p == [p[0]] + p[1..];
    if |p| == 1 {
      assert p == [p[0]] && p[1..] == [] && p[1..] + y == y;
      assert Fold(q, p) == StepComment(q, p[0]);
    } else {
      CutText(p[1..], y, StepComment(q, p[0]), p[0] == '[', resolve);
    }
  }

  /** A span around an example file is linked or copied. */
  lemma CutExample(f: string, y: string, q: CommentState, b: bool, resolve: Resolver)
    requires IsExample(f) && Plain(y) && resolve(f).Some?
    ensures var rest := Cuts(Scan(y, Fold(q, "`" + f + "`"), false, resolve));
            Cuts(Scan("`" + f + "`" + y, q, b, resolve)) ==
            if q.Inside? || (b && "](" <= y) then Chars("`" + f + "`") + rest
            else [Linkable(f, Ref(f, ""), resolve(f).value)] + rest
  {
    hide Scan, ParseRef, IsSpan, Fold, Chars, Content;
    ExampleRef(f);
    SpanLength("`" + f + "`", 1, 4);
    ScanSpan("`" + f + "`", 1, 4, y, q, b, resolve);
  }

  lemma {:induction false} FoldOutside(s: string)
    requires '<' !in s
    ensures Fold(Outside(0), s) == Outside(0)
    decreases |s|
  {
    if s == [] {
      assert Fold(Outside(0), s) == Outside(0);
    } else {
      assert s[0] in s;
      FoldOutside(s[1..]);
    }
  }

  lemma ExampleTicks(p: string, f: string, y: string)
    requires IsExample(f) && TickFree(p)
    ensures Ticks(p + ("`" + f + "`" + y)) == 2 + Ticks(y)
  {
    hide Ticks, IsMdName, InTarget, IsFileName;
    ExampleName(f);
    TicksQuoted(p, f, y);
    assert p + ("`" + f + "`" + y) == p + "`" + f + "`" + y;
  }

  lemma LoneTick(p: string)
    requires TickFree(p)
    ensures Ticks(p + "`") == 1
  {
    TicksConcat(p, "`");
    TicksNone(p);
    TicksOne();
  }

  lemma CutEnd(p: string, q: CommentState, b: bool, resolve: Resolver)
    requires TickFree(p) && p != []
    ensures Cuts(Scan(p + "`", q, b, resolve)) == Chars(p + "`")
  {
    hide Scan, Chars;
    var q1 := Fold(q, p);
    CutText(p, "`", q, b, resolve);
    assert IsRun("`") by { assert "`"[1..] == []; }
    ScanStray("`", "", q1, p[|p| - 1] == '[', resolve);
    assert "`" + "" == "`";
    ScanEmpty(Fold(q1, "`"), false, resolve);
    CharsConcat(p, "`");
    assert Cuts(Kept("`", Done)) == Chars("`") + [];
  }

  // ----- A fresh link before an anchor -----

  const FRESH: string := "`X.md`" + " §xy`"

  lemma FreshCut()
    ensures Cuts(ScanLine(FRESH, Plainly)) == [Linkable("X.md", Ref("X.md", ""), "X.md")] + Chars(" §xy`")
  {
    hide Scan, Fold;
    CutExample("X.md", " §xy`", Outside(0), false, Plainly);
    assert "`" + "X.md" + "`" == "`X.md`";
    assert " §xy" + "`" == " §xy`";
    CutEnd(" §xy", Fold(Outside(0), "`X.md`"), false, Plainly);
  }

  lemma FreshExposed()
    ensures Exposed(Cuts(ScanLine(FRESH, Plainly)))
  {
    hide Scan, ParseRef, FreshLink, PresentLink;
    FreshCut();
    var xs := Cuts(ScanLine(FRESH, Plainly));
    var tail := Chars(" §xy`");
    assert xs[1..] == tail;
    assert " " + ("§" + "xy") == " §xy";
    CharsConcat(" §xy", "`");
    assert " §xy" + "`" == " §xy`";
    assert IsSpace(' ');
    assert AnchorParts(tail, " ", "xy", Chars("`"));
    ExampleName("X.md");
    FreshLinkIff(xs);
  }

  /** A resolvable reference, an anchor and a stray backtick: the first run links, the second run
      takes the anchor into the link. */
  lemma SecondPassChanges()
    ensures CleanTargets(Plainly)
    ensures Pass(Pass(FRESH, Plainly), Plainly) != Pass(FRESH, Plainly)
  {
    hide Scan, Ticks, CleanTargets, Exposed, Pass, Orphans, RepairAll;
    CleanExample();
    FreshExposed();
    ExampleTicks("", "X.md", " §xy`");
    LoneTick(" §xy");
    assert " §xy" + "`" == " §xy`" && FRESH == "" + ("`" + "X.md" + "`" + " §xy`");
    NoBracketNoOrphan(FRESH);
    RepairTicks(FRESH);
    SecondPassIff(FRESH, Plainly);
  }

  lemma {:induction false} NoBracketNoOrphan(s: string)
    requires '[' !in s
    ensures Orphans(s) == 0
    decreases |s|
  {
    if s == [] {
      assert Orphans(s) == 0;
    } else {
      assert s[0] in s && MatchOrphan(s).None?;
      NoBracketNoOrphan(s[1..]);
    }
  }

  // ----- A link that is there already before a span to be linked -----

  const AFTER: string := "](X.md) §" + ("`" + "Y.md" + "`" + " `")
  const PRESENT: string := "[" + ("`" + "X.md" + "`" + AFTER)

  const LINKED_Y: Items := [Linkable("Y.md", Ref("Y.md", ""), "Y.md")] + Chars(" `")

  lemma PresentCut()
    ensures Cuts(ScanLine(PRESENT, Plainly)) == Chars("[") + (Chars("`X.md`") + (Chars("](X.md) §") + LINKED_Y))
  {
    hide Scan, Fold, Chars;
    var q := Outside(0);
    var y := "`" + "Y.md" + "`" + " `";
    FoldOutside("[");
    FoldOutside("`X.md`");
    FoldOutside("](X.md) §");
    assert "`" + "X.md" + "`" == "`X.md`";
    CutText("[", "`" + "X.md" + "`" + AFTER, q, false, Plainly);
    CutExample("X.md", AFTER, q, true, Plainly);
    CutText("](X.md) §", y, q, false, Plainly);
    CutExample("Y.md", " `", q, false, Plainly);
    CutEnd(" ", Fold(q, "`" + "Y.md" + "`"), false, Plainly);
    assert " " + "`" == " `";
  }

  lemma PresentExposed()
    ensures Exposed(Cuts(ScanLine(PRESENT, Plainly)))
  {
    hide Scan, ParseRef, FreshLink;
    PresentCut();
    var xs := Cuts(ScanLine(PRESENT, Plainly));
    var ys := Chars(" §") + LINKED_Y;
    assert " " + ("§" + "") == " §" && IsSpace(' ');
    assert AnchorParts(ys, " ", "", LINKED_Y);
    ExampleName("X.md");
    var zs := Chars(")") + ys;
    assert zs[1..] == ys;
    PresentText(LINKED_Y);
    assert PresentParts(xs, "X.md", "X.md", zs);
  }

  lemma PresentText(zs: Items)
    ensures Chars("[") + (Chars("`X.md`") + (Chars("](X.md) §") + zs)) ==
            Chars("[`" + ("X.md" + ("`](" + "X.md"))) + (Chars(")") + (Chars(" §") + zs))
  {
    hide Chars;
    CharsConcat("[", "`X.md`");
    CharsConcat("[" + "`X.md`", "](X.md) §");
    assert Chars("[") + (Chars("`X.md`") + (Chars("](X.md) §") + zs)) == Chars("[" + "`X.md`" + "](X.md) §") + zs;
    var h := "[`" + ("X.md" + ("`](" + "X.md"));
    CharsConcat(")", " §");
    CharsConcat(h, ")" + " §");
    assert Chars(h) + (Chars(")") + (Chars(" §") + zs)) == Chars(h + (")" + " §")) + zs;
    assert h + (")" + " §") == "[" + "`X.md`" + "](X.md) §";
  }

  lemma PresentNoOrphan()
    ensures Orphans(PRESENT) == 0
  {
    hide MatchOrphan, Orphans, MatchTarget, IsMdName, InTarget, IsSpace;
    var d := " §" + ("`" + "Y.md" + "`" + " `");
    var y := "`" + "X.md" + "`" + AFTER;
    assert '[' !in y;
    NoBracketNoOrphan(y);
    ExampleName("X.md");
    NoAnchorText(d, "`" + "Y.md" + "`" + " `");
    ExampleParts();
    MatchTargetFinds("X.md", d);
    MatchOrphanFinds("X.md", "X.md" + (")" + d));
    OrphansStep(PRESENT);
  }

  lemma NoAnchorText(d: string, e: string)
    requires e != "" && e[0] == TICK && d == " §" + e
    ensures MatchAnchor(d).None?
  {
    hide SpanLen, Until;
    assert d[0] == ' ' && d[1] == '§' && IsSpace(' ') && !IsSpace('§');
    assert SpanLen(d, true) == 1;
    assert d[2..] == e;
  }

  lemma ExampleParts()
    ensures var d := " §" + ("`" + "Y.md" + "`" + " `");
            PRESENT == "[`" + ("X.md" + ("`](" + ("X.md" + (")" + d))))
    ensures PRESENT[1..] == "`" + "X.md" + "`" + AFTER
  {
    var e := "`" + "Y.md" + "`" + " `";
    var d := " §" + e;
    assert AFTER == "](" + ("X.md" + (")" + d));
    assert "`" + "X.md" + "`" + AFTER == "`" + ("X.md" + ("`" + AFTER));
  }

  /** No orphan at first: nothing stands between the section sign and the next span.  Linking
      that span puts a bracket there, so the second run takes it into the first link. */
  lemma SecondPassTearsLink()
    ensures Orphans(PRESENT) == 0
    ensures Pass(Pass(PRESENT, Plainly), Plainly) != Pass(PRESENT, Plainly)
  {
    hide Scan, Ticks, CleanTargets, Exposed, Pass, Orphans, RepairAll;
    CleanExample();
    PresentExposed();
    PresentNoOrphan();
    ExampleTicks("[", "X.md", AFTER);
    ExampleTicks("](X.md) §", "Y.md", " `");
    LoneTick(" ");
    assert " " + "`" == " `";
    RepairTicks(PRESENT);
    SecondPassIff(PRESENT, Plainly);
  }

  // ----- Why targets must not hold angle brackets -----

  /** The target of X.md opens a comment. */
  function Angled(f: string): Option<string> {
    if f == "X.md" then Some("<!--") else if f == "Y.md" then Some(f) else None
  }

  lemma FoldMarkers()
    ensures Fold(Outside(0), "<!--") == Inside(0) && Fold(Inside(0), "-->") == Outside(0)
  {
    assert "<!--"[1..] == "!--" && "!--"[1..] == "--" && "--"[1..] == "-" && "-"[1..] == "";
    assert Fold(Outside(3), "-") == Inside(0) && Fold(Outside(2), "--") == Inside(0);
    assert Fold(Outside(1), "!--") == Inside(0);
    assert "-->"[1..] == "->" && "->"[1..] == ">" && ">"[1..] == "";
    assert Fold(Inside(2), ">") == Outside(0) && Fold(Inside(1), "->") == Outside(0);
  }

  lemma {:induction false} FoldInside(s: string)
    requires '-' !in s
    ensures Fold(Inside(0), s) == Inside(0)
    decreases |s|
  {
    if s == [] {
      assert Fold(Inside(0), s) == Inside(0);
    } else {
      assert s[0] in s;
      FoldInside(s[1..]);
    }
  }

  /** In the line the comment stays open; after the target it closes the one opened there. */
  lemma AngledStates()
    ensures Fold(Outside(0), " <!--> ") == Inside(0)
    ensures Fold(Outside(0), "](<!--) <!--> ") == Outside(0)
  {
    hide Fold;
    FoldMarkers();
    FoldOutside(" ");
    FoldOutside("](");
    FoldInside("> ");
    FoldInside(") <!");
    FoldConcat(Outside(0), " " + "<!--", "> ");
    FoldConcat(Outside(0), " ", "<!--");
    assert " " + "<!--" + "> " == " <!--> ";
    FoldConcat(Outside(0), "](" + "<!--" + ") <!" + "-->", " ");
    FoldConcat(Outside(0), "](" + "<!--" + ") <!", "-->");
    FoldConcat(Outside(0), "](" + "<!--", ") <!");
    FoldConcat(Outside(0), "](", "<!--");
    assert "](" + "<!--" + ") <!" + "-->" + " " == "](<!--) <!--> ";
  }

  const Y_SPAN: string := "`" + "Y.md" + "`"
  const ANGLED: string := "`" + "X.md" + "`" + (" <!--> " + (Y_SPAN + ""))
  const ANGLED_ONCE: string := "[" + ("`" + "X.md" + "`" + ("](<!--) <!--> " + (Y_SPAN + "")))

  lemma AngledFirst()
    ensures Cuts(ScanLine(ANGLED, Angled)) ==
            [Linkable("X.md", Ref("X.md", ""), "<!--")] + (Chars(" <!--> ") + (Chars(Y_SPAN) + []))
  {
    hide Scan, Fold, Chars;
    var q, y := Outside(0), Y_SPAN + "";
    FoldOutside("`" + "X.md" + "`");
    AngledStates();
    CutExample("X.md", " <!--> " + y, q, false, Angled);
    CutText(" <!--> ", y, q, false, Angled);
    CutExample("Y.md", "", Inside(0), false, Angled);
    ScanEmpty(Fold(Inside(0), Y_SPAN), false, Angled);
  }

  lemma AngledSecond()
    ensures Cuts(ScanLine(ANGLED_ONCE, Angled)) ==
            Chars("[") + (Chars("`" + "X.md" + "`") + (Chars("](<!--) <!--> ")
            + ([Linkable("Y.md", Ref("Y.md", ""), "Y.md")] + [])))
  {
    hide Scan, Fold, Chars;
    var q, y := Outside(0), Y_SPAN + "";
    var t := "](<!--) <!--> " + y;
    FoldOutside("[");
    FoldOutside("`" + "X.md" + "`");
    AngledStates();
    CutText("[", "`" + "X.md" + "`" + t, q, false, Angled);
    CutExample("X.md", t, q, true, Angled);
    CutText("](<!--) <!--> ", y, q, false, Angled);
    CutExample("Y.md", "", q, false, Angled);
    ScanEmpty(Fold(q, Y_SPAN), false, Angled);
  }

  lemma AngledOnce()
    ensures LinkifyText(ANGLED, Angled) == ANGLED_ONCE
  {
    hide Scan, Chars, Render, Wrapped;
    AngledFirst();
    RenderIsOutput(ScanLine(ANGLED, Angled));
    RenderHead(Linkable("X.md", Ref("X.md", ""), "<!--"), Chars(" <!--> ") + (Chars(Y_SPAN) + []));
    RenderChars(" <!--> ", Chars(Y_SPAN) + []);
    RenderChars(Y_SPAN, []);
    RenderNothing();
    AngledText(Y_SPAN + "");
  }

  lemma AngledText(y: string)
    ensures Wrapped(Ref("X.md", ""), "<!--") + (" <!--> " + y) == "[" + ("`" + "X.md" + "`" + ("](<!--) <!--> " + y))
  {
    var l := Wrapped(Ref("X.md", ""), "<!--");
    assert l == "[" + ("`" + "X.md" + "`") + "](<!--)";
    assert "](<!--)" + (" <!--> " + y) == "](<!--) <!--> " + y;
  }

  lemma AngledTwice()
    ensures |LinkifyText(ANGLED_ONCE, Angled)| > |ANGLED_ONCE|
  {
    hide Scan, Chars, Render;
    AngledSecond();
    RenderIsOutput(ScanLine(ANGLED_ONCE, Angled));
    var x := Linkable("Y.md", Ref("Y.md", ""), "Y.md");
    RenderHead(x, []);
    RenderChars("](<!--) <!--> ", [x] + []);
    RenderChars("`" + "X.md" + "`", Chars("](<!--) <!--> ") + ([x] + []));
    RenderChars("[", Chars("`" + "X.md" + "`") + (Chars("](<!--) <!--> ") + ([x] + [])));
    assert |x.After()| > |Y_SPAN|;
  }

  lemma RenderNothing()
    ensures Render([]) == ""
  {
  }

  /** Without the condition on angle brackets linkifying is not idempotent, although no target
      holds a backtick: the second run links Y.md. */
  lemma AngleTargetChanges()
    ensures forall f :: Angled(f).Some? ==> TICK !in Angled(f).value
    ensures LinkifyText(LinkifyText(ANGLED, Angled), Angled) != LinkifyText(ANGLED, Angled)
  {
    hide LinkifyText;
    AngledOnce();
    AngledTwice();
  }

  // ----- A repair that moves a block tag to the front -----

  const TAGGED: Orphan := Orphan("X.md", "<pre></pre>", " §<code")
  const TAGGED_END: string := " §<code" + "`"

  lemma TaggedAnchor()
    ensures MatchAnchor(TAGGED_END) == Some(" §<code")
  {
    hide SpanLen, Until;
    var d := TAGGED_END;
    assert d[0] == ' ' && d[1] == '§' && IsSpace(' ') && !IsSpace('§');
    assert SpanLen(d, true) == 1;
    var e := d[2..];
    assert e == "<code" + "`";
    UntilStop("<code", "`", c => c == TICK || c == '\n');
    assert d[..7] == " §<code";
  }

  lemma TaggedMatch()
    ensures MatchOrphan(TAGGED.Text()) == Some(TAGGED)
  {
    hide MatchAnchor, MatchOrphan, MatchTarget, IsSpace, IsFileName;
    TaggedAnchor();
    ExampleName("X.md");
    var t := "<pre></pre>";
    assert InTarget(t) by { TaggedTarget(); }
    MatchTargetFinds(t, TAGGED_END);
    MatchOrphanFinds("X.md", t + (")" + TAGGED_END));
    OrphanTexts(TAGGED, "");
    assert TAGGED.Text() + "" == TAGGED.Text() && "`" + "" == "`";
  }

  lemma TaggedTarget()
    ensures InTarget("<pre></pre>")
  {
  }

  lemma TaggedFinds(word: WordChars)
    requires AsciiWords(word)
    ensures Find(word, TagOpen, "<pre></pre>") == Some(Opens(Pre))
    ensures Find(word, TagOpen, " §<code") == Some(Opens(Code))
    ensures Find(word, TagOpen, "X.md").None?
  {
    var p, c := "<pre></pre>", "<code";
    assert p[1..] == "pre></pre>" && Names(p[1..], "pre") && !word(p[4]);
    assert c[1..] == "code" && Names(c[1..], "code");
    assert !Names(c[1..], "pre") by { assert AsciiLower(c[1..][0] as int) != "pre"[0] as int; }
    FindSkip(word, TagOpen, " §", c);
    assert " §" + c == " §<code";
    NoTag(word, "X.md");
  }

  /** The tag in the target, which the line closes, comes first; after the repair the tag in the
      anchor does, which may open a block. */
  lemma RepairCanMoveTag(word: WordChars)
    requires AsciiWords(word)
    ensures Ticks(TAGGED.Text()) == 3
    ensures FirstTag(word, TAGGED.Text()) == Some(Pre) && FirstTag(word, Repair(TAGGED.Text())) == Some(Code)
  {
    hide Find, MatchOrphan, IsSpace, IsFileName, InTarget, Ticks;
    TaggedMatch();
    TaggedFinds(word);
    TaggedTicks();
    ExampleName("X.md");
    var s := TAGGED.Text();
    OrphanFind(word, TagOpen, TAGGED, "");
    assert s + "" == s && TAGGED.Repaired() + "" == TAGGED.Repaired();
    assert s[|s|..] == "" && RepairAll(s) == TAGGED.Repaired() + RepairAll("");
  }

  lemma TaggedTicks()
    ensures Ticks(TAGGED.Text()) == 3
  {
    hide Ticks;
    OrphanTicks(TAGGED);
  }

  lemma OrphanTicks(o: Orphan)
    requires TickFree(o.file) && TickFree(o.target) && TickFree(o.anchor)
    ensures Ticks(o.Text()) == 3
  {
    hide Ticks;
    var y := "](" + o.target + ")" + o.anchor;
    TicksQuoted("[", o.file, y + "`");
    LoneTick(y);
    assert o.Text() == "[" + "`" + o.file + "`" + (y + "`");
  }
}
