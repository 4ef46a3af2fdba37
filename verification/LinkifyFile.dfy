/** process_file (raxis/scripts/linkify-md.py): a run over the lines of one file. */
module LinkifyFile {
  import opened Wrappers
  import opened Linkify
  import L = LinkifyLine
  import opened LinkifyIdempotence
  import opened LinkifyPass
  import opened LinkifyCut
  import opened LinkifySecondPass
  import opened LinkifyBlocks
  import opened LinkifyClassify
  import opened LinkifyLook

  const DIRECTIVE: string := "<!-- linkify: skip -->"

  function Text(lines: seq<string>): string {
    if lines == [] then "" else lines[0] + Text(lines[1..])
  }

  /** The text starts, after blanks, with the directive. */
  predicate StartsWithDirective(text: string) {
    DIRECTIVE <= text[SpanLen(text, true)..]
  }

  predicate HasNewline(raw: string) {
    raw != [] && raw[|raw| - 1] == '\n'
  }

  function Body(raw: string): string {
    if HasNewline(raw) then raw[..|raw| - 1] else raw
  }

  function Ending(raw: string): string {
    if HasNewline(raw) then "\n" else ""
  }

  function Rewritten(raw: string, resolve: Resolver): string {
    Pass(Body(raw), resolve) + Ending(raw)
  }

  /** The lines after a run. */
  function Processed(word: WordChars, lines: seq<string>, resolve: Resolver): seq<string> {
    if StartsWithDirective(Text(lines)) then lines
    else seq(|lines|, i requires 0 <= i < |lines| => NewLine(word, lines, resolve, i))
  }

  function NewLine(word: WordChars, lines: seq<string>, resolve: Resolver, i: nat): string
    requires i < |lines|
  {
    if ClassOf(word, lines, i).Prose? then Rewritten(lines[i], resolve) else lines[i]
  }

  /** process_file over the lines of the text: prose lines are repaired, then linked. */
  method ProcessFile(word: WordChars, lines: seq<string>, resolve: Resolver) returns (out: seq<string>, changed: bool)
    ensures out == Processed(word, lines, resolve)
    ensures changed <==> Text(out) != Text(lines)
  {
    hide ClassOf, StartsWithDirective, ScanLine, Repair, Text, Body, Ending;
    if StartsWithDirective(Text(lines)) {
      return lines, false;
    }
    var classified := ClassifyLines(word, lines);
    out := [];
    for i := 0 to |lines|
      invariant |out| == i && forall k :: 0 <= k < i ==> out[k] == NewLine(word, lines, resolve, k)
    {
      if classified[i] != Prose {
        out := out + [lines[i]];
      } else {
        var body, edits, warnings := L.LinkifyLine(Repair(Body(lines[i])), resolve);
        out := out + [body + Ending(lines[i])];
      }
    }
    changed := Text(out) != Text(lines);
  }

  // ----- One line -----

  /** Lines as they come from splitting a text: a newline only at the end. */
  ghost predicate Split(lines: seq<string>) {
    forall i :: 0 <= i < |lines| ==> '\n' !in Body(lines[i])
  }

  ghost predicate OneLineTargets(resolve: Resolver) {
    forall f :: resolve(f).Some? ==> '\n' !in resolve(f).value
  }

  lemma {:induction false} RepairKeepsOut(s: string, c: char)
    requires c !in s
    ensures c !in RepairAll(s)
    decreases Orphans(s)
  {
    hide MatchOrphan, IsMdName, RepairAll, Orphans, PlainOrphans;
    var u, o, z := RepairLead(s);
    if o.None? {
    } else {
      var t := o.value.Text();
      assert forall x :: x in u || x in t || x in z ==> x in u + (t + z);
      RepairKeepsOut(z, c);
      RepairedChars(o.value, c);
    }
  }

  lemma RepairedChars(o: Orphan, c: char)
    requires c !in o.Text()
    ensures c !in o.Repaired()
  {
    var x := "[`" + o.file + "`](" + o.target + ")";
    assert o.Text() == x + o.anchor + "`";
    assert forall k :: k in x || k in o.anchor ==> k in o.Text();
    assert "[`" + o.file + "`](" == "[`" + (o.file + "`](");
    assert forall k :: k in "[`" || k in o.file || k in "`](" || k in o.target || k in ")" ==> k in x;
  }

  ghost predicate OneLineItems(xs: Items) {
    forall i :: 0 <= i < |xs| && xs[i].Linkable? ==> '\n' !in xs[i].target
  }

  lemma OneLineThen(s: string, ys: Items)
    requires OneLineItems(ys)
    ensures OneLineItems(Chars(s) + ys)
  {
  }

  /** Every target of the cut comes from the resolver. */
  lemma {:induction false} CutTargets(s: string, q: CommentState, b: bool, resolve: Resolver)
    requires OneLineTargets(resolve)
    ensures OneLineItems(Cuts(Scan(s, q, b, resolve)))
    decreases |s|
  {
    hide Scan, FindClose, Judge, Fold, IsSpan, IsRun, Plain, Chars, OneLineItems;
    if s == [] {
      ScanEmpty(q, b, resolve);
      assert OneLineItems([]) by { NoItems(); }
    } else if s[0] != TICK {
      var y, q1 := s[1..], StepComment(q, s[0]);
      assert s == [s[0]] + y;
      ScanPlain(s[0], y, q, b, resolve);
      CutTargets(y, q1, s[0] == '[', resolve);
      OneLineThen([s[0]], Cuts(Scan(y, q1, s[0] == '[', resolve)));
    } else {
      var closed, w, y, m, j := Cut(s);
      CutTargets(y, Fold(q, w), false, resolve);
      var rest := Cuts(Scan(y, Fold(q, w), false, resolve));
      OneLineThen(w, rest);
      if closed {
        SpanLength(w, m, j);
        ScanSpan(w, m, j, y, q, b, resolve);
        SpanTarget(q, b, m, Content(w, m, j), y, resolve, rest);
      } else {
        ScanStray(w, y, q, b, resolve);
      }
    }
  }

  lemma NoItems()
    ensures OneLineItems([])
  {
  }

  lemma SpanTarget(q: CommentState, b: bool, n: nat, c: string, after: string, resolve: Resolver, rest: Items)
    requires OneLineTargets(resolve) && OneLineItems(rest)
    ensures var v := Judge(q, b, n, c, after, resolve);
            v.Link? ==> OneLineItems([Linkable(c, v.ref, v.target)] + rest)
  {
    hide ParseRef;
  }

  lemma NotIn(c: char, a: string, b: string)
    ensures c !in a + b <==> c !in a && c !in b
  {
    assert forall x :: x in a + b <==> x in a || x in b;
  }

  lemma WrappedOneLine(content: string, r: Ref, t: string)
    requires ParseRef(content) == Some(r) && '\n' !in content && '\n' !in t
    ensures '\n' !in Wrapped(r, t)
  {
    hide ParseRef;
    ParseRefText(content);
    NotIn('\n', r.file, r.anchor);
  }

  lemma {:induction false} RenderKeepsOut(xs: Items)
    requires AllOk(xs) && '\n' !in Source(xs) && OneLineItems(xs)
    ensures '\n' !in Render(xs)
  {
    hide ParseRef, Wrapped, CleanTarget;
    if xs == [] {
    } else {
      var x, rest := xs[0], xs[1..];
      assert AllOk(rest) && OneLineItems(rest);
      NotIn('\n', x.Before(), Source(rest));
      RenderKeepsOut(rest);
      NotIn('\n', x.After(), Render(rest));
      if x.Linkable? {
        NotIn('\n', "`" + x.content, "`");
        NotIn('\n', "`", x.content);
        WrappedOneLine(x.content, x.ref, x.target);
      }
    }
  }

  // ----- What a run keeps -----

  /** Repairing the line keeps its first block tag. */
  predicate TagKept(word: WordChars, raw: string) {
    FirstTag(word, Repair(Body(raw))) == FirstTag(word, Body(raw))
  }

  /** Where no repaired target holds an angle bracket, it does. */
  lemma PlainTagKept(word: WordChars, raw: string)
    requires AsciiWords(word) && PlainOrphans(Body(raw))
    ensures TagKept(word, raw)
  {
    hide Ticks, RepairAll, PlainOrphans, Find;
    RepairTag(word, Body(raw));
  }

  lemma RepairStage(word: WordChars, line: string)
    requires AsciiWords(word) && '\n' !in line
    ensures Agree(line, Repair(line)) && '\n' !in Repair(line)
    ensures forall p :: Has(word, p, line) <==> Has(word, p, Repair(line))
  {
    hide Ticks, RepairAll, Has;
    RepairAgree(line);
    RepairKeepsOut(line, '\n');
    forall p ensures Has(word, p, line) <==> Has(word, p, Repair(line)) {
      RepairHas(word, p, line);
    }
  }

  lemma LinkStage(word: WordChars, line: string, resolve: Resolver)
    requires AsciiWords(word) && CleanTargets(resolve) && OneLineTargets(resolve) && '\n' !in line
    ensures Agree(line, LinkifyText(line, resolve)) && '\n' !in LinkifyText(line, resolve)
    ensures forall p :: Find(word, p, line) == Find(word, p, LinkifyText(line, resolve))
  {
    hide Scan, Find, AllOk, CleanTargets, Agree, OneLineItems, OneLineTargets;
    var xs := Cuts(ScanLine(line, resolve));
    RenderIsOutput(ScanLine(line, resolve));
    CutIsLine(line, Outside(0), false, resolve);
    CutTargets(line, Outside(0), false, resolve);
    LinkAgree(xs);
    RenderKeepsOut(xs);
    forall p ensures Find(word, p, line) == Find(word, p, LinkifyText(line, resolve)) {
      LinkingFinds(word, p, xs);
    }
  }

  /** The rewritten line has the look of the line, and its body is the pass over the body. */
  lemma LineKept(word: WordChars, raw: string, resolve: Resolver)
    requires AsciiWords(word) && CleanTargets(resolve) && OneLineTargets(resolve)
    requires '\n' !in Body(raw) && TagKept(word, raw)
    ensures var r := Rewritten(raw, resolve);
            && SameLook(word, raw, r) && Agree(raw, r)
            && Body(r) == Pass(Body(raw), resolve) && Ending(r) == Ending(raw)
  {
    hide Find, CleanTargets, OneLineTargets, LinkifyText, Repair, Agree, SameLook;
    var body, end := Body(raw), Ending(raw);
    var rep := Repair(body);
    var out := LinkifyText(rep, resolve);
    RepairStage(word, body);
    LinkStage(word, rep, resolve);
    AgreeTrans(body, rep, out);
    AgreeContext("", body, out, end);
    assert raw == "" + body + end && Rewritten(raw, resolve) == "" + out + end;
    EndingFinds(word, body, end);
    EndingFinds(word, out, end);
    forall p: Pattern ensures Has(word, p, raw) <==> Has(word, p, out + end) {
      assert Has(word, p, body) <==> Has(word, p, rep);
      assert Find(word, p, rep) == Find(word, p, out);
    }
    assert FirstTag(word, raw) == FirstTag(word, out + end);
    LookFromFinds(word, raw, out + end);
    BodyBack(out, end);
  }

  lemma EndingFinds(word: WordChars, body: string, end: string)
    requires AsciiWords(word) && (end == "" || end == "\n")
    ensures forall p :: Find(word, p, body + end) == Find(word, p, body)
  {
    hide Find;
    forall p ensures Find(word, p, body + end) == Find(word, p, body) {
      FindBreak(word, p, body, end);
    }
  }

  lemma BodyBack(out: string, end: string)
    requires '\n' !in out && (end == "" || end == "\n")
    ensures Body(out + end) == out && Ending(out + end) == end
  {
    if end == "" {
      assert out + end == out;
      assert out != [] ==> out[|out| - 1] in out;
    }
  }

  // ----- The directive -----

  lemma DirectiveKept(s: string, t: string)
    requires Agree(s, t) && StartsWithDirective(t)
    ensures StartsWithDirective(s)
  {
    hide SpanLen;
    if s != t {
      var u, v, w :| AgreeParts(s, t, u, v, w);
      var k := SpanLen(t, true);
      var d := t[k..];
      assert d[..|DIRECTIVE|] == DIRECTIVE;
      assert t[|u|] == '[' && !IsSpace('[');
      assert k <= |u|;
      assert '[' !in DIRECTIVE;
      assert forall i :: 0 <= i < |DIRECTIVE| ==> t[k + i] == DIRECTIVE[i];
      assert k + |DIRECTIVE| <= |u|;
      SpanPrefix(u, w);
      SpanPrefix(u, v);
      assert s[k..][..|DIRECTIVE|] == u[k..][..|DIRECTIVE|] == d[..|DIRECTIVE|];
    }
  }

  lemma {:induction false} TextAgree(lines: seq<string>, other: seq<string>)
    requires |other| == |lines| && forall i :: 0 <= i < |lines| ==> Agree(lines[i], other[i])
    ensures Agree(Text(lines), Text(other))
  {
    hide Agree;
    if lines == [] {
      assert Agree(Text(lines), Text(other)) by { Reflexive(""); }
    } else {
      var x, y, z := lines[0], other[0], Text(lines[1..]);
      TextAgree(lines[1..], other[1..]);
      AgreeContext("", x, y, z);
      assert "" + x + z == x + z && "" + y + z == y + z;
      AgreeContext(y, z, Text(other[1..]), "");
      assert y + z + "" == y + z && y + Text(other[1..]) + "" == y + Text(other[1..]);
      AgreeTrans(x + z, y + z, y + Text(other[1..]));
    }
  }

  lemma Reflexive(s: string)
    ensures Agree(s, s)
  {
  }

  // ----- A second run -----

  lemma RunKeepsLine(word: WordChars, lines: seq<string>, resolve: Resolver, i: nat)
    requires AsciiWords(word) && CleanTargets(resolve) && OneLineTargets(resolve) && Split(lines)
    requires i < |lines| && (ClassOf(word, lines, i).Prose? ==> TagKept(word, lines[i]))
    ensures var x := NewLine(word, lines, resolve, i);
            && Agree(lines[i], x)
            && (x == lines[i] || (ClassOf(word, lines, i).Prose? && SameLook(word, lines[i], x)))
  {
    hide ClassOf, SameLook, Agree, Body, TagKept, CleanTargets, OneLineTargets, Rewritten;
    if ClassOf(word, lines, i).Prose? {
      LineKept(word, lines[i], resolve);
    } else {
      Reflexive(lines[i]);
    }
  }

  /** A run changes neither the classification of any line nor whether the file is skipped. */
  lemma RunKeepsClasses(word: WordChars, lines: seq<string>, resolve: Resolver)
    requires AsciiWords(word) && CleanTargets(resolve) && OneLineTargets(resolve) && Split(lines)
    requires forall i :: 0 <= i < |lines| && ClassOf(word, lines, i).Prose? ==> TagKept(word, lines[i])
    ensures var once := Processed(word, lines, resolve);
            && |once| == |lines|
            && (StartsWithDirective(Text(once)) <==> StartsWithDirective(Text(lines)))
            && forall i :: 0 <= i < |lines| ==> ClassOf(word, once, i) == ClassOf(word, lines, i)
  {
    hide ClassOf, SameLook, Agree, TagKept, CleanTargets, OneLineTargets, NewLine, StartsWithDirective, Split;
    var once := Processed(word, lines, resolve);
    if !StartsWithDirective(Text(lines)) {
      forall i | 0 <= i < |lines|
        ensures Agree(lines[i], once[i])
        ensures once[i] == lines[i] || (ClassOf(word, lines, i).Prose? && SameLook(word, lines[i], once[i]))
      {
        RunKeepsLine(word, lines, resolve, i);
      }
      TextAgree(lines, once);
      if StartsWithDirective(Text(once)) {
        DirectiveKept(Text(lines), Text(once));
      }
      forall i | 0 <= i < |lines| ensures ClassOf(word, once, i) == ClassOf(word, lines, i) {
        StatesKept(word, lines, once, i);
      }
    }
  }

  lemma SecondLineIff(word: WordChars, raw: string, resolve: Resolver)
    requires AsciiWords(word) && CleanTargets(resolve) && OneLineTargets(resolve)
    requires '\n' !in Body(raw) && TagKept(word, raw)
    ensures Rewritten(Rewritten(raw, resolve), resolve) == Rewritten(raw, resolve) <==> Settles(Body(raw), resolve)
  {
    hide Body, Ending, Pass, Settles, SameLook, Agree, TagKept, CleanTargets, OneLineTargets;
    var body, end := Body(raw), Ending(raw);
    LineKept(word, raw, resolve);
    SecondPassIff(body, resolve);
    var once, twice := Pass(body, resolve), Pass(Pass(body, resolve), resolve);
    assert once + end == twice + end <==> once == twice by { SameEnding(once, twice, end); }
  }

  lemma SameEnding(a: string, b: string, end: string)
    ensures a + end == b + end <==> a == b
  {
    if a + end == b + end {
      assert (a + end)[..|a|] == a && (b + end)[..|b|] == b;
    }
  }

  /** A second run over a file is a no-op exactly when the file is skipped or every prose line
      meets the condition on lines. */
  lemma SecondRunIff(word: WordChars, lines: seq<string>, resolve: Resolver)
    requires AsciiWords(word) && CleanTargets(resolve) && OneLineTargets(resolve) && Split(lines)
    requires forall i :: 0 <= i < |lines| && ClassOf(word, lines, i).Prose? ==> TagKept(word, lines[i])
    ensures var once := Processed(word, lines, resolve);
            Processed(word, once, resolve) == once <==>
            || StartsWithDirective(Text(lines))
            || forall i :: 0 <= i < |lines| && ClassOf(word, lines, i).Prose? ==> Settles(Body(lines[i]), resolve)
  {
    hide ClassOf, Body, Rewritten, Settles, TagKept, CleanTargets, OneLineTargets, StartsWithDirective;
    var once := Processed(word, lines, resolve);
    var twice := Processed(word, once, resolve);
    RunKeepsClasses(word, lines, resolve);
    if !StartsWithDirective(Text(lines)) {
      forall i | 0 <= i < |lines|
        ensures twice[i] == once[i] <==> (ClassOf(word, lines, i).Prose? ==> Settles(Body(lines[i]), resolve))
      {
        if ClassOf(word, lines, i).Prose? {
          SecondLineIff(word, lines[i], resolve);
        }
      }
    }
  }

  // ----- In plain text -----

  /** A file is skipped exactly when its text starts, after blanks, with the directive. */
  lemma SkippedIff(text: string)
    ensures StartsWithDirective(text) <==>
            exists w, rest :: text == w + ("<!-- linkify: skip -->" + rest) && IsBlank(w)
  {
    hide SpanLen, IsSpace;
    var k := SpanLen(text, true);
    var x := text[k..];
    assert !IsSpace(DIRECTIVE[0]) by { AngleIsNoSpace(); }
    if StartsWithDirective(text) {
      var rest := x[|DIRECTIVE|..];
      assert x == "<!-- linkify: skip -->" + rest;
      assert text == text[..k] + ("<!-- linkify: skip -->" + rest) && IsBlank(text[..k]);
    }
    if w, rest :| text == w + ("<!-- linkify: skip -->" + rest) && IsBlank(w) {
      var y := DIRECTIVE + rest;
      assert text[|w|] == y[0] && forall i :: 0 <= i < |w| ==> text[i] == w[i];
      assert k == |w| && x == y;
    }
  }

  lemma AngleIsNoSpace()
    ensures !IsSpace('<')
  {
  }

  /** A rewritten line is the pass over what stands before its newline, and the newline. */
  lemma RewrittenIs(body: string, resolve: Resolver)
    requires body == "" || body[|body| - 1] != '\n'
    ensures Rewritten(body, resolve) == LinkifyText(if Ticks(body) % 2 == 1 then RepairAll(body) else body, resolve)
    ensures Rewritten(body + "\n", resolve) == Rewritten(body, resolve) + "\n"
  {
    hide LinkifyText, RepairAll, Ticks;
    assert (body + "\n")[..|body|] == body;
    assert Pass(body, resolve) + "" == Pass(body, resolve);
  }
}
