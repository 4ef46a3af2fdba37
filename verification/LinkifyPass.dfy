/**
  One prose line of process_file: repair_pattern_a, then linkify_line, and what the two do to
  the backticks of the line.
 */
module LinkifyPass {
  import opened Basics
  import opened Wrappers
  import opened Linkify
  import opened LinkifyIdempotence

  // ----- What a span's neighbourhood decides -----

  /** A closed span is copied byte for byte exactly when it is in a comment, is not a single
      backtick, is already the text of a link, is no reference, or does not resolve. */
  lemma SpanCopiedIff(w: string, m: nat, j: nat, y: string, q: CommentState, b: bool, resolve: Resolver)
    requires IsSpan(w, m, j) && Plain(y)
    ensures var ref := ParseRef(Content(w, m, j));
            (Output(Scan(w + y, q, b, resolve)) == w + Output(Scan(y, Fold(q, w), false, resolve))) <==>
            (q.Inside? || m != 1 || (b && "](" <= y) || ref.None? || resolve(ref.value.file).None?)
  {
    hide Scan, FindClose, ParseRef, Fold;
    ScanSpan(w, m, j, y, q, b, resolve);
    var v := Judge(q, b, m, Content(w, m, j), y, resolve);
    var rest := Scan(y, Fold(q, w), false, resolve);
    if v.Link? {
      assert Output(Linked(Content(w, m, j), v.ref, v.target, rest))[0] == '[';
      assert (w + Output(rest))[0] == w[0] == TICK;
    }
  }

  // ----- Counting backticks -----

  function Ticks(s: string): nat {
    if s == [] then 0 else (if s[0] == TICK then 1 else 0) + Ticks(s[1..])
  }

  lemma {:induction false} TicksConcat(s: string, t: string)
    ensures Ticks(s + t) == Ticks(s) + Ticks(t)
    decreases |s|
  {
    if s == [] {
      assert s + t == t;
    } else {
      assert (s + t)[1..] == s[1..] + t;
      TicksConcat(s[1..], t);
    }
  }

  lemma {:induction false} TicksNone(s: string)
    requires TickFree(s)
    ensures Ticks(s) == 0
    decreases |s|
  {
    if s == [] {
    } else {
      TicksNone(s[1..]);
    }
  }

  lemma TicksOne()
    ensures Ticks("`") == 1
  {
    assert "`"[1..] == [];
  }

  /** Text in backticks, followed by text without any. */
  lemma TicksQuoted(p: string, c: string, t: string)
    requires TickFree(p) && TickFree(c)
    ensures Ticks(p + "`" + c + "`" + t) == 2 + Ticks(t)
  {
    TicksConcat(p + "`" + c + "`", t);
    TicksConcat(p + "`" + c, "`");
    TicksConcat(p + "`", c);
    TicksConcat(p, "`");
    TicksNone(p);
    TicksNone(c);
    TicksOne();
  }

  lemma TicksLink(content: string, r: Ref, t: string)
    requires ParseRef(content) == Some(r) && CleanTarget(t)
    ensures Ticks(Wrapped(r, t)) == Ticks("`" + content + "`")
  {
    hide ParseRef, Ticks;
    ParseRefText(content);
    TailTickFree(t);
    var tail := "](" + t + ")";
    assert TickFree(r.file + r.anchor) && TickFree(content);
    TicksQuoted("[", r.file + r.anchor, tail);
    assert Wrapped(r, t) == "[" + "`" + (r.file + r.anchor) + "`" + tail;
    TicksQuoted("", content, "");
    assert "" + "`" + content + "`" + "" == "`" + content + "`";
    TicksNone(tail);
    TicksNone("");
  }

  lemma TicksSpan(w: string, m: nat, j: nat, y: string, q: CommentState, b: bool, resolve: Resolver)
    requires CleanTargets(resolve) && IsSpan(w, m, j) && Plain(y)
    ensures Ticks(Output(Scan(w + y, q, b, resolve))) == Ticks(w) + Ticks(Output(Scan(y, Fold(q, w), false, resolve)))
  {
    hide Scan, FindClose, Judge, CleanTargets, Fold, IsSpan, Plain, Ticks, Content;
    var z := Output(Scan(y, Fold(q, w), false, resolve));
    SpanLength(w, m, j);
    ScanSpan(w, m, j, y, q, b, resolve);
    var v := Judge(q, b, m, Content(w, m, j), y, resolve);
    TicksConcat(w, z);
    if v.Link? {
      LinkSpan(q, b, w, m, j, y, resolve);
      TicksLink(Content(w, m, j), v.ref, v.target);
      TicksConcat(Wrapped(v.ref, v.target), z);
    }
  }

  /** Linkifying inserts and removes no backtick. */
  lemma {:induction false} TicksPreserved(s: string, q: CommentState, b: bool, resolve: Resolver)
    requires CleanTargets(resolve)
    ensures Ticks(Output(Scan(s, q, b, resolve))) == Ticks(s)
    decreases |s|
  {
    hide Scan, FindClose, Judge, CleanTargets, Fold, IsSpan, IsRun, Plain, Ticks;
    if s == [] {
      ScanEmpty(q, b, resolve);
      assert Output(Done) == s;
    } else if s[0] != TICK {
      var y, q1 := s[1..], StepComment(q, s[0]);
      assert s == [s[0]] + y;
      ScanPlain(s[0], y, q, b, resolve);
      TicksPreserved(y, q1, s[0] == '[', resolve);
      TicksConcat([s[0]], y);
      TicksConcat([s[0]], Output(Scan(y, q1, s[0] == '[', resolve)));
    } else {
      var closed, w, y, m, j := Cut(s);
      var z := Output(Scan(y, Fold(q, w), false, resolve));
      TicksPreserved(y, Fold(q, w), false, resolve);
      TicksConcat(w, y);
      TicksConcat(w, z);
      if closed {
        TicksSpan(w, m, j, y, q, b, resolve);
      } else {
        ScanStray(w, y, q, b, resolve);
      }
    }
  }

  // ----- Pattern A -----

  /** Offset of the first character for which stop holds. */
  function Until(s: string, stop: char -> bool): (k: nat)
    ensures k <= |s|
    ensures forall l :: 0 <= l < k ==> !stop(s[l])
    ensures k < |s| ==> stop(s[k])
  {
    if s == [] || stop(s[0]) then 0 else 1 + Until(s[1..], stop)
  }

  /** A link to a file, a section anchor after it, and the orphan backtick. */
  datatype Orphan = Orphan(file: string, target: string, anchor: string)
  {
    function Text(): string {
      "[`" + file + "`](" + target + ")" + anchor + "`"
    }

    function Repaired(): string {
      "[`" + file + anchor + "`](" + target + ")"
    }
  }

  /** Whitespace, a section sign, text, and the orphan backtick, which ends its run. */
  function MatchAnchor(d: string): Option<string> {
    var k := SpanLen(d, true);
    if k == 0 || k >= |d| || d[k] != '§' then None else
    var e := d[k + 1..];
    var l := Until(e, c => c == TICK || c == '\n');
    if l == 0 || l == |e| || e[l] != TICK || (l + 1 < |e| && e[l + 1] == TICK) then None
    else Some(d[..k + 1 + l])
  }

  lemma AnchorShape(d: string, anchor: string)
    requires MatchAnchor(d) == Some(anchor)
    ensures TickFree(anchor) && anchor < d && d[|anchor|] == TICK
  {
    var k := SpanLen(d, true);
    var e := d[k + 1..];
    assert forall n :: k < n < |anchor| ==> d[n] == e[n - (k + 1)];
  }

  /** A link target up to its parenthesis, then the anchor. */
  function MatchTarget(b: string): Option<(string, string)> {
    var j := Until(b, c => c == ')' || IsSpace(c));
    if j == 0 || j == |b| || b[j] != ')' then None else
    var anchor := MatchAnchor(b[j + 1..]);
    if anchor.None? then None else Some((b[..j], anchor.value))
  }

  /** The pattern at the start of s; every part of it is forced, so there is at most one match. */
  function MatchOrphan(s: string): Option<Orphan> {
    if !("[`" <= s) then None else
    var a := s[2..];
    var i := Until(a, c => c == TICK || c == ']' || IsSpace(c));
    var file := a[..i];
    if |file| <= 3 || file[|file| - 3..] != ".md" || !("`](" <= a[i..]) then None else
    var m := MatchTarget(a[i + 3..]);
    if m.None? then None else Some(Orphan(file, m.value.0, m.value.1))
  }

  lemma TargetShape(b: string, target: string, anchor: string)
    requires MatchTarget(b) == Some((target, anchor))
    ensures target < b && b[|target|] == ')' && MatchAnchor(b[|target| + 1..]) == Some(anchor)
  {
    hide Until, MatchAnchor;
  }

  lemma MatchOrphanText(s: string)
    requires MatchOrphan(s).Some?
    ensures var o := MatchOrphan(s).value;
            o.Text() <= s && TickFree(o.file) && TickFree(o.anchor)
  {
    hide Until, SpanLen, IsSpace, MatchAnchor, MatchTarget;
    var o := MatchOrphan(s).value;
    var a := s[2..];
    var b := a[|o.file| + 3..];
    TargetShape(b, o.target, o.anchor);
    var d := b[|o.target| + 1..];
    AnchorShape(d, o.anchor);
    assert a[|o.file|..][..3] == "`](";
    assert forall k :: 0 <= k < 3 ==> a[|o.file| + k] == a[|o.file|..][..3][k];
    Assemble(o, s, a, b, d, d[|o.anchor| + 1..]);
  }

  lemma Assemble(o: Orphan, s: string, a: string, b: string, d: string, z: string)
    requires "[`" <= s && a == s[2..]
    requires o.file <= a && |a| >= |o.file| + 3 && b == a[|o.file| + 3..]
    requires a[|o.file|] == TICK && a[|o.file| + 1] == ']' && a[|o.file| + 2] == '('
    requires o.target < b && b[|o.target|] == ')' && d == b[|o.target| + 1..]
    requires o.anchor < d && d[|o.anchor|] == TICK && z == d[|o.anchor| + 1..]
    ensures s == o.Text() + z
  {
    Reassemble(d, o.anchor, "`");
    Reassemble(b, o.target, ")");
    Reassemble(a, o.file, "`](");
    Reassemble(s, "", "[`");
    Regroup("[`", o.file + "`](", o.target + ")", o.anchor + "`", z);
    TextParts(o);
  }

  lemma Reassemble(a: string, f: string, lit: string)
    requires f <= a && |f| + |lit| <= |a| && forall k :: 0 <= k < |lit| ==> a[|f| + k] == lit[k]
    ensures a == f + lit + a[|f| + |lit|..]
  {
  }

  lemma TextParts(o: Orphan)
    ensures o.Text() == "[`" + (o.file + "`](") + (o.target + ")") + (o.anchor + "`")
  {
    var x := "[`" + o.file + "`](";
    assert x == "[`" + (o.file + "`](");
    assert x + o.target + ")" == x + (o.target + ")");
  }

  lemma UntilStop(x: string, z: string, stop: char -> bool)
    requires z != [] && stop(z[0]) && forall k :: 0 <= k < |x| ==> !stop(x[k])
    ensures Until(x + z, stop) == |x|
  {
    hide Until;
    var k := Until(x + z, stop);
    assert (x + z)[|x|] == z[0] && forall l :: 0 <= l < |x| ==> (x + z)[l] == x[l];
  }

  lemma MatchTargetFinds(target: string, d: string)
    requires target != ""
    requires forall k :: 0 <= k < |target| ==> target[k] != ')' && !IsSpace(target[k])
    ensures MatchTarget(target + (")" + d)) ==
            if MatchAnchor(d).Some? then Some((target, MatchAnchor(d).value)) else None
  {
    hide Until, MatchAnchor, IsSpace;
    var b := target + (")" + d);
    UntilStop(target, ")" + d, c => c == ')' || IsSpace(c));
    assert b[..|target|] == target && b[|target| + 1..] == d;
  }

  /** After a file name in a link the pattern is found exactly when the target part is. */
  lemma MatchOrphanFinds(file: string, b: string)
    requires |file| > 3 && file[|file| - 3..] == ".md"
    requires forall k :: 0 <= k < |file| ==> file[k] != TICK && file[k] != ']' && !IsSpace(file[k])
    ensures MatchOrphan("[`" + (file + ("`](" + b))) ==
            if MatchTarget(b).Some? then Some(Orphan(file, MatchTarget(b).value.0, MatchTarget(b).value.1)) else None
  {
    hide Until, MatchTarget, IsSpace;
    var rest := "`](" + b;
    var a := file + rest;
    UntilStop(file, rest, c => c == TICK || c == ']' || IsSpace(c));
    assert ("[`" + a)[2..] == a;
    assert a[..|file|] == file && a[|file|..] == rest;
    assert a[|file| + 3..] == b;
  }

  function RepairAll(s: string): string
    decreases |s|
  {
    if s == [] then []
    else if MatchOrphan(s).None? then s[..1] + RepairAll(s[1..])
    else
      var o := MatchOrphan(s).value;
      MatchOrphanText(s);
      o.Repaired() + RepairAll(s[|o.Text()|..])
  }

  /** How often the pattern is repaired. */
  function Orphans(s: string): nat
    decreases |s|
  {
    if s == [] then 0
    else if MatchOrphan(s).None? then Orphans(s[1..])
    else
      var o := MatchOrphan(s).value;
      MatchOrphanText(s);
      1 + Orphans(s[|o.Text()|..])
  }

  /** repair_pattern_a. */
  function Repair(line: string): string {
    if Ticks(line) % 2 == 0 then line else RepairAll(line)
  }

  lemma TicksOrphan(o: Orphan)
    requires TickFree(o.file) && TickFree(o.anchor)
    ensures Ticks(o.Text()) == Ticks(o.Repaired()) + 1
  {
    hide Ticks;
    TicksQuoted("[", o.file, "](" + o.target + ")" + o.anchor + "`");
    assert o.Text() == "[" + "`" + o.file + "`" + ("](" + o.target + ")" + o.anchor + "`");
    TicksQuoted("[", o.file + o.anchor, "](" + o.target + ")");
    assert o.Repaired() == "[" + "`" + (o.file + o.anchor) + "`" + ("](" + o.target + ")");
    TicksConcat("](" + o.target + ")" + o.anchor, "`");
    TicksConcat("](" + o.target + ")", o.anchor);
    TicksNone(o.anchor);
    TicksOne();
  }

  /** Each repair removes one backtick, and without a match nothing changes. */
  lemma {:induction false} RepairTicks(s: string)
    ensures Ticks(s) == Ticks(RepairAll(s)) + Orphans(s)
    ensures Orphans(s) == 0 ==> RepairAll(s) == s
    decreases |s|
  {
    hide MatchOrphan, Ticks;
    if s == [] {
    } else if MatchOrphan(s).None? {
      RepairTicks(s[1..]);
      assert s == s[..1] + s[1..];
      TicksConcat(s[..1], s[1..]);
      TicksConcat(s[..1], RepairAll(s[1..]));
    } else {
      MatchOrphanText(s);
      var o := MatchOrphan(s).value;
      var rest := s[|o.Text()|..];
      assert s == o.Text() + rest;
      RepairTicks(rest);
      TicksOrphan(o);
      TicksConcat(o.Text(), rest);
      TicksConcat(o.Repaired(), RepairAll(rest));
    }
  }

  // ----- The pass over one prose line -----

  function Pass(line: string, resolve: Resolver): string {
    LinkifyText(Repair(line), resolve)
  }

  /** The backticks of a pass are those of the line less one for each repair. */
  lemma PassTicks(line: string, resolve: Resolver)
    requires CleanTargets(resolve)
    ensures Ticks(Pass(line, resolve)) == Ticks(line) - if Ticks(line) % 2 == 0 then 0 else Orphans(line)
  {
    hide Scan, Ticks, Orphans, RepairAll, CleanTargets;
    RepairTicks(line);
    TicksPreserved(Repair(line), Outside(0), false, resolve);
  }
}
