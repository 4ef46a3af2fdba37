/** Linear arrow flows to Mermaid (raxis/scripts/ascii-to-mermaid.py). */
module Mermaid {
  import opened Wrappers

  // ----- Fresh identifiers -----

  function Digit(n: nat): char
    requires n < 10
  {
    "0123456789"[n]
  }

  function Decimal(n: nat): (s: string)
    ensures s != []
  {
    if n < 10 then [Digit(n)] else Decimal(n / 10) + [Digit(n % 10)]
  }

  lemma {:induction false} DecimalInjective(m: nat, n: nat)
    requires Decimal(m) == Decimal(n)
    ensures m == n
  {
    var s, t := Decimal(m), Decimal(n);
    assert s[|s| - 1] == Digit(m % 10) && t[|t| - 1] == Digit(n % 10);
    DigitInjective(m % 10, n % 10);
    if m < 10 || n < 10 {
    } else {
      assert s[..|s| - 1] == Decimal(m / 10) && t[..|t| - 1] == Decimal(n / 10);
      DecimalInjective(m / 10, n / 10);
    }
  }

  lemma DigitInjective(m: nat, n: nat)
    requires m < 10 && n < 10 && Digit(m) == Digit(n)
    ensures m == n
  {
    assert forall i, j :: 0 <= i < j < 10 ==> "0123456789"[i] != "0123456789"[j];
  }

  predicate IdChar(c: char) {
    'A' <= c <= 'Z' || 'a' <= c <= 'z' || '0' <= c <= '9' || c == '_'
  }

  predicate IsLetter(c: char) {
    'A' <= c <= 'Z' || 'a' <= c <= 'z'
  }

  /** Each run of other characters becomes one underscore. */
  function ReplaceRuns(s: string, inRun: bool): string {
    if s == [] then []
    else if IdChar(s[0]) then [s[0]] + ReplaceRuns(s[1..], false)
    else (if inRun then [] else ['_']) + ReplaceRuns(s[1..], true)
  }

  function StripLeft(s: string): string {
    if s != [] && s[0] == '_' then StripLeft(s[1..]) else s
  }

  function StripRight(s: string): string {
    if s != [] && s[|s| - 1] == '_' then StripRight(s[..|s| - 1]) else s
  }

  /** The identifier wanted for a label when `used` labels are already known.  Surrounding
      whitespace would become underscores, which are stripped in any case. */
  function Base(caption: string, used: nat): string {
    var slug := StripRight(StripLeft(ReplaceRuns(caption, false)));
    var base := if slug == "" then "N" + Decimal(used) else slug;
    if IsLetter(base[0]) then base else "N" + base
  }

  predicate AllIdChars(s: string) {
    forall k :: 0 <= k < |s| ==> IdChar(s[k])
  }

  lemma {:induction false} ReplaceRunsClean(s: string, inRun: bool)
    ensures AllIdChars(ReplaceRuns(s, inRun))
    decreases |s|
  {
    if s == [] {
    } else {
      ReplaceRunsClean(s[1..], !IdChar(s[0]));
    }
  }

  lemma {:induction false} StripClean(s: string)
    requires AllIdChars(s)
    ensures AllIdChars(StripLeft(s)) && AllIdChars(StripRight(s))
    decreases |s|
  {
    hide IdChar;
    if s == [] {
    } else {
      StripClean(s[1..]);
      StripClean(s[..|s| - 1]);
    }
  }

  lemma {:induction false} DecimalClean(n: nat)
    ensures AllIdChars(Decimal(n))
  {
    assert forall k :: 0 <= k < 10 ==> IdChar("0123456789"[k]);
    if n < 10 {
    } else {
      DecimalClean(n / 10);
    }
  }

  /** Whatever the label, every candidate is an identifier: a letter first, then letters, digits
      and underscores. */
  lemma CandidateIsIdentifier(caption: string, used: nat, i: nat)
    ensures var id := Candidate(Base(caption, used), i);
            && id != "" && ('A' <= id[0] <= 'Z' || 'a' <= id[0] <= 'z')
            && forall k :: 0 <= k < |id| ==>
                 'A' <= id[k] <= 'Z' || 'a' <= id[k] <= 'z' || '0' <= id[k] <= '9' || id[k] == '_'
  {
    hide ReplaceRuns, StripLeft, StripRight, Decimal;
    var raw := ReplaceRuns(caption, false);
    ReplaceRunsClean(caption, false);
    StripClean(raw);
    StripClean(StripLeft(raw));
    DecimalClean(used);
    DecimalClean(i);
  }

  /** The i-th candidate: the base itself, then base_2, base_3 and so on. */
  function Candidate(base: string, i: nat): string {
    if i <= 1 then base else base + "_" + Decimal(i)
  }

  lemma CandidatesDiffer(base: string, i: nat, j: nat)
    requires 1 <= i < j
    ensures Candidate(base, i) != Candidate(base, j)
  {
    if i > 1 && Decimal(i) == Decimal(j) {
      DecimalInjective(i, j);
    }
    var s := base + "_";
    assert Candidate(base, j) == s + Decimal(j);
    assert (s + Decimal(j))[|s|..] == Decimal(j);
    if i > 1 {
      assert Candidate(base, i) == s + Decimal(i);
      assert (s + Decimal(i))[|s|..] == Decimal(i);
    }
  }

  ghost predicate Injective(m: map<string, string>) {
    forall a, b :: a in m && b in m && m[a] == m[b] ==> a == b
  }

  /** The first free candidate. */
  ghost predicate IsFirstFree(base: string, taken: set<string>, id: string) {
    exists i :: i >= 1 && id == Candidate(base, i) && id !in taken
                && forall k :: 1 <= k < i ==> Candidate(base, k) in taken
  }

  class NodeTable {
    var used: map<string, string>

    constructor ()
      ensures used == map[]
    {
      used := map[];
    }

    /** _node_id: stable for known labels, the first free candidate for a new one. */
    method NodeId(caption: string) returns (id: string)
      requires Injective(used)
      modifies this
      ensures Injective(used) && caption in used && used[caption] == id
      ensures caption in old(used) ==> used == old(used)
      ensures caption !in old(used) ==>
                used == old(used)[caption := id] && IsFirstFree(Base(caption, |old(used)|), old(used).Values, id)
    {
      if caption in used {
        return used[caption];
      }
      var base := Base(caption, |used|);
      var taken := used.Values;
      id := FreshId(base, taken);
      used := used[caption := id];
      assert forall a :: a in old(used) ==> old(used)[a] in taken;
    }
  }

  /** The retry loop: each refused candidate is a different member of the finite set of taken
      identifiers, so it ends. */
  method FreshId(base: string, taken: set<string>) returns (id: string)
    ensures IsFirstFree(base, taken, id)
  {
    assert Candidate(base, 1) == base;
    id := base;
    var i := 1;
    ghost var tried: set<string> := {};
    while id in taken
      invariant i >= 1 && id == Candidate(base, i)
      invariant tried <= taken
      invariant forall k :: 1 <= k < i ==> Candidate(base, k) in tried
      invariant forall s :: s in tried ==> exists k :: 1 <= k < i && s == Candidate(base, k)
      decreases taken - tried
    {
      forall k | 1 <= k < i ensures Candidate(base, k) != id { CandidatesDiffer(base, k, i); }
      assert id in taken - tried;
      tried := tried + {id};
      i := i + 1;
      id := base + "_" + Decimal(i);
    }
  }

  // ----- Linear flows -----

  /** What the patterns say of one non-blank line: a list prefix, an arrow, and its parts. */
  datatype Line = Line(numbered: bool, arrow: bool, parts: seq<string>)

  /** A block: whether a box or table pattern disqualifies it, and its non-blank lines. */
  datatype Block = Block(boxed: bool, lines: seq<Line>)

  predicate LineOk(l: Line) {
    !l.numbered && l.arrow && |l.parts| >= 2
  }

  ghost predicate Chained(lines: seq<Line>) {
    && (forall i :: 0 <= i < |lines| ==> LineOk(lines[i]))
    && (forall i :: 0 < i < |lines| ==> lines[i].parts[0] == EndOf(lines[i - 1]))
  }

  /** A chain of at least three lines, each starting where the one before ended. */
  ghost predicate LinearFlow(b: Block) {
    !b.boxed && |b.lines| >= 3 && Chained(b.lines)
  }

  /** _is_linear_arrow_flow. */
  method IsLinearArrowFlow(b: Block) returns (r: bool)
    ensures r == LinearFlow(b)
  {
    if b.boxed {
      return false;
    }
    if |b.lines| < 3 {
      return false;
    }
    var chainedTail: Option<string> := None;
    for i := 0 to |b.lines|
      invariant Chained(b.lines[..i])
      invariant i == 0 ==> chainedTail.None?
      invariant i > 0 ==> chainedTail == Some(EndOf(b.lines[i - 1]))
    {
      var l := b.lines[i];
      if l.numbered || !l.arrow || |l.parts| < 2 {
        return false;
      }
      if chainedTail.Some? && l.parts[0] != chainedTail.value {
        return false;
      }
      chainedTail := Some(l.parts[|l.parts| - 1]);
    }
    assert b.lines[..|b.lines|] == b.lines;
    return true;
  }

  type Pair = (string, string)

  /** Neighbouring parts of one line. */
  function Neighbours(parts: seq<string>): seq<Pair>
    requires |parts| >= 1
  {
    seq(|parts| - 1, i requires 0 <= i < |parts| - 1 => (parts[i], parts[i + 1]))
  }

  function Pairs(lines: seq<Line>): seq<Pair>
    requires forall i :: 0 <= i < |lines| ==> |lines[i].parts| >= 1
  {
    if lines == [] then [] else Pairs(lines[..|lines| - 1]) + Neighbours(lines[|lines| - 1].parts)
  }

  ghost predicate IsWalk(es: seq<Pair>) {
    forall i :: 0 < i < |es| ==> es[i - 1].1 == es[i].0
  }

  lemma NeighboursWalk(parts: seq<string>)
    requires |parts| >= 2
    ensures var es := Neighbours(parts);
            IsWalk(es) && es != [] && es[0].0 == parts[0] && es[|es| - 1].1 == parts[|parts| - 1]
  {
  }

  lemma WalkAppend(es: seq<Pair>, fs: seq<Pair>)
    requires IsWalk(es) && IsWalk(fs) && es != [] && fs != [] && es[|es| - 1].1 == fs[0].0
    ensures IsWalk(es + fs)
  {
    var all := es + fs;
    forall i | 0 < i < |all| ensures all[i - 1].1 == all[i].0 {
      if i > |es| {
        assert fs[i - |es| - 1].1 == fs[i - |es|].0;
      }
    }
  }

  function EndOf(l: Line): string
    requires l.parts != []
  {
    l.parts[|l.parts| - 1]
  }

  /** The edges of a chain form one walk from its first part to its last. */
  lemma {:induction false} ChainWalks(lines: seq<Line>)
    requires Chained(lines) && lines != []
    ensures var es := Pairs(lines);
            IsWalk(es) && es != [] && es[0].0 == lines[0].parts[0] && es[|es| - 1].1 == EndOf(lines[|lines| - 1])
    decreases |lines|
  {
    hide IsWalk, Neighbours;
    var n := |lines| - 1;
    var front := lines[..n];
    NeighboursWalk(lines[n].parts);
    assert Pairs(lines) == Pairs(front) + Neighbours(lines[n].parts);
    if n > 0 {
      hide Pairs;
      ChainWalks(front);
      assert front[n - 1] == lines[n - 1] && front[0] == lines[0];
      WalkAppend(Pairs(front), Neighbours(lines[n].parts));
    } else {
      assert Pairs(front) == [];
      assert Pairs(lines) == Neighbours(lines[n].parts);
    }
  }

  datatype Edge = Edge(fromId: string, from: string, toId: string, to: string)

  /** Identifiers name labels: stable and one to one. */
  ghost predicate Named(es: seq<Edge>, ids: map<string, string>) {
    Injective(ids) && forall i :: 0 <= i < |es| ==> NamedBy(es[i], ids)
  }

  ghost predicate NamedBy(e: Edge, ids: map<string, string>) {
    e.from in ids && ids[e.from] == e.fromId && e.to in ids && ids[e.to] == e.toId
  }

  /** convert_linear_arrow_flow: for a linear flow, its edges in order, as one walk over labels
      and over identifiers. */
  method ConvertLinearArrowFlow(b: Block) returns (r: Option<seq<Edge>>)
    ensures r.Some? <==> LinearFlow(b)
    ensures r.Some? ==>
              && |r.value| == |Pairs(b.lines)|
              && (forall i :: 0 <= i < |r.value| ==> (r.value[i].from, r.value[i].to) == Pairs(b.lines)[i])
              && (forall i :: 0 < i < |r.value| ==>
                    r.value[i - 1].to == r.value[i].from && r.value[i - 1].toId == r.value[i].fromId)
              && exists ids :: Named(r.value, ids)
  {
    var linear := IsLinearArrowFlow(b);
    if !linear {
      return None;
    }
    var edges: seq<Pair> := [];
    for n := 0 to |b.lines|
      invariant edges == Pairs(b.lines[..n])
    {
      var parts := b.lines[n].parts;
      assert b.lines[..n + 1][..n] == b.lines[..n];
      edges := edges + Neighbours(parts);
    }
    assert b.lines[..|b.lines|] == b.lines;
    assert IsWalk(edges) by { ChainWalks(b.lines); }
    var es, used := NameEdges(edges);
    forall i | 0 < i < |es| ensures es[i - 1].to == es[i].from && es[i - 1].toId == es[i].fromId {
      assert NamedBy(es[i - 1], used) && NamedBy(es[i], used);
      assert edges[i - 1].1 == edges[i].0;
    }
    assert Named(es, used);
    return Some(es);
  }

  /** The loop that allocates identifiers and emits one line per edge. */
  method NameEdges(edges: seq<Pair>) returns (es: seq<Edge>, used: map<string, string>)
    ensures |es| == |edges| && forall i :: 0 <= i < |es| ==> (es[i].from, es[i].to) == edges[i]
    ensures Named(es, used)
  {
    hide Base, IsFirstFree, Candidate, Injective;
    var table := new NodeTable();
    assert Injective(map[]) by { NothingClashes(); }
    es := [];
    for n := 0 to |edges|
      invariant |es| == n && forall i :: 0 <= i < n ==> (es[i].from, es[i].to) == edges[i]
      invariant Named(es, table.used)
      invariant fresh(table)
    {
      var (a, b) := edges[n];
      ghost var before := table.used;
      var aid := table.NodeId(a);
      var bid := table.NodeId(b);
      KeepNames(es, before, table.used);
      es := es + [Edge(aid, a, bid, b)];
    }
    used := table.used;
  }

  lemma NothingClashes()
    ensures Injective(map[])
  {
  }

  lemma KeepNames(es: seq<Edge>, m: map<string, string>, n: map<string, string>)
    requires Named(es, m) && Injective(n)
    requires forall a :: a in m ==> a in n && n[a] == m[a]
    ensures Named(es, n)
  {
    forall i | 0 <= i < |es| ensures NamedBy(es[i], n) {
      assert NamedBy(es[i], m);
    }
  }

  // ----- In plain text -----

  /** A flow: no boxes, at least three lines, each with an arrow, no number and at least two parts,
      and each line begins with the part the one before ended with. */
  lemma LinearFlowIs(b: Block)
    ensures LinearFlow(b) <==>
            && !b.boxed && |b.lines| >= 3
            && (forall i :: 0 <= i < |b.lines| ==>
                  !b.lines[i].numbered && b.lines[i].arrow && |b.lines[i].parts| >= 2)
            && forall i, j :: 0 <= i < |b.lines| && j == i + 1 && j < |b.lines| ==>
                 |b.lines[i].parts| > 0 && |b.lines[j].parts| > 0
                 && b.lines[j].parts[0] == b.lines[i].parts[|b.lines[i].parts| - 1]
  {
  }

  /** How many edges the first i lines give. */
  function EdgesBefore(lines: seq<Line>, i: nat): nat
    requires i <= |lines| && forall k :: 0 <= k < |lines| ==> |lines[k].parts| >= 1
  {
    if i == 0 then 0 else EdgesBefore(lines, i - 1) + |lines[i - 1].parts| - 1
  }

  /** Line by line, each part is joined to the next. */
  lemma {:induction false} EdgeIs(lines: seq<Line>, i: nat, k: nat)
    requires forall l :: 0 <= l < |lines| ==> |lines[l].parts| >= 1
    requires i < |lines| && k + 1 < |lines[i].parts|
    ensures var es := Pairs(lines);
            && |es| == EdgesBefore(lines, |lines|) && EdgesBefore(lines, i) + k < |es|
            && es[EdgesBefore(lines, i) + k] == (lines[i].parts[k], lines[i].parts[k + 1])
    decreases |lines|
  {
    var n := |lines| - 1;
    var p := lines[..n];
    EdgeCount(p);
    SameEdges(lines, n);
    if i == n {
      assert lines[i] == lines[n];
    } else {
      EdgeIs(p, i, k);
      SameEdges(lines, i);
    }
  }

  lemma {:induction false} EdgeCount(lines: seq<Line>)
    requires forall l :: 0 <= l < |lines| ==> |lines[l].parts| >= 1
    ensures |Pairs(lines)| == EdgesBefore(lines, |lines|)
    decreases |lines|
  {
    if lines == [] {
    } else {
      EdgeCount(lines[..|lines| - 1]);
      SameEdges(lines, |lines| - 1);
    }
  }

  lemma {:induction false} SameEdges(lines: seq<Line>, i: nat)
    requires i < |lines| && forall l :: 0 <= l < |lines| ==> |lines[l].parts| >= 1
    ensures EdgesBefore(lines[..|lines| - 1], i) == EdgesBefore(lines, i)
  {
    if i == 0 {
    } else {
      SameEdges(lines, i - 1);
    }
  }

  /** The number a text of decimal digits stands for. */
  function ValueOf(s: string): nat
    requires forall k :: 0 <= k < |s| ==> '0' <= s[k] <= '9'
  {
    if s == [] then 0 else 10 * ValueOf(s[..|s| - 1]) + (s[|s| - 1] as int - '0' as int)
  }

  lemma {:induction false} DecimalIs(n: nat)
    ensures forall k :: 0 <= k < |Decimal(n)| ==> '0' <= Decimal(n)[k] <= '9'
    ensures ValueOf(Decimal(n)) == n && (n > 0 ==> Decimal(n)[0] != '0')
  {
    DigitIs(n % 10);
    if n < 10 {
      assert Decimal(n)[..0] == [];
    } else {
      DecimalIs(n / 10);
      var s := Decimal(n);
      assert s[..|s| - 1] == Decimal(n / 10);
    }
  }

  lemma DigitIs(d: nat)
    requires d < 10
    ensures '0' <= Digit(d) <= '9' && Digit(d) as int - '0' as int == d
  {
  }

  /** The first candidate is the base itself, the next are numbered from two. */
  lemma CandidateText(base: string, i: nat)
    ensures Candidate(base, 1) == base
    ensures i >= 2 ==> Candidate(base, i) == base + "_" + Decimal(i)
  {
  }

  /** A label that is an identifier already is its own base. */
  lemma {:induction false} KeptName(s: string, inRun: bool)
    requires AllIdChars(s)
    ensures ReplaceRuns(s, inRun) == s
    decreases |s|
  {
    if s == [] {
    } else {
      KeptName(s[1..], false);
      assert s == [s[0]] + s[1..];
    }
  }

  /** A run of other characters becomes one underscore. */
  lemma {:induction false} GapIsUnderscore(u: string, gap: string, v: string)
    requires AllIdChars(u) && gap != "" && (forall k :: 0 <= k < |gap| ==> !IdChar(gap[k])) && (v == "" || IdChar(v[0]))
    ensures ReplaceRuns(u + (gap + v), false) == u + ("_" + ReplaceRuns(v, false))
    decreases |u|
  {
    if u == [] {
      assert u + (gap + v) == gap + v && (gap + v)[1..] == gap[1..] + v;
      GapGoesOn(gap[1..], v);
    } else {
      assert (u + (gap + v))[1..] == u[1..] + (gap + v);
      GapIsUnderscore(u[1..], gap, v);
      assert u == [u[0]] + u[1..];
    }
  }

  lemma {:induction false} GapGoesOn(gap: string, v: string)
    requires (forall k :: 0 <= k < |gap| ==> !IdChar(gap[k])) && (v == "" || IdChar(v[0]))
    ensures ReplaceRuns(gap + v, true) == ReplaceRuns(v, false)
    decreases |gap|
  {
    if gap == [] {
      assert gap + v == v;
    } else {
      assert (gap + v)[1..] == gap[1..] + v;
      GapGoesOn(gap[1..], v);
    }
  }

  /** Underscores at both ends are dropped; what then starts with no letter gets an N, and nothing at
      all becomes N and a number. */
  lemma BaseIs(caption: string, used: nat, left: string, slug: string, right: string)
    requires ReplaceRuns(caption, false) == left + slug + right
    requires (forall k :: 0 <= k < |left| ==> left[k] == '_') && (forall k :: 0 <= k < |right| ==> right[k] == '_')
    requires slug != "" ==> slug[0] != '_' && slug[|slug| - 1] != '_'
    requires slug == "" ==> right == ""
    ensures slug == "" ==> Base(caption, used) == "N" + Decimal(used)
    ensures slug != "" ==> Base(caption, used) == if IsLetter(slug[0]) then slug else "N" + slug
  {
    hide ReplaceRuns;
    assert left + slug + right == left + (slug + right);
    StripsLeft(left, slug + right);
    StripsRight(slug, right);
  }

  lemma {:induction false} StripsLeft(left: string, s: string)
    requires (forall k :: 0 <= k < |left| ==> left[k] == '_') && (s == "" || s[0] != '_')
    ensures StripLeft(left + s) == s
    decreases |left|
  {
    if left == [] {
      assert left + s == s;
    } else {
      assert (left + s)[1..] == left[1..] + s;
      StripsLeft(left[1..], s);
    }
  }

  lemma {:induction false} StripsRight(s: string, right: string)
    requires (forall k :: 0 <= k < |right| ==> right[k] == '_') && (s == "" || s[|s| - 1] != '_')
    ensures StripRight(s + right) == s
    decreases |right|
  {
    var t := s + right;
    if right == [] {
      assert t == s;
    } else {
      assert t[..|t| - 1] == s + right[..|right| - 1];
      StripsRight(s, right[..|right| - 1]);
    }
  }
}
