/**
  Optimal-string-alignment distance (raxis/cli/src/closeness.rs).

  The dynamic-programming table is the fast form.  The reference is the set of edit
  scripts: a script is read off against both strings at once, so "script s turns a into b"
  needs neither the table nor its recurrence.
 */
module EditDistance {
  import opened Basics

  // ----- Edit scripts: the reference -----

  /** One edit.  A swap consumes the adjacent pair x, y and produces y, x. */
  datatype Edit =
    | Keep(c: char)
    | Substitute(from: char, to: char)
    | Insert(c: char)
    | Delete(c: char)
    | Swap(x: char, y: char)
  {
    function Consumed(): string {
      match this
      case Keep(c) => [c]
      case Substitute(f, _) => [f]
      case Insert(_) => []
      case Delete(c) => [c]
      case Swap(x, y) => [x, y]
    }

    function Produced(): string {
      match this
      case Keep(c) => [c]
      case Substitute(_, t) => [t]
      case Insert(c) => [c]
      case Delete(_) => []
      case Swap(x, y) => [y, x]
    }

    /** How many characters of the source and of the target the edit covers. */
    function Takes(): (n: nat)
      ensures n == |Consumed()|
    {
      if Insert? then 0 else if Swap? then 2 else 1
    }

    function Gives(): (n: nat)
      ensures n == |Produced()|
    {
      if Delete? then 0 else if Swap? then 2 else 1
    }

    function Price(): nat {
      if Keep? then 0 else 1
    }

    /** The same edit read from the target back to the source. */
    function Inverse(): Edit {
      match this
      case Keep(c) => Keep(c)
      case Substitute(f, t) => Substitute(t, f)
      case Insert(c) => Delete(c)
      case Delete(c) => Insert(c)
      case Swap(x, y) => Swap(y, x)
    }

    /** The same edit on reversed strings. */
    function Mirror(): Edit {
      if Swap? then Swap(y, x) else this
    }
  }

  /** Scripts are built from left to right. */
  datatype Script = Empty | Then(before: Script, edit: Edit)

  function Source(s: Script): string {
    if s.Empty? then [] else Source(s.before) + s.edit.Consumed()
  }

  function Target(s: Script): string {
    if s.Empty? then [] else Target(s.before) + s.edit.Produced()
  }

  function Cost(s: Script): nat {
    if s.Empty? then 0 else Cost(s.before) + s.edit.Price()
  }

  ghost predicate Turns(s: Script, a: string, b: string) {
    Source(s) == a && Target(s) == b
  }

  /** d is the least cost of any script turning a into b. */
  ghost predicate IsDistance(a: string, b: string, d: nat) {
    && (exists s :: Turns(s, a, b) && Cost(s) == d)
    && (forall s :: Turns(s, a, b) ==> d <= Cost(s))
  }

  lemma DistanceIsUnique(a: string, b: string, d: nat, e: nat)
    requires IsDistance(a, b, d) && IsDistance(a, b, e)
    ensures d == e
  {
  }

  // ----- The recurrence the table tabulates -----

  /** One inner cell from its left, upper, diagonal and two-back neighbours. */
  function Cell(a: string, b: string, i: nat, j: nat, up: nat, left: nat, diag: nat, far: nat): nat
    requires 0 < i <= |a| && 0 < j <= |b|
  {
    var v := Min(Min(up + 1, left + 1), diag + if a[i - 1] == b[j - 1] then 0 else 1);
    if Swapped(a, b, i, j) then Min(v, far + 1) else v
  }

  predicate Swapped(a: string, b: string, i: nat, j: nat)
    requires 0 < i <= |a| && 0 < j <= |b|
  {
    i > 1 && j > 1 && a[i - 1] == b[j - 2] && a[i - 2] == b[j - 1]
  }

  /** Distance between the first i characters of a and the first j of b. */
  function Osa(a: string, b: string, i: nat, j: nat): nat
    requires i <= |a| && j <= |b|
  {
    if i == 0 then j
    else if j == 0 then i
    else Cell(a, b, i, j, Osa(a, b, i - 1, j), Osa(a, b, i, j - 1), Osa(a, b, i - 1, j - 1),
              if i > 1 && j > 1 then Osa(a, b, i - 2, j - 2) else 0)
  }

  lemma OsaBorder(a: string, b: string, i: nat, j: nat)
    requires i <= |a| && j <= |b|
    ensures Osa(a, b, 0, j) == j && Osa(a, b, i, 0) == i
  {
  }

  lemma OsaInner(a: string, b: string, i: nat, j: nat)
    requires 0 < i <= |a| && 0 < j <= |b|
    ensures Osa(a, b, i, j) ==
            Cell(a, b, i, j, Osa(a, b, i - 1, j), Osa(a, b, i, j - 1), Osa(a, b, i - 1, j - 1),
                 if i > 1 && j > 1 then Osa(a, b, i - 2, j - 2) else 0)
  {
    hide Cell;
  }

  /** Which neighbour the minimum came from. */
  lemma OsaAttained(a: string, b: string, i: nat, j: nat)
    requires i <= |a| && j <= |b| && i + j > 0
    ensures || (i > 0 && Osa(a, b, i, j) == Osa(a, b, i - 1, j) + 1)
            || (j > 0 && Osa(a, b, i, j) == Osa(a, b, i, j - 1) + 1)
            || (i > 1 && j > 1 && Swapped(a, b, i, j)
                && Osa(a, b, i, j) == Osa(a, b, i - 2, j - 2) + 1)
            || (i > 0 && j > 0 && Osa(a, b, i, j)
                == Osa(a, b, i - 1, j - 1) + if a[i - 1] == b[j - 1] then 0 else 1)
  {
    hide Osa;
    OsaBorder(a, b, i, j);
    if i == 0 {
      OsaBorder(a, b, i, j - 1);
    } else if j == 0 {
      OsaBorder(a, b, i - 1, j);
    } else {
      OsaInner(a, b, i, j);
    }
  }

  /** The edit ends at position i of a and position j of b. */
  ghost predicate EndsAt(e: Edit, a: string, b: string, i: nat, j: nat)
    requires i <= |a| && j <= |b|
  {
    && e.Takes() <= i && e.Gives() <= j
    && match e
       case Keep(c) => a[i - 1] == c == b[j - 1]
       case Substitute(f, t) => a[i - 1] == f && b[j - 1] == t
       case Insert(c) => b[j - 1] == c
       case Delete(c) => a[i - 1] == c
       case Swap(x, y) => a[i - 2] == x == b[j - 1] && a[i - 1] == y == b[j - 2]
  }

  /** The edit that ends a cheapest script. */
  lemma LastEdit(a: string, b: string, i: nat, j: nat) returns (e: Edit)
    requires i <= |a| && j <= |b| && i + j > 0
    ensures EndsAt(e, a, b, i, j)
    ensures Osa(a, b, i, j) == Osa(a, b, i - e.Takes(), j - e.Gives()) + e.Price()
  {
    hide Osa;
    OsaAttained(a, b, i, j);
    if i > 0 && Osa(a, b, i, j) == Osa(a, b, i - 1, j) + 1 {
      e := Delete(a[i - 1]);
    } else if j > 0 && Osa(a, b, i, j) == Osa(a, b, i, j - 1) + 1 {
      e := Insert(b[j - 1]);
    } else if i > 1 && j > 1 && Swapped(a, b, i, j)
              && Osa(a, b, i, j) == Osa(a, b, i - 2, j - 2) + 1 {
      e := Swap(a[i - 2], a[i - 1]);
    } else {
      e := if a[i - 1] == b[j - 1] then Keep(a[i - 1]) else Substitute(a[i - 1], b[j - 1]);
    }
  }

  lemma EndsAtSplits(e: Edit, a: string, b: string, i: nat, j: nat)
    requires i <= |a| && j <= |b| && EndsAt(e, a, b, i, j)
    ensures a[..i] == a[..i - e.Takes()] + e.Consumed()
    ensures b[..j] == b[..j - e.Gives()] + e.Produced()
  {
  }

  /** A cheapest script, read off the recurrence. */
  lemma {:induction false} CheapestScript(a: string, b: string, i: nat, j: nat) returns (s: Script)
    requires i <= |a| && j <= |b|
    ensures Turns(s, a[..i], b[..j])
    ensures Cost(s) == Osa(a, b, i, j)
    decreases i + j
  {
    hide Osa;
    if i == 0 && j == 0 {
      OsaBorder(a, b, 0, 0);
      return Empty;
    }
    var e := LastEdit(a, b, i, j);
    EndsAtSplits(e, a, b, i, j);
    hide EndsAt;
    s := CheapestScript(a, b, i - e.Takes(), j - e.Gives());
    s := Then(s, e);
  }

  // One more edit raises the recurrence by at most the edit's price.

  lemma StepDelete(a: string, b: string, i: nat, j: nat)
    requires i < |a| && j <= |b|
    ensures Osa(a, b, i + 1, j) <= Osa(a, b, i, j) + 1
  {
    hide Osa;
    if j == 0 {
      OsaBorder(a, b, i + 1, j + 0);
      OsaBorder(a, b, i, j);
    } else {
      OsaInner(a, b, i + 1, j + 0);
    }
  }

  lemma StepInsert(a: string, b: string, i: nat, j: nat)
    requires i <= |a| && j < |b|
    ensures Osa(a, b, i, j + 1) <= Osa(a, b, i, j) + 1
  {
    hide Osa;
    if i == 0 {
      OsaBorder(a, b, i + 0, j + 1);
      OsaBorder(a, b, i, j);
    } else {
      OsaInner(a, b, i + 0, j + 1);
    }
  }

  lemma StepDiagonal(a: string, b: string, i: nat, j: nat)
    requires i < |a| && j < |b|
    ensures Osa(a, b, i + 1, j + 1) <= Osa(a, b, i, j) + if a[i] == b[j] then 0 else 1
  {
    hide Osa;
    OsaInner(a, b, i + 1, j + 1);
  }

  lemma StepSwap(a: string, b: string, i: nat, j: nat)
    requires i + 1 < |a| && j + 1 < |b|
    requires a[i] == b[j + 1] && a[i + 1] == b[j]
    ensures Osa(a, b, i + 2, j + 2) <= Osa(a, b, i, j) + 1
  {
    hide Osa;
    OsaInner(a, b, i + 2, j + 2);
  }

  lemma StepEdit(a: string, b: string, i: nat, j: nat, e: Edit)
    requires i + |e.Consumed()| <= |a| && j + |e.Produced()| <= |b|
    requires forall k :: 0 <= k < |e.Consumed()| ==> e.Consumed()[k] == a[i + k]
    requires forall k :: 0 <= k < |e.Produced()| ==> e.Produced()[k] == b[j + k]
    ensures Osa(a, b, i + |e.Consumed()|, j + |e.Produced()|) <= Osa(a, b, i, j) + e.Price()
  {
    hide Osa;
    match e
    case Keep(_) =>
      assert e.Consumed()[0] == a[i] && e.Produced()[0] == b[j];
      StepDiagonal(a, b, i, j);
    case Substitute(_, _) => StepDiagonal(a, b, i, j);
    case Insert(_) => StepInsert(a, b, i, j);
    case Delete(_) => StepDelete(a, b, i, j);
    case Swap(x, y) =>
      assert a[i] == e.Consumed()[0] && a[i + 1] == e.Consumed()[1];
      assert b[j] == e.Produced()[0] && b[j + 1] == e.Produced()[1];
      StepSwap(a, b, i, j);
  }

  /** Splits a prefix of a that is known to be p followed by c. */
  lemma SplitPrefix(a: string, i: nat, p: string, c: string) returns (k: nat)
    requires i <= |a| && a[..i] == p + c
    ensures k + |c| == i && p == a[..k]
    ensures forall l :: 0 <= l < |c| ==> c[l] == a[k + l]
  {
    k := |p|;
    assert p == a[..i][..k] == a[..k];
    forall l | 0 <= l < |c| ensures c[l] == a[k + l] {
      assert c[l] == a[..i][k + l];
    }
  }

  /** No script beats the recurrence. */
  lemma {:induction false} NoCheaperScript(s: Script, a: string, b: string, i: nat, j: nat)
    requires i <= |a| && j <= |b|
    requires Turns(s, a[..i], b[..j])
    ensures Osa(a, b, i, j) <= Cost(s)
  {
    hide Osa;
    if s.Empty? {
      OsaBorder(a, b, 0, 0);
    } else {
      var ci := SplitPrefix(a, i, Source(s.before), s.edit.Consumed());
      var cj := SplitPrefix(b, j, Target(s.before), s.edit.Produced());
      NoCheaperScript(s.before, a, b, ci, cj);
      StepEdit(a, b, ci, cj, s.edit);
    }
  }

  /** The recurrence is the minimum over all scripts. */
  lemma OsaIsDistance(a: string, b: string)
    ensures IsDistance(a, b, Osa(a, b, |a|, |b|))
  {
    hide Osa;
    assert a[..|a|] == a && b[..|b|] == b;
    var s := CheapestScript(a, b, |a|, |b|);
    assert Turns(s, a, b);
    forall s | Turns(s, a, b) ensures Osa(a, b, |a|, |b|) <= Cost(s) {
      NoCheaperScript(s, a, b, |a|, |b|);
    }
  }

  // ----- The table -----

  /** damerau_levenshtein: nested loops over a mutable (n+1) x (m+1) table. */
  method DamerauLevenshtein(a: string, b: string) returns (d: nat)
    ensures IsDistance(a, b, d)
    ensures d == Osa(a, b, |a|, |b|)
  {
    hide Osa, IsDistance, Cell;
    var n, m := |a|, |b|;
    OsaBorder(a, b, n, m);
    assert IsDistance(a, b, Osa(a, b, n, m)) by { OsaIsDistance(a, b); }
    if n == 0 {
      return m;
    }
    if m == 0 {
      return n;
    }
    var dp := new nat[n + 1, m + 1]((_, _) => 0);
    for i := 0 to n + 1
      invariant forall k :: 0 <= k < i ==> dp[k, 0] == k
    {
      dp[i, 0] := i;
    }
    for j := 0 to m + 1
      invariant forall k :: 0 <= k <= n ==> dp[k, 0] == k
      invariant forall k :: 0 <= k < j ==> dp[0, k] == k
    {
      dp[0, j] := j;
    }
    assert forall l :: 0 <= l <= m ==> dp[0, l] == Osa(a, b, 0, l) by {
      forall l | 0 <= l <= m ensures dp[0, l] == Osa(a, b, 0, l) { OsaBorder(a, b, 0, l); }
    }
    for i := 1 to n + 1
      invariant forall k :: 0 <= k <= n ==> dp[k, 0] == k
      invariant forall k, l :: 0 <= k < i && 0 <= l <= m ==> dp[k, l] == Osa(a, b, k, l)
    {
      OsaBorder(a, b, i, 0);
      for j := 1 to m + 1
        invariant forall k :: 0 <= k <= n ==> dp[k, 0] == k
        invariant forall k, l :: 0 <= k < i && 0 <= l <= m ==> dp[k, l] == Osa(a, b, k, l)
        invariant forall l :: 0 <= l < j ==> dp[i, l] == Osa(a, b, i, l)
      {
        OsaInner(a, b, i, j);
        dp[i, j] := Cell(a, b, i, j, dp[i - 1, j], dp[i, j - 1], dp[i - 1, j - 1],
                         if i > 1 && j > 1 then dp[i - 2, j - 2] else 0);
      }
    }
    d := dp[n, m];
  }

  // ----- What every distance satisfies -----

  function Inverted(s: Script): Script {
    if s.Empty? then s else Then(Inverted(s.before), s.edit.Inverse())
  }

  lemma {:induction false} InvertedTurns(s: Script)
    ensures Source(Inverted(s)) == Target(s)
    ensures Target(Inverted(s)) == Source(s)
    ensures Cost(Inverted(s)) == Cost(s)
  {
    if s.Empty? {
    } else {
      InvertedTurns(s.before);
    }
  }

  lemma Symmetric(a: string, b: string, d: nat)
    ensures IsDistance(a, b, d) <==> IsDistance(b, a, d)
  {
    SymmetricOneWay(a, b, d);
    SymmetricOneWay(b, a, d);
  }

  lemma SymmetricOneWay(a: string, b: string, d: nat)
    ensures IsDistance(a, b, d) ==> IsDistance(b, a, d)
  {
    if IsDistance(a, b, d) {
      var s :| Turns(s, a, b) && Cost(s) == d;
      InvertedTurns(s);
      assert Turns(Inverted(s), b, a);
      forall t | Turns(t, b, a) ensures d <= Cost(t) {
        InvertedTurns(t);
        assert Turns(Inverted(t), a, b);
      }
    }
  }

  function Reverse<T>(s: seq<T>): (r: seq<T>)
    ensures |r| == |s|
    ensures forall k :: 0 <= k < |s| ==> r[k] == s[|s| - 1 - k]
  {
    seq(|s|, k requires 0 <= k < |s| => s[|s| - 1 - k])
  }

  lemma ReverseConcat<T>(s: seq<T>, t: seq<T>)
    ensures Reverse(s + t) == Reverse(t) + Reverse(s)
  {
  }

  function Prepend(e: Edit, s: Script): Script {
    if s.Empty? then Then(Empty, e) else Then(Prepend(e, s.before), s.edit)
  }

  lemma {:induction false} PrependTurns(e: Edit, s: Script)
    ensures Source(Prepend(e, s)) == e.Consumed() + Source(s)
    ensures Target(Prepend(e, s)) == e.Produced() + Target(s)
    ensures Cost(Prepend(e, s)) == e.Price() + Cost(s)
  {
    hide Edit.Consumed, Edit.Produced;
    if s.Empty? {
      assert e.Consumed() + [] == e.Consumed() && e.Produced() + [] == e.Produced();
    } else {
      PrependTurns(e, s.before);
      assert (e.Consumed() + Source(s.before)) + s.edit.Consumed() == e.Consumed() + Source(s);
      assert (e.Produced() + Target(s.before)) + s.edit.Produced() == e.Produced() + Target(s);
    }
  }

  function Mirrored(s: Script): Script {
    if s.Empty? then s else Prepend(s.edit.Mirror(), Mirrored(s.before))
  }

  lemma {:induction false} MirroredTurns(s: Script)
    ensures Source(Mirrored(s)) == Reverse(Source(s))
    ensures Target(Mirrored(s)) == Reverse(Target(s))
    ensures Cost(Mirrored(s)) == Cost(s)
  {
    if s.Empty? {
    } else {
      var p, e := s.before, s.edit;
      MirroredTurns(p);
      PrependTurns(e.Mirror(), Mirrored(p));
      ReverseConcat(Source(p), e.Consumed());
      ReverseConcat(Target(p), e.Produced());
      assert e.Mirror().Consumed() == Reverse(e.Consumed());
      assert e.Mirror().Produced() == Reverse(e.Produced());
    }
  }

  lemma ReverseInvariant(a: string, b: string, d: nat)
    ensures IsDistance(a, b, d) <==> IsDistance(Reverse(a), Reverse(b), d)
  {
    assert Reverse(Reverse(a)) == a && Reverse(Reverse(b)) == b;
    ReverseOneWay(a, b, d);
    ReverseOneWay(Reverse(a), Reverse(b), d);
  }

  lemma ReverseOneWay(a: string, b: string, d: nat)
    ensures IsDistance(a, b, d) ==> IsDistance(Reverse(a), Reverse(b), d)
  {
    if IsDistance(a, b, d) {
      var s :| Turns(s, a, b) && Cost(s) == d;
      MirroredTurns(s);
      assert Turns(Mirrored(s), Reverse(a), Reverse(b));
      forall t | Turns(t, Reverse(a), Reverse(b)) ensures d <= Cost(t) {
        MirroredTurns(t);
        assert Reverse(Reverse(a)) == a && Reverse(Reverse(b)) == b;
        assert Turns(Mirrored(t), a, b);
      }
    }
  }

  /** A script costs at least the length difference; a free script changes nothing. */
  lemma {:induction false} ScriptBounds(s: Script)
    ensures |Source(s)| <= |Target(s)| + Cost(s)
    ensures |Target(s)| <= |Source(s)| + Cost(s)
    ensures Cost(s) == 0 ==> Source(s) == Target(s)
  {
    if s.Empty? {
    } else {
      ScriptBounds(s.before);
    }
  }

  lemma {:induction false} UpperBound(a: string, b: string, i: nat, j: nat)
    requires i <= |a| && j <= |b|
    ensures Osa(a, b, i, j) <= if i <= j then j else i
    ensures i == j && a[..i] == b[..j] ==> Osa(a, b, i, j) == 0
  {
    hide Osa;
    OsaBorder(a, b, i, j);
    if i == 0 || j == 0 {
    } else {
      OsaInner(a, b, i, j);
      UpperBound(a, b, i - 1, j - 1);
      if i == j && a[..i] == b[..j] {
        assert a[i - 1] == a[..i][i - 1] == b[..j][j - 1] == b[j - 1];
        assert a[..i - 1] == a[..i][..i - 1] == b[..j - 1];
      }
    }
  }

  /** Zero exactly on equal strings, and between the length difference and the longer length. */
  lemma DistanceBounds(a: string, b: string, d: nat)
    requires IsDistance(a, b, d)
    ensures d == 0 <==> a == b
    ensures |a| <= |b| + d && |b| <= |a| + d
    ensures d <= |a| || d <= |b|
  {
    OsaIsDistance(a, b);
    DistanceIsUnique(a, b, d, Osa(a, b, |a|, |b|));
    UpperBound(a, b, |a|, |b|);
    assert a[..|a|] == a && b[..|b|] == b;
    var s :| Turns(s, a, b) && Cost(s) == d;
    ScriptBounds(s);
  }

  // ----- No triangle inequality -----

  /** The swapped pair may not be edited again: CA to AC to ABC costs one and one, CA to ABC
      costs three. */
  lemma TriangleFails()
    ensures IsDistance("CA", "AC", 1) && IsDistance("AC", "ABC", 1) && IsDistance("CA", "ABC", 3)
  {
    hide IsDistance;
    OsaIsDistance("CA", "AC");
    OsaIsDistance("AC", "ABC");
    OsaIsDistance("CA", "ABC");
  }
}
