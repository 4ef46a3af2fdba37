/**
  The bytes operators sign: break-glass activation and deactivation
  (raxis/kernel/src/breakglass.rs) and delegation grants (raxis/cli/src/signing.rs).
 */
module SigningLayout {
  import opened Basics
  import opened Wrappers
  import opened ByteLayout

  // ----- Sorting fingerprints -----

  /** Byte-wise lexicographic order. */
  predicate Le(a: Text, b: Text) {
    if a == [] then true
    else if b == [] then false
    else if a[0] == b[0] then Le(a[1..], b[1..])
    else a[0] < b[0]
  }

  lemma {:induction false} LeTotal(a: Text, b: Text)
    ensures Le(a, b) || Le(b, a)
    ensures Le(a, b) && Le(b, a) ==> a == b
    decreases |a|
  {
    if a == [] || b == [] {
    } else {
      LeTotal(a[1..], b[1..]);
      assert a == [a[0]] + a[1..] && b == [b[0]] + b[1..];
    }
  }

  lemma {:induction false} LeTransitive(a: Text, b: Text, c: Text)
    requires Le(a, b) && Le(b, c)
    ensures Le(a, c)
    decreases |a|
  {
    if a == [] || a[0] != b[0] || b[0] != c[0] {
    } else {
      LeTransitive(a[1..], b[1..], c[1..]);
    }
  }

  function Insert(x: Text, s: seq<Text>): seq<Text> {
    if s == [] then [x] else if Le(x, s[0]) then [x] + s else [s[0]] + Insert(x, s[1..])
  }

  function Sort(s: seq<Text>): seq<Text> {
    if s == [] then [] else Insert(s[0], Sort(s[1..]))
  }

  predicate Sorted(s: seq<Text>) {
    forall i, j :: 0 <= i < j < |s| ==> Le(s[i], s[j])
  }

  lemma {:induction false} InsertSorts(x: Text, s: seq<Text>)
    requires Sorted(s)
    ensures Sorted(Insert(x, s)) && multiset(Insert(x, s)) == multiset(s) + multiset{x}
    decreases |s|
  {
    hide Le;
    if s == [] {
    } else if Le(x, s[0]) {
      var t := [x] + s;
      forall j | 0 < j < |t| ensures Le(x, t[j]) {
        if j > 1 {
          LeTransitive(x, s[0], s[j - 1]);
        }
      }
    } else {
      LeTotal(x, s[0]);
      InsertSorts(x, s[1..]);
      var r := Insert(x, s[1..]);
      assert s == [s[0]] + s[1..];
      forall j | 0 <= j < |r| ensures Le(s[0], r[j]) {
        assert r[j] in multiset(r);
        if r[j] != x {
          assert r[j] in multiset(s[1..]);
          var k :| 0 <= k < |s[1..]| && s[1..][k] == r[j];
          assert s[k + 1] == r[j];
        }
      }
    }
  }

  lemma {:induction false} SortSorts(s: seq<Text>)
    ensures Sorted(Sort(s)) && multiset(Sort(s)) == multiset(s) && |Sort(s)| == |s|
  {
    hide Le, Sorted;
    if s != [] {
      SortSorts(s[1..]);
      InsertSorts(s[0], Sort(s[1..]));
      assert s == [s[0]] + s[1..];
    } else {
      assert Sorted([]) by { EmptySorted(); }
    }
    assert |Sort(s)| == |multiset(Sort(s))| == |multiset(s)| == |s|;
  }

  lemma EmptySorted()
    ensures Sorted([])
  {
  }

  lemma HeadIsLeast(s: seq<Text>, t: seq<Text>)
    requires Sorted(s) && s != [] && t != [] && multiset(s) == multiset(t)
    ensures Le(s[0], t[0])
  {
    hide Le;
    assert t[0] in multiset(s);
    var j :| 0 <= j < |s| && s[j] == t[0];
    LeTotal(s[0], s[0]);
  }

  /** A multiset has one sorted arrangement. */
  lemma {:induction false} SortedUnique(s: seq<Text>, t: seq<Text>)
    requires Sorted(s) && Sorted(t) && multiset(s) == multiset(t)
    ensures s == t
    decreases |s|
  {
    hide Le;
    assert |s| == |multiset(s)| == |multiset(t)| == |t|;
    if s == [] {
    } else {
      HeadIsLeast(s, t);
      HeadIsLeast(t, s);
      LeTotal(s[0], t[0]);
      assert s == [s[0]] + s[1..] && t == [t[0]] + t[1..];
      assert multiset(s[1..]) == multiset(t[1..]) by {
        assert multiset(s[1..]) == multiset(s) - multiset{s[0]};
        assert multiset(t[1..]) == multiset(t) - multiset{t[0]};
      }
      SortedUnique(s[1..], t[1..]);
    }
  }

  lemma SortCanonical(s: seq<Text>, t: seq<Text>)
    ensures Sort(s) == Sort(t) <==> multiset(s) == multiset(t)
    ensures Sort(Sort(s)) == Sort(s)
  {
    hide Sort, Sorted;
    SortSorts(s);
    SortSorts(t);
    SortSorts(Sort(s));
    if multiset(s) == multiset(t) {
      SortedUnique(Sort(s), Sort(t));
    }
    SortedUnique(Sort(Sort(s)), Sort(s));
  }

  // ----- Break-glass activation -----

  /** "raxis.breakglass.v1" and a NUL. */
  const ACTIVATE_TAG: Bytes :=
    [114, 97, 120, 105, 115, 46, 98, 114, 101, 97, 107, 103, 108, 97, 115, 115, 46, 118, 49, 0]

  /** "raxis.breakglass.deactivate.v1" and a NUL. */
  const DEACTIVATE_TAG: Bytes :=
    [114, 97, 120, 105, 115, 46, 98, 114, 101, 97, 107, 103, 108, 97, 115, 115, 46,
     100, 101, 97, 99, 116, 105, 118, 97, 116, 101, 46, 118, 49, 0]

  function PrefixedAll(fps: seq<Text>): Bytes {
    if fps == [] then [] else PrefixedAll(fps[..|fps| - 1]) + Prefixed(fps[|fps| - 1])
  }

  /** The bytes both operators sign. */
  function ActivationBytes(fps: seq<Text>, expiry: int, justification: Text): Bytes
    requires InI64(expiry)
  {
    ACTIVATE_TAG + PrefixedAll(Sort(fps)) + I64(expiry) + Prefixed(justification)
  }

  /** canonical_signing_bytes: the buffer filled field by field. */
  method CanonicalSigningBytes(fps: seq<Text>, expiry: int, justification: Text) returns (buf: Bytes)
    requires InI64(expiry)
    ensures buf == ActivationBytes(fps, expiry, justification)
  {
    hide Sort, BigEndian, I64;
    buf := ACTIVATE_TAG;
    var sorted := Sort(fps);
    for i := 0 to |sorted|
      invariant buf == ACTIVATE_TAG + PrefixedAll(sorted[..i])
    {
      assert sorted[..i + 1][..i] == sorted[..i];
      buf := buf + BigEndian(|sorted[i]|, 4);
      buf := buf + sorted[i];
    }
    assert sorted[..|sorted|] == sorted;
    buf := buf + I64(expiry);
    buf := buf + BigEndian(|justification|, 4);
    buf := buf + justification;
  }

  function DeactivationBytes(id: Bytes, fp: Text): Bytes {
    DEACTIVATE_TAG + id + Prefixed(fp)
  }

  lemma PairPrefixed(a: Text, b: Text)
    ensures PrefixedAll([a, b]) == Prefixed(a) + Prefixed(b)
  {
    assert [a, b][..1] == [a] && [a][..0] == [];
    assert PrefixedAll([a]) == Prefixed(a);
  }

  /** With two signers the layout decodes to exactly one signer multiset, expiry second and
      justification, and signer order does not matter. */
  lemma ActivationBytesUnique(f: seq<Text>, e: int, j: Text, f': seq<Text>, e': int, j': Text)
    requires |f| == 2 && |f'| == 2
    requires InI64(e) && InI64(e') && |j| < TWO32 && |j'| < TWO32
    requires forall k :: 0 <= k < 2 ==> |f[k]| < TWO32 && |f'[k]| < TWO32
    ensures ActivationBytes(f, e, j) == ActivationBytes(f', e', j') <==>
            multiset(f) == multiset(f') && e == e' && j == j'
  {
    hide Sort, BigEndian, I64, Prefixed, PrefixedAll, Le;
    SortCanonical(f, f');
    var s, s' := Sort(f), Sort(f');
    SortPair(f);
    SortPair(f');
    if ActivationBytes(f, e, j) == ActivationBytes(f', e', j') {
      ActivationParts(s, e, j);
      ActivationParts(s', e', j');
      assert ActivationBytes(f, e, j) == Parts(s[0], s[1], e, j);
      assert ActivationBytes(f', e', j') == Parts(s'[0], s'[1], e', j');
      PartsDecode(s[0], s[1], e, j, s'[0], s'[1], e', j');
      assert s == [s[0], s[1]] && s' == [s'[0], s'[1]];
    }
  }

  function Parts(a: Text, b: Text, e: int, j: Text): Bytes
    requires InI64(e)
  {
    ACTIVATE_TAG + (Prefixed(a) + (Prefixed(b) + (I64(e) + (Prefixed(j) + []))))
  }

  lemma ActivationParts(s: seq<Text>, e: int, j: Text)
    requires |s| == 2 && InI64(e)
    ensures ACTIVATE_TAG + PrefixedAll(s) + I64(e) + Prefixed(j) == Parts(s[0], s[1], e, j)
  {
    hide I64, Prefixed, PrefixedAll;
    PairPrefixed(s[0], s[1]);
    assert s == [s[0], s[1]];
    var a, b, z := Prefixed(s[0]), Prefixed(s[1]), Prefixed(j);
    assert z + [] == z;
    Regroup(ACTIVATE_TAG, a, b, I64(e), z);
    Assoc(ACTIVATE_TAG, a, b);
  }

  lemma PartsDecode(a: Text, b: Text, e: int, j: Text, a': Text, b': Text, e': int, j': Text)
    requires InI64(e) && InI64(e')
    requires |a| < TWO32 && |b| < TWO32 && |j| < TWO32 && |a'| < TWO32 && |b'| < TWO32 && |j'| < TWO32
    requires Parts(a, b, e, j) == Parts(a', b', e', j')
    ensures a == a' && b == b' && e == e' && j == j'
  {
    hide I64, Prefixed;
    var z, z' := Prefixed(j) + [], Prefixed(j') + [];
    var y, y' := I64(e) + z, I64(e') + z';
    var x, x' := Prefixed(b) + y, Prefixed(b') + y';
    SplitEqual(ACTIVATE_TAG, Prefixed(a) + x, ACTIVATE_TAG, Prefixed(a') + x');
    PrefixedDecodes(a, x, a', x');
    PrefixedDecodes(b, y, b', y');
    I64Width(e);
    I64Width(e');
    SplitEqual(I64(e), z, I64(e'), z');
    I64Injective(e, e');
    PrefixedDecodes(j, [], j', []);
  }

  lemma I64Width(x: int)
    requires InI64(x)
    ensures |I64(x)| == 8
  {
  }

  lemma SortOfTwo(f: seq<Text>)
    requires |f| == 2
    ensures Sort(f) == f || Sort(f) == [f[1], f[0]]
  {
    hide Le;
    var one := f[1..];
    assert one == [f[1]] && one[1..] == [] && f == [f[0], f[1]];
    assert Sort(one[1..]) == [];
    assert Sort(one) == Insert(one[0], []) == one;
    assert Insert(f[0], one[1..]) == [f[0]];
    assert Sort(f) == Insert(f[0], one);
  }

  lemma SortPair(f: seq<Text>)
    requires |f| == 2 && forall k :: 0 <= k < 2 ==> |f[k]| < TWO32
    ensures |Sort(f)| == 2 && |Sort(f)[0]| < TWO32 && |Sort(f)[1]| < TWO32
  {
    hide Sort;
    SortOfTwo(f);
  }

  /** An activation signature is never a deactivation signature. */
  lemma TagsSeparate(f: seq<Text>, e: int, j: Text, id: Bytes, fp: Text)
    requires InI64(e)
    ensures ActivationBytes(f, e, j) != DeactivationBytes(id, fp)
  {
    hide Sort, I64, Prefixed, PrefixedAll;
    assert ActivationBytes(f, e, j)[17] == ACTIVATE_TAG[17] == 118;
    assert DeactivationBytes(id, fp)[17] == DEACTIVATE_TAG[17] == 100;
  }

  lemma DeactivationBytesUnique(id: Bytes, fp: Text, id': Bytes, fp': Text)
    requires |id| == 16 && |id'| == 16 && |fp| < TWO32 && |fp'| < TWO32
    ensures DeactivationBytes(id, fp) == DeactivationBytes(id', fp') <==> id == id' && fp == fp'
  {
    hide Prefixed;
    if DeactivationBytes(id, fp) == DeactivationBytes(id', fp') {
      SplitEqual(DEACTIVATE_TAG + id, Prefixed(fp), DEACTIVATE_TAG + id', Prefixed(fp'));
      SplitEqual(DEACTIVATE_TAG, id, DEACTIVATE_TAG, id');
      assert Prefixed(fp) + [] == Prefixed(fp) && Prefixed(fp') + [] == Prefixed(fp');
      PrefixedDecodes(fp, [], fp', []);
    }
  }

  // ----- Delegation grants -----

  /** "RAXIS-V1-DELEGATION-GRANT". */
  const GRANT_TAG: Bytes :=
    [82, 65, 88, 73, 83, 45, 86, 49, 45, 68, 69, 76, 69, 71, 65, 84, 73, 79, 78, 45, 71, 82, 65, 78, 84]

  datatype Grant = Grant(session: Text, capability: Text, role: Text, expiry: nat, scope: Option<Text>)

  predicate NulFree(t: Text) {
    forall k :: 0 <= k < |t| ==> t[k] != 0
  }

  function ScopeBytes(scope: Option<Text>): Bytes {
    match scope
    case None => [0]
    case Some(json) => [1] + LittleEndian(|json|, 4) + json
  }

  function GrantBytes(g: Grant): Bytes {
    GRANT_TAG + [0] + g.session + [0] + g.capability + [0] + g.role + [0]
    + LittleEndian(g.expiry, 8) + [0] + ScopeBytes(g.scope)
  }

  /** delegation_grant_signing_domain: the buffer filled field by field. */
  method DelegationGrantSigningDomain(session: Text, capability: Text, role: Text, expiry: nat, scope: Option<Text>)
    returns (buf: Bytes)
    requires expiry < TWO64
    ensures buf == GrantBytes(Grant(session, capability, role, expiry, scope))
  {
    hide LittleEndian;
    buf := GRANT_TAG;
    buf := buf + [0];
    buf := buf + session;
    buf := buf + [0];
    buf := buf + capability;
    buf := buf + [0];
    buf := buf + role;
    buf := buf + [0];
    buf := buf + LittleEndian(expiry, 8);
    buf := buf + [0];
    ghost var head := buf;
    match scope {
      case None =>
        buf := buf + [0];
      case Some(json) =>
        buf := buf + [1];
        buf := buf + LittleEndian(|json|, 4);
        buf := buf + json;
        assert buf == head + ScopeBytes(scope);
    }
  }

  lemma FirstNul(b: Text, y: Bytes, i: nat)
    requires NulFree(b) && i < |b + ([0] + y)| && (b + ([0] + y))[i] == 0
    ensures |b| <= i
  {
  }

  /** A NUL-free text ends at the first NUL. */
  lemma NulTerminated(a: Text, x: Bytes, b: Text, y: Bytes)
    requires NulFree(a) && NulFree(b) && a + ([0] + x) == b + ([0] + y)
    ensures a == b && x == y
  {
    FirstNul(b, y, |a|);
    FirstNul(a, x, |b|);
    SplitEqual(a, [0] + x, b, [0] + y);
    SplitEqual([0], x, [0], y);
  }

  lemma ScopeBytesUnique(s: Option<Text>, t: Option<Text>)
    requires s.Some? ==> |s.value| < TWO32
    requires t.Some? ==> |t.value| < TWO32
    requires ScopeBytes(s) == ScopeBytes(t)
    ensures s == t
  {
    assert ScopeBytes(s)[0] == (if s.None? then 0 else 1) && ScopeBytes(t)[0] == (if t.None? then 0 else 1);
    if s.Some? {
      Widths();
      var a, b := s.value, t.value;
      SplitEqual([1] + LittleEndian(|a|, 4), a, [1] + LittleEndian(|b|, 4), b);
      SplitEqual([1], LittleEndian(|a|, 4), [1], LittleEndian(|b|, 4));
      LittleEndianInjective(|a|, |b|, 4);
    }
  }

  function Tail3(g: Grant): Bytes {
    LittleEndian(g.expiry, 8) + ([0] + ScopeBytes(g.scope))
  }

  function Tail2(g: Grant): Bytes {
    g.role + ([0] + Tail3(g))
  }

  function Tail1(g: Grant): Bytes {
    g.capability + ([0] + Tail2(g))
  }

  lemma GrantParts(g: Grant)
    ensures GrantBytes(g) == GRANT_TAG + [0] + (g.session + ([0] + Tail1(g)))
  {
    hide LittleEndian, ScopeBytes;
    var e, z := LittleEndian(g.expiry, 8), ScopeBytes(g.scope);
    var h := GRANT_TAG + [0];
    var x := h + g.session + [0];
    var y := x + g.capability + [0];
    assert GrantBytes(g) == y + g.role + [0] + Tail3(g);
    Assoc(y + g.role, [0], Tail3(g));
    Assoc(y, g.role, [0] + Tail3(g));
    Assoc(x + g.capability, [0], Tail2(g));
    Assoc(x, g.capability, [0] + Tail2(g));
    Assoc(h + g.session, [0], Tail1(g));
    Assoc(h, g.session, [0] + Tail1(g));
  }

  /** For NUL-free identifiers the grant layout is injective, with and without a scope. */
  lemma GrantBytesUnique(g: Grant, h: Grant)
    requires NulFree(g.session) && NulFree(g.capability) && NulFree(g.role)
    requires NulFree(h.session) && NulFree(h.capability) && NulFree(h.role)
    requires g.expiry < TWO64 && h.expiry < TWO64
    requires g.scope.Some? ==> |g.scope.value| < TWO32
    requires h.scope.Some? ==> |h.scope.value| < TWO32
    ensures GrantBytes(g) == GrantBytes(h) <==> g == h
  {
    hide LittleEndian, ScopeBytes, GrantBytes, NulFree;
    if GrantBytes(g) == GrantBytes(h) {
      GrantParts(g);
      GrantParts(h);
      SplitEqual(GRANT_TAG + [0], g.session + ([0] + Tail1(g)), GRANT_TAG + [0], h.session + ([0] + Tail1(h)));
      NulTerminated(g.session, Tail1(g), h.session, Tail1(h));
      NulTerminated(g.capability, Tail2(g), h.capability, Tail2(h));
      NulTerminated(g.role, Tail3(g), h.role, Tail3(h));
      SplitEqual(LittleEndian(g.expiry, 8), [0] + ScopeBytes(g.scope),
                 LittleEndian(h.expiry, 8), [0] + ScopeBytes(h.scope));
      SplitEqual([0], ScopeBytes(g.scope), [0], ScopeBytes(h.scope));
      Widths();
      LittleEndianInjective(g.expiry, h.expiry, 8);
      ScopeBytesUnique(g.scope, h.scope);
    }
  }

  /** Splits a text with a NUL at its first NUL. */
  lemma SplitAtNul(t: Text) returns (a: Text, b: Text)
    requires !NulFree(t)
    ensures t == a + [0] + b
  {
    var i :| 0 <= i < |t| && t[i] == 0;
    a, b := t[..i], t[i + 1..];
  }

  lemma MoveCut(h: Bytes, a: Text, b: Text, c: Text)
    ensures h + (a + [0] + b) + [0] + c == h + a + [0] + (b + [0] + c)
  {
    assert h + (a + [0] + b) == h + a + [0] + b;
  }

  /** Every grant with a NUL in an identifier has a different grant with the same bytes: the cut
      between two neighbouring identifiers can be moved. */
  lemma NulIdentifiersCollide(g: Grant) returns (h: Grant)
    requires !NulFree(g.session) || !NulFree(g.capability) || !NulFree(g.role)
    ensures h != g && h.expiry == g.expiry && h.scope == g.scope
    ensures GrantBytes(h) == GrantBytes(g)
  {
    hide LittleEndian, ScopeBytes, NulFree;
    var tag := GRANT_TAG + [0];
    if !NulFree(g.session) {
      var a, b := SplitAtNul(g.session);
      h := g.(session := a, capability := b + [0] + g.capability);
      MoveCut(tag, a, b, g.capability);
    } else if !NulFree(g.capability) {
      var a, b := SplitAtNul(g.capability);
      h := g.(session := g.session + [0] + a, capability := b);
      MoveCut(tag, g.session, a, b);
    } else {
      var a, b := SplitAtNul(g.role);
      h := g.(capability := g.capability + [0] + a, role := b);
      MoveCut(tag + g.session + [0], g.capability, a, b);
    }
  }
}
