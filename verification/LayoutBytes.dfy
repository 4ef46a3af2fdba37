/**
  The signing layouts byte by byte: what a signer in another language has to write
  (raxis/kernel/src/breakglass.rs, raxis/cli/src/signing.rs).
 */
module LayoutBytes {
  import opened Basics
  import opened Wrappers
  import opened ByteLayout
  import opened SigningLayout

  /** The character codes of a literal. */
  function Ascii(s: string): seq<int> {
    seq(|s|, k requires 0 <= k < |s| => s[k] as int)
  }

  // ----- Place values -----

  /** Four bytes at `at`, most significant first. */
  function Big32(b: seq<int>, at: nat): int
    requires at + 4 <= |b|
  {
    b[at] * 0x100_0000 + b[at + 1] * 0x1_0000 + b[at + 2] * 0x100 + b[at + 3]
  }

  /** Four bytes at `at`, least significant first. */
  function Little32(b: seq<int>, at: nat): int
    requires at + 4 <= |b|
  {
    b[at] + b[at + 1] * 0x100 + b[at + 2] * 0x1_0000 + b[at + 3] * 0x100_0000
  }

  function Big64(b: seq<int>, at: nat): int
    requires at + 8 <= |b|
  {
    Big32(b, at) * 0x1_0000_0000 + Big32(b, at + 4)
  }

  function Little64(b: seq<int>, at: nat): int
    requires at + 8 <= |b|
  {
    Little32(b, at) + Little32(b, at + 4) * 0x1_0000_0000
  }

  /** The field at `at`: four bytes that hold the length of the text, most significant first, and
      the text. */
  ghost predicate FieldAt(b: Bytes, at: nat, text: Text) {
    && at + 4 + |text| <= |b|
    && Big32(b, at) == |text| % 0x1_0000_0000
    && b[at + 4..at + 4 + |text|] == text
  }

  lemma BigUnfold(n: nat, w: nat)
    ensures BigEndian(n, w + 1) == BigEndian(n / 256, w) + [n % 256]
  {
  }

  lemma LittleUnfold(n: nat, w: nat)
    ensures LittleEndian(n, w + 1) == [n % 256] + LittleEndian(n / 256, w)
  {
  }

  lemma BigEmpty(n: nat)
    ensures BigEndian(n, 0) == []
  {
  }

  lemma Big4(n: nat)
    ensures var b := BigEndian(n, 4);
            |b| == 4 && Big32(b, 0) == n % 0x1_0000_0000
  {
    var n1, n2, n3 := n / 256, n / 256 / 256, n / 256 / 256 / 256;
    BigUnfold(n, 3);
    BigUnfold(n1, 2);
    BigUnfold(n2, 1);
    BigUnfold(n3, 0);
    assert BigEndian(n3 / 256, 0) == [];
    assert BigEndian(n, 4) == [n3 % 256, n2 % 256, n1 % 256, n % 256];
    FourDigits(n);
  }

  lemma LittleEmpty(n: nat)
    ensures LittleEndian(n, 0) == []
  {
  }

  lemma Little4(n: nat)
    ensures var b := LittleEndian(n, 4);
            |b| == 4 && Little32(b, 0) == n % 0x1_0000_0000
  {
    var n1, n2, n3 := n / 256, n / 256 / 256, n / 256 / 256 / 256;
    LittleUnfold(n, 3);
    LittleUnfold(n1, 2);
    LittleUnfold(n2, 1);
    LittleUnfold(n3, 0);
    assert LittleEndian(n3 / 256, 0) == [];
    assert LittleEndian(n, 4) == [n % 256, n1 % 256, n2 % 256, n3 % 256];
    FourDigits(n);
  }

  lemma FourDigits(n: nat)
    ensures var n1, n2, n3 := n / 256, n / 256 / 256, n / 256 / 256 / 256;
            n3 % 256 * 0x100_0000 + n2 % 256 * 0x1_0000 + n1 % 256 * 0x100 + n % 256 == n % 0x1_0000_0000
  {
    var n1, n2, n3 := n / 256, n / 256 / 256, n / 256 / 256 / 256;
    var q, d0, d1, d2, d3 := n3 / 256, n % 256, n1 % 256, n2 % 256, n3 % 256;
    assert n == 256 * n1 + d0 && n1 == 256 * n2 + d1 && n2 == 256 * n3 + d2 && n3 == 256 * q + d3;
    Remainder(n, q, d3 * 0x100_0000 + d2 * 0x1_0000 + d1 * 0x100 + d0);
  }

  lemma Remainder(n: nat, q: nat, r: nat)
    requires n == q * 0x1_0000_0000 + r && r < 0x1_0000_0000
    ensures n % 0x1_0000_0000 == r
  {
  }

  lemma Big8(n: nat)
    requires n < TWO64
    ensures var b := BigEndian(n, 8);
            |b| == 8 && Big64(b, 0) == n
  {
    var b := BigEndian(n, 8);
    var hi, lo := BigEndian(n / 0x1_0000_0000, 4), BigEndian(n, 4);
    BigSplit(n);
    Big4(n);
    Big4(n / 0x1_0000_0000);
    assert Big32(b, 0) == Big32(hi, 0) && Big32(b, 4) == Big32(lo, 0);
  }

  lemma BigSplit(n: nat)
    ensures BigEndian(n, 8) == BigEndian(n / 0x1_0000_0000, 4) + BigEndian(n, 4)
  {
    hide BigEndian;
    var n1, n2, n3, n4 := n / 256, n / 256 / 256, n / 256 / 256 / 256, n / 256 / 256 / 256 / 256;
    assert n4 == n / 0x1_0000_0000;
    BigUnfold(n, 7);
    BigUnfold(n1, 6);
    BigUnfold(n2, 5);
    BigUnfold(n3, 4);
    BigUnfold(n, 3);
    BigUnfold(n1, 2);
    BigUnfold(n2, 1);
    BigUnfold(n3, 0);
    BigEmpty(n4);
    assert BigEndian(n, 4) == [n3 % 256, n2 % 256, n1 % 256, n % 256];
  }

  lemma Little8(n: nat)
    requires n < TWO64
    ensures var b := LittleEndian(n, 8);
            |b| == 8 && Little64(b, 0) == n
  {
    var b := LittleEndian(n, 8);
    var lo, hi := LittleEndian(n, 4), LittleEndian(n / 0x1_0000_0000, 4);
    LittleSplit(n);
    Little4(n);
    Little4(n / 0x1_0000_0000);
    assert Little32(b, 0) == Little32(lo, 0) && Little32(b, 4) == Little32(hi, 0);
  }

  lemma LittleSplit(n: nat)
    ensures LittleEndian(n, 8) == LittleEndian(n, 4) + LittleEndian(n / 0x1_0000_0000, 4)
  {
    hide LittleEndian;
    var n1, n2, n3, n4 := n / 256, n / 256 / 256, n / 256 / 256 / 256, n / 256 / 256 / 256 / 256;
    assert n4 == n / 0x1_0000_0000;
    LittleUnfold(n, 7);
    LittleUnfold(n1, 6);
    LittleUnfold(n2, 5);
    LittleUnfold(n3, 4);
    LittleUnfold(n, 3);
    LittleUnfold(n1, 2);
    LittleUnfold(n2, 1);
    LittleUnfold(n3, 0);
    LittleEmpty(n4);
    assert LittleEndian(n, 4) == [n % 256, n1 % 256, n2 % 256, n3 % 256];
  }

  /** An expiry second, as two's complement. */
  lemma SignedValue(x: int)
    requires InI64(x)
    ensures var u := Big64(I64(x), 0);
            |I64(x)| == 8 && x == if u < 0x8000_0000_0000_0000 then u else u - 0x1_0000_0000_0000_0000
  {
    hide BigEndian, Big64;
    Big8(if x < 0 then x + TWO64 else x);
  }

  // ----- Fields inside a buffer -----

  lemma FieldInside(pre: Bytes, text: Text, post: Bytes)
    ensures var b := pre + (Prefixed(text) + post);
            FieldAt(b, |pre|, text) && b[|pre| + 4 + |text|..] == post
  {
    hide BigEndian;
    var n := BigEndian(|text|, 4);
    var b := pre + (Prefixed(text) + post);
    Big4(|text|);
    assert b[|pre|..|pre| + 4] == n;
    assert Big32(b, |pre|) == Big32(n, 0);
  }

  /** Byte-wise lexicographic order: a prefix, or smaller at the first difference. */
  ghost predicate NotAfter(a: Text, b: Text) {
    a <= b || exists k :: 0 <= k < |a| && k < |b| && a[..k] == b[..k] && a[k] < b[k]
  }

  lemma PrefixTail(c: Byte, x: Text, y: Text)
    ensures [c] + x <= [c] + y <==> x <= y
  {
    var a, b := [c] + x, [c] + y;
    assert a[1..] == x && b[1..] == y;
    if a <= b {
      assert b[..|a|] == a;
      assert b[..|a|][1..] == y[..|x|];
    }
    if x <= y {
      assert y[..|x|] == x;
      assert b[..|a|] == [c] + y[..|x|];
    }
  }

  lemma NotAfterTail(c: Byte, x: Text, y: Text)
    ensures NotAfter([c] + x, [c] + y) <==> NotAfter(x, y)
  {
    var a, b := [c] + x, [c] + y;
    PrefixTail(c, x, y);
    if k :| 0 <= k < |x| && k < |y| && x[..k] == y[..k] && x[k] < y[k] {
      assert a[..k + 1] == [c] + x[..k] && b[..k + 1] == [c] + y[..k];
    }
    if k :| 0 <= k < |a| && k < |b| && a[..k] == b[..k] && a[k] < b[k] {
      assert x[..k - 1] == a[..k][1..] && y[..k - 1] == b[..k][1..];
    }
  }

  lemma {:induction false} LeIs(a: Text, b: Text)
    ensures Le(a, b) <==> NotAfter(a, b)
    decreases |a|
  {
    if a == [] || b == [] {
    } else {
      assert a == [a[0]] + a[1..] && b == [b[0]] + b[1..];
      if a[0] == b[0] {
        hide NotAfter;
        LeIs(a[1..], b[1..]);
        NotAfterTail(a[0], a[1..], b[1..]);
      } else {
        assert a[..0] == b[..0];
        forall k | 0 < k < |a| && k < |b| ensures a[..k] != b[..k] {
          assert a[..k][0] == a[0] && b[..k][0] == b[0];
        }
      }
    }
  }

  // ----- The three layouts -----

  /** The bytes both operators sign: "raxis.breakglass.v1", a NUL, the field of the smaller
      fingerprint and of the larger, the expiry second in eight bytes of two's complement, most
      significant first, and the field of the justification. */
  lemma ActivationLayout(fps: seq<Text>, e: int, j: Text) returns (lo: Text, hi: Text)
    requires |fps| == 2 && InI64(e)
    ensures multiset([lo, hi]) == multiset(fps) && NotAfter(lo, hi)
    ensures var b := ActivationBytes(fps, e, j);
            var p := 20 + 4 + |lo| + 4 + |hi|;
            && |b| == p + 8 + 4 + |j|
            && b[..19] == Ascii("raxis.breakglass.v1") && b[19] == 0
            && FieldAt(b, 20, lo) && FieldAt(b, 20 + 4 + |lo|, hi)
            && e == (if Big64(b, p) < 0x8000_0000_0000_0000 then Big64(b, p) else Big64(b, p) - 0x1_0000_0000_0000_0000)
            && FieldAt(b, p + 8, j)
  {
    hide BigEndian, Prefixed, I64, PrefixedAll, Sort, Le, FieldAt, NotAfter, Big64;
    SortSorts(fps);
    var s := Sort(fps);
    lo, hi := s[0], s[1];
    assert s == [lo, hi];
    assert Le(lo, hi);
    LeIs(lo, hi);
    ActivationParts(s, e, j);
    var b := ActivationBytes(fps, e, j);
    ActivationFields(lo, hi, e, j, b);
  }

  lemma ActivationFields(lo: Text, hi: Text, e: int, j: Text, b: Bytes)
    requires InI64(e) && b == Parts(lo, hi, e, j)
    ensures var p := 20 + 4 + |lo| + 4 + |hi|;
            && |b| == p + 8 + 4 + |j|
            && b[..19] == Ascii("raxis.breakglass.v1") && b[19] == 0
            && FieldAt(b, 20, lo) && FieldAt(b, 20 + 4 + |lo|, hi)
            && e == (if Big64(b, p) < 0x8000_0000_0000_0000 then Big64(b, p) else Big64(b, p) - 0x1_0000_0000_0000_0000)
            && FieldAt(b, p + 8, j)
  {
    hide BigEndian, Prefixed, I64, FieldAt, Big64, Ascii;
    var t, f, g, x, h := ACTIVATE_TAG, Prefixed(lo), Prefixed(hi), I64(e), Prefixed(j);
    PrefixedLength(lo);
    PrefixedLength(hi);
    PrefixedLength(j);
    SignedValue(e);
    ActivateTag();
    TagFirst(t, f + (g + (x + (h + []))));
    FieldsOf(t, lo, hi, x, j);
  }

  /** A field behind other fields stays where it is. */
  lemma FieldBehind(pre: Bytes, first: Text, text: Text, post: Bytes)
    ensures FieldAt(pre + (Prefixed(first) + (Prefixed(text) + post)), |pre| + 4 + |first|, text)
  {
    hide Prefixed, FieldAt;
    PrefixedLength(first);
    Assoc(pre, Prefixed(first), Prefixed(text) + post);
    FieldInside(pre + Prefixed(first), text, post);
  }

  /** A tag, two fields, eight bytes and a last field. */
  lemma FieldsOf(t: Bytes, lo: Text, hi: Text, x: Bytes, j: Text)
    requires |x| == 8
    ensures var b := t + (Prefixed(lo) + (Prefixed(hi) + (x + (Prefixed(j) + []))));
            var p := |t| + 4 + |lo| + 4 + |hi|;
            && |b| == p + 8 + 4 + |j|
            && FieldAt(b, |t|, lo) && FieldAt(b, |t| + 4 + |lo|, hi)
            && Big64(b, p) == Big64(x, 0) && FieldAt(b, p + 8, j)
  {
    hide Prefixed, FieldAt, Big64;
    var z := Prefixed(j) + [];
    FieldInside(t, lo, Prefixed(hi) + (x + z));
    FieldBehind(t, lo, hi, x + z);
    TailOf(t, lo, hi, x, j);
  }

  lemma TailOf(t: Bytes, lo: Text, hi: Text, x: Bytes, j: Text)
    requires |x| == 8
    ensures var b := t + (Prefixed(lo) + (Prefixed(hi) + (x + (Prefixed(j) + []))));
            var p := |t| + 4 + |lo| + 4 + |hi|;
            |b| == p + 8 + 4 + |j| && Big64(b, p) == Big64(x, 0) && FieldAt(b, p + 8, j)
  {
    hide Prefixed, FieldAt, Big64;
    var u, z := t + Prefixed(lo) + Prefixed(hi), Prefixed(j) + [];
    Assoc(t, Prefixed(lo), Prefixed(hi) + (x + z));
    Assoc(t + Prefixed(lo), Prefixed(hi), x + z);
    PrefixedLength(lo);
    PrefixedLength(hi);
    PrefixedLength(j);
    LastTwo(u, x, j);
  }

  lemma LastTwo(u: Bytes, x: Bytes, j: Text)
    requires |x| == 8
    ensures var b := u + (x + (Prefixed(j) + []));
            |b| == |u| + 8 + |Prefixed(j)| && Big64(b, |u|) == Big64(x, 0) && FieldAt(b, |u| + 8, j)
  {
    hide Prefixed, FieldAt, Big64;
    Inside64(u, x, Prefixed(j) + []);
    Assoc(u, x, Prefixed(j) + []);
    FieldInside(u + x, j, []);
  }

  lemma TagFirst(t: Bytes, z: Bytes)
    requires |t| == 20
    ensures (t + z)[..19] == t[..19] && (t + z)[19] == t[19]
  {
  }

  lemma PrefixedLength(b: Bytes)
    ensures |Prefixed(b)| == 4 + |b|
  {
    hide BigEndian;
  }

  lemma ActivateTag()
    ensures |ACTIVATE_TAG| == 20 && ACTIVATE_TAG[..19] == Ascii("raxis.breakglass.v1") && ACTIVATE_TAG[19] == 0
  {
  }

  lemma Inside64(pre: Bytes, x: Bytes, post: Bytes)
    requires |x| == 8
    ensures Big64(pre + (x + post), |pre|) == Big64(x, 0)
    ensures Little64(pre + (x + post), |pre|) == Little64(x, 0)
  {
    var b := pre + (x + post);
    assert forall k :: 0 <= k < 8 ==> b[|pre| + k] == x[k];
    assert Big32(b, |pre|) == Big32(x, 0) && Big32(b, |pre| + 4) == Big32(x, 4);
    assert Little32(b, |pre|) == Little32(x, 0) && Little32(b, |pre| + 4) == Little32(x, 4);
  }

  /** The bytes one operator signs: "raxis.breakglass.deactivate.v1", a NUL, the sixteen bytes of the
      activation id, and the field of the fingerprint. */
  lemma DeactivationLayout(id: Bytes, fp: Text)
    requires |id| == 16
    ensures var b := DeactivationBytes(id, fp);
            && |b| == 31 + 16 + 4 + |fp|
            && b[..30] == Ascii("raxis.breakglass.deactivate.v1") && b[30] == 0
            && b[31..47] == id && FieldAt(b, 47, fp)
  {
    hide Prefixed, FieldAt;
    var b, t := DeactivationBytes(id, fp), DEACTIVATE_TAG;
    PrefixedLength(fp);
    DeactivateTag();
    FieldInside(t + id, fp, []);
    assert Prefixed(fp) + [] == Prefixed(fp);
    assert b[..31] == t;
    assert b[..30] == b[..31][..30] && b[30] == b[..31][30];
  }

  lemma DeactivateTag()
    ensures |DEACTIVATE_TAG| == 31 && DEACTIVATE_TAG[30] == 0
    ensures DEACTIVATE_TAG[..30] == Ascii("raxis.breakglass.deactivate.v1")
  {
  }

  /** The bytes of a delegation grant: "RAXIS-V1-DELEGATION-GRANT", then session, capability and
      role, each after a NUL, a NUL, the expiry in eight bytes, least significant first, a NUL, and
      either 0, or 1, the length of the scope in four bytes, least significant first, and the
      scope. */
  lemma GrantLayout(g: Grant)
    requires g.expiry < TWO64
    ensures var b := GrantBytes(g);
            var s := 26;
            var c := s + |g.session| + 1;
            var r := c + |g.capability| + 1;
            var e := r + |g.role| + 1;
            && |b| >= e + 10
            && b[..25] == Ascii("RAXIS-V1-DELEGATION-GRANT") && b[25] == 0
            && b[s..c - 1] == g.session && b[c - 1] == 0
            && b[c..r - 1] == g.capability && b[r - 1] == 0
            && b[r..e - 1] == g.role && b[e - 1] == 0
            && Little64(b, e) == g.expiry && b[e + 8] == 0
            && (g.scope.None? ==> b[e + 9..] == [0])
            && (g.scope.Some? ==>
                  && |b| == e + 14 + |g.scope.value| && b[e + 9] == 1
                  && Little32(b, e + 10) == |g.scope.value| % 0x1_0000_0000
                  && b[e + 14..] == g.scope.value)
  {
    hide LittleEndian, ScopeBytes, Ascii, Little64, Little32, GrantBytes;
    var x, z := LittleEndian(g.expiry, 8), ScopeBytes(g.scope);
    Little8(g.expiry);
    GrantPieces(g, GRANT_TAG + [0], x, z);
    GrantTag();
    GrantNames(g.session, g.capability, g.role, x + ([0] + z));
    var p := GRANT_TAG + [0] + g.session + [0] + g.capability + [0] + g.role + [0];
    GrantTail(p, x, z);
    ScopeLayout(g.scope);
    if g.scope.Some? {
      GrantScope(p, x, z, g.scope.value);
    }
  }

  lemma GrantNames(s: Text, c: Text, r: Text, y: Bytes)
    ensures var b := GRANT_TAG + [0] + s + [0] + c + [0] + r + [0] + y;
            var i := 26 + |s| + 1;
            var k := i + |c| + 1;
            var e := k + |r| + 1;
            && |b| == e + |y| && b[..25] == GRANT_TAG && b[25] == 0
            && b[26..i - 1] == s && b[i - 1] == 0 && b[i..k - 1] == c && b[k - 1] == 0
            && b[k..e - 1] == r && b[e - 1] == 0 && b[e..] == y
  {
  }

  lemma GrantTail(p: Bytes, x: Bytes, z: Bytes)
    requires |x| == 8
    ensures var b := p + (x + ([0] + z));
            Little64(b, |p|) == Little64(x, 0) && b[|p| + 8] == 0 && b[|p| + 9..] == z
  {
    hide Little64;
    Inside64(p, x, [0] + z);
  }

  lemma GrantScope(p: Bytes, x: Bytes, z: Bytes, scope: Text)
    requires |x| == 8 && |z| == 5 + |scope| && z[0] == 1 && z[5..] == scope
    ensures var b := p + (x + ([0] + z));
            && |b| == |p| + 14 + |scope| && b[|p| + 9] == 1
            && Little32(b, |p| + 10) == Little32(z, 1) && b[|p| + 14..] == scope
  {
    var b := p + (x + ([0] + z));
    assert b[|p| + 9..] == z;
    assert forall k :: 0 <= k < |z| ==> b[|p| + 9 + k] == z[k];
  }

  lemma GrantPieces(g: Grant, t: Bytes, x: Bytes, z: Bytes)
    requires t == GRANT_TAG + [0] && x == LittleEndian(g.expiry, 8) && z == ScopeBytes(g.scope)
    ensures GrantBytes(g) == t + g.session + [0] + g.capability + [0] + g.role + [0] + (x + ([0] + z))
  {
    hide LittleEndian, ScopeBytes;
    var p3 := t + g.session + [0] + g.capability + [0] + g.role + [0];
    Assoc(p3, x, [0] + z);
    Assoc(p3 + x, [0], z);
  }

  lemma ScopeLayout(scope: Option<Text>)
    ensures var z := ScopeBytes(scope);
            && (scope.None? ==> z == [0])
            && (scope.Some? ==>
                  && |z| == 5 + |scope.value| && z[0] == 1
                  && Little32(z, 1) == |scope.value| % 0x1_0000_0000 && z[5..] == scope.value)
  {
    hide LittleEndian;
    if scope.Some? {
      var n := LittleEndian(|scope.value|, 4);
      Little4(|scope.value|);
      var z := ScopeBytes(scope);
      assert z[1..5] == n;
      assert Little32(z, 1) == Little32(n, 0);
    }
  }

  lemma GrantTag()
    ensures |GRANT_TAG| == 25 && GRANT_TAG == Ascii("RAXIS-V1-DELEGATION-GRANT")
  {
  }
}
