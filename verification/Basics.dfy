/** Small notions that several components share. */
module Basics {
  const U32_MAX: nat := 0xFFFF_FFFF

  function Min(x: nat, y: nat): nat {
    if x <= y then x else y
  }

  function Max(x: nat, y: nat): nat {
    if x <= y then y else x
  }

  /** ASCII case folding of one character code or byte. */
  function AsciiLower(code: int): int {
    if 65 <= code <= 90 then code + 32 else code
  }

  predicate EqIgnoreAsciiCase(s: seq<int>, t: seq<int>) {
    |s| == |t| && forall k :: 0 <= k < |s| ==> AsciiLower(s[k]) == AsciiLower(t[k])
  }

  /** Equal up to the case of the letters A to Z. */
  lemma EqIgnoreAsciiCaseIs(s: seq<int>, t: seq<int>)
    ensures EqIgnoreAsciiCase(s, t) <==>
            |s| == |t| && forall k :: 0 <= k < |s| ==>
              s[k] == t[k] || (65 <= s[k] <= 90 && t[k] == s[k] + 32) || (65 <= t[k] <= 90 && s[k] == t[k] + 32)
  {
  }

  lemma Assoc<T>(a: seq<T>, b: seq<T>, c: seq<T>)
    ensures (a + b) + c == a + (b + c)
  {
  }

  lemma Regroup<T>(p: seq<T>, q: seq<T>, r: seq<T>, t: seq<T>, z: seq<T>)
    ensures p + (q + (r + (t + z))) == p + q + r + t + z
  {
    Assoc(r, t, z);
    Assoc(q, r, t + z);
    Assoc(p, q, r + (t + z));
    Assoc(p + q, r, t + z);
    Assoc(p + q + r, t, z);
  }
}
