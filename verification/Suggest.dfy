/**
  "Did you mean" suggestions (raxis/cli/src/closeness.rs).

  The reference is a strict total order on catalogue indices: strict prefix extensions in
  catalogue order, then the others within the threshold by distance and index.
 */
module Suggest {
  import opened Basics
  import opened EditDistance

  const MAX_SUGGESTIONS: nat := 5

  /** The threshold is looked up by the length in bytes, the distance counts characters. */
  function ByteLen(s: string): nat {
    if s == [] then 0 else
      (if s[0] as int < 0x80 then 1 else if s[0] as int < 0x800 then 2 else if s[0] as int < 0x10000 then 3 else 4)
      + ByteLen(s[1..])
  }

  function MaxDistance(len: nat): nat {
    if len <= 1 then 0 else if len <= 3 then 1 else if len == 4 then 2 else 3
  }

  function Distance(a: string, b: string): nat {
    Osa(a, b, |a|, |b|)
  }

  // ----- The ideal ranking -----

  predicate StrictExtension(input: string, c: string) {
    input <= c && c != input
  }

  predicate Near(input: string, c: string) {
    !(input <= c) && Distance(input, c) <= MaxDistance(ByteLen(input))
  }

  predicate Eligible(input: string, cands: seq<string>, i: nat) {
    i < |cands| && (StrictExtension(input, cands[i]) || Near(input, cands[i]))
  }

  /** i ranks strictly before j. */
  predicate Before(input: string, cands: seq<string>, i: nat, j: nat)
    requires i < |cands| && j < |cands|
  {
    if input <= cands[i] && input <= cands[j] then i < j
    else if input <= cands[i] then true
    else if input <= cands[j] then false
    else
      var di, dj := Distance(input, cands[i]), Distance(input, cands[j]);
      di < dj || (di == dj && i < j)
  }

  ghost predicate Ordered(input: string, cands: seq<string>, idx: seq<nat>) {
    && (forall k :: 0 <= k < |idx| ==> idx[k] < |cands|)
    && (forall k, l :: 0 <= k < l < |idx| ==> Before(input, cands, idx[k], idx[l]))
  }

  /** Every eligible index and no other, in rank order. */
  ghost predicate IsRanking(input: string, cands: seq<string>, idx: seq<nat>) {
    && Ordered(input, cands, idx)
    && (forall i: nat :: i in idx <==> Eligible(input, cands, i))
  }

  /** The first five of the ranking: nothing eligible is missing from a short list, and
      whatever is left out ranks after everything returned. */
  ghost predicate IsSuggestion(input: string, cands: seq<string>, idx: seq<nat>) {
    && |idx| <= MAX_SUGGESTIONS
    && Ordered(input, cands, idx)
    && (forall k :: 0 <= k < |idx| ==> Eligible(input, cands, idx[k]))
    && (forall i: nat :: Eligible(input, cands, i) && i !in idx ==>
          |idx| == MAX_SUGGESTIONS && forall k :: 0 <= k < |idx| ==> Before(input, cands, idx[k], i))
  }

  function Pick(cands: seq<string>, idx: seq<nat>): seq<string>
    requires forall k :: 0 <= k < |idx| ==> idx[k] < |cands|
  {
    seq(|idx|, k requires 0 <= k < |idx| => cands[idx[k]])
  }

  lemma TruncatedRanking(input: string, cands: seq<string>, all: seq<nat>, n: nat)
    requires IsRanking(input, cands, all)
    requires n == Min(|all|, MAX_SUGGESTIONS)
    ensures IsSuggestion(input, cands, all[..n])
  {
    hide Before, Eligible;
    var idx := all[..n];
    forall k | 0 <= k < |idx| ensures Eligible(input, cands, idx[k]) {
      assert idx[k] == all[k] && all[k] in all;
    }
    assert forall m :: 0 <= m < n ==> all[m] in idx by { assert forall m :: 0 <= m < n ==> all[m] == idx[m]; }
    forall i: nat | Eligible(input, cands, i) && i !in idx
      ensures |idx| == MAX_SUGGESTIONS && forall k :: 0 <= k < |idx| ==> Before(input, cands, idx[k], i)
    {
      assert i in all;
      var m :| 0 <= m < |all| && all[m] == i;
    }
  }

  lemma BeforeIsStrict(input: string, cands: seq<string>, i: nat, j: nat)
    requires i < |cands| && j < |cands|
    ensures Before(input, cands, i, j) ==> !Before(input, cands, j, i) && i != j
    ensures i != j ==> Before(input, cands, i, j) || Before(input, cands, j, i)
  {
  }

  /** The suggestion list is determined by the input and the catalogue. */
  lemma SuggestionIsUnique(input: string, cands: seq<string>, x: seq<nat>, y: seq<nat>)
    requires IsSuggestion(input, cands, x) && IsSuggestion(input, cands, y)
    ensures x == y
  {
    hide IsSuggestion;
    var n := Min(|x|, |y|);
    SuggestionPrefix(input, cands, x, y, n);
    NotLonger(input, cands, x, y, n);
    NotLonger(input, cands, y, x, n);
    assert x[..n] == x && y[..n] == y;
  }

  lemma NotLonger(input: string, cands: seq<string>, x: seq<nat>, y: seq<nat>, n: nat)
    requires IsSuggestion(input, cands, x) && IsSuggestion(input, cands, y)
    requires n <= |x| && n <= |y| && x[..n] == y[..n]
    ensures |x| == n ==> |y| == n
  {
    hide Before, Eligible;
    assert |x| == n ==> x[..n] == x;
    if n < |y| {
      forall k | 0 <= k < n ensures x[k] != y[n] {
        assert x[k] == x[..n][k] == y[..n][k] == y[k];
        BeforeIsStrict(input, cands, y[k], y[n]);
      }
      assert y[n] !in x[..n];
    }
  }

  lemma {:induction false} SuggestionPrefix(input: string, cands: seq<string>, x: seq<nat>, y: seq<nat>, n: nat)
    requires IsSuggestion(input, cands, x) && IsSuggestion(input, cands, y)
    requires n <= |x| && n <= |y|
    ensures x[..n] == y[..n]
  {
    hide Before, Eligible;
    if n == 0 {
    } else {
      var k := n - 1;
      SuggestionPrefix(input, cands, x, y, k);
      BeforeIsStrict(input, cands, x[k], y[k]);
      NoEarlierRank(input, cands, x, y, k);
      NoEarlierRank(input, cands, y, x, k);
      assert x[..n] == x[..k] + [x[k]] && y[..n] == y[..k] + [y[k]];
    }
  }

  lemma NoEarlierRank(input: string, cands: seq<string>, x: seq<nat>, y: seq<nat>, k: nat)
    requires IsSuggestion(input, cands, x) && IsSuggestion(input, cands, y)
    requires k < |x| && k < |y| && x[..k] == y[..k]
    ensures !Before(input, cands, x[k], y[k])
  {
    hide Before, Eligible;
    BeforeIsStrict(input, cands, x[k], y[k]);
    forall l | 0 <= l < k ensures y[l] != x[k] {
      assert x[l] == x[..k][l] == y[..k][l] == y[l];
      BeforeIsStrict(input, cands, x[l], x[k]);
    }
    if x[k] in y {
      var l :| 0 <= l < |y| && y[l] == x[k];
      assert l >= k;
    }
  }

  /** The command the operator typed is never suggested back. */
  lemma NeverTheInput(input: string, cands: seq<string>, idx: seq<nat>)
    requires IsSuggestion(input, cands, idx)
    ensures input !in Pick(cands, idx)
  {
    var r := Pick(cands, idx);
    forall k | 0 <= k < |r| ensures r[k] != input {
      assert Eligible(input, cands, idx[k]);
      assert input <= input;
    }
  }

  // ----- The two passes -----

  ghost predicate KeyLess(p: (nat, nat), q: (nat, nat)) {
    p.0 < q.0 || (p.0 == q.0 && p.1 < q.1)
  }

  ghost predicate SortedByKey(s: seq<(nat, nat)>) {
    forall k, l :: 0 <= k < l < |s| ==> KeyLess(s[k], s[l])
  }

  /** sort_by_key on (distance, index), by insertion; the indices are distinct. */
  method SortByKey(s: seq<(nat, nat)>) returns (t: seq<(nat, nat)>)
    requires forall k, l :: 0 <= k < l < |s| ==> s[k].1 != s[l].1
    ensures SortedByKey(t)
    ensures forall p :: p in t <==> p in s
  {
    t := [];
    for n := 0 to |s|
      invariant SortedByKey(t)
      invariant forall p :: p in t <==> p in s[..n]
    {
      assert s[..n + 1] == s[..n] + [s[n]];
      assert forall p :: p in s[..n] ==> p.1 != s[n].1;
      t := InsertByKey(s[n], t);
    }
    assert s[..|s|] == s;
  }

  method InsertByKey(x: (nat, nat), s: seq<(nat, nat)>) returns (t: seq<(nat, nat)>)
    requires SortedByKey(s) && forall p :: p in s ==> p.1 != x.1
    ensures SortedByKey(t)
    ensures forall p :: p in t <==> p == x || p in s
  {
    var k := 0;
    while k < |s| && (s[k].0 < x.0 || (s[k].0 == x.0 && s[k].1 < x.1))
      invariant k <= |s|
      invariant forall l :: 0 <= l < k ==> KeyLess(s[l], x)
    {
      k := k + 1;
    }
    assert k < |s| ==> s[k] in s && KeyLess(x, s[k]);
    t := s[..k] + [x] + s[k..];
    assert forall p :: p in s ==> p in s[..k] || p in s[k..];
  }

  /** Pass 1: strict prefix extensions in catalogue order. */
  method PrefixPass(input: string, cands: seq<string>) returns (p: seq<nat>)
    ensures forall i: nat :: i in p <==> i < |cands| && StrictExtension(input, cands[i])
    ensures forall k, l :: 0 <= k < l < |p| ==> p[k] < p[l]
  {
    p := [];
    for i := 0 to |cands|
      invariant forall j: nat :: j in p <==> j < i && StrictExtension(input, cands[j])
      invariant forall k :: 0 <= k < |p| ==> p[k] < i
      invariant forall k, l :: 0 <= k < l < |p| ==> p[k] < p[l]
    {
      if input <= cands[i] && cands[i] != input {
        p := p + [i];
      }
    }
  }

  /** Pass 2: the candidates within the threshold, with their distance, unsorted. */
  method DistancePass(input: string, cands: seq<string>) returns (s: seq<(nat, nat)>)
    ensures forall k :: 0 <= k < |s| ==>
              s[k].1 < |cands| && Near(input, cands[s[k].1]) && s[k].0 == Distance(input, cands[s[k].1])
    ensures forall i :: 0 <= i < |cands| && Near(input, cands[i]) ==> (Distance(input, cands[i]), i) in s
    ensures forall k, l :: 0 <= k < l < |s| ==> s[k].1 != s[l].1
  {
    hide Osa, IsDistance;
    var threshold := MaxDistance(ByteLen(input));
    s := [];
    for i := 0 to |cands|
      invariant forall k :: 0 <= k < |s| ==>
                  s[k].1 < i && Near(input, cands[s[k].1]) && s[k].0 == Distance(input, cands[s[k].1])
      invariant forall j :: 0 <= j < i && Near(input, cands[j]) ==> (Distance(input, cands[j]), j) in s
      invariant forall k, l :: 0 <= k < l < |s| ==> s[k].1 != s[l].1
    {
      if !(input <= cands[i]) {
        var d := DamerauLevenshtein(input, cands[i]);
        if d <= threshold {
          s := s + [(d, i)];
        }
      }
    }
  }

  /** Prefixes first, then the sorted distance matches, is the ranking. */
  lemma PassesGiveRanking(input: string, cands: seq<string>, p: seq<nat>, t: seq<(nat, nat)>, q: seq<nat>)
    requires forall i: nat :: i in p <==> i < |cands| && StrictExtension(input, cands[i])
    requires forall k, l :: 0 <= k < l < |p| ==> p[k] < p[l]
    requires SortedByKey(t)
    requires forall k :: 0 <= k < |t| ==>
               t[k].1 < |cands| && Near(input, cands[t[k].1]) && t[k].0 == Distance(input, cands[t[k].1])
    requires forall i :: 0 <= i < |cands| && Near(input, cands[i]) ==> (Distance(input, cands[i]), i) in t
    requires |q| == |t| && forall k :: 0 <= k < |t| ==> q[k] == t[k].1
    ensures IsRanking(input, cands, p + q)
  {
    hide Distance;
    var all := p + q;
    forall k | 0 <= k < |p| ensures p[k] < |cands| && StrictExtension(input, cands[p[k]]) {
      assert p[k] in p;
    }
    forall k, l | 0 <= k < l < |all|
      ensures all[k] < |cands| && all[l] < |cands| && Before(input, cands, all[k], all[l])
    {
      if |p| <= k {
        assert KeyLess(t[k - |p|], t[l - |p|]);
      }
    }
    forall i: nat ensures i in all <==> Eligible(input, cands, i) {
      if i in q {
        var k :| 0 <= k < |q| && q[k] == i;
        assert Near(input, cands[t[k].1]);
      }
      if i < |cands| && Near(input, cands[i]) {
        var k :| 0 <= k < |t| && t[k] == (Distance(input, cands[i]), i);
        assert q[k] == i;
      }
    }
  }

  /** did_you_mean. */
  method DidYouMean(input: string, cands: seq<string>) returns (r: seq<string>, ghost idx: seq<nat>)
    ensures input == "" ==> r == []
    ensures input != "" ==> IsSuggestion(input, cands, idx) && r == Pick(cands, idx)
  {
    hide Before, Eligible, Near, StrictExtension, Distance;
    if input == "" || cands == [] {
      idx := [];
      assert forall i: nat :: !Eligible(input, [], i) by { hide *; EmptyCatalogue(input); }
      return [], idx;
    }
    var p := PrefixPass(input, cands);
    var s := DistancePass(input, cands);
    var t := SortByKey(s);
    var q := seq(|t|, k requires 0 <= k < |t| => t[k].1);
    forall k | 0 <= k < |t|
      ensures t[k].1 < |cands| && Near(input, cands[t[k].1]) && t[k].0 == Distance(input, cands[t[k].1])
    {
      assert t[k] in s;
    }
    PassesGiveRanking(input, cands, p, t, q);
    var all := p + q;
    var n := Min(|all|, MAX_SUGGESTIONS);
    TruncatedRanking(input, cands, all, n);
    idx := all[..n];
    r := Pick(cands, all[..n]);
  }

  lemma EmptyCatalogue(input: string)
    ensures forall i: nat :: !Eligible(input, [], i)
  {
  }

  // ----- In plain numbers -----

  /** The input's length in UTF-8 decides how far a suggestion may be: no edit up to one byte, one up
      to three, two for four, three beyond. */
  lemma Thresholds(input: string, c: string)
    ensures var n := ByteLen(input);
            Near(input, c) <==>
            && !(exists rest :: c == input + rest)
            && ((n <= 1 && IsDistance(input, c, 0)) || (2 <= n <= 3 && Distance(input, c) <= 1)
                || (n == 4 && Distance(input, c) <= 2) || (n >= 5 && Distance(input, c) <= 3))
  {
    hide ByteLen, Osa, IsDistance;
    OsaIsDistance(input, c);
    if IsDistance(input, c, 0) {
      DistanceIsUnique(input, c, 0, Distance(input, c));
    }
    if input <= c {
      assert c == input + c[|input|..];
    }
  }

  /** UTF-8 lengths add up, one to four bytes for each character. */
  lemma {:induction false} ByteLenIs(s: string, c: char, t: string)
    ensures ByteLen(s + [c] + t) == ByteLen(s) + ByteLen(t) +
            var n := c as int;
            if n <= 0x7F then 1 else if n <= 0x7FF then 2 else if n <= 0xFFFF then 3 else 4
    ensures ByteLen("") == 0
    decreases |s|
  {
    if s == [] {
      assert s + [c] + t == [c] + t && ([c] + t)[1..] == t;
    } else {
      assert (s + [c] + t)[1..] == s[1..] + [c] + t;
      ByteLenIs(s[1..], c, t);
    }
  }

  /** What a returned list is: at most five, extensions of the input first, in catalogue order, then
      the others by distance, ties in catalogue order; and with fewer than five nothing is left out. */
  lemma SuggestionMeaning(input: string, cands: seq<string>, idx: seq<nat>)
    requires IsSuggestion(input, cands, idx)
    ensures |idx| <= 5 && forall k :: 0 <= k < |idx| ==>
              idx[k] < |cands| && cands[idx[k]] != input && (input <= cands[idx[k]] || Near(input, cands[idx[k]]))
    ensures forall k, l :: 0 <= k < l < |idx| ==>
              var a, b := cands[idx[k]], cands[idx[l]];
              && (input <= b ==> input <= a && idx[k] < idx[l])
              && (!(input <= a) && !(input <= b) ==>
                    Distance(input, a) < Distance(input, b)
                    || (Distance(input, a) == Distance(input, b) && idx[k] < idx[l]))
    ensures |idx| < 5 ==>
              forall i: nat :: i < |cands| && (StrictExtension(input, cands[i]) || Near(input, cands[i])) ==> i in idx
  {
    hide Osa, ByteLen;
  }
}
