/**
  The allowlist patterns of raxis/gateway/src/policy_view.rs against their documentation, which
  lets a star stand for any text.
 */
module Glob {
  import opened Dispatch

  /** The documented meaning: each star stands for any text, every other character for itself. */
  ghost predicate Documented(pattern: string, value: string)
    decreases |pattern|
  {
    if pattern == [] then value == []
    else if pattern[0] == '*' then exists k :: 0 <= k <= |value| && Documented(pattern[1..], value[k..])
    else value != [] && value[0] == pattern[0] && Documented(pattern[1..], value[1..])
  }

  function Dots(s: string): nat {
    if s == [] then 0 else (if s[0] == '.' then 1 else 0) + Dots(s[1..])
  }

  lemma {:induction false} DotsConcat(s: string, t: string)
    ensures Dots(s + t) == Dots(s) + Dots(t)
    decreases |s|
  {
    if s == [] {
      assert s + t == t;
    } else {
      assert (s + t)[1..] == s[1..] + t;
      DotsConcat(s[1..], t);
    }
  }

  /** A documented match keeps every dot of the pattern. */
  lemma {:induction false} MatchKeepsDots(pattern: string, value: string)
    requires Documented(pattern, value)
    ensures Dots(pattern) <= Dots(value)
    decreases |pattern|
  {
    if pattern == [] {
      assert Dots(pattern) == 0;
    } else if pattern[0] == '*' {
      var k :| 0 <= k <= |value| && Documented(pattern[1..], value[k..]);
      MatchKeepsDots(pattern[1..], value[k..]);
      DotsConcat(value[..k], value[k..]);
      assert value == value[..k] + value[k..];
    } else {
      MatchKeepsDots(pattern[1..], value[1..]);
    }
  }

  /** A pattern without stars matches itself only. */
  lemma {:induction false} StarFreeIsLiteral(pattern: string, value: string)
    requires '*' !in pattern
    ensures Documented(pattern, value) <==> pattern == value
    decreases |pattern|
  {
    if pattern == [] {
      assert Documented(pattern, value) <==> value == [];
    } else if value == [] {
      assert pattern[0] in pattern;
    } else {
      assert pattern[0] in pattern;
      StarFreeIsLiteral(pattern[1..], value[1..]);
      assert pattern == [pattern[0]] + pattern[1..] && value == [value[0]] + value[1..];
    }
  }

  function WithoutStars(pattern: string): string {
    if pattern == [] then []
    else if pattern[0] == '*' then WithoutStars(pattern[1..])
    else [pattern[0]] + WithoutStars(pattern[1..])
  }

  /** Every star may stand for nothing. */
  lemma {:induction false} EmptyStars(pattern: string)
    ensures Documented(pattern, WithoutStars(pattern))
    ensures '*' !in WithoutStars(pattern)
  {
    if pattern == [] {
      assert WithoutStars(pattern) == [];
    } else {
      EmptyStars(pattern[1..]);
      var rest := WithoutStars(pattern[1..]);
      if pattern[0] == '*' {
        assert rest[0..] == rest;
      } else {
        assert ([pattern[0]] + rest)[1..] == rest;
      }
    }
  }

  lemma StarMatchesAll(value: string)
    ensures Documented("*", value)
  {
    assert value[|value|..] == [] && "*"[1..] == [];
    assert Documented("*"[1..], value[|value|..]);
  }

  /** A value on which the code and its documentation differ. */
  function Witness(pattern: string): string {
    if "*." <= pattern then pattern[2..]
    else if EndsWith(pattern, ".*") then pattern[..|pattern| - 2]
    else WithoutStars(pattern)
  }

  lemma WitnessDiffers(pattern: string)
    requires '*' in pattern && pattern != "*"
    ensures GlobMatch(pattern, Witness(pattern)) != Documented(pattern, Witness(pattern))
  {
    hide Documented;
    var v := Witness(pattern);
    if "*." <= pattern {
      assert pattern == "*." + v && "*."[1..] == ".";
      DotsConcat("*.", v);
      assert Dots("*.") == 1;
      if Documented(pattern, v) {
        MatchKeepsDots(pattern, v);
      }
    } else if EndsWith(pattern, ".*") {
      assert pattern == v + ".*" && ".*"[1..] == "*";
      DotsConcat(v, ".*");
      assert Dots(".*") == 1;
      if Documented(pattern, v) {
        MatchKeepsDots(pattern, v);
      }
    } else {
      EmptyStars(pattern);
    }
  }

  lemma FormsHaveStars(pattern: string)
    ensures "*." <= pattern || EndsWith(pattern, ".*") ==> '*' in pattern
  {
    if "*." <= pattern {
      assert pattern[0] == '*';
    } else if EndsWith(pattern, ".*") {
      assert pattern[|pattern| - 2..][1] == '*';
    }
  }

  /** The code means what its documentation says exactly for the single star and for patterns
      without a star. */
  lemma DocumentedIff(pattern: string)
    ensures (forall value :: GlobMatch(pattern, value) <==> Documented(pattern, value)) <==>
            '*' !in pattern || pattern == "*"
  {
    hide Documented;
    if pattern == "*" {
      forall value ensures Documented(pattern, value) {
        StarMatchesAll(value);
      }
    } else if '*' in pattern {
      WitnessDiffers(pattern);
    } else {
      forall value ensures GlobMatch(pattern, value) <==> Documented(pattern, value) {
        FormsHaveStars(pattern);
        StarFreeIsLiteral(pattern, value);
      }
    }
  }

  /** The bare domain passes its subdomain pattern, and an inner star is a literal. */
  lemma DocumentedFails()
    ensures GlobMatch("*.d", "d") && !Documented("*.d", "d")
    ensures !GlobMatch("a*b", "ab") && Documented("a*b", "ab")
  {
    hide Documented;
    var p, q := "*.d", "a*b";
    assert p[2..] == "d" && "*." <= p;
    WitnessDiffers(p);
    assert q[1] == '*' && !EndsWith(q, ".*");
    assert "b"[1..] == "" && WithoutStars("b") == "b";
    assert "*b"[1..] == "b" && WithoutStars("*b") == "b";
    assert q[1..] == "*b" && WithoutStars(q) == "a" + "b" == "ab";
    EmptyStars(q);
  }
}
