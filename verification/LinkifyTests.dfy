/** What the tests of the block classifier accept, in plain text. */
module LinkifyTests {
  import opened Basics
  import opened Wrappers
  import opened Linkify
  import opened LinkifyBlocks
  import opened LinkifyClassify

  function Times(c: char, n: nat): string {
    seq(n, _ => c)
  }

  // ----- Fences -----

  /** At most three blanks and a run of n of the character, which goes on no further. */
  ghost predicate FenceText(line: string, c: char, n: nat, w: string, rest: string) {
    && line == w + (Times(c, n) + rest)
    && |w| <= 3 && IsBlank(w) && (rest == "" || rest[0] != c)
  }

  lemma FenceSplit(line: string, c: char) returns (w: string, n: nat, rest: string)
    ensures line == w + (Times(c, n) + rest) && IsBlank(w) && |w| == SpanLen(line, true)
    ensures (rest == "" || rest[0] != c) && n == RunOf(line[|w|..], c) && line[|w| + n..] == rest
  {
    hide SpanLen, RunOf, IsSpace;
    var k := SpanLen(line, true);
    var x := line[k..];
    n := RunOf(x, c);
    w, rest := line[..k], x[n..];
    assert x[..n] == Times(c, n);
    assert x == Times(c, n) + rest && line == w + x;
  }

  lemma FenceJoin(line: string, c: char, n: nat, w: string, rest: string)
    requires FenceText(line, c, n, w, rest) && !IsSpace(c) && n > 0
    ensures SpanLen(line, true) == |w| && RunOf(line[|w|..], c) == n && line[|w| + n..] == rest && line[|w|] == c
  {
    hide SpanLen, RunOf, IsSpace;
    var x := Times(c, n) + rest;
    assert line == w + x && line[|w|..] == x && x[0] == c;
    assert forall k :: 0 <= k < |w| ==> line[k] == w[k];
    assert line[|w|] == c;
    assert forall k :: 0 <= k < n ==> x[k] == c;
    assert n < |x| ==> x[n] == rest[0];
    assert x[n..] == rest;
  }

  lemma FenceChars()
    ensures !IsSpace(TICK) && !IsSpace('~')
  {
  }

  /** A line opens a fence of n characters c exactly when it reads so: n at least three, c a backtick
      or a tilde. */
  lemma FenceOpenIff(line: string, c: char, n: nat)
    ensures FenceOpen(line) == Some(Marker(c, n)) <==>
            n >= 3 && (c == '`' || c == '~') && exists w, rest :: FenceText(line, c, n, w, rest)
  {
    hide SpanLen, RunOf, IsSpace, IsBlank;
    FenceChars();
    if FenceOpen(line) == Some(Marker(c, n)) {
      var w, m, rest := FenceSplit(line, c);
      assert FenceText(line, c, n, w, rest);
    }
    if n >= 3 && (c == '`' || c == '~') {
      if w, rest :| FenceText(line, c, n, w, rest) {
        FenceJoin(line, c, n, w, rest);
        assert line[|w|..] == Times(c, n) + rest;
      }
    }
  }

  /** A line closes the fence exactly when it is at most three blanks, at least as many of the fence
      character, and blanks. */
  lemma FenceCloseIff(line: string, m: Marker)
    requires (m.c == '`' || m.c == '~') && m.len > 0
    ensures FenceClose(line, m) <==>
            exists n, w, rest :: n >= m.len && FenceText(line, m.c, n, w, rest) && IsBlank(rest)
  {
    hide SpanLen, RunOf, IsSpace, IsBlank, Times;
    FenceChars();
    if FenceClose(line, m) {
      var w, n, rest := FenceSplit(line, m.c);
      assert FenceText(line, m.c, n, w, rest);
    }
    if n, w, rest :| n >= m.len && FenceText(line, m.c, n, w, rest) && IsBlank(rest) {
      FenceJoin(line, m.c, n, w, rest);
    }
  }

  // ----- Searches -----

  /** The first place where the pattern matches, if any. */
  lemma {:induction false} FindIsFirst(word: WordChars, p: Pattern, s: string)
    ensures Find(word, p, s).None? ==> forall k :: 0 <= k < |s| ==> Match(word, p, s[k..]).None?
    ensures Find(word, p, s).Some? ==>
              exists k :: 0 <= k < |s| && Match(word, p, s[k..]) == Find(word, p, s)
                          && forall l :: 0 <= l < k ==> Match(word, p, s[l..]).None?
    decreases |s|
  {
    hide Match;
    if s == [] {
    } else {
      assert s[0..] == s;
      FindIsFirst(word, p, s[1..]);
      assert forall k :: 0 < k < |s| ==> s[k..] == s[1..][k - 1..];
      if Match(word, p, s).None? && Find(word, p, s).Some? {
        var k :| 0 <= k < |s[1..]| && Match(word, p, s[1..][k..]) == Find(word, p, s[1..])
                 && forall l :: 0 <= l < k ==> Match(word, p, s[1..][l..]).None?;
        assert s[k + 1..] == s[1..][k..];
        forall l | 0 <= l < k + 1 ensures Match(word, p, s[l..]).None? {
          assert l > 0 ==> s[l..] == s[1..][l - 1..];
        }
      }
    }
  }

  /** The letters of the name, in either case. */
  ghost predicate Spelled(s: string, name: string) {
    |s| == |name| && forall k :: 0 <= k < |s| ==> s[k] == name[k] || s[k] as int + 32 == name[k] as int
  }

  lemma NamesIs(s: string, name: string)
    requires forall k :: 0 <= k < |name| ==> 'a' <= name[k] <= 'z'
    ensures Names(s, name) <==> |name| <= |s| && Spelled(s[..|name|], name)
  {
  }

  /** "<", one of the four names, and no word character behind it. */
  lemma TagOpenIff(word: WordChars, s: string, t: Tag)
    ensures Match(word, TagOpen, s) == Some(Opens(t)) <==>
            var name := match t case Pre => "pre" case Code => "code" case Script => "script" case Style => "style";
            var n := |name| + 1;
            n <= |s| && s[0] == '<' && Spelled(s[1..n], name) && (n < |s| ==> !word(s[n]))
  {
    hide Names, Spelled;
    OpensIs(word, s, Pre);
    OpensIs(word, s, Code);
    OpensIs(word, s, Script);
    OpensIs(word, s, Style);
    if OpensTag(word, t, s) {
      OneTag(word, s, t);
    }
  }

  lemma OpensIs(word: WordChars, s: string, t: Tag)
    ensures var n := |t.Name()| + 1;
            OpensTag(word, t, s) <==> n <= |s| && s[0] == '<' && Spelled(s[1..n], t.Name()) && (n < |s| ==> !word(s[n]))
  {
    hide Names, Spelled, Tag.Name;
    TagLetters(t);
    var n := |t.Name()|;
    if s != [] {
      NamesIs(s[1..], t.Name());
      if n + 1 <= |s| {
        assert s[1..][..n] == s[1..n + 1];
      }
    }
  }

  lemma OneTag(word: WordChars, s: string, t: Tag)
    requires OpensTag(word, t, s)
    ensures forall u: Tag :: OpensTag(word, u, s) ==> u == t
  {
    var x := s[1..];
    forall u: Tag | OpensTag(word, u, s) ensures u == t {
      assert AsciiLower(x[0] as int) == t.Name()[0] as int == u.Name()[0] as int;
      assert AsciiLower(x[1] as int) == t.Name()[1] as int == u.Name()[1] as int;
    }
  }

  ghost predicate CloseText(s: string, t: Tag, name: string, w: string, rest: string) {
    s == "</" + (name + (w + (">" + rest))) && Spelled(name, t.Name()) && IsBlank(w)
  }

  /** "</", the name, blanks and ">". */
  lemma TagCloseIff(word: WordChars, s: string, t: Tag)
    ensures Match(word, TagClose(t), s).Some? <==> exists name, w, rest :: CloseText(s, t, name, w, rest)
  {
    hide ClosesTag, CloseText;
    if ClosesTag(t, s) {
      var name, w, rest := CloseSplit(s, t);
    }
    if name, w, rest :| CloseText(s, t, name, w, rest) {
      CloseJoin(s, t, name, w, rest);
    }
  }

  lemma CloseSplit(s: string, t: Tag) returns (name: string, w: string, rest: string)
    requires ClosesTag(t, s)
    ensures CloseText(s, t, name, w, rest)
  {
    hide Names, Spelled, Tag.Name, IsSpace, SpanLen;
    TagLetters(t);
    var n := |t.Name()|;
    NamesFit(s[2..], t.Name());
    NamesIs(s[2..], t.Name());
    var x := s[2 + n..];
    name := s[2..2 + n];
    assert s[2..][..n] == name;
    w, rest := BlanksThenAngle(x);
    SlashNameRest(s, n);
  }

  lemma BlanksThenAngle(x: string) returns (w: string, rest: string)
    requires SpanLen(x, true) < |x| && x[SpanLen(x, true)] == '>'
    ensures x == w + (">" + rest) && IsBlank(w)
  {
    hide SpanLen, IsSpace;
    var k := SpanLen(x, true);
    w, rest := x[..k], x[k + 1..];
  }

  lemma SlashNameRest(s: string, n: nat)
    requires "</" <= s && 2 + n <= |s|
    ensures s == "</" + (s[2..2 + n] + s[2 + n..])
  {
  }

  lemma CloseJoin(s: string, t: Tag, name: string, w: string, rest: string)
    requires CloseText(s, t, name, w, rest)
    ensures ClosesTag(t, s)
  {
    hide Names, Spelled, Tag.Name, IsSpace, SpanLen, IsBlank;
    TagLetters(t);
    var n := |t.Name()|;
    SpelledFits(name, t.Name());
    var x := w + (">" + rest);
    AngleAfterBlanks(w, rest);
    assert x[|w|] == '>';
    AfterSlash(s, name, x);
    NamesIs(s[2..], t.Name());
  }

  lemma AfterSlash(s: string, name: string, x: string)
    requires s == "</" + (name + x)
    ensures "</" <= s && s[2..] == name + x && s[2..][..|name|] == name && s[2 + |name|..] == x
  {
  }

  lemma NamesFit(s: string, name: string)
    requires Names(s, name)
    ensures |name| <= |s|
  {
  }

  lemma SpelledFits(s: string, name: string)
    requires Spelled(s, name)
    ensures |s| == |name|
  {
  }

  lemma AngleAfterBlanks(w: string, rest: string)
    requires IsBlank(w)
    ensures SpanLen(w + (">" + rest), true) == |w|
  {
    hide SpanLen;
    var s := w + (">" + rest);
    assert s[|w|] == '>' && !IsSpace('>');
    hide IsSpace;
    assert forall k :: 0 <= k < |w| ==> s[k] == w[k];
  }

  /** The markers of a comment. */
  lemma CommentMarkers(word: WordChars, s: string)
    ensures Match(word, CommentOpen, s).Some? <==> exists rest :: s == "<!--" + rest
    ensures Match(word, CommentClose, s).Some? <==> exists rest :: s == "-->" + rest
  {
    if "<!--" <= s {
      assert s == "<!--" + s[4..];
    }
    if "-->" <= s {
      assert s == "-->" + s[3..];
    }
  }

  /** A line is trimmed of its newlines and then of its carriage returns, and of nothing else. */
  lemma TrimmedLine(raw: string) returns (r: string, n: string)
    ensures raw == Line(raw) + (r + n)
    ensures (forall k :: 0 <= k < |n| ==> n[k] == '\n') && forall k :: 0 <= k < |r| ==> r[k] == '\r'
    ensures var l := Line(raw);
            (l != "" ==> l[|l| - 1] != '\r') && (l + r != "" ==> (l + r)[|l + r| - 1] != '\n')
  {
    hide StripEnd;
    n := TrimmedEnd(raw, '\n');
    r := TrimmedEnd(StripEnd(raw, '\n'), '\r');
    Assoc(Line(raw), r, n);
  }

  lemma {:induction false} TrimmedEnd(s: string, c: char) returns (w: string)
    ensures s == StripEnd(s, c) + w && forall k :: 0 <= k < |w| ==> w[k] == c
    ensures var l := StripEnd(s, c);
            l != "" ==> l[|l| - 1] != c
    decreases |s|
  {
    if s == [] || s[|s| - 1] != c {
      w := "";
    } else {
      var x := TrimmedEnd(s[..|s| - 1], c);
      w := x + [c];
      assert s == s[..|s| - 1] + [c];
    }
  }

  /** Four spaces or a tab. */
  lemma IndentedIff(raw: string)
    ensures IsIndented(raw) <==> (exists rest :: raw == "    " + rest) || exists rest :: raw == "\t" + rest
  {
    if "    " <= raw {
      assert raw == "    " + raw[4..];
    }
    if "\t" <= raw {
      assert raw == "\t" + raw[1..];
    }
  }
}
