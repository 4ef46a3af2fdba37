/** Block-level classification of lines (raxis/scripts/linkify-md.py): a state machine with flags. */
module LinkifyBlocks {
  import opened Basics
  import opened Wrappers
  import opened Linkify

  datatype Class = Prose | SkipFrontMatter | SkipFence | SkipIndented | SkipHtmlComment | SkipHtmlBlock

  datatype Tag = Pre | Code | Script | Style
  {
    function Name(): string {
      match this
      case Pre => "pre"
      case Code => "code"
      case Script => "script"
      case Style => "style"
    }
  }

  /** Which characters are word characters; for ASCII that is fixed. */
  type WordChars = char -> bool

  ghost predicate AsciiWords(word: WordChars) {
    forall c: char :: c as int < 128 ==>
      (word(c) <==> '0' <= c <= '9' || 'A' <= c <= 'Z' || 'a' <= c <= 'z' || c == '_')
  }

  // ----- Patterns -----

  /** What the classifier searches a line for. */
  datatype Pattern = CommentOpen | CommentClose | TagOpen | TagClose(tag: Tag)

  datatype Hit = Literal | Opens(tag: Tag)

  /** The text starts with the name, in either case. */
  predicate Names(s: string, name: string) {
    |name| <= |s| && forall k :: 0 <= k < |name| ==> AsciiLower(s[k] as int) == name[k] as int
  }

  predicate OpensTag(word: WordChars, tag: Tag, s: string) {
    var n := |tag.Name()|;
    s != [] && s[0] == '<' && Names(s[1..], tag.Name()) && (n + 1 < |s| ==> !word(s[n + 1]))
  }

  predicate ClosesTag(tag: Tag, s: string) {
    && "</" <= s && Names(s[2..], tag.Name())
    && var rest := s[2 + |tag.Name()|..];
       var k := SpanLen(rest, true);
       k < |rest| && rest[k] == '>'
  }

  /** The pattern at the start of s. */
  function Match(word: WordChars, p: Pattern, s: string): Option<Hit> {
    match p
    case CommentOpen => if "<!--" <= s then Some(Literal) else None
    case CommentClose => if "-->" <= s then Some(Literal) else None
    case TagOpen =>
      if OpensTag(word, Pre, s) then Some(Opens(Pre))
      else if OpensTag(word, Code, s) then Some(Opens(Code))
      else if OpensTag(word, Script, s) then Some(Opens(Script))
      else if OpensTag(word, Style, s) then Some(Opens(Style))
      else None
    case TagClose(tag) => if ClosesTag(tag, s) then Some(Literal) else None
  }

  /** The first match in s. */
  function Find(word: WordChars, p: Pattern, s: string): Option<Hit> {
    if s == [] then None
    else if Match(word, p, s).Some? then Match(word, p, s)
    else Find(word, p, s[1..])
  }

  // ----- Where a match can end -----

  /** No match reads past such a character. */
  predicate IsBar(c: char) {
    c == TICK || c == '[' || c == ']' || c == '(' || c == ')' || c == '.'
  }

  predicate Barred(v: string) {
    v == [] || IsBar(v[0])
  }

  /** No match starts at such text, and none is changed by it at the end of a line. */
  predicate IsBreak(w: string) {
    forall k :: 0 <= k < |w| ==> w[k] == '\r' || w[k] == '\n'
  }

  lemma NamesLocal(u: string, v: string, name: string)
    requires Barred(v) || IsBreak(v)
    requires forall k :: 0 <= k < |name| ==> 'a' <= name[k] <= 'z'
    ensures Names(u + v, name) <==> Names(u, name)
  {
    var s := u + v;
    assert forall k :: 0 <= k < |u| ==> s[k] == u[k];
    assert |u| < |s| ==> s[|u|] == v[0];
  }

  lemma TagLetters(tag: Tag)
    ensures forall k :: 0 <= k < |tag.Name()| ==> 'a' <= tag.Name()[k] <= 'z'
  {
  }

  lemma OpensLocal(word: WordChars, tag: Tag, u: string, v: string)
    requires AsciiWords(word) && (Barred(v) || IsBreak(v))
    ensures OpensTag(word, tag, u + v) <==> OpensTag(word, tag, u)
  {
    hide Tag.Name;
    var s, n := u + v, |tag.Name()|;
    if u == [] {
      assert s == v;
    } else {
      assert s[0] == u[0] && s[1..] == u[1..] + v;
      TagLetters(tag);
      NamesLocal(u[1..], v, tag.Name());
      if Names(u[1..], tag.Name()) {
        hide Names;
        assert |u| >= n + 1;
        assert n + 1 < |u| ==> s[n + 1] == u[n + 1];
        assert n + 1 == |u| && v != [] ==> s[n + 1] == v[0] && !word(v[0]);
      }
    }
  }

  lemma SpaceThenAngle(x: string, v: string)
    requires Barred(v) || IsBreak(v)
    ensures var k, l := SpanLen(x + v, true), SpanLen(x, true);
            (k < |x + v| && (x + v)[k] == '>') <==> (l < |x| && x[l] == '>')
  {
    var s := x + v;
    var k, l := SpanLen(s, true), SpanLen(x, true);
    assert forall i :: 0 <= i < |x| ==> s[i] == x[i];
    assert forall i :: |x| <= i < |s| ==> s[i] == v[i - |x|];
    if l < |x| {
      assert k == l;
    } else {
      assert k >= |x|;
      assert |x| < |s| ==> s[|x|] == v[0];
    }
  }

  lemma SlashLocal(u: string, v: string)
    requires Barred(v) || IsBreak(v)
    ensures "</" <= u + v <==> "</" <= u
  {
    var s := u + v;
    assert forall k :: 0 <= k < |u| ==> s[k] == u[k];
    assert |u| < |s| ==> s[|u|] == v[0];
  }

  lemma ClosesLocal(tag: Tag, u: string, v: string)
    requires Barred(v) || IsBreak(v)
    ensures ClosesTag(tag, u + v) <==> ClosesTag(tag, u)
  {
    hide Tag.Name, SpanLen, Barred, IsBreak;
    var s, n := u + v, |tag.Name()|;
    SlashLocal(u, v);
    if "</" <= u {
      assert s[2..] == u[2..] + v;
      TagLetters(tag);
      NamesLocal(u[2..], v, tag.Name());
      if Names(u[2..], tag.Name()) {
        assert |u[2..]| >= n;
        hide Names;
        assert s[2 + n..] == u[2 + n..] + v;
        SpaceThenAngle(u[2 + n..], v);
      }
    }
  }

  lemma LiteralLocal(p: string, u: string, v: string)
    requires Barred(v) || IsBreak(v)
    requires p == "<!--" || p == "-->"
    ensures p <= u + v <==> p <= u
  {
    var s := u + v;
    assert forall k :: 0 <= k < |u| ==> s[k] == u[k];
    assert |u| < |s| ==> s[|u|] == v[0];
  }

  /** A match is decided before a bar, and before the end of the line. */
  lemma MatchLocal(word: WordChars, p: Pattern, u: string, v: string)
    requires AsciiWords(word) && (Barred(v) || IsBreak(v))
    ensures Match(word, p, u + v) == Match(word, p, u)
  {
    hide OpensTag, ClosesTag;
    match p
    case CommentOpen => LiteralLocal("<!--", u, v);
    case CommentClose => LiteralLocal("-->", u, v);
    case TagOpen =>
      OpensLocal(word, Pre, u, v);
      OpensLocal(word, Code, u, v);
      OpensLocal(word, Script, u, v);
      OpensLocal(word, Style, u, v);
    case TagClose(tag) => ClosesLocal(tag, u, v);
  }

  /** A match starts with an angle bracket or a dash, and holds an angle bracket. */
  lemma MatchAngle(word: WordChars, p: Pattern, s: string)
    requires Match(word, p, s).Some?
    ensures s != [] && (s[0] == '<' || s[0] == '-') && ('<' in s || '>' in s)
  {
    hide Names, SpanLen;
    if p.CommentClose? {
      assert s[2] == '>';
    } else {
      assert s[0] == '<';
    }
  }

  function Or<T>(a: Option<T>, b: Option<T>): Option<T> {
    if a.Some? then a else b
  }

  lemma {:induction false} FindLocal(word: WordChars, p: Pattern, u: string, v: string)
    requires AsciiWords(word) && (Barred(v) || IsBreak(v))
    ensures Find(word, p, u + v) == Or(Find(word, p, u), Find(word, p, v))
    decreases |u|
  {
    hide Match;
    if u == [] {
      assert u + v == v;
    } else {
      assert (u + v)[1..] == u[1..] + v;
      FindLocal(word, p, u[1..], v);
      MatchLocal(word, p, u, v);
    }
  }

  /** Text in which nothing can start is left out. */
  lemma {:induction false} FindSkip(word: WordChars, p: Pattern, u: string, v: string)
    requires forall k :: 0 <= k < |u| ==> u[k] != '<' && u[k] != '-'
    ensures Find(word, p, u + v) == Find(word, p, v)
    decreases |u|
  {
    hide Match;
    if u == [] {
      assert u + v == v;
    } else {
      assert (u + v)[1..] == u[1..] + v;
      FindSkip(word, p, u[1..], v);
      if Match(word, p, u + v).Some? {
        MatchAngle(word, p, u + v);
      }
    }
  }

  lemma {:induction false} FindNone(word: WordChars, p: Pattern, u: string)
    requires forall k :: 0 <= k < |u| ==> u[k] != '<' && u[k] != '>'
    ensures Find(word, p, u).None?
    decreases |u|
  {
    hide Match;
    if u == [] {
    } else {
      FindNone(word, p, u[1..]);
      if Match(word, p, u).Some? {
        MatchAngle(word, p, u);
      }
    }
  }

  lemma FindBreak(word: WordChars, p: Pattern, u: string, w: string)
    requires AsciiWords(word) && IsBreak(w)
    ensures Find(word, p, u + w) == Find(word, p, u)
  {
    FindLocal(word, p, u, w);
    FindNone(word, p, w);
  }
}
