/** Which spans are references, and what becomes of a span (raxis/scripts/linkify-md.py). */
module LinkifyReference {
  import opened Basics
  import opened Wrappers
  import opened Linkify
  import opened LinkifyIdempotence

  // ----- References -----

  /** A non-empty stem and ".md", without whitespace and without any of the nine characters. */
  predicate IsPath(f: string) {
    && |f| >= 4 && f[|f| - 3] == '.' && f[|f| - 2] == 'm' && f[|f| - 1] == 'd'
    && forall k :: 0 <= k < |f| ==>
         && !IsSpace(f[k]) && f[k] != '`' && f[k] != '<' && f[k] != '>' && f[k] != '(' && f[k] != ')'
         && f[k] != '{' && f[k] != '}' && f[k] != '[' && f[k] != ']'
  }

  predicate IsBlanks(w: string) {
    w != "" && forall k :: 0 <= k < |w| ==> IsSpace(w[k])
  }

  lemma PathIsName(f: string)
    requires forall k :: 0 <= k < |f| ==> !IsSpace(f[k])
    ensures IsFileName(f) <==> IsPath(f)
  {
    hide IsSpace;
    if |f| > 3 {
      var e := f[|f| - 3..];
      assert e[0] == f[|f| - 3] && e[1] == f[|f| - 2] && e[2] == f[|f| - 1];
    }
    assert forall k :: 0 <= k < |f| ==> f[k] in f;
  }

  lemma NameLength(f: string, rest: string)
    requires (forall k :: 0 <= k < |f| ==> !IsSpace(f[k])) && (rest == "" || IsSpace(rest[0]))
    ensures SpanLen(f + rest, false) == |f|
  {
    hide SpanLen, IsSpace;
    var s := f + rest;
    assert forall k :: 0 <= k < |f| ==> s[k] == f[k];
    assert rest != "" ==> s[|f|] == rest[0];
  }

  lemma BlankLength(w: string, rest: string)
    requires IsBlanks(w) && (rest == "" || !IsSpace(rest[0]))
    ensures SpanLen(w + rest, true) == |w|
  {
    hide SpanLen, IsSpace;
    var s := w + rest;
    assert forall k :: 0 <= k < |w| ==> s[k] == w[k];
    assert rest != "" ==> s[|w|] == rest[0];
  }

  lemma SignIsNoSpace()
    ensures !IsSpace('§') && IsSpace('\n')
  {
  }

  /** A path alone is a reference. */
  lemma RecognisesFile(f: string)
    requires IsPath(f)
    ensures ParseRef(f) == Some(Ref(f, "")) && ParseRef(f + "\n") == Some(Ref(f, ""))
  {
    hide SpanLen, IsSpace, IsFileName;
    PathIsName(f);
    SignIsNoSpace();
    NameLength(f, "");
    NameLength(f, "\n");
    assert f + "" == f && f[..|f|] == f && f[|f|..] == "";
    var g := f + "\n";
    assert g[..|f|] == f && g[|f|..] == "\n";
  }

  /** A path, blanks, a section sign and text without backticks is a reference with that anchor. */
  lemma RecognisesAnchor(f: string, w: string, t: string)
    requires IsPath(f) && IsBlanks(w) && t != "" && TICK !in t
    ensures ParseRef(f + (w + ("§" + t))) == Some(Ref(f, w + ("§" + t)))
  {
    hide SpanLen, IsSpace, IsFileName;
    PathIsName(f);
    SignIsNoSpace();
    var rest := w + ("§" + t);
    var c := f + rest;
    assert rest[0] == w[0];
    NameLength(f, rest);
    assert c[..|f|] == f && c[|f|..] == rest;
    BlankLength(w, "§" + t);
    assert rest[|w|] == '§' && rest[|w| + 1..] == t;
    assert rest != "\n";
  }

  /** Nothing else is a reference. */
  lemma RecognisedIs(content: string) returns (f: string, w: string, t: string)
    requires ParseRef(content).Some?
    ensures IsPath(f)
    ensures || ((content == f || content == f + "\n") && ParseRef(content) == Some(Ref(f, "")))
            || (IsBlanks(w) && t != "" && TICK !in t && content == f + (w + ("§" + t)))
  {
    hide SpanLen, IsSpace, IsFileName;
    var n := SpanLen(content, false);
    var rest := content[n..];
    f, w, t := content[..n], "", "";
    PathIsName(f);
    assert content == f + rest;
    if rest != "" && rest != "\n" {
      var k := SpanLen(rest, true);
      w, t := rest[..k], rest[k + 1..];
      assert rest == w + ("§" + t);
      assert IsSpace(rest[0]);
    } else {
      assert rest == "" ==> content == f;
    }
  }

  /** The whitespace of Python's patterns, by code. */
  lemma SpaceCodes(c: char)
    ensures IsSpace(c) <==>
            c as int in {9, 10, 11, 12, 13, 28, 29, 30, 31, 32, 0x85, 0xA0, 0x1680, 0x2000, 0x2001, 0x2002, 0x2003,
                         0x2004, 0x2005, 0x2006, 0x2007, 0x2008, 0x2009, 0x200A, 0x2028, 0x2029, 0x202F, 0x205F, 0x3000}
  {
  }

  // ----- Spans -----

  /** A run of exactly n backticks at k. */
  predicate RunAt(s: string, k: nat, n: nat) {
    && n > 0 && k + n <= |s| && (forall i :: k <= i < k + n ==> s[i] == TICK)
    && (k == 0 || s[k - 1] != TICK) && (k + n == |s| || s[k + n] != TICK)
  }

  /** The search finds the first run of that length, if there is one. */
  lemma {:induction false} CloseIsFirstRun(s: string, n: nat)
    requires n > 0
    ensures FindClose(s, n).Some? ==>
              RunAt(s, FindClose(s, n).value, n) && forall k :: 0 <= k < FindClose(s, n).value ==> !RunAt(s, k, n)
    ensures FindClose(s, n).None? ==> forall k :: 0 <= k ==> !RunAt(s, k, n)
    decreases |s|
  {
    hide FindClose, RunLen, RunAt;
    if s == [] {
      NoClose(n);
      forall k | 0 <= k ensures !RunAt(s, k, n) {
        NoRunInNothing(k, n);
      }
    } else {
      FindCloseHead(s, n);
      var d := if s[0] == TICK then RunLen(s) else 1;
      if s[0] == TICK && d == n {
        FirstRun(s);
      } else {
        CloseIsFirstRun(s[d..], n);
        forall k: nat ensures RunAt(s, k, n) <==> k >= d && RunAt(s[d..], k - d, n) {
          RunShift(s, d, k, n);
        }
        assert FindClose(s, n) == Shift(FindClose(s[d..], n), d);
        ShiftRuns(s, d, n, FindClose(s[d..], n));
      }
    }
  }

  lemma NoRunInNothing(k: nat, n: nat)
    ensures !RunAt("", k, n)
  {
  }

  lemma FirstRun(s: string)
    requires s != [] && s[0] == TICK
    ensures RunAt(s, 0, RunLen(s))
  {
    hide RunLen;
    assert RunLen(s) > 0;
  }

  /** Behind the first character that is no backtick, or behind the first run, the runs are those of
      the rest. */
  lemma RunShift(s: string, d: nat, k: nat, n: nat)
    requires s != [] && d == (if s[0] == TICK then RunLen(s) else 1) && (s[0] == TICK ==> d != n)
    ensures RunAt(s, k, n) <==> k >= d && RunAt(s[d..], k - d, n)
  {
    hide RunLen;
    assert 0 < d <= |s|;
    var r := s[d..];
    assert forall i :: 0 <= i < |r| ==> r[i] == s[d + i];
    assert d < |s| && s[0] == TICK ==> s[d] != TICK;
    if k >= d && RunAt(r, k - d, n) {
      assert forall i :: k <= i < k + n ==> s[i] == r[i - d];
      assert k == d ==> s[0] != TICK;
    }
  }

  lemma ShiftRuns(s: string, d: nat, n: nat, o: Option<nat>)
    requires forall k: nat :: RunAt(s, k, n) <==> k >= d && d <= |s| && RunAt(s[d..], k - d, n)
    requires d <= |s|
    requires o.Some? ==> RunAt(s[d..], o.value, n) && forall k :: 0 <= k < o.value ==> !RunAt(s[d..], k, n)
    requires o.None? ==> forall k :: 0 <= k ==> !RunAt(s[d..], k, n)
    ensures o.Some? ==> RunAt(s, o.value + d, n) && forall k :: 0 <= k < o.value + d ==> !RunAt(s, k, n)
    ensures o.None? ==> forall k :: 0 <= k ==> !RunAt(s, k, n)
  {
    hide RunAt;
  }

  /** What becomes of a single-backtick span: linked to what its file resolves to, copied with a
      warning when that fails, copied otherwise. */
  lemma SpanOutcome(c: string, y: string, q: CommentState, b: bool, resolve: Resolver)
    requires c != "" && TICK !in c && Plain(y)
    ensures var p := Scan("`" + c + "`" + y, q, b, resolve);
            var rest := Scan(y, Fold(q, "`" + c + "`"), false, resolve);
            var ref := ParseRef(c);
            if q.Inside? || (b && "](" <= y) || ref.None? then
              && Output(p) == "`" + c + "`" + Output(rest)
              && Edits(p) == Edits(rest) && Warnings(p) == Warnings(rest)
            else if resolve(ref.value.file).None? then
              && Output(p) == "`" + c + "`" + Output(rest)
              && Edits(p) == Edits(rest) && Warnings(p) == [ref.value.file] + Warnings(rest)
            else
              && Output(p) == "[" + "`" + ref.value.file + ref.value.anchor + "`" + "](" + resolve(ref.value.file).value
                              + ")" + Output(rest)
              && Edits(p) == Edits(rest) + 1 && Warnings(p) == Warnings(rest)
  {
    hide Scan, ParseRef, Fold, IsSpan;
    var r := Ref(c, "");
    assert c + "" == c;
    WrappedShape(r);
    assert Span(r) == "`" + c + "`";
    var w := "`" + c + "`";
    ScanSpan(w, 1, |c|, y, q, b, resolve);
    assert Content(w, 1, |c|) == c;
    if !q.Inside? && !(b && "](" <= y) && ParseRef(c).Some? && resolve(ParseRef(c).value.file).Some? {
      var f, a := ParseRef(c).value.file, ParseRef(c).value.anchor;
      assert "[" + Span(Ref(f, a)) == "[" + "`" + f + a + "`";
    }
  }
}
