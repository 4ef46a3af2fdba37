/**
  The Markdown linkifier (raxis/scripts/linkify-md.py): its line scanner as a function over
  the unread suffix, and the reference recogniser.
 */
module Linkify {
  import opened Wrappers

  const TICK: char := '`'

  // ----- HTML comments as an automaton -----

  /** Outside(k): outside a comment, the last k characters start an opener.
      Inside(k): inside a comment, the last k characters are the dashes of a closer. */
  datatype CommentState = Outside(seen: nat) | Inside(seen: nat)

  function StepComment(q: CommentState, c: char): CommentState {
    match q
    case Outside(k) =>
      if c == '<' then Outside(1)
      else if k == 1 && c == '!' then Outside(2)
      else if k == 2 && c == '-' then Outside(3)
      else if k == 3 && c == '-' then Inside(0)
      else Outside(0)
    case Inside(k) =>
      if c == '-' then Inside(if k == 0 then 1 else 2)
      else if k == 2 && c == '>' then Outside(0)
      else Inside(0)
  }

  /** State after reading s. */
  function Fold(q: CommentState, s: string): CommentState
    decreases |s|
  {
    if s == [] then q else Fold(StepComment(q, s[0]), s[1..])
  }

  lemma {:induction false} FoldConcat(q: CommentState, s: string, t: string)
    ensures Fold(q, s + t) == Fold(Fold(q, s), t)
    decreases |s|
  {
    if s == [] {
      assert s + t == t;
    } else {
      assert (s + t)[1..] == s[1..] + t;
      FoldConcat(StepComment(q, s[0]), s[1..], t);
    }
  }

  // ----- References -----

  datatype Ref = Ref(file: string, anchor: string)

  /** The whitespace class of Python's regular expressions. */
  predicate IsSpace(c: char) {
    var n := c as int;
    || 0x09 <= n <= 0x0D || 0x1C <= n <= 0x20 || n == 0x85 || n == 0xA0 || n == 0x1680
    || 0x2000 <= n <= 0x200A || n == 0x2028 || n == 0x2029 || n == 0x202F || n == 0x205F || n == 0x3000
  }

  /** Length of the longest prefix of characters that are (or are not) whitespace. */
  function SpanLen(s: string, space: bool): (n: nat)
    ensures n <= |s|
    ensures forall k :: 0 <= k < n ==> IsSpace(s[k]) == space
    ensures n < |s| ==> IsSpace(s[n]) != space
  {
    if s == [] || IsSpace(s[0]) != space then 0 else 1 + SpanLen(s[1..], space)
  }

  predicate IsFileName(f: string) {
    && |f| > 3 && f[|f| - 3..] == ".md"
    && forall c :: c in f ==> c !in "`<>(){}[]"
  }

  /** parse_ref: a file name without whitespace, then nothing or whitespace, a section sign
      and text without backticks.  The end-of-input assertion also accepts one newline. */
  function ParseRef(content: string): Option<Ref> {
    var w := SpanLen(content, false);
    var file, rest := content[..w], content[w..];
    if !IsFileName(file) then None
    else if rest == "" || rest == "\n" then Some(Ref(file, ""))
    else
      var k := SpanLen(rest, true);
      if k + 1 < |rest| && rest[k] == '§' && TICK !in rest[k + 1..] then Some(Ref(file, rest)) else None
  }

  lemma ParseRefText(content: string)
    requires ParseRef(content).Some?
    ensures var r := ParseRef(content).value;
            && r.file != "" && TICK !in r.file + r.anchor
            && (content == r.file + r.anchor || content == r.file + r.anchor + "\n")
            && ('\n' !in content ==> content == r.file + r.anchor)
            && TICK !in content
  {
    var w := SpanLen(content, false);
    var file, rest := content[..w], content[w..];
    assert content == file + rest;
    if rest != "" && rest != "\n" {
      var k := SpanLen(rest, true);
      assert rest == rest[..k] + [rest[k]] + rest[k + 1..];
      assert forall l :: 0 <= l < k ==> rest[l] != TICK;
      assert TICK !in rest[..k];
    }
  }

  // ----- Backtick runs -----

  function RunLen(s: string): (n: nat)
    ensures n <= |s|
    ensures forall k :: 0 <= k < n ==> s[k] == TICK
    ensures n < |s| ==> s[n] != TICK
  {
    if s == [] || s[0] != TICK then 0 else 1 + RunLen(s[1..])
  }

  function Shift(o: Option<nat>, d: nat): Option<nat> {
    if o.None? then None else Some(o.value + d)
  }

  /** Offset of the first maximal run of exactly n backticks. */
  function FindClose(s: string, n: nat): (o: Option<nat>)
    ensures o.Some? ==> o.value + n <= |s| && (n > 0 && o.value + n < |s| ==> s[o.value + n] != TICK)
    decreases |s|
  {
    if s == [] then None
    else if s[0] != TICK then Shift(FindClose(s[1..], n), 1)
    else
      var k := RunLen(s);
      if k == n then Some(0) else Shift(FindClose(s[k..], n), k)
  }

  // ----- The scan -----

  type Resolver = string -> Option<string>

  datatype Verdict = Leave | Warn(file: string) | Link(ref: Ref, target: string)

  /** What happens to a closed span of n backticks around content, met in comment state q,
      after an opening bracket or not, and before the text `after`. */
  function Judge(q: CommentState, bracket: bool, n: nat, content: string, after: string, resolve: Resolver): Verdict {
    if q.Inside? then Leave
    else if n != 1 || (bracket && "](" <= after) then Leave
    else match ParseRef(content)
      case None => Leave
      case Some(r) =>
        match resolve(r.file)
        case None => Warn(r.file)
        case Some(t) => Link(r, t)
  }

  /** The line cut into pieces: text copied as it is, spans copied with a warning, and links. */
  datatype Pieces =
    | Done
    | Kept(text: string, rest: Pieces)
    | Unresolved(text: string, file: string, rest: Pieces)
    | Linked(content: string, ref: Ref, target: string, rest: Pieces)

  function Scan(s: string, q: CommentState, bracket: bool, resolve: Resolver): Pieces
    decreases |s|
  {
    if s == [] then Done
    else if s[0] != TICK then
      Kept(s[..1], Scan(s[1..], StepComment(q, s[0]), s[0] == '[', resolve))
    else
      var n := RunLen(s);
      var close := FindClose(s[n..], n);
      if close.None? then Kept(s[..n], Scan(s[n..], Fold(q, s[..n]), false, resolve))
      else
        var e := n + close.value + n;
        var rest := Scan(s[e..], Fold(q, s[..e]), false, resolve);
        match Judge(q, bracket, n, s[n..n + close.value], s[e..], resolve)
        case Leave => Kept(s[..e], rest)
        case Warn(f) => Unresolved(s[..e], f, rest)
        case Link(r, t) => Linked(s[n..n + close.value], r, t, rest)
  }

  function Span(r: Ref): string {
    "`" + r.file + r.anchor + "`"
  }

  /** The rewritten line. */
  function Output(p: Pieces): string {
    match p
    case Done => ""
    case Kept(t, r) => t + Output(r)
    case Unresolved(t, _, r) => t + Output(r)
    case Linked(_, ref, target, r) => "[" + Span(ref) + "](" + target + ")" + Output(r)
  }

  /** The rewritten line with the inserted wrappers erased. */
  function Erased(p: Pieces): string {
    match p
    case Done => ""
    case Kept(t, r) => t + Erased(r)
    case Unresolved(t, _, r) => t + Erased(r)
    case Linked(_, ref, _, r) => Span(ref) + Erased(r)
  }

  function Edits(p: Pieces): nat {
    match p
    case Done => 0
    case Kept(_, r) => Edits(r)
    case Unresolved(_, _, r) => Edits(r)
    case Linked(_, _, _, r) => 1 + Edits(r)
  }

  function Warnings(p: Pieces): seq<string> {
    match p
    case Done => []
    case Kept(_, r) => Warnings(r)
    case Unresolved(_, f, r) => [f] + Warnings(r)
    case Linked(_, _, _, r) => Warnings(r)
  }

  function ScanLine(line: string, resolve: Resolver): Pieces {
    Scan(line, Outside(0), false, resolve)
  }

  function LinkifyText(line: string, resolve: Resolver): string {
    Output(ScanLine(line, resolve))
  }

  /** The facts about link targets that the rewrite needs. */
  ghost predicate CleanTargets(resolve: Resolver) {
    forall f :: resolve(f).Some? ==> CleanTarget(resolve(f).value)
  }

  predicate CleanTarget(t: string) {
    forall c :: c in t ==> c != TICK && c != '<' && c != '>'
  }
}
