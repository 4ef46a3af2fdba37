/**
  The CLI's base64 decoder (raxis/cli/src/signing.rs) against the padded encoding of
  section 4 of RFC 4648.  Bytes are bit vectors here: the decoder shifts and masks them.
 */
module Base64 {
  import opened Wrappers

  type Byte = bv8
  type Bytes = seq<bv8>

  const PAD: Byte := 61
  const LF: Byte := 10
  const CR: Byte := 13

  // ----- The encoding -----

  /** The symbol for a 6-bit value: A-Z, a-z, 0-9, plus, slash. */
  function Symbol(v: bv8): Byte
    requires v < 64
  {
    if v < 26 then v + 65
    else if v < 52 then v + 71
    else if v < 62 then v - 4
    else if v == 62 then 43
    else 47
  }

  function EncodeGroup(x: Byte, y: Byte, z: Byte): Bytes {
    [Symbol(x >> 2), Symbol(((x & 3) << 4) | (y >> 4)), Symbol(((y & 15) << 2) | (z >> 6)), Symbol(z & 63)]
  }

  function EncodeOne(x: Byte): Bytes {
    [Symbol(x >> 2), Symbol((x & 3) << 4), PAD, PAD]
  }

  function EncodeTwo(x: Byte, y: Byte): Bytes {
    [Symbol(x >> 2), Symbol(((x & 3) << 4) | (y >> 4)), Symbol((y & 15) << 2), PAD]
  }

  function Encode(d: Bytes): Bytes {
    if d == [] then []
    else if |d| == 1 then EncodeOne(d[0])
    else if |d| == 2 then EncodeTwo(d[0], d[1])
    else EncodeGroup(d[0], d[1], d[2]) + Encode(d[3..])
  }

  // ----- The decoder -----

  /** What the 256-entry table holds: 255 for bytes that are no symbol, 0 for the pad. */
  function TableAt(c: Byte): bv8 {
    if 65 <= c <= 90 then c - 65
    else if 97 <= c <= 122 then c - 71
    else if 48 <= c <= 57 then c + 4
    else if c == 43 then 62
    else if c == 47 then 63
    else if c == PAD then 0
    else 255
  }

  lemma SymbolTable(v: bv8)
    requires v < 64
    ensures TableAt(Symbol(v)) == v && Symbol(v) != PAD
  {
  }

  predicate GroupOk(g: Bytes)
    requires |g| == 4
  {
    TableAt(g[0]) != 255 && TableAt(g[1]) != 255
  }

  function DecodeGroup(g: Bytes): Bytes
    requires |g| == 4
  {
    Combined(g, TableAt(g[0]), TableAt(g[1]), TableAt(g[2]), TableAt(g[3]))
  }

  function Combined(g: Bytes, a: bv8, b: bv8, c: bv8, d: bv8): Bytes
    requires |g| == 4
  {
    Emitted(g, (a << 2) | (b >> 4), (b << 4) | (c >> 2), (c << 6) | d)
  }

  /** The bytes of a group that its padding leaves. */
  function Emitted(g: Bytes, first: Byte, second: Byte, third: Byte): Bytes
    requires |g| == 4
  {
    [first] + (if g[2] != PAD then [second] else []) + (if g[3] != PAD then [third] else [])
  }

  datatype DecodeError = InvalidLength | InvalidCharacter

  function DecodeGroups(s: Bytes): Result<Bytes, DecodeError>
    requires |s| % 4 == 0
  {
    if s == [] then Ok([])
    else if !GroupOk(s[..4]) then Err(InvalidCharacter)
    else Prepend(DecodeGroup(s[..4]), DecodeGroups(s[4..]))
  }

  function Prepend(x: Bytes, r: Result<Bytes, DecodeError>): Result<Bytes, DecodeError> {
    if r.Ok? then Ok(x + r.value) else r
  }

  function Strip(s: Bytes): Bytes {
    if s == [] then [] else (if s[0] != LF && s[0] != CR then [s[0]] else []) + Strip(s[1..])
  }

  function Decode(s: Bytes): Result<Bytes, DecodeError> {
    var b := Strip(s);
    if |b| % 4 != 0 then Err(InvalidLength) else DecodeGroups(b)
  }

  /** The table after the first v symbols have been entered. */
  function Entry(c: Byte, v: bv8): bv8 {
    if c != PAD && TableAt(c) < v then TableAt(c) else 255
  }

  lemma EntryStep(c: Byte, v: bv8)
    requires v < 64
    ensures Entry(c, v + 1) == if c == Symbol(v) then v else Entry(c, v)
  {
    hide TableAt, Symbol;
    SymbolTable(v);
    TableInverse(c);
  }

  lemma EntryEnds(c: Byte)
    ensures Entry(c, 0) == 255
    ensures TableAt(c) == if c == PAD then 0 else Entry(c, 64)
  {
    hide TableAt, Symbol;
    TableInverse(c);
  }

  function At(t: seq<bv8>, c: Byte): bv8
    requires |t| == 256
  {
    t[c as int]
  }

  lemma AtUpdate(t: seq<bv8>, k: Byte, v: bv8, c: Byte)
    requires |t| == 256
    ensures At(t[k as int := v], c) == if c == k then v else At(t, c)
  {
    assert c as int == k as int ==> c == k;
  }

  ghost predicate Filled(t: seq<bv8>, v: bv8) {
    |t| == 256 && forall c: Byte :: At(t, c) == Entry(c, v)
  }

  lemma FillStep(t: seq<bv8>, v: bv8)
    requires v < 64 && Filled(t, v)
    ensures Filled(t[Symbol(v) as int := v], v + 1)
  {
    hide TableAt, Symbol, Entry, At;
    var u, w := t[Symbol(v) as int := v], v + 1;
    forall c: Byte ensures At(u, c) == Entry(c, w) {
      EntryStep(c, v);
      AtUpdate(t, Symbol(v), v, c);
    }
  }

  ghost predicate IsTable(t: seq<bv8>) {
    |t| == 256 && forall c: Byte :: At(t, c) == TableAt(c)
  }

  lemma Lookup(t: seq<bv8>, c: Byte)
    requires IsTable(t)
    ensures |t| == 256 && t[c as int] == TableAt(c)
  {
    assert At(t, c) == TableAt(c);
  }

  /** The table is filled by walking the alphabet; bytes not in it keep 255. */
  method BuildTable() returns (t: seq<bv8>)
    ensures IsTable(t)
  {
    hide TableAt, Symbol, Entry;
    t := seq(256, _ => 255);
    var v: bv8 := 0;
    forall c: Byte ensures At(t, c) == Entry(c, v) { EntryEnds(c); }
    while v < 64
      invariant v <= 64
      invariant Filled(t, v)
      decreases 64 - v
    {
      FillStep(t, v);
      t := t[Symbol(v) as int := v];
      v := v + 1;
    }
    ghost var symbols := t;
    t := t[PAD as int := 0];
    forall c: Byte ensures At(t, c) == TableAt(c) {
      EntryEnds(c);
      AtUpdate(symbols, PAD, 0, c);
    }
  }

  lemma TableInverse(c: Byte)
    ensures TableAt(PAD) == 0
    ensures TableAt(c) != 255 && c != PAD ==> TableAt(c) < 64 && Symbol(TableAt(c)) == c
  {
  }

  method FilterNewlines(s: Bytes) returns (b: Bytes)
    ensures b == Strip(s)
  {
    b := [];
    for i := 0 to |s|
      invariant Strip(s) == b + Strip(s[i..])
    {
      assert s[i..][1..] == s[i + 1..];
      if s[i] != LF && s[i] != CR {
        b := b + [s[i]];
      }
    }
  }

  /** The pushes of one chunk. */
  method PushChunk(g: Bytes, a: bv8, b: bv8, c: bv8, d: bv8) returns (out: Bytes)
    requires |g| == 4
    ensures out == Combined(g, a, b, c, d)
  {
    out := [(a << 2) | (b >> 4)];
    if g[2] != PAD {
      out := out + [(b << 4) | (c >> 2)];
    }
    if g[3] != PAD {
      out := out + [(c << 6) | d];
    }
  }

  /** One chunk of the loop. */
  method DecodeChunk(table: seq<bv8>, g: Bytes) returns (r: Option<Bytes>)
    requires |g| == 4 && IsTable(table)
    ensures r == if GroupOk(g) then Some(DecodeGroup(g)) else None
  {
    hide TableAt, IsTable, Combined;
    Lookup(table, g[0]);
    Lookup(table, g[1]);
    Lookup(table, g[2]);
    Lookup(table, g[3]);
    var a, b, c, d := table[g[0] as int], table[g[1] as int], table[g[2] as int], table[g[3] as int];
    if a == 255 || b == 255 {
      return None;
    }
    var out := PushChunk(g, a, b, c, d);
    return Some(out);
  }

  /** base64_decode. */
  method Base64Decode(s: Bytes) returns (r: Result<Bytes, DecodeError>)
    ensures r == Decode(s)
  {
    hide Strip, TableAt, GroupOk, DecodeGroup, DecodeGroups, IsTable;
    var table := BuildTable();
    var bytes := FilterNewlines(s);
    if |bytes| % 4 != 0 {
      return Err(InvalidLength);
    }
    var out: Bytes := [];
    var i := 0;
    assert bytes[0..] == bytes;
    assert DecodeGroups(bytes) == Prepend([], DecodeGroups(bytes)) by { PrependNothing(DecodeGroups(bytes)); }
    while i < |bytes|
      invariant 0 <= i <= |bytes| && i % 4 == 0
      invariant DecodeGroups(bytes) == Prepend(out, DecodeGroups(bytes[i..]))
    {
      GroupStep(bytes, i, out);
      var chunk := DecodeChunk(table, bytes[i..i + 4]);
      if chunk.None? {
        return Err(InvalidCharacter);
      }
      out := out + chunk.value;
      i := i + 4;
    }
    assert DecodeGroups(bytes[i..]) == Ok([]) by { NoGroups(bytes[i..]); }
    assert out + [] == out;
    r := Ok(out);
  }

  lemma PrependNothing(r: Result<Bytes, DecodeError>)
    ensures Prepend([], r) == r
  {
    if r.Ok? {
      assert [] + r.value == r.value;
    }
  }

  lemma NoGroups(s: Bytes)
    requires s == []
    ensures DecodeGroups(s) == Ok([])
  {
  }

  /** The first group and the rest. */
  lemma GroupStep(s: Bytes, i: nat, out: Bytes)
    requires |s| % 4 == 0 && i % 4 == 0 && i < |s|
    ensures i + 4 <= |s|
    ensures var g := s[i..i + 4];
            Prepend(out, DecodeGroups(s[i..])) ==
            if GroupOk(g) then Prepend(out + DecodeGroup(g), DecodeGroups(s[i + 4..])) else Err(InvalidCharacter)
  {
    hide GroupOk, DecodeGroup;
    assert s[i..][..4] == s[i..i + 4] && s[i..][4..] == s[i + 4..];
    var g, rest := s[i..i + 4], DecodeGroups(s[i + 4..]);
    if rest.Ok? {
      assert out + (DecodeGroup(g) + rest.value) == out + DecodeGroup(g) + rest.value;
    }
  }

  // ----- Round trip -----

  lemma GroupRoundTrip(x: Byte, y: Byte, z: Byte)
    ensures var g := EncodeGroup(x, y, z);
            GroupOk(g) && DecodeGroup(g) == [x, y, z]
  {
    hide TableAt, Symbol;
    SymbolTable(x >> 2);
    SymbolTable(((x & 3) << 4) | (y >> 4));
    SymbolTable(((y & 15) << 2) | (z >> 6));
    SymbolTable(z & 63);
  }

  lemma OneByteRoundTrip(x: Byte)
    ensures var g := EncodeOne(x);
            GroupOk(g) && DecodeGroup(g) == [x]
  {
    hide TableAt, Symbol;
    SymbolTable(x >> 2);
    SymbolTable((x & 3) << 4);
  }

  lemma TwoByteRoundTrip(x: Byte, y: Byte)
    ensures var g := EncodeTwo(x, y);
            GroupOk(g) && DecodeGroup(g) == [x, y]
  {
    hide TableAt, Symbol;
    SymbolTable(x >> 2);
    SymbolTable(((x & 3) << 4) | (y >> 4));
    SymbolTable((y & 15) << 2);
  }

  lemma {:induction false} DecodeEncode(d: Bytes)
    ensures |Encode(d)| % 4 == 0 && DecodeGroups(Encode(d)) == Ok(d)
  {
    hide GroupOk, DecodeGroup, EncodeGroup;
    if |d| == 0 {
    } else if |d| == 1 {
      OneByteRoundTrip(d[0]);
      LastGroup(EncodeOne(d[0]));
      assert d == [d[0]];
    } else if |d| == 2 {
      TwoByteRoundTrip(d[0], d[1]);
      LastGroup(EncodeTwo(d[0], d[1]));
      assert d == [d[0], d[1]];
    } else {
      DecodeEncode(d[3..]);
      GroupRoundTrip(d[0], d[1], d[2]);
      var g, rest := EncodeGroup(d[0], d[1], d[2]), Encode(d[3..]);
      assert |g| == 4 by { GroupWidth(d[0], d[1], d[2]); }
      assert Encode(d) == g + rest && (g + rest)[..4] == g && (g + rest)[4..] == rest;
      assert d == [d[0], d[1], d[2]] + d[3..];
    }
  }

  lemma GroupWidth(x: Byte, y: Byte, z: Byte)
    ensures |EncodeGroup(x, y, z)| == 4
  {
  }

  lemma LastGroup(g: Bytes)
    requires |g| == 4 && GroupOk(g)
    ensures DecodeGroups(g) == Ok(DecodeGroup(g))
  {
    hide GroupOk, DecodeGroup;
    assert g[..4] == g && g[4..] == [];
    assert DecodeGroup(g) + [] == DecodeGroup(g);
  }

  /** Every text that is the encoding of d up to inserted CR and LF decodes to d. */
  lemma RoundTrip(s: Bytes, d: Bytes)
    requires Strip(s) == Encode(d)
    ensures Decode(s) == Ok(d)
  {
    hide DecodeGroups, Encode;
    DecodeEncode(d);
  }

  // ----- What is accepted -----

  ghost predicate LeadingPairsOk(b: Bytes) {
    forall k :: 0 <= k && 4 * k + 3 < |b| ==> TableAt(b[4 * k]) != 255 && TableAt(b[4 * k + 1]) != 255
  }

  /** The decoder looks only at the first two characters of each group. */
  lemma AcceptedIff(s: Bytes)
    ensures Decode(s).Ok? <==> |Strip(s)| % 4 == 0 && LeadingPairsOk(Strip(s))
  {
    hide TableAt, Strip;
    if |Strip(s)| % 4 == 0 {
      GroupsAcceptedIff(Strip(s));
    }
  }

  lemma {:induction false} GroupsAcceptedIff(b: Bytes)
    requires |b| % 4 == 0
    ensures DecodeGroups(b).Ok? <==> LeadingPairsOk(b)
    decreases |b|
  {
    hide TableAt, DecodeGroup;
    if b == [] {
    } else {
      var rest := b[4..];
      GroupsAcceptedIff(rest);
      if LeadingPairsOk(b) {
        assert TableAt(b[4 * 0]) != 255 && TableAt(b[4 * 0 + 1]) != 255;
        forall k | 0 <= k && 4 * k + 3 < |rest| ensures TableAt(rest[4 * k]) != 255 && TableAt(rest[4 * k + 1]) != 255 {
          assert rest[4 * k] == b[4 * (k + 1)] && rest[4 * k + 1] == b[4 * (k + 1) + 1];
        }
      }
      if DecodeGroups(b).Ok? {
        forall k | 0 <= k && 4 * k + 3 < |b| ensures TableAt(b[4 * k]) != 255 && TableAt(b[4 * k + 1]) != 255 {
          if k > 0 {
            assert b[4 * k] == rest[4 * (k - 1)] && b[4 * k + 1] == rest[4 * (k - 1) + 1];
          }
        }
      }
    }
  }

  // ----- The encoding of section 4 of RFC 4648, in numbers -----

  /** The digits: A to Z, a to z, 0 to 9, plus and slash. */
  lemma AlphabetIs(v: bv8)
    requires v < 64
    ensures v < 26 ==> Symbol(v) - 65 == v
    ensures 26 <= v < 52 ==> Symbol(v) - 97 == v - 26
    ensures 52 <= v < 62 ==> Symbol(v) - 48 == v - 52
    ensures v == 62 ==> Symbol(v) == 43
    ensures v == 63 ==> Symbol(v) == 47
  {
  }

  /** Three bytes are one number of four digits to the base 64, most significant first. */
  lemma GroupValue(x: Byte, y: Byte, z: Byte)
    ensures var n := x as bv32 * 65536 + y as bv32 * 256 + z as bv32;
            EncodeGroup(x, y, z) ==
            [Symbol((n / 262144 % 64) as bv8), Symbol((n / 4096 % 64) as bv8),
             Symbol((n / 64 % 64) as bv8), Symbol((n % 64) as bv8)]
  {
    hide Symbol;
    Sextets(x, y, z);
  }

  lemma Sextets(x: Byte, y: Byte, z: Byte)
    ensures var n := x as bv32 * 65536 + y as bv32 * 256 + z as bv32;
            && n / 262144 % 64 == (x >> 2) as bv32 && n / 4096 % 64 == (((x & 3) << 4) | (y >> 4)) as bv32
            && n / 64 % 64 == (((y & 15) << 2) | (z >> 6)) as bv32 && n % 64 == (z & 63) as bv32
  {
  }

  /** One or two last bytes are padded with zeros to a group, whose last two or one characters become
      equals signs. */
  lemma PaddedGroups(x: Byte, y: Byte)
    ensures EncodeOne(x) == EncodeGroup(x, 0, 0)[..2] + [61, 61]
    ensures EncodeTwo(x, y) == EncodeGroup(x, y, 0)[..3] + [61]
  {
    assert (0 as bv8) >> 4 == 0 && (0 as bv8) >> 6 == 0;
    assert ((x & 3) << 4) | 0 == (x & 3) << 4 && ((y & 15) << 2) | 0 == (y & 15) << 2;
  }

  /** A group of characters with values below 64 stands for a number of 24 bits, of which the first
      byte is always given, the second unless the third character is an equals sign, and the third
      unless the fourth is. */
  lemma DecodedGroupIs(g: Bytes)
    requires |g| == 4 && forall k :: 0 <= k < 4 ==> TableAt(g[k]) < 64
    ensures var n := TableAt(g[0]) as bv32 * 262144 + TableAt(g[1]) as bv32 * 4096
                     + TableAt(g[2]) as bv32 * 64 + TableAt(g[3]) as bv32;
            DecodeGroup(g) == [(n / 65536 % 256) as bv8] + (if g[2] == 61 then [] else [(n / 256 % 256) as bv8])
                              + if g[3] == 61 then [] else [(n % 256) as bv8]
  {
    hide TableAt, Combined;
    CombinedIs(g, TableAt(g[0]), TableAt(g[1]), TableAt(g[2]), TableAt(g[3]));
  }

  lemma CombinedIs(g: Bytes, a: bv8, b: bv8, c: bv8, d: bv8)
    requires |g| == 4 && a < 64 && b < 64 && c < 64 && d < 64
    ensures var n := a as bv32 * 262144 + b as bv32 * 4096 + c as bv32 * 64 + d as bv32;
            Combined(g, a, b, c, d) ==
            [(n / 65536 % 256) as bv8] + (if g[2] == 61 then [] else [(n / 256 % 256) as bv8])
            + if g[3] == 61 then [] else [(n % 256) as bv8]
  {
    Octets(a, b, c, d);
  }

  lemma Octets(a: bv8, b: bv8, c: bv8, d: bv8)
    requires a < 64 && b < 64 && c < 64 && d < 64
    ensures var n := a as bv32 * 262144 + b as bv32 * 4096 + c as bv32 * 64 + d as bv32;
            && (n / 65536 % 256) as bv8 == (a << 2) | (b >> 4) && (n / 256 % 256) as bv8 == (b << 4) | (c >> 2)
            && (n % 256) as bv8 == (c << 6) | d
  {
  }

  /** The value of every character: its place in the alphabet, zero for the equals sign, else none. */
  lemma TableIs(c: Byte)
    ensures 65 <= c <= 90 ==> TableAt(c) == c - 65
    ensures 97 <= c <= 122 ==> TableAt(c) == c - 97 + 26
    ensures 48 <= c <= 57 ==> TableAt(c) == c - 48 + 52
    ensures c == 43 ==> TableAt(c) == 62
    ensures c == 47 ==> TableAt(c) == 63
    ensures c == 61 ==> TableAt(c) == 0
    ensures !(65 <= c <= 90 || 97 <= c <= 122 || 48 <= c <= 57 || c == 43 || c == 47 || c == 61) ==> TableAt(c) == 255
  {
  }

  /** Exactly the newlines and carriage returns are dropped. */
  lemma {:induction false} StripIs(a: Bytes, c: Byte, b: Bytes)
    ensures Strip([]) == []
    ensures Strip(a + [c] + b) == Strip(a) + (if c == 10 || c == 13 then [] else [c]) + Strip(b)
    decreases |a|
  {
    if a == [] {
      assert a + [c] + b == [c] + b && ([c] + b)[1..] == b;
    } else {
      assert (a + [c] + b)[1..] == a[1..] + [c] + b;
      StripIs(a[1..], c, b);
    }
  }

  /** A refused text has a length that is no multiple of four, or a character that is none. */
  lemma RefusalIs(s: Bytes)
    requires Decode(s).Err?
    ensures Decode(s) == Err(if |Strip(s)| % 4 != 0 then InvalidLength else InvalidCharacter)
  {
    hide Strip, GroupOk, DecodeGroup;
    if |Strip(s)| % 4 == 0 {
      GroupsRefusal(Strip(s));
    }
  }

  lemma {:induction false} GroupsRefusal(b: Bytes)
    requires |b| % 4 == 0 && DecodeGroups(b).Err?
    ensures DecodeGroups(b) == Err(InvalidCharacter)
    decreases |b|
  {
    hide GroupOk, DecodeGroup;
    if b == [] || !GroupOk(b[..4]) {
    } else {
      GroupsRefusal(b[4..]);
    }
  }
}
