/** Base64 encoding and decoding (module 9742), against RFC 4648, section 4.

    Shifts and masks of small non-negative numbers are written as the arithmetic they perform. */
module Base64 {
  import opened Wrappers

  type Sextet = v: nat | v < 64

  /** Table 1 of RFC 4648. */
  function Char(v: Sextet): char {
    if v < 26 then ('A' as int + v) as char
    else if v < 52 then ('a' as int + (v - 26)) as char
    else if v < 62 then ('0' as int + (v - 52)) as char
    else if v == 62 then '+'
    else '/'
  }

  /** The decoding table: it also knows the URL-safe characters, and an unknown character counts
      as zero in the bit operations. */
  function Value(c: char): Sextet {
    if 'A' <= c <= 'Z' then c as int - 'A' as int
    else if 'a' <= c <= 'z' then c as int - 'a' as int + 26
    else if '0' <= c <= '9' then c as int - '0' as int + 52
    else if c == '+' || c == '-' then 62
    else if c == '/' || c == '_' then 63
    else 0
  }

  predicate InAlphabet(c: char) {
    'A' <= c <= 'Z' || 'a' <= c <= 'z' || '0' <= c <= '9' || c == '+' || c == '/'
  }

  lemma CharValue(v: Sextet)
    ensures Value(Char(v)) == v && InAlphabet(Char(v)) && Char(v) != '='
  {
  }

  lemma ValueChar(c: char)
    requires InAlphabet(c)
    ensures Char(Value(c)) == c && c != '='
  {
  }

  // The two tables as strings and numbers.

  const UPPER := "ABCDEFGHIJKLMNOPQRSTUVWXYZ"
  const LOWER := "abcdefghijklmnopqrstuvwxyz"
  const DIGITS := "0123456789"
  const ALPHABET := UPPER + LOWER + DIGITS + "+/"

  lemma Letters(v: nat)
    requires v < 26
    ensures |UPPER| == 26 && UPPER[v] == ('A' as int + v) as char
    ensures |LOWER| == 26 && LOWER[v] == ('a' as int + v) as char
    ensures |DIGITS| == 10 && (v < 10 ==> DIGITS[v] == ('0' as int + v) as char)
  {
  }

  lemma CharIsTable(v: Sextet)
    ensures |ALPHABET| == 64 && Char(v) == ALPHABET[v]
  {
    Letters(0);
    InPieces(UPPER, LOWER, DIGITS, "+/", v);
    if v < 26 {
      Letters(v);
    } else if v < 52 {
      Letters(v - 26);
    } else if v < 62 {
      Letters(v - 52);
    }
  }

  lemma InPieces(a: string, b: string, c: string, d: string, i: nat)
    requires i < |a| + |b| + |c| + |d|
    ensures (a + b + c + d)[i] == if i < |a| then a[i]
                                  else if i < |a| + |b| then b[i - |a|]
                                  else if i < |a| + |b| + |c| then c[i - |a| - |b|]
                                  else d[i - |a| - |b| - |c|]
  {
  }

  /** A character stands for its place in the alphabet, - and _ for those of + and /, and any other
      character for zero. */
  lemma ValueIsTable(c: char)
    ensures forall v: Sextet :: ALPHABET[v] == c ==> Value(c) == v
    ensures c == '-' ==> Value(c) == 62
    ensures c == '_' ==> Value(c) == 63
    ensures c !in ALPHABET && c != '-' && c != '_' ==> Value(c) == 0
  {
    forall v: Sextet | ALPHABET[v] == c
      ensures Value(c) == v
    {
      CharIsTable(v);
      CharValue(v);
    }
    if InAlphabet(c) {
      ValueChar(c);
      CharIsTable(Value(c));
      assert ALPHABET[Value(c)] in ALPHABET;
    }
  }

  // ----- encoding -----

  function Group(a: Byte, b: Byte, c: Byte): string {
    var x: nat := a * 65536 + b * 256 + c;
    [Char(x / 262144 % 64), Char(x / 4096 % 64), Char(x / 64 % 64), Char(x % 64)]
  }

  /** The final quantum of one or two bytes, filled up with zero bits and padded. */
  function LastOne(a: Byte): string {
    var x: nat := a * 16;
    [Char(x / 64 % 64), Char(x % 64), '=', '=']
  }

  function LastTwo(a: Byte, b: Byte): string {
    var x: nat := (a * 256 + b) * 4;
    [Char(x / 4096 % 64), Char(x / 64 % 64), Char(x % 64), '=']
  }

  /** The characters' values in base 64 are the bytes in base 256. */
  lemma {:induction false} GroupIsNumber(a: Byte, b: Byte, c: Byte)
    ensures exists v: Sextet, w: Sextet, x: Sextet, y: Sextet :: Spelled(Group(a, b, c), [v, w, x, y])
              && y + x * 0x40 + w * 0x1000 + v * 0x4_0000 as nat == c + b * 0x100 + a * 0x1_0000 as nat
  {
    hide Char, Spelled;
    var s := Digits64(a * 0x1_0000 + b * 0x100 + c);
    FourDigits(a * 0x1_0000 + b * 0x100 + c);
    SpelledByChar(Group(a, b, c), s);
    assert s == [s[0], s[1], s[2], s[3]];
  }

  /** A last quantum of two bytes or one is filled up with zero bits and padded. */
  lemma {:induction false} LastTwoIsNumber(a: Byte, b: Byte)
    ensures exists v: Sextet, w: Sextet, x: Sextet :: Spelled(LastTwo(a, b)[..3], [v, w, x])
              && x + w * 0x40 + v * 0x1000 as nat == (b + a * 0x100 as nat) * 4
    ensures LastTwo(a, b)[3..] == "="
  {
    hide Char, Spelled;
    var x: nat := (a * 256 + b) * 4;
    var s := Digits64(x);
    FourDigits(x);
    SpelledByChar(LastTwo(a, b)[..3], s[1..]);
    assert s[1..] == [s[1], s[2], s[3]];
  }

  lemma {:induction false} LastOneIsNumber(a: Byte)
    ensures exists v: Sextet, w: Sextet :: Spelled(LastOne(a)[..2], [v, w]) && w + v * 0x40 as nat == a as nat * 16
    ensures LastOne(a)[2..] == "=="
  {
    hide Char, Spelled;
    var x: nat := a * 16;
    var s := Digits64(x);
    FourDigits(x);
    SpelledByChar(LastOne(a)[..2], s[2..]);
    assert s[2..] == [s[2], s[3]];
  }

  ghost predicate Spelled(q: string, values: seq<Sextet>) {
    |q| == |values| && forall i :: 0 <= i < |values| ==> q[i] == ALPHABET[values[i]]
  }

  function Digits64(x: nat): seq<Sextet> {
    [x / 0x4_0000 % 64, x / 0x1000 % 64, x / 64 % 64, x % 64]
  }

  lemma FourDigits(x: nat)
    requires x < 0x100_0000
    ensures var s := Digits64(x);
            && s[3] + s[2] * 0x40 + s[1] * 0x1000 + s[0] * 0x4_0000 as nat == x
            && (x < 0x4_0000 ==> s[0] == 0) && (x < 0x1000 ==> s[1] == 0)
  {
    assert x / 64 == 64 * (x / 0x1000) + x / 64 % 64;
    assert x / 0x1000 == 64 * (x / 0x4_0000) + x / 0x1000 % 64;
  }

  lemma SpelledByChar(q: string, values: seq<Sextet>)
    requires |values| == |q| && forall i :: 0 <= i < |values| ==> q[i] == Char(values[i])
    ensures Spelled(q, values)
  {
    forall i | 0 <= i < |values|
      ensures q[i] == ALPHABET[values[i]]
    {
      CharIsTable(values[i]);
    }
  }

  /** RFC 4648, section 4. */
  function Encode(b: seq<Byte>): string {
    if b == [] then []
    else if |b| == 1 then LastOne(b[0])
    else if |b| == 2 then LastTwo(b[0], b[1])
    else Group(b[0], b[1], b[2]) + Encode(b[3..])
  }

  lemma {:induction false} EncodeConcat(a: seq<Byte>, b: seq<Byte>)
    requires |a| % 3 == 0
    ensures Encode(a + b) == Encode(a) + Encode(b)
  {
    if a == [] {
      assert a + b == b;
    } else {
      assert (a + b)[3..] == a[3..] + b;
      EncodeConcat(a[3..], b);
    }
  }

  /** The parts written so far encode t[from..to]. */
  predicate Covers(parts: seq<string>, t: seq<Byte>, from: nat, to: nat) {
    from <= to <= |t| && Joined(parts) == Encode(t[from..to])
  }

  lemma CoversNone(t: seq<Byte>, from: nat)
    requires from <= |t|
    ensures Covers([], t, from, from)
  {
  }

  lemma {:induction false} CoversPart(parts: seq<string>, t: seq<Byte>, from: nat, to: nat)
    requires Covers(parts, t, from, to)
    ensures Joined(parts) == Encode(t[from..to])
  {
  }

  lemma {:induction false} CoversAll(parts: seq<string>, t: seq<Byte>)
    requires Covers(parts, t, 0, |t|)
    ensures Joined(parts) == Encode(t)
  {
    hide Joined, Encode;
    assert t[0..|t|] == t;
  }

  lemma CoversMore(parts: seq<string>, t: seq<Byte>, from: nat, s: nat, to: nat, part: string)
    requires Covers(parts, t, from, s) && s <= to <= |t| && (s - from) % 3 == 0 && part == Encode(t[s..to])
    ensures Covers(parts + [part], t, from, to)
  {
    hide Joined, Encode;
    JoinedSnoc(parts, part);
    assert t[from..to] == t[from..s] + t[s..to];
    EncodeConcat(t[from..s], t[s..to]);
  }

  lemma GroupIs(t: seq<Byte>, s: nat)
    requires s + 3 <= |t|
    ensures Group(t[s], t[s + 1], t[s + 2]) == Encode(t[s..s + 3])
  {
    var group := t[s..s + 3];
    assert group[3..] == [];
  }

  const MAX_CHUNK: nat := 16383

  /** The whole groups of t[start..end]. */
  method EncodeChunk(t: seq<Byte>, start: nat, end: nat) returns (r: string)
    requires start <= end <= |t| && (end - start) % 3 == 0
    ensures r == Encode(t[start..end])
  {
    hide Covers, Group, Encode, Joined;
    var output: seq<string> := [];
    var s := start;
    CoversNone(t, start);
    while s < end
      invariant start <= s <= end && (end - s) % 3 == 0
      invariant Covers(output, t, start, s)
    {
      GroupIs(t, s);
      CoversMore(output, t, start, s, s + 3, Group(t[s], t[s + 1], t[s + 2]));
      output := output + [Group(t[s], t[s + 1], t[s + 2])];
      s := s + 3;
    }
    CoversPart(output, t, start, end);
    r := Joined(output);
  }

  /** Encoding in chunks of 16383 bytes is encoding the whole. */
  method FromByteArray(t: seq<Byte>) returns (r: string)
    ensures r == Encode(t)
  {
    hide Covers, Encode, Joined, OneLeft, TwoLeft;
    var n := |t|;
    var extra := n % 3;
    var end := n - extra;
    var parts: seq<string> := [];
    var s := 0;
    CoversNone(t, 0);
    while s < end
      invariant s % 3 == 0
      invariant Covers(parts, t, 0, if s < end then s else end)
    {
      var to := if s + MAX_CHUNK > end then end else s + MAX_CHUNK;
      var chunk := EncodeChunk(t, s, to);
      CoversMore(parts, t, 0, s, to, chunk);
      parts := parts + [chunk];
      s := s + MAX_CHUNK;
    }
    if extra == 1 {
      LastOneIs(t, end, t[n - 1]);
      CoversMore(parts, t, 0, end, n, OneLeft(t[n - 1]));
      parts := parts + [OneLeft(t[n - 1])];
    } else if extra == 2 {
      var e := Shifted(t[n - 2], t[n - 1]);
      LastTwoIs(t, end, e);
      CoversMore(parts, t, 0, end, n, TwoLeft(e));
      parts := parts + [TwoLeft(e)];
    }
    CoversAll(parts, t);
    r := Joined(parts);
  }

  /** Two bytes as one number, the first the more significant. */
  function Shifted(a: nat, b: nat): nat {
    a * 256 + b
  }

  function OneLeft(e: nat): string
    requires e < 256
  {
    [Char(e / 4), Char(e * 16 % 64)] + "=="
  }

  function TwoLeft(e: nat): string
    requires e < 0x1_0000
  {
    [Char(e / 1024), Char(e / 16 % 64), Char(e * 4 % 64)] + "="
  }

  lemma LastOneIs(t: seq<Byte>, end: nat, e: nat)
    requires |t| == end + 1 && e == t[end]
    ensures Encode(t[end..|t|]) == OneLeft(e)
  {
    hide Char;
    assert e * 16 / 64 == e / 4;
    assert t[end..|t|] == [t[end]];
  }

  lemma LastTwoIs(t: seq<Byte>, end: nat, e: nat)
    requires |t| == end + 2 && e == Shifted(t[end], t[end + 1])
    ensures e < 0x1_0000
    ensures Encode(t[end..|t|]) == TwoLeft(e)
  {
    hide Char;
    TwoByteBits(t[end], t[end + 1]);
    PairBits(t[end], t[end + 1]);
    assert t[end..|t|] == [t[end], t[end + 1]];
  }

  lemma PairBits(a: nat, b: nat)
    requires a < 256 && b < 256
    ensures var e := Shifted(a, b);
            && e < 0x1_0000 && e / 1024 == a / 4
            && e / 16 % 64 == a % 4 * 16 + b / 16 && e * 4 % 64 == b % 16 * 4
  {
    var e := Shifted(a, b);
    assert e / 16 == 64 * (a / 4) + (a % 4 * 16 + b / 16);
    assert e / 1024 == a / 4;
    Digits(e * 4, a / 4, a % 4 * 16 + b / 16, b % 16 * 4);
  }

  // ----- decoding -----

  function FirstPad(t: string): (u: nat)
    ensures u <= |t| && (u < |t| ==> t[u] == '=')
    ensures forall i :: 0 <= i < u ==> t[i] != '='
  {
    if t == [] || t[0] == '=' then 0 else 1 + FirstPad(t[1..])
  }

  /** How many characters of its last quantum the padding is taken to fill. */
  function Pads(u: nat, length: nat): nat {
    if u == length then 0 else 4 - u % 4
  }

  /** None if the length is not a multiple of four. */
  function ByteLength(t: string): Option<int> {
    if |t| % 4 != 0 then None
    else
      var u := FirstPad(t);
      var a := Pads(u, |t|);
      Some(Size(u, a))
  }

  function Size(u: int, a: int): int {
    3 * (u + a) / 4 - a
  }

  function QuadBytes(a: char, b: char, c: char, d: char): (r: seq<Byte>)
    ensures |r| == 3
  {
    var e: nat := Value(a) * 262144 + Value(b) * 4096 + Value(c) * 64 + Value(d);
    [e / 65536 % 256, e / 256 % 256, e % 256]
  }

  function TwoChars(a: char, b: char): (r: seq<Byte>)
    ensures |r| == 1
  {
    [(Value(a) as nat * 4 + Value(b) / 16) % 256]
  }

  function ThreeChars(a: char, b: char, c: char): (r: seq<Byte>)
    ensures |r| == 2
  {
    var e: nat := Value(a) * 1024 + Value(b) * 16 + Value(c) / 4;
    [e / 256 % 256, e % 256]
  }

  function Quads(t: string): seq<Byte> {
    if |t| < 4 then [] else QuadBytes(t[0], t[1], t[2], t[3]) + Quads(t[4..])
  }

  /** What comes after the k whole quanta; an empty last quantum leaves two zero bytes. */
  function Rest(t: string, k: nat, pads: nat): seq<Byte>
    requires 4 * k + (if pads == 1 then 3 else if pads == 2 then 2 else 0) <= |t|
  {
    if pads == 1 then ThreeChars(t[4 * k], t[4 * k + 1], t[4 * k + 2])
    else if pads == 2 then TwoChars(t[4 * k], t[4 * k + 1])
    else if pads == 4 then [0, 0]
    else []
  }

  function Whole(u: nat, pads: nat): nat {
    if pads == 4 && u >= 4 then u / 4 - 1 else u / 4
  }

  /** None if the length is not a multiple of four or the array to fill would be shorter than
      nothing. */
  function Decode(t: string): Option<seq<Byte>> {
    var length := ByteLength(t);
    if length.None? || length.value < 0 then None
    else
      var u := FirstPad(t);
      var a := Pads(u, |t|);
      var k := Whole(u, a);
      Some(Quads(t[..4 * k]) + Rest(t, k, a))
  }

  lemma {:induction false} QuadsConcat(a: string, b: string)
    requires |a| % 4 == 0
    ensures Quads(a + b) == Quads(a) + Quads(b)
  {
    if a == [] {
      assert a + b == b;
    } else {
      assert (a + b)[4..] == a[4..] + b;
      QuadsConcat(a[4..], b);
    }
  }

  lemma QuadNext(t: string, r: nat)
    requires r % 4 == 0 && r + 4 <= |t|
    ensures Quads(t[..r + 4]) == Quads(t[..r]) + QuadBytes(t[r], t[r + 1], t[r + 2], t[r + 3])
  {
    var quad := t[r..r + 4];
    assert t[..r + 4] == t[..r] + quad;
    QuadsConcat(t[..r], quad);
    assert quad[4..] == [];
  }

  lemma {:induction false} QuadsLength(t: string)
    requires |t| % 4 == 0
    ensures 4 * |Quads(t)| == 3 * |t|
  {
    if t == [] {
    } else {
      QuadsLength(t[4..]);
    }
  }

  function LoopEnd(u: int, a: int): int {
    if a > 0 then u - 4 else u
  }

  /** Steps of four that start below l are those that start below 4k. */
  ghost predicate StopsAt(l: int, k: nat) {
    l <= 4 * k && 4 * k < l + 4
  }

  /** The array has room for what the loop and the last quantum write. */
  lemma Room(u: nat, length: nat)
    requires u <= length && length % 4 == 0
    ensures var a := Pads(u, length);
            var k, size := Whole(u, a), Size(u, a);
            && 4 * k <= u
            && (size < 0 <==> u == 0 && length > 0)
            && (size >= 0 ==> size == 3 * k + if a == 1 then 2 else if a == 2 then 1 else if a == 4 then 2 else 0)
            && (a == 1 ==> u == 4 * k + 3) && (a == 2 ==> u == 4 * k + 2)
            && (size >= 0 ==> StopsAt(LoopEnd(u, a), k))
  {
  }

  method ToByteArray(t: string) returns (r: Option<seq<Byte>>)
    ensures r == Decode(t)
  {
    hide Quads, QuadBytes, ThreeChars, TwoChars, FirstPad, Value, StopsAt;
    if |t| % 4 > 0 { return None; }
    var u := FirstPad(t);
    var a := Pads(u, |t|);
    Room(u, |t|);
    var size := Size(u, a);
    if size < 0 { return None; }
    var c := new Byte[size](_ => 0);
    var f := FillQuads(t, c, LoopEnd(u, a), Whole(u, a));
    FillRest(t, c, f, a);
    r := Some(c[..]);
  }

  /** The loop over whole quanta; the rest of the array stays zero. */
  method FillQuads(t: string, c: array<Byte>, l: int, ghost k: nat) returns (f: nat)
    requires 4 * k <= |t| && 3 * k <= c.Length
    requires StopsAt(l, k)
    requires forall i :: 0 <= i < c.Length ==> c[i] == 0
    modifies c
    ensures f == 3 * k && c[..f] == Quads(t[..4 * k])
    ensures forall i :: f <= i < c.Length ==> c[i] == 0
  {
    hide QuadBytes, Quads;
    var at := 0;
    NoQuads(t);
    assert c[..0] == [];
    f := 0;
    while at < l
      invariant at % 4 == 0 && at <= 4 * k && 4 * f == 3 * at
      invariant c[..f] == Quads(t[..at])
      invariant forall i :: f <= i < c.Length ==> c[i] == 0
    {
      QuadNext(t, at);
      var bytes := QuadBytes(t[at], t[at + 1], t[at + 2], t[at + 3]);
      c[f], c[f + 1], c[f + 2] := bytes[0], bytes[1], bytes[2];
      at, f := at + 4, f + 3;
    }
  }

  method FillRest(t: string, c: array<Byte>, f: nat, a: nat)
    requires f % 3 == 0 && f / 3 * 4 + (if a == 1 then 3 else if a == 2 then 2 else 0) <= |t|
    requires c.Length == f + (if a == 1 || a == 4 then 2 else if a == 2 then 1 else 0)
    requires forall i :: f <= i < c.Length ==> c[i] == 0
    modifies c
    ensures c[..] == old(c[..f]) + Rest(t, f / 3, a)
  {
    hide ThreeChars, TwoChars;
    var at := f / 3 * 4;
    if a == 2 { c[f] := TwoChars(t[at], t[at + 1])[0]; }
    if a == 1 {
      var bytes := ThreeChars(t[at], t[at + 1], t[at + 2]);
      c[f], c[f + 1] := bytes[0], bytes[1];
    }
  }

  // ----- round trips -----

  predicate AllInAlphabet(t: string) {
    forall i :: 0 <= i < |t| ==> InAlphabet(t[i])
  }

  lemma {:induction false} FirstPadSkips(c: char, t: string)
    requires c != '='
    ensures FirstPad([c] + t) == 1 + FirstPad(t)
  {
  }

  lemma {:induction false} FirstPadAfterQuad(q: string, t: string)
    requires |q| == 4 && AllInAlphabet(q)
    ensures FirstPad(q + t) == 4 + FirstPad(t)
  {
    hide FirstPad;
    FirstPadSkips(q[3], t);
    FirstPadSkips(q[2], [q[3]] + t);
    FirstPadSkips(q[1], [q[2]] + ([q[3]] + t));
    FirstPadSkips(q[0], [q[1]] + ([q[2]] + ([q[3]] + t)));
    assert q + t == [q[0]] + ([q[1]] + ([q[2]] + ([q[3]] + t)));
  }

  /** A quantum of four alphabet characters in front only adds its three bytes. */
  lemma DecodeQuad(q: string, t: string)
    requires |q| == 4 && AllInAlphabet(q) && |t| % 4 == 0 && (t == [] || t[0] != '=')
    ensures Decode(t).Some?
    ensures Decode(q + t) == Some(QuadBytes(q[0], q[1], q[2], q[3]) + Decode(t).value)
  {
    hide Decode, Quads, QuadBytes, Rest, Whole, Pads, Size, FirstPad, Value;
    FirstPadAfterQuad(q, t);
    FirstPadZero(t);
    var u := FirstPad(t);
    var k := WholeNext(u, |t|);
    DecodeIs(t);
    DecodeIs(q + t);
    RestShifts(q, t, k, Pads(u, |t|));
    assert (q + t)[..4 * (k + 1)] == q + t[..4 * k];
    QuadsConcat(q, t[..4 * k]);
    QuadAlone(q);
    Assoc(QuadBytes(q[0], q[1], q[2], q[3]), Quads(t[..4 * k]), Rest(t, k, Pads(u, |t|)));
  }

  lemma WholeNext(u: nat, length: nat) returns (k: nat)
    requires u <= length && length % 4 == 0 && (u == 0 ==> length == 0)
    ensures k == Whole(u, Pads(u, length)) && Whole(u + 4, Pads(u + 4, length + 4)) == k + 1
    ensures Pads(u + 4, length + 4) == Pads(u, length)
    ensures Size(u, Pads(u, length)) >= 0 && Size(u + 4, Pads(u, length)) >= 0
    ensures var a := Pads(u, length); 4 * k + (if a == 1 then 3 else if a == 2 then 2 else 0) <= u
  {
    k := Whole(u, Pads(u, length));
    Room(u, length);
    Room(u + 4, length + 4);
  }

  lemma {:induction false} DecodeIs(t: string)
    requires |t| % 4 == 0 && Size(FirstPad(t), Pads(FirstPad(t), |t|)) >= 0
    ensures var a := Pads(FirstPad(t), |t|);
            var k := Whole(FirstPad(t), a);
            && 4 * k + (if a == 1 then 3 else if a == 2 then 2 else 0) <= |t|
            && Decode(t) == Some(Quads(t[..4 * k]) + Rest(t, k, a))
  {
    hide Quads, Rest, FirstPad;
    Room(FirstPad(t), |t|);
  }

  lemma {:induction false} FirstPadZero(t: string)
    ensures FirstPad(t) == 0 <==> t == [] || t[0] == '='
  {
  }

  lemma RestShifts(q: string, t: string, k: nat, pads: nat)
    requires |q| == 4
    requires 4 * k + (if pads == 1 then 3 else if pads == 2 then 2 else 0) <= |t|
    ensures Rest(q + t, k + 1, pads) == Rest(t, k, pads)
  {
    hide ThreeChars, TwoChars;
    assert forall i :: 0 <= i < |t| ==> (q + t)[4 + i] == t[i];
  }

  lemma {:induction false} QuadAlone(q: string)
    requires |q| == 4
    ensures Quads(q) == QuadBytes(q[0], q[1], q[2], q[3])
  {
    assert Quads(q[4..]) == [];
  }

  lemma GroupRoundTrip(a: Byte, b: Byte, c: Byte)
    ensures var g := Group(a, b, c);
            |g| == 4 && AllInAlphabet(g) && QuadBytes(g[0], g[1], g[2], g[3]) == [a, b, c]
  {
    hide Char, Value, InAlphabet;
    var x: nat := a * 65536 + b * 256 + c;
    Sextets(x);
    Octets(a, b, c);
    CharValue(x / 262144 % 64);
    CharValue(x / 4096 % 64);
    CharValue(x / 64 % 64);
    CharValue(x % 64);
  }

  lemma Sextets(x: nat)
    requires x < 0x100_0000
    ensures x == x / 262144 % 64 * 262144 + x / 4096 % 64 * 4096 + x / 64 % 64 * 64 + x % 64
  {
    var p := x / 64;
    var q := p / 64;
    var r := q / 64;
    assert q == x / 4096 && r == x / 262144;
    assert x == 64 * p + x % 64 && p == 64 * q + p % 64 && q == 64 * r + q % 64;
  }

  lemma Octets(a: nat, b: nat, c: nat)
    requires a < 256 && b < 256 && c < 256
    ensures var x := a * 65536 + b * 256 + c; x / 65536 % 256 == a && x / 256 % 256 == b && x % 256 == c
  {
    var x := a * 65536 + b * 256 + c;
    assert x / 256 == a * 256 + b;
  }

  lemma DecodeTwoChars(a: char, b: char)
    requires a != '=' && b != '='
    ensures Decode([a, b, '=', '=']) == Some(TwoChars(a, b))
  {
    hide TwoChars, Quads;
    var t := [a, b, '=', '='];
    FirstPadSkips(b, ['=', '=']);
    FirstPadSkips(a, [b] + ['=', '=']);
    assert t == [a] + ([b] + ['=', '=']);
    NoQuads(t);
    assert [] + TwoChars(a, b) == TwoChars(a, b);
  }

  lemma DecodeThreeChars(a: char, b: char, c: char)
    requires a != '=' && b != '=' && c != '='
    ensures Decode([a, b, c, '=']) == Some(ThreeChars(a, b, c))
  {
    hide ThreeChars, Quads;
    var t := [a, b, c, '='];
    FirstPadSkips(c, ['=']);
    FirstPadSkips(b, [c] + ['=']);
    FirstPadSkips(a, [b] + ([c] + ['=']));
    assert t == [a] + ([b] + ([c] + ['=']));
    NoQuads(t);
    assert [] + ThreeChars(a, b, c) == ThreeChars(a, b, c);
  }

  lemma NoQuads(t: string)
    ensures Quads(t[..0]) == []
  {
  }

  // The bits of the last quanta.

  lemma Digits(x: nat, p: nat, q: nat, r: nat)
    requires x == 4096 * p + 64 * q + r && p < 64 && q < 64 && r < 64
    ensures x / 4096 % 64 == p && x / 64 % 64 == q && x % 64 == r
  {
    assert x / 64 == 64 * p + q;
    assert x / 4096 == p;
  }

  lemma OneByteBits(a: nat)
    requires a < 256
    ensures a * 16 / 64 % 64 == a / 4 && a * 16 % 64 == a % 4 * 16
  {
    Digits(a * 16, 0, a / 4, a % 4 * 16);
  }

  lemma TwoByteBits(a: nat, b: nat)
    requires a < 256 && b < 256
    ensures var x := (a * 256 + b) * 4;
            x / 4096 % 64 == a / 4 && x / 64 % 64 == a % 4 * 16 + b / 16 && x % 64 == b % 16 * 4
  {
    Digits((a * 256 + b) * 4, a / 4, a % 4 * 16 + b / 16, b % 16 * 4);
  }

  lemma OneByteBack(a: nat)
    requires a < 256
    ensures (a / 4 * 4 + a % 4 * 16 / 16) % 256 == a
  {
  }

  lemma TwoBytesBack(a: nat, b: nat)
    requires a < 256 && b < 256
    ensures var e := a / 4 * 1024 + (a % 4 * 16 + b / 16) * 16 + b % 16 * 4 / 4;
            e / 256 % 256 == a && e % 256 == b
  {
    assert a / 4 * 1024 + (a % 4 * 16 + b / 16) * 16 + b % 16 * 4 / 4 == a * 256 + b;
  }

  lemma LastOneShape(a: Byte)
    ensures LastOne(a) == [Char(a / 4), Char(a as nat % 4 * 16), '=', '=']
  {
    OneByteBits(a);
    hide Char;
  }

  lemma LastTwoShape(a: Byte, b: Byte)
    ensures LastTwo(a, b) == [Char(a / 4), Char(a as nat % 4 * 16 + b / 16), Char(b as nat % 16 * 4), '=']
  {
    TwoByteBits(a, b);
    hide Char;
  }

  lemma LastOneDecodes(a: Byte)
    ensures Decode(LastOne(a)) == Some([a])
  {
    hide Char, Value, Decode, LastOne;
    LastOneShape(a);
    CharValue(a / 4);
    CharValue(a as nat % 4 * 16);
    DecodeTwoChars(Char(a / 4), Char(a as nat % 4 * 16));
    OneByteBack(a);
  }

  lemma LastTwoDecodes(a: Byte, b: Byte)
    ensures Decode(LastTwo(a, b)) == Some([a, b])
  {
    hide Char, Value, Decode, LastTwo;
    LastTwoShape(a, b);
    CharValue(a / 4);
    CharValue(a as nat % 4 * 16 + b / 16);
    CharValue(b as nat % 16 * 4);
    DecodeThreeChars(Char(a / 4), Char(a as nat % 4 * 16 + b / 16), Char(b as nat % 16 * 4));
    TwoBytesBack(a, b);
  }

  lemma LastIsCanonical(a: Byte, b: Byte)
    ensures Canonical(LastOne(a)) && Canonical(LastTwo(a, b))
    ensures |LastOne(a)| == |LastTwo(a, b)| == 4 && LastOne(a)[0] != '=' && LastTwo(a, b)[0] != '='
  {
    hide Char, Value, LastOne, LastTwo, InAlphabet;
    LastOneShape(a);
    LastTwoShape(a, b);
    CharValue(a / 4);
    CharValue(a as nat % 4 * 16);
    CharValue(a as nat % 4 * 16 + b / 16);
    CharValue(b as nat % 16 * 4);
    PadIsNoChar();
  }

  lemma PadIsNoChar()
    ensures !InAlphabet('=')
  {
  }

  /** Decoding what was encoded gives back every byte array. */
  lemma {:induction false} DecodeAfterEncode(b: seq<Byte>)
    ensures |Encode(b)| % 4 == 0 && (Encode(b) == [] || Encode(b)[0] != '=')
    ensures Decode(Encode(b)) == Some(b)
  {
    hide Decode, Group, LastOne, LastTwo, Encode;
    EncodeCases(b);
    if b == [] {
      NothingDecoded();
    } else if |b| == 1 {
      LastOneDecodes(b[0]);
      LastIsCanonical(b[0], 0);
    } else if |b| == 2 {
      LastTwoDecodes(b[0], b[1]);
      LastIsCanonical(b[0], b[1]);
    } else {
      DecodeAfterEncode(b[3..]);
      DecodeGroup(b);
    }
  }

  lemma {:induction false} EncodeCases(b: seq<Byte>)
    ensures b == [] ==> Encode(b) == []
    ensures |b| == 1 ==> Encode(b) == LastOne(b[0]) && b == [b[0]]
    ensures |b| == 2 ==> Encode(b) == LastTwo(b[0], b[1]) && b == [b[0], b[1]]
    ensures |b| > 2 ==> Encode(b) == Group(b[0], b[1], b[2]) + Encode(b[3..])
  {
    hide Group, LastOne, LastTwo;
  }

  lemma {:induction false} DecodeGroup(b: seq<Byte>)
    requires |b| > 2
    requires var rest := Encode(b[3..]);
             |rest| % 4 == 0 && (rest == [] || rest[0] != '=') && Decode(rest) == Some(b[3..])
    ensures |Encode(b)| % 4 == 0 && Encode(b)[0] != '=' && Decode(Encode(b)) == Some(b)
  {
    hide Decode, Group, Encode, QuadBytes;
    EncodeCases(b);
    GroupRoundTrip(b[0], b[1], b[2]);
    var g, rest := Group(b[0], b[1], b[2]), Encode(b[3..]);
    DecodeQuad(g, rest);
    NoPad(g);
    assert b == [b[0], b[1], b[2]] + b[3..];
    assert (g + rest)[0] == g[0];
  }

  lemma NoPad(q: string)
    requires AllInAlphabet(q)
    ensures q != [] ==> q[0] != '='
  {
  }

  lemma NothingDecoded()
    ensures Decode([]) == Some([])
  {
    assert Quads([]) + Rest([], 0, 0) == [];
  }

  /** Alphabet characters in quanta of four; the last one may end in = or ==, and then the bits
      that fill it up are zero. */
  predicate Canonical(t: string) {
    if t == [] then true
    else if |t| < 4 then false
    else if |t| == 4 then CanonicalLast(t[0], t[1], t[2], t[3])
    else AllInAlphabet(t[..4]) && Canonical(t[4..])
  }

  predicate CanonicalLast(a: char, b: char, c: char, d: char) {
    && InAlphabet(a) && InAlphabet(b)
    && if InAlphabet(c) then InAlphabet(d) || (d == '=' && Value(c) % 4 == 0)
       else c == '=' && d == '=' && Value(b) % 16 == 0
  }

  lemma {:induction false} EncodeIsCanonical(b: seq<Byte>)
    ensures Canonical(Encode(b))
  {
    hide Value, Group, LastOne, LastTwo;
    if |b| == 1 {
      LastIsCanonical(b[0], 0);
    } else if |b| == 2 {
      LastIsCanonical(b[0], b[1]);
    } else if |b| > 2 {
      EncodeIsCanonical(b[3..]);
      GroupRoundTrip(b[0], b[1], b[2]);
      var t, g := Encode(b), Group(b[0], b[1], b[2]);
      assert t[..4] == g && t[4..] == Encode(b[3..]);
    }
  }

  lemma QuadReencodes(a: char, b: char, c: char, d: char)
    requires InAlphabet(a) && InAlphabet(b) && InAlphabet(c) && InAlphabet(d)
    ensures var y := QuadBytes(a, b, c, d); Group(y[0], y[1], y[2]) == [a, b, c, d]
  {
    hide Char, Value, InAlphabet;
    ValueChar(a);
    ValueChar(b);
    ValueChar(c);
    ValueChar(d);
    Resplit(Value(a), Value(b), Value(c), Value(d));
  }

  lemma Resplit(p: nat, q: nat, r: nat, s: nat)
    requires p < 64 && q < 64 && r < 64 && s < 64
    ensures var e := p * 262144 + q * 4096 + r * 64 + s;
            var x := e / 65536 % 256 * 65536 + e / 256 % 256 * 256 + e % 256;
            x / 262144 % 64 == p && x / 4096 % 64 == q && x / 64 % 64 == r && x % 64 == s
  {
    var e := p * 262144 + q * 4096 + r * 64 + s;
    Rebytes(e);
    Quotients(p, q, r, s, e);
  }

  lemma Quotients(p: nat, q: nat, r: nat, s: nat, e: nat)
    requires p < 64 && q < 64 && r < 64 && s < 64 && e == p * 262144 + q * 4096 + r * 64 + s
    ensures e / 262144 % 64 == p && e / 4096 % 64 == q && e / 64 % 64 == r && e % 64 == s
  {
    assert e / 64 == p * 4096 + q * 64 + r;
    assert e / 4096 == p * 64 + q;
    assert e / 262144 == p;
  }

  lemma Rebytes(e: nat)
    requires e < 0x100_0000
    ensures e / 65536 % 256 * 65536 + e / 256 % 256 * 256 + e % 256 == e
  {
    var y := e / 256;
    assert e == 256 * y + e % 256 && y == 256 * (y / 256) + y % 256;
    assert y / 256 == e / 65536 < 256;
  }

  lemma ThreeReencode(a: char, b: char, c: char)
    requires InAlphabet(a) && InAlphabet(b) && InAlphabet(c) && Value(c) % 4 == 0
    ensures var y := ThreeChars(a, b, c); LastTwo(y[0], y[1]) == [a, b, c, '=']
  {
    hide Char, Value, InAlphabet;
    ValueChar(a);
    ValueChar(b);
    ValueChar(c);
    ResplitTwo(Value(a), Value(b), Value(c));
  }

  lemma ResplitTwo(p: nat, q: nat, r: nat)
    requires p < 64 && q < 64 && r < 64 && r % 4 == 0
    ensures var e := p * 1024 + q * 16 + r / 4;
            var x := (e / 256 % 256 * 256 + e % 256) * 4;
            x / 4096 % 64 == p && x / 64 % 64 == q && x % 64 == r
  {
    var e := p * 1024 + q * 16 + r / 4;
    assert e / 256 < 256 && e == 256 * (e / 256) + e % 256;
    Digits(e * 4, p, q, r);
  }

  lemma TwoReencode(a: char, b: char)
    requires InAlphabet(a) && InAlphabet(b) && Value(b) % 16 == 0
    ensures LastOne(TwoChars(a, b)[0]) == [a, b, '=', '=']
  {
    hide Char, Value, InAlphabet, LastOne;
    ValueChar(a);
    ValueChar(b);
    var y := TwoChars(a, b)[0];
    OneByteSplit(Value(a), Value(b), y);
    LastOneShape(y);
  }

  lemma OneByteSplit(p: nat, q: nat, y: nat)
    requires p < 64 && q < 64 && q % 16 == 0 && y == (p * 4 + q / 16) % 256
    ensures y / 4 == p && y % 4 * 16 == q
  {
    assert y == p * 4 + q / 16;
  }

  lemma {:induction false} CanonicalReencodes(t: string)
    requires Canonical(t)
    ensures |t| % 4 == 0 && (t == [] || t[0] != '=')
    ensures Decode(t).Some? && Encode(Decode(t).value) == t
  {
    if t == [] {
      NothingDecoded();
    } else if |t| == 4 {
      LastReencodes(t);
    } else {
      CanonicalReencodes(t[4..]);
      QuadFirst(t[..4], t[4..]);
      assert t == t[..4] + t[4..];
    }
  }

  lemma QuadFirst(q: string, t: string)
    requires |q| == 4 && AllInAlphabet(q) && |t| % 4 == 0 && (t == [] || t[0] != '=')
    requires Decode(t).Some? && Encode(Decode(t).value) == t
    ensures Decode(q + t).Some? && Encode(Decode(q + t).value) == q + t
    ensures (q + t)[0] != '='
  {
    hide Decode, QuadBytes, Group;
    DecodeQuad(q, t);
    QuadReencodes(q[0], q[1], q[2], q[3]);
    var y, rest := QuadBytes(q[0], q[1], q[2], q[3]), Decode(t).value;
    assert (y + rest)[3..] == rest;
    assert q == [q[0], q[1], q[2], q[3]];
  }

  lemma LastReencodes(t: string)
    requires |t| == 4 && CanonicalLast(t[0], t[1], t[2], t[3])
    ensures t[0] != '=' && Decode(t).Some? && Encode(Decode(t).value) == t
  {
    hide Decode, QuadBytes, ThreeChars, TwoChars, Group, LastOne, LastTwo, Value;
    assert t == [t[0], t[1], t[2], t[3]];
    if InAlphabet(t[2]) && InAlphabet(t[3]) {
      NothingDecoded();
      assert t == t + [];
      QuadFirst(t, []);
    } else if InAlphabet(t[2]) {
      DecodeThreeChars(t[0], t[1], t[2]);
      ThreeReencode(t[0], t[1], t[2]);
    } else {
      DecodeTwoChars(t[0], t[1]);
      TwoReencode(t[0], t[1]);
    }
  }

  /** Encoding what was decoded gives back exactly the canonical strings. */
  lemma {:induction false} EncodeAfterDecode(t: string)
    ensures Decode(t).Some? && Encode(Decode(t).value) == t <==> Canonical(t)
  {
    if Canonical(t) {
      CanonicalReencodes(t);
    } else if Decode(t).Some? {
      EncodeIsCanonical(Decode(t).value);
    }
  }

  /** byteLength is the length of what toByteArray returns, which fails exactly for lengths that
      are not multiples of four and for strings that start with the padding character. */
  lemma ByteLengthIsLength(t: string)
    ensures ByteLength(t).Some? <==> |t| % 4 == 0
    ensures Decode(t).Some? <==> |t| % 4 == 0 && (t == [] || t[0] != '=')
    ensures Decode(t).Some? ==> ByteLength(t) == Some(|Decode(t).value|)
  {
    var u := FirstPad(t);
    FirstPadZero(t);
    if |t| % 4 == 0 {
      Room(u, |t|);
      QuadsLength(t[..4 * Whole(u, Pads(u, |t|))]);
    }
    hide Quads, FirstPad, ThreeChars, TwoChars;
  }

  lemma {:induction false} QuadsAt(t: string, k: nat)
    requires |t| % 4 == 0 && 4 * k + 4 <= |t|
    ensures |Quads(t)| >= 3 * k + 3
    ensures Quads(t)[3 * k..3 * k + 3] == QuadBytes(t[4 * k], t[4 * k + 1], t[4 * k + 2], t[4 * k + 3])
  {
    hide QuadBytes;
    var head, rest := QuadBytes(t[0], t[1], t[2], t[3]), Quads(t[4..]);
    assert Quads(t) == head + rest;
    hide Quads;
    if k == 0 {
      SliceBehind(head, rest, 0);
    } else {
      QuadsAt(t[4..], k - 1);
      SliceBehind(head, rest, 3 * (k - 1));
    }
  }

  lemma SliceBehind(head: seq<Byte>, rest: seq<Byte>, at: nat)
    requires |head| == 3
    ensures (head + rest)[0..3] == head
    ensures at + 3 <= |rest| ==> (head + rest)[at + 3..at + 6] == rest[at..at + 3]
  {
  }

  /** Three bytes, in base 256, are the values of four characters in base 64. */
  predicate IsQuad(x: nat, y: nat, z: nat, a: char, b: char, c: char, d: char) {
    x * 0x1_0000 + y * 0x100 + z
    == (Value(a) as nat) * 0x4_0000 + (Value(b) as nat) * 0x1000 + (Value(c) as nat) * 0x40 + Value(d) as nat
  }

  lemma QuadIsNumber(a: char, b: char, c: char, d: char)
    ensures var r := QuadBytes(a, b, c, d); IsQuad(r[0], r[1], r[2], a, b, c, d)
  {
    hide Value;
    BytesOf(Value(d) + Value(c) * 64 as nat + Value(b) * 4096 as nat + Value(a) * 262144 as nat);
  }

  lemma BytesOf(e: nat)
    requires e < 0x100_0000
    ensures e / 65536 % 256 * 0x1_0000 + e / 256 % 256 * 0x100 + e % 256 == e
  {
    assert e / 256 == 256 * (e / 65536) + e / 256 % 256;
  }

  /** Quantum k of a string that decodes stands for bytes 3k to 3k + 2, whatever its characters are.
      If a whole quantum follows that starts with the padding character, it yields two zero bytes, and
      the quantum before it none. */
  lemma {:induction false} DecodedQuanta(t: string, k: nat)
    requires Decode(t).Some?
    ensures var u, d := FirstPad(t), Decode(t).value;
            && (u < |t| && u % 4 == 0 ==> |d| == 3 * (u / 4 - 1) + 2 && d[|d| - 2..] == [0, 0])
            && (4 * k + 4 <= u && (u < |t| && u % 4 == 0 ==> 4 * k + 8 <= u) ==>
                  3 * k + 3 <= |d|
                  && IsQuad(d[3 * k], d[3 * k + 1], d[3 * k + 2], t[4 * k], t[4 * k + 1], t[4 * k + 2], t[4 * k + 3]))
  {
    hide QuadBytes, IsQuad, TwoChars, ThreeChars, Quads, FirstPad;
    var u := FirstPad(t);
    ByteLengthIsLength(t);
    Room(u, |t|);
    var w := Whole(u, Pads(u, |t|));
    FirstPadZero(t);
    QuadsLength(t[..4 * w]);
    if 4 * k + 4 <= u && k < w {
      QuadsAt(t[..4 * w], k);
      QuadIsNumber(t[4 * k], t[4 * k + 1], t[4 * k + 2], t[4 * k + 3]);
      var r, q := Quads(t[..4 * w]), QuadBytes(t[4 * k], t[4 * k + 1], t[4 * k + 2], t[4 * k + 3]);
      assert r[3 * k..3 * k + 3][0] == q[0] && r[3 * k..3 * k + 3][1] == q[1] && r[3 * k..3 * k + 3][2] == q[2];
    }
  }

  /** A string on which byteLength is negative and toByteArray throws. */
  lemma PaddingOnlyExample()
    ensures ByteLength("====") == Some(-1) && Decode("====") == None
  {
    FirstPadZero("====");
  }
}
