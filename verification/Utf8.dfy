/** The buffer's UTF-8 encoder and decoder (q and D of module 8764).

    Bit operations on small non-negative numbers are written as the arithmetic they perform:
    x & 63 is x % 64, x >> 6 is x / 64, and | of two numbers without common bits is their sum. */
module Utf8 {
  import opened Wrappers

  type Unit = x: nat | x < 0x1_0000
  /** A Unicode scalar value: a code point that is not a surrogate (RFC 3629, section 3). */
  type Scalar = x: nat | x < 0x11_0000 && !(0xD800 <= x <= 0xDFFF)

  const REPLACEMENT: Scalar := 0xFFFD

  predicate IsLead(u: Unit) { 0xD800 <= u <= 0xDBFF }
  predicate IsTrail(u: Unit) { 0xDC00 <= u <= 0xDFFF }
  predicate IsSurrogate(u: Unit) { 0xD800 <= u <= 0xDFFF }

  // ----- the two encoding forms, one code point at a time -----

  /** The bytes of one code point: the table of RFC 3629, section 3. */
  function PointBytes(c: Scalar): (b: seq<Byte>)
    ensures 1 <= |b| <= 4
  {
    if c < 0x80 then [c]
    else if c < 0x800 then [c / 64 + 192, c % 64 + 128]
    else if c < 0x1_0000 then [c / 4096 + 224, c / 64 % 64 + 128, c % 64 + 128]
    else [c / 262144 + 240, c / 4096 % 64 + 128, c / 64 % 64 + 128, c % 64 + 128]
  }

  /** The UTF-16 code units of one code point. */
  function PointUnits(c: Scalar): (s: seq<Unit>)
    ensures 1 <= |s| <= 2
  {
    if c < 0x1_0000 then [c]
    else var o := c - 0x1_0000; [o / 1024 % 1024 + 0xD800, o % 1024 + 0xDC00]
  }

  function Bytes(points: seq<Scalar>): seq<Byte> {
    if points == [] then [] else PointBytes(points[0]) + Bytes(points[1..])
  }

  function Units(points: seq<Scalar>): seq<Unit> {
    if points == [] then [] else PointUnits(points[0]) + Units(points[1..])
  }

  // ----- the encoder -----

  function Combine(lead: Unit, trail: Unit): (c: Scalar)
    requires IsLead(lead) && IsTrail(trail)
    ensures PointUnits(c) == [lead, trail]
  {
    0x1_0000 + (lead - 0xD800) * 1024 + (trail - 0xDC00)
  }

  /** The code points the encoder emits for the rest of a string, given the lead surrogate it
      still holds.  A lead that is still held when the string ends is not emitted. */
  function Points(s: seq<Unit>, held: Option<Unit>): seq<Scalar>
    requires held.Some? ==> IsLead(held.value)
  {
    if s == [] then []
    else
      var u := s[0];
      if IsSurrogate(u) then
        if held.None? then
          if IsTrail(u) || |s| == 1 then [REPLACEMENT] + Points(s[1..], None)
          else Points(s[1..], Some(u))
        else if IsLead(u) then [REPLACEMENT] + Points(s[1..], Some(u))
        else [Combine(held.value, u)] + Points(s[1..], None)
      else (if held.Some? then [REPLACEMENT] else []) + [u] + Points(s[1..], None)
  }

  /** The bytes of the longest run of leading code points that fit into the budget, where the
      first one that does not fit ends the run; None is no limit. */
  function Fitting(points: seq<Scalar>, budget: Option<int>): seq<Byte> {
    if points == [] then []
    else
      var b := PointBytes(points[0]);
      if budget.None? then b + Fitting(points[1..], None)
      else if budget.value - |b| < 0 then []
      else b + Fitting(points[1..], Some(budget.value - |b|))
  }

  /** The source's budget: a limit of zero counts as none. */
  function Budget(limit: int): Option<int> {
    if limit == 0 then None else Some(limit)
  }

  function Spend(budget: Option<int>, n: int): Option<int> {
    if budget.None? then None else Some(budget.value - n)
  }

  predicate Allows(budget: Option<int>) {
    budget.None? || budget.value > -1
  }

  /** The bytes emitted so far and those still to come make up the total. */
  ghost predicate Remains(o: seq<Byte>, points: seq<Scalar>, budget: Option<int>, total: seq<Byte>) {
    o + Fitting(points, budget) == total
  }

  /** What emitting, or failing to emit, the next code point does to the bytes still to come. */
  lemma EmitOne(o: seq<Byte>, c: Scalar, points: seq<Scalar>, budget: Option<int>, total: seq<Byte>)
    requires Remains(o, [c] + points, budget, total)
    ensures var rest := Spend(budget, |PointBytes(c)|);
      if Allows(rest) then Remains(o + PointBytes(c), points, rest, total)
      else o == total && Remains(o, points, rest, total)
  {
    hide PointBytes;
    var rest := Spend(budget, |PointBytes(c)|);
    assert ([c] + points)[1..] == points;
    if Allows(rest) {
      assert (o + PointBytes(c)) + Fitting(points, rest) == o + (PointBytes(c) + Fitting(points, rest));
    } else {
      assert o + [] == o;
    }
  }

  // The encoder's next step on the rest of a string, branch by branch.

  lemma StepLone(s: seq<Unit>, u: nat)
    requires u < |s| && IsSurrogate(s[u]) && (IsTrail(s[u]) || u + 1 == |s|)
    ensures Points(s[u..], None) == [REPLACEMENT] + Points(s[u + 1..], None)
  {
    assert s[u..][1..] == s[u + 1..];
  }

  lemma StepHold(s: seq<Unit>, u: nat)
    requires u < |s| && IsLead(s[u]) && u + 1 < |s|
    ensures Points(s[u..], None) == Points(s[u + 1..], Some(s[u]))
  {
    assert s[u..][1..] == s[u + 1..];
  }

  lemma StepReplaceHeld(s: seq<Unit>, u: nat, held: Unit)
    requires u < |s| && IsLead(held) && IsLead(s[u])
    ensures Points(s[u..], Some(held)) == [REPLACEMENT] + Points(s[u + 1..], Some(s[u]))
  {
    assert s[u..][1..] == s[u + 1..];
  }

  lemma StepPair(s: seq<Unit>, u: nat, held: Unit)
    requires u < |s| && IsLead(held) && IsTrail(s[u])
    ensures var c := 65536 + (held - 55296) * 1024 + (s[u] - 56320);
      0x1_0000 <= c < 0x11_0000 && Points(s[u..], Some(held)) == [c] + Points(s[u + 1..], None)
  {
    assert s[u..][1..] == s[u + 1..];
  }

  lemma {:induction false} StepPlain(s: seq<Unit>, u: nat, held: Option<Unit>)
    requires u < |s| && !IsSurrogate(s[u]) && (held.Some? ==> IsLead(held.value))
    ensures Points(s[u..], held) ==
      if held.Some? then [REPLACEMENT] + ([s[u]] + Points(s[u + 1..], None)) else [s[u]] + Points(s[u + 1..], None)
  {
    assert s[u..][1..] == s[u + 1..];
  }

  /** Writes the replacement character if three more bytes are within the budget. */
  method EmitReplacement(o: seq<Byte>, e: Option<int>) returns (o': seq<Byte>, e': Option<int>)
    ensures e' == Spend(e, |PointBytes(REPLACEMENT)|)
    ensures o' == if Allows(e') then o + PointBytes(REPLACEMENT) else o
  {
    e' := Spend(e, 3);
    o' := if Allows(e') then o + [239, 191, 189] else o;
  }

  /** The four branches at the end of q's loop; the loop stops when the code point does not fit. */
  method EmitPoint(o: seq<Byte>, e: Option<int>, r: Scalar) returns (o': seq<Byte>, e': Option<int>, fits: bool)
    ensures e' == Spend(e, |PointBytes(r)|) && fits == Allows(e')
    ensures o' == if fits then o + PointBytes(r) else o
  {
    o' := o;
    if r < 128 {
      e' := Spend(e, 1);
      if !Allows(e') { return o, e', false; }
      o' := o + [r];
    } else if r < 2048 {
      e' := Spend(e, 2);
      if !Allows(e') { return o, e', false; }
      o' := o + [r / 64 + 192, r % 64 + 128];
    } else if r < 65536 {
      e' := Spend(e, 3);
      if !Allows(e') { return o, e', false; }
      o' := o + [r / 4096 + 224, r / 64 % 64 + 128, r % 64 + 128];
    } else {
      e' := Spend(e, 4);
      if !Allows(e') { return o, e', false; }
      o' := o + [r / 262144 + 240, r / 4096 % 64 + 128, r / 64 % 64 + 128, r % 64 + 128];
    }
    fits := true;
  }

  /** One pass through q's loop, at a surrogate: replaces a lone one, or keeps a lead to see what
      follows, or (found) completes a pair. */
  method EncodeSurrogate(s: seq<Unit>, u: nat, i: Option<Unit>, o: seq<Byte>, e: Option<int>, ghost total: seq<Byte>)
      returns (i': Option<Unit>, o': seq<Byte>, e': Option<int>, found: bool, r: nat)
    requires u < |s| && IsSurrogate(s[u]) && (i.Some? ==> IsLead(i.value))
    requires Remains(o, Points(s[u..], i), e, total)
    ensures i'.Some? ==> IsLead(i'.value)
    ensures !found ==> Remains(o', Points(s[u + 1..], i'), e', total)
    ensures found ==> 0x1_0000 <= r < 0x11_0000 && i' == None
                      && Remains(o', [r] + Points(s[u + 1..], None), e', total)
  {
    hide Fitting, Points, PointBytes, Spend, Allows, Remains;
    i', o', e', found, r := i, o, e, false, s[u];
    if i.None? {
      if r > 56319 || u + 1 == |s| {
        StepLone(s, u);
        EmitOne(o, REPLACEMENT, Points(s[u + 1..], None), e, total);
        o', e' := EmitReplacement(o, e);
        return;
      }
      StepHold(s, u);
      i' := Some(r);
      return;
    }
    if r < 56320 {
      StepReplaceHeld(s, u, i.value);
      EmitOne(o, REPLACEMENT, Points(s[u + 1..], Some(r)), e, total);
      o', e' := EmitReplacement(o, e);
      i' := Some(r);
      return;
    }
    StepPair(s, u, i.value);
    i', found, r := None, true, 65536 + (i.value - 55296) * 1024 + (r - 56320);
  }

  /** The source's q: encodes a string, up to a limit on the number of bytes. */
  method Encode(s: seq<Unit>, limit: int) returns (o: seq<Byte>)
    ensures limit == 0 ==> o == Bytes(Points(s, None))
    ensures limit != 0 ==> exists k: nat :: LongestWithin(o, Points(s, None), limit, k)
  {
    LimitApplies(s, limit);
    ghost var total: seq<Byte> := Fitting(Points(s, None), Budget(limit));
    var e := Budget(limit);
    StartEncoding(s, e);
    hide Fitting, Points, Combine, PointBytes, Spend, Allows, Budget, Remains, LongestWithin, Bytes;
    var i: Option<Unit> := None;
    o := [];
    var u, fits := 0, true;
    while u < |s| && fits
      invariant 0 <= u <= |s|
      invariant i.Some? ==> IsLead(i.value)
      invariant if fits then Remains(o, Points(s[u..], i), e, total) else o == total
    {
      var r: nat, ready := s[u], true;
      if 55295 < r < 57344 {
        i, o, e, ready, r := EncodeSurrogate(s, u, i, o, e, total);
      } else {
        StepPlain(s, u, i);
        if i.Some? {
          EmitOne(o, REPLACEMENT, [r] + Points(s[u + 1..], None), e, total);
          o, e := EmitReplacement(o, e);
        }
        i := None;
      }
      if ready {
        EmitOne(o, r, Points(s[u + 1..], None), e, total);
        o, e, fits := EmitPoint(o, e, r);
      }
      u := u + 1;
    }
    if fits {
      NothingToEncode(o, s[|s|..], i, e, total);
    }
  }

  lemma {:induction false} LimitApplies(s: seq<Unit>, limit: int)
    ensures limit == 0 ==> Fitting(Points(s, None), Budget(limit)) == Bytes(Points(s, None))
    ensures limit != 0 ==>
              exists k: nat :: LongestWithin(Fitting(Points(s, None), Budget(limit)), Points(s, None), limit, k)
  {
    var points := Points(s, None);
    hide LongestWithin;
    if limit == 0 {
      FittingAll(points);
    } else {
      var k := FittingIsLongestPrefix(points, limit);
      assert LongestWithin(Fitting(points, Budget(limit)), points, limit, k);
    }
  }

  /** o is the encoding of the first k points: it is within the limit if it is not empty, and with
      one point more it would not be. */
  ghost predicate LongestWithin(o: seq<Byte>, points: seq<Scalar>, limit: int, k: nat) {
    && k <= |points| && o == Bytes(points[..k])
    && (k > 0 ==> |o| <= limit)
    && (k < |points| ==> |Bytes(points[..k + 1])| > limit)
  }

  lemma {:induction false} StartEncoding(s: seq<Unit>, e: Option<int>)
    ensures s[0..] == s && Remains([], Points(s[0..], None), e, Fitting(Points(s, None), e))
  {
    assert s[0..] == s;
    assert [] + Fitting(Points(s, None), e) == Fitting(Points(s, None), e);
  }

  lemma {:induction false} NothingToEncode(o: seq<Byte>, s: seq<Unit>, held: Option<Unit>, budget: Option<int>,
                                           total: seq<Byte>)
    requires s == [] && (held.Some? ==> IsLead(held.value))
    requires Remains(o, Points(s, held), budget, total)
    ensures o == total
  {
  }

  lemma CombineIs(lead: Unit, trail: Unit)
    requires IsLead(lead) && IsTrail(trail)
    ensures Combine(lead, trail) == 65536 + (lead - 55296) * 1024 + (trail - 56320)
  {
  }

  // ----- the decoder -----

  datatype Step = Step(point: Scalar, length: nat, accepted: bool)

  predicate Continues(r: nat) { r / 64 == 2 }

  // The numbers the decoder assembles from a first byte and its continuation bytes.
  function Two(e: nat, r: nat): nat { e % 32 * 64 + r % 64 }
  function Three(e: nat, r: nat, n: nat): nat { e % 16 * 4096 + r % 64 * 64 + n % 64 }
  function Four(e: nat, r: nat, n: nat, s: nat): nat { e % 16 * 262144 + r % 64 * 4096 + n % 64 * 64 + s % 64 }

  const REJECTED := Step(REPLACEMENT, 1, false)

  /** What the decoder makes of the bytes at hand: a code point of the length its first byte calls
      for, or a replacement for one byte. */
  function DecodeStep(b: seq<Byte>): (step: Step)
    requires b != []
    ensures 1 <= step.length <= |b|
  {
    var e := b[0];
    var u := if e > 239 then 4 else if e > 223 then 3 else if e > 191 then 2 else 1;
    if |b| < u then REJECTED
    else if u == 1 then
      if e < 128 then Step(e, 1, true) else REJECTED
    else if u == 2 then
      var a := Two(e, b[1]);
      if Continues(b[1]) && a > 127 then Step(a, 2, true) else REJECTED
    else if u == 3 then
      var a := Three(e, b[1], b[2]);
      if Continues(b[1]) && Continues(b[2]) && a > 2047 && (a < 55296 || a > 57343) then Step(a, 3, true) else REJECTED
    else
      var a := Four(e, b[1], b[2], b[3]);
      if Continues(b[1]) && Continues(b[2]) && Continues(b[3]) && a > 65535 && a < 1114112 then Step(a, 4, true)
      else REJECTED
  }

  function DecodePoints(b: seq<Byte>): seq<Scalar> {
    if b == [] then []
    else var step := DecodeStep(b); [step.point] + DecodePoints(b[step.length..])
  }

  /** The bytes from start up to end, or to the end of the buffer if that comes first. */
  function Window(t: seq<Byte>, start: nat, end: nat): seq<Byte> {
    var r := if |t| < end then |t| else end;
    if start <= r then t[start..r] else []
  }

  /** The source's D: decodes a window of a buffer into UTF-16 code units. */
  method Decode(t: seq<Byte>, start: nat, end: nat) returns (s: seq<Unit>)
    ensures start <= end <= |t| ==> s == Decoded(t[start..end])
    ensures start <= |t| < end ==> s == Decoded(t[start..])
    ensures start > end || start > |t| ==> s == []
  {
    WindowIs(t, start, end);
    var r := if |t| < end then |t| else end;
    ghost var total := Units(DecodePoints(Window(t, start, end)));
    hide DecodePoints, Units, PointUnits, DecodeStep, StillToDecode;
    var n: seq<Unit> := [];
    var i := start;
    NothingDecoded(t, start, end);
    while i < r
      invariant start <= i
      invariant StillToDecode(n, t, i, end, total)
    {
      var step := DecodeStep(t[i..r]);
      DecodeOne(n, t, i, end, total);
      n := n + PointUnits(step.point);
      i := i + step.length;
    }
    NothingLeft(n, t, i, end, total);
    s := JoinChunks(n);
  }

  lemma WindowIs(t: seq<Byte>, start: nat, end: nat)
    ensures start <= end <= |t| ==> Window(t, start, end) == t[start..end]
    ensures start <= |t| < end ==> Window(t, start, end) == t[start..]
    ensures start > end || start > |t| ==> Window(t, start, end) == [] && Units(DecodePoints([])) == []
  {
  }

  /** n and the decoding of what is left make up the whole. */
  ghost predicate StillToDecode(n: seq<Unit>, t: seq<Byte>, i: nat, end: nat, total: seq<Unit>) {
    n + Units(DecodePoints(Window(t, i, end))) == total
  }

  lemma NothingDecoded(t: seq<Byte>, start: nat, end: nat)
    ensures StillToDecode([], t, start, end, Units(DecodePoints(Window(t, start, end))))
  {
  }

  lemma DecodeOne(n: seq<Unit>, t: seq<Byte>, i: nat, end: nat, total: seq<Unit>)
    requires i < |t| && i < end && StillToDecode(n, t, i, end, total)
    ensures var step := DecodeStep(Window(t, i, end));
            StillToDecode(n + PointUnits(step.point), t, i + step.length, end, total)
  {
    hide PointUnits, Units;
    var b := Window(t, i, end);
    var step := DecodeStep(b);
    var rest := Window(t, i + step.length, end);
    assert b[step.length..] == rest;
    assert DecodePoints(b) == [step.point] + DecodePoints(rest);
    hide DecodeStep, DecodePoints, Window;
    UnitsCons(step.point, DecodePoints(rest));
    assert n + (PointUnits(step.point) + Units(DecodePoints(rest)))
        == (n + PointUnits(step.point)) + Units(DecodePoints(rest));
  }

  lemma NothingLeft(n: seq<Unit>, t: seq<Byte>, i: nat, end: nat, total: seq<Unit>)
    requires (i >= |t| || i >= end) && StillToDecode(n, t, i, end, total)
    ensures n == total
  {
  }

  lemma {:induction false} UnitsCons(c: Scalar, points: seq<Scalar>)
    ensures Units([c] + points) == PointUnits(c) + Units(points)
    ensures Bytes([c] + points) == PointBytes(c) + Bytes(points)
  {
    assert ([c] + points)[1..] == points;
  }

  const MAX_ARGUMENTS_LENGTH := 4096

  /** The tail of D: builds the string in chunks, since a call takes only so many arguments. */
  method JoinChunks(n: seq<Unit>) returns (s: seq<Unit>)
    ensures s == n
  {
    if |n| <= MAX_ARGUMENTS_LENGTH {
      return n;
    }
    s := [];
    var k := 0;
    while k < |n|
      invariant 0 <= k
      invariant s == n[..if k < |n| then k else |n|]
    {
      var end := k + MAX_ARGUMENTS_LENGTH;
      s := s + n[k..if end < |n| then end else |n|];
      k := end;
    }
  }

  // ----- one code point there and back -----

  // The arithmetic of splitting a number into six-bit groups and putting it together again.

  lemma TwoBytes(c: nat)
    requires 0x80 <= c < 0x800
    ensures var e, r := c / 64 + 192, c % 64 + 128; 191 < e <= 223 && Continues(r) && Two(e, r) == c
  {
  }

  lemma ThreeBytes(c: nat)
    requires 0x800 <= c < 0x1_0000
    ensures var e, r, n := c / 4096 + 224, c / 64 % 64 + 128, c % 64 + 128;
      223 < e <= 239 && Continues(r) && Continues(n) && Three(e, r, n) == c
  {
    var h := c / 64;
    assert c == h * 64 + c % 64 && h == h / 64 * 64 + h % 64 && h / 64 == c / 4096;
  }

  lemma FourBytes(c: nat)
    requires 0x1_0000 <= c < 0x11_0000
    ensures var e, r, n, s := c / 262144 + 240, c / 4096 % 64 + 128, c / 64 % 64 + 128, c % 64 + 128;
      239 < e < 256 && Continues(r) && Continues(n) && Continues(s) && Four(e, r, n, s) == c
  {
    var h := c / 64;
    var g := h / 64;
    assert c == h * 64 + c % 64 && h == g * 64 + h % 64 && g == g / 64 * 64 + g % 64;
    assert g == c / 4096 && g / 64 == c / 262144;
  }

  lemma TwoInverse(e: nat, r: nat)
    requires 191 < e <= 223 && Continues(r)
    ensures Two(e, r) / 64 + 192 == e && Two(e, r) % 64 + 128 == r && Two(e, r) < 0x800
  {
  }

  lemma ThreeInverse(e: nat, r: nat, n: nat)
    requires 223 < e <= 239 && Continues(r) && Continues(n)
    ensures var c := Three(e, r, n);
      c / 4096 + 224 == e && c / 64 % 64 + 128 == r && c % 64 + 128 == n && c < 0x1_0000
  {
    var c := Three(e, r, n);
    var h := e % 16 * 64 + r % 64;
    assert c == h * 64 + n % 64;
    assert c / 64 == h && h / 64 == e % 16 && c / 4096 == h / 64;
  }

  lemma FourInverse(e: nat, r: nat, n: nat, s: nat)
    requires 239 < e < 256 && Continues(r) && Continues(n) && Continues(s) && Four(e, r, n, s) < 0x11_0000
    ensures var c := Four(e, r, n, s);
      c / 262144 + 240 == e && c / 4096 % 64 + 128 == r && c / 64 % 64 + 128 == n && c % 64 + 128 == s
  {
    var c := Four(e, r, n, s);
    var g := e % 16 * 64 + r % 64;
    var h := g * 64 + n % 64;
    assert c == h * 64 + s % 64;
    assert c / 64 == h && h / 64 == g && g / 64 == e % 16;
    assert c / 4096 == g && c / 262144 == e % 16;
  }

  /** The decoder reads back what the encoder wrote for one code point, whatever follows. */
  lemma StepOfPoint(c: Scalar, rest: seq<Byte>)
    ensures DecodeStep(PointBytes(c) + rest) == Step(c, |PointBytes(c)|, true)
  {
    hide Two, Three, Four, Continues;
    if c < 0x80 {
    } else if c < 0x800 {
      TwoBytes(c);
    } else if c < 0x1_0000 {
      ThreeBytes(c);
    } else {
      FourBytes(c);
    }
  }

  /** The bytes the decoder accepts as a code point are that code point's encoding: there is no
      second, overlong form. */
  lemma PointOfStep(b: seq<Byte>)
    requires b != [] && DecodeStep(b).accepted
    ensures var step := DecodeStep(b); PointBytes(step.point) == b[..step.length]
  {
    hide Two, Three, Four, Continues;
    var step := DecodeStep(b);
    if step.length == 2 {
      TwoInverse(b[0], b[1]);
    } else if step.length == 3 {
      ThreeInverse(b[0], b[1], b[2]);
    } else if step.length == 4 {
      FourInverse(b[0], b[1], b[2], b[3]);
    }
  }

  // ----- whole strings -----

  /** Valid UTF-8 by the grammar of RFC 3629, section 4: the length of the UTF8-char that the
      bytes begin with, or 0 if they begin with none. */
  function CharLength(b: seq<Byte>): nat {
    if b == [] then 0
    else if b[0] <= 0x7F then 1
    else if |b| >= 2 && 0xC2 <= b[0] <= 0xDF && IsTail(b[1]) then 2
    else if |b| >= 3 && IsTail(b[2])
         && ((b[0] == 0xE0 && 0xA0 <= b[1] <= 0xBF)
             || (0xE1 <= b[0] <= 0xEC && IsTail(b[1]))
             || (b[0] == 0xED && 0x80 <= b[1] <= 0x9F)
             || (0xEE <= b[0] <= 0xEF && IsTail(b[1]))) then 3
    else if |b| >= 4 && IsTail(b[2]) && IsTail(b[3])
         && ((b[0] == 0xF0 && 0x90 <= b[1] <= 0xBF)
             || (0xF1 <= b[0] <= 0xF3 && IsTail(b[1]))
             || (b[0] == 0xF4 && 0x80 <= b[1] <= 0x8F)) then 4
    else 0
  }

  predicate IsTail(x: Byte) { 0x80 <= x <= 0xBF }

  predicate ValidUtf8(b: seq<Byte>) {
    if b == [] then true
    else var n := CharLength(b); n != 0 && n <= |b| && ValidUtf8(b[n..])
  }

  // The ranges the grammar gives for the second byte are the bounds on the assembled number.

  lemma TwoRange(e: nat, r: nat)
    requires 191 < e <= 223 && Continues(r)
    ensures Two(e, r) > 127 <==> e >= 0xC2
  {
  }

  lemma ThreeRange(e: nat, r: nat, n: nat)
    requires 223 < e <= 239 && Continues(r) && Continues(n)
    ensures Three(e, r, n) > 2047 <==> e > 0xE0 || r >= 0xA0
    ensures Three(e, r, n) < 55296 <==> e < 0xED || (e == 0xED && r <= 0x9F)
    ensures Three(e, r, n) > 57343 <==> e > 0xED
  {
  }

  lemma FourRange(e: nat, r: nat, n: nat, s: nat)
    requires 239 < e < 256 && Continues(r) && Continues(n) && Continues(s)
    ensures Four(e, r, n, s) > 65535 <==> e > 0xF0 || r >= 0x90
    ensures Four(e, r, n, s) < 1114112 <==> e < 0xF4 || (e == 0xF4 && r <= 0x8F)
  {
    assert e % 16 == e - 240;
  }

  /** The decoder accepts exactly the characters of the grammar: no overlong forms, no surrogates,
      nothing beyond 10FFFF. */
  lemma StepIsGrammar(b: seq<Byte>)
    requires b != []
    ensures CharLength(b) == if DecodeStep(b).accepted then DecodeStep(b).length else 0
  {
    assert forall x: Byte :: Continues(x) <==> IsTail(x);
    var e := b[0];
    hide Two, Three, Four;
    if 191 < e <= 223 {
      if |b| >= 2 && Continues(b[1]) {
        TwoRange(e, b[1]);
      }
    } else if 223 < e <= 239 {
      if |b| >= 3 && Continues(b[1]) && Continues(b[2]) {
        ThreeRange(e, b[1], b[2]);
      }
    } else if 239 < e {
      if |b| >= 4 && Continues(b[1]) && Continues(b[2]) && Continues(b[3]) {
        FourRange(e, b[1], b[2], b[3]);
      }
    }
  }

  /** A well-formed UTF-16 string: every surrogate is one half of a pair. */
  predicate WellFormed(s: seq<Unit>) {
    if s == [] then true
    else if !IsSurrogate(s[0]) then WellFormed(s[1..])
    else IsLead(s[0]) && |s| >= 2 && IsTrail(s[1]) && WellFormed(s[2..])
  }

  /** What the encoder reads from the code units of code points is those code points. */
  lemma {:induction false} PointsOfUnits(points: seq<Scalar>)
    ensures Points(Units(points), None) == points
  {
    if points == [] {
    } else {
      var c, rest := points[0], Units(points[1..]);
      PointsOfUnits(points[1..]);
      var s := PointUnits(c) + rest;
      if c >= 0x1_0000 {
        PairedUnits(c);
        assert s[1..] == [s[1]] + rest && s[1..][1..] == rest;
        assert Points(s, None) == Points(s[1..], Some(s[0]));
        CombineInverse(c);
      } else {
        assert s[1..] == rest;
      }
    }
  }

  lemma PairedUnits(c: Scalar)
    requires c >= 0x1_0000
    ensures |PointUnits(c)| == 2 && IsLead(PointUnits(c)[0]) && IsTrail(PointUnits(c)[1])
  {
  }

  lemma CombineInverse(c: Scalar)
    requires c >= 0x1_0000
    ensures var s := PointUnits(c); |s| == 2 && IsLead(s[0]) && IsTrail(s[1]) && Combine(s[0], s[1]) == c
  {
    var o: nat := c - 0x1_0000;
    assert o / 1024 < 1024 && o == o / 1024 * 1024 + o % 1024;
    hide Combine;
    CombineIs(PointUnits(c)[0], PointUnits(c)[1]);
  }

  lemma {:induction false} UnitsWellFormed(points: seq<Scalar>)
    ensures WellFormed(Units(points))
  {
    if points == [] {
    } else {
      var c, rest := points[0], Units(points[1..]);
      UnitsWellFormed(points[1..]);
      var s := PointUnits(c) + rest;
      if c >= 0x1_0000 {
        PairedUnits(c);
        assert s[2..] == rest;
      } else {
        assert s[1..] == rest;
      }
    }
  }

  lemma {:induction false} UnitsOfPoints(s: seq<Unit>)
    requires WellFormed(s)
    ensures Units(Points(s, None)) == s
  {
    if s == [] {
    } else {
      if IsSurrogate(s[0]) {
        UnitsOfPoints(s[2..]);
        assert s[1..][1..] == s[2..];
        assert Points(s, None) == Points(s[1..], Some(s[0]));
        UnitsCons(Combine(s[0], s[1]), Points(s[2..], None));
      } else {
        UnitsOfPoints(s[1..]);
        UnitsCons(s[0], Points(s[1..], None));
      }
    }
  }

  lemma {:induction false} DecodeOfBytes(points: seq<Scalar>)
    ensures DecodePoints(Bytes(points)) == points
  {
    if points == [] {
    } else {
      var c, rest := points[0], Bytes(points[1..]);
      DecodeOfBytes(points[1..]);
      StepOfPoint(c, rest);
      hide DecodeStep, PointBytes;
      assert (PointBytes(c) + rest)[|PointBytes(c)|..] == rest;
    }
  }

  lemma {:induction false} FittingAll(points: seq<Scalar>)
    ensures Fitting(points, None) == Bytes(points)
  {
    if points == [] {
    } else {
      FittingAll(points[1..]);
    }
  }

  /** How many bytes the decoder replaced. */
  ghost function Rejected(b: seq<Byte>): nat {
    if b == [] then 0
    else var step := DecodeStep(b); (if step.accepted then 0 else 1) + Rejected(b[step.length..])
  }

  /** One step of the decoder, seen from all sides. */
  lemma {:induction false} StepBytes(b: seq<Byte>)
    requires b != []
    ensures var step := DecodeStep(b); var rest := b[step.length..];
      && Bytes(DecodePoints(b)) == PointBytes(step.point) + Bytes(DecodePoints(rest))
      && if step.accepted then PointBytes(step.point) == b[..step.length]
         else step.length == 1 && |PointBytes(step.point)| == 3
  {
    var step := DecodeStep(b);
    if step.accepted {
      PointOfStep(b);
    } else {
      RejectedStep(b);
    }
    hide DecodeStep, PointBytes;
    UnitsCons(step.point, DecodePoints(b[step.length..]));
  }

  lemma {:induction false} StepValid(b: seq<Byte>)
    requires b != []
    ensures ValidUtf8(b) <==> DecodeStep(b).accepted && ValidUtf8(b[DecodeStep(b).length..])
  {
    StepIsGrammar(b);
    hide DecodeStep, CharLength;
  }

  /** Encoding again what was decoded: every replaced byte grows to three. */
  lemma {:induction false} Reencoded(b: seq<Byte>)
    ensures |Bytes(DecodePoints(b))| == |b| + 2 * Rejected(b)
    ensures Rejected(b) == 0 ==> Bytes(DecodePoints(b)) == b
    ensures ValidUtf8(b) <==> Rejected(b) == 0
    decreases |b|
  {
    NothingReencoded();
    hide DecodeStep, PointBytes, Bytes, DecodePoints, ValidUtf8;
    if b == [] {
    } else {
      StepBytes(b);
      StepValid(b);
      var n := DecodeStep(b).length;
      Reencoded(b[n..]);
      assert b == b[..n] + b[n..];
    }
  }

  lemma NothingReencoded()
    ensures Bytes(DecodePoints([])) == [] && ValidUtf8([])
  {
  }

  lemma RejectedStep(b: seq<Byte>)
    requires b != [] && !DecodeStep(b).accepted
    ensures DecodeStep(b).length == 1 && |PointBytes(DecodeStep(b).point)| == 3
  {
  }

  // ----- the round trips -----

  /** The encoding of any string, without a limit on the bytes. */
  function Encoded(s: seq<Unit>): seq<Byte> {
    Bytes(Points(s, None))
  }

  /** The decoding of a whole buffer. */
  function Decoded(b: seq<Byte>): seq<Unit> {
    Units(DecodePoints(b))
  }

  /** Decoding always yields well-formed UTF-16, and whatever string was encoded, decoding gives
      the code points the encoder read; for a well-formed string that is the string itself. */
  lemma {:induction false} DecodeAfterEncode(s: seq<Unit>)
    ensures Decoded(Encoded(s)) == Units(Points(s, None))
    ensures Decoded(Encoded(s)) == s <==> WellFormed(s)
  {
    FittingAll(Points(s, None));
    DecodeOfBytes(Points(s, None));
    UnitsWellFormed(Points(s, None));
    if WellFormed(s) {
      UnitsOfPoints(s);
    }
  }

  // What a decoded or encoded character is, in numbers.

  /** The number a character's bytes stand for, by the table of RFC 3629, section 3. */
  ghost function Number(b: seq<int>): int {
    if |b| == 1 then b[0]
    else if |b| == 2 then (b[0] - 0xC0) * 0x40 + (b[1] - 0x80)
    else if |b| == 3 then (b[0] - 0xE0) * 0x1000 + (b[1] - 0x80) * 0x40 + (b[2] - 0x80)
    else if |b| == 4 then
      (b[0] - 0xF0) * 0x4_0000 + (b[1] - 0x80) * 0x1000 + (b[2] - 0x80) * 0x40 + (b[3] - 0x80)
    else -1
  }

  /** The number one or two code units stand for, by RFC 2781, section 2.2. */
  ghost function UnitNumber(s: seq<int>): int {
    if |s| == 1 then s[0]
    else if |s| == 2 then 0x1_0000 + (s[0] - 0xD800) * 0x400 + (s[1] - 0xDC00)
    else -1
  }

  lemma PointIsNumber(c: Scalar)
    ensures Number(PointBytes(c)) == c && CharLength(PointBytes(c)) == |PointBytes(c)|
    ensures UnitNumber(PointUnits(c)) == c
    ensures |PointUnits(c)| == 2 ==> IsLead(PointUnits(c)[0]) && IsTrail(PointUnits(c)[1])
  {
    BytesAreNumber(c);
    UnitsAreNumber(c);
    hide PointUnits, UnitNumber;
    StepOfPoint(c, []);
    assert PointBytes(c) + [] == PointBytes(c);
    StepIsGrammar(PointBytes(c));
    hide DecodeStep, CharLength, PointBytes, Number;
  }

  lemma UnitsAreNumber(c: Scalar)
    ensures UnitNumber(PointUnits(c)) == c
    ensures |PointUnits(c)| == 2 ==> IsLead(PointUnits(c)[0]) && IsTrail(PointUnits(c)[1])
  {
  }

  lemma BytesAreNumber(c: Scalar)
    ensures Number(PointBytes(c)) == c
  {
    if 0x800 <= c < 0x1_0000 {
      assert c / 64 == c / 4096 * 64 + c / 64 % 64;
    } else if c >= 0x1_0000 {
      assert c / 4096 == c / 262144 * 64 + c / 4096 % 64;
      assert c / 64 == c / 4096 * 64 + c / 64 % 64;
    }
  }

  /** Decoding reads one character of the grammar after the other, as the code units of its number;
      a byte that begins none becomes FFFD. */
  lemma {:induction false} DecodedByGrammar(b: seq<Byte>)
    requires b != []
    ensures var n := CharLength(b);
            if n == 0 then Decoded(b) == [0xFFFD] + Decoded(b[1..])
            else
              && n <= |b|
              && exists units: seq<Unit> ::
                   Decoded(b) == units + Decoded(b[n..]) && UnitNumber(units) == Number(b[..n])
  {
    var step := DecodeStep(b);
    StepIsGrammar(b);
    PointIsNumber(step.point);
    if step.accepted { PointOfStep(b); } else { RejectedIs(b); }
    hide DecodeStep, CharLength, PointBytes, PointUnits, Number, UnitNumber;
    UnitsCons(step.point, DecodePoints(b[step.length..]));
  }

  lemma RejectedIs(b: seq<Byte>)
    requires b != [] && !DecodeStep(b).accepted
    ensures DecodeStep(b).length == 1 && PointUnits(DecodeStep(b).point) == [0xFFFD]
  {
  }

  /** Encoding after decoding gives the bytes back exactly if they are valid UTF-8. */
  lemma {:induction false} EncodeAfterDecode(b: seq<Byte>)
    ensures WellFormed(Decoded(b))
    ensures Encoded(Decoded(b)) == b <==> ValidUtf8(b)
    ensures |Encoded(Decoded(b))| == |b| + 2 * Rejected(b)
  {
    UnitsWellFormed(DecodePoints(b));
    PointsOfUnits(DecodePoints(b));
    FittingAll(DecodePoints(b));
    Reencoded(b);
  }

  /** The grammar describes exactly the encodings of sequences of scalar values, and the encoder
      produces nothing else. */
  lemma {:induction false} ValidIsEncoding(b: seq<Byte>)
    ensures ValidUtf8(b) <==> exists points: seq<Scalar> :: b == Bytes(points)
  {
    if ValidUtf8(b) {
      Reencoded(b);
      assert b == Bytes(DecodePoints(b));
    }
    forall points: seq<Scalar> | b == Bytes(points)
      ensures ValidUtf8(b)
    {
      BytesValid(points);
    }
  }

  lemma {:induction false} BytesValid(points: seq<Scalar>)
    ensures ValidUtf8(Bytes(points))
  {
    if points == [] {
    } else {
      var c, rest := points[0], Bytes(points[1..]);
      BytesValid(points[1..]);
      StepOfPoint(c, rest);
      StepIsGrammar(PointBytes(c) + rest);
      hide DecodeStep, PointBytes, CharLength;
      assert (PointBytes(c) + rest)[|PointBytes(c)|..] == rest;
    }
  }

  // ----- limits, and strings that are not well-formed -----

  lemma BytesPrefix(points: seq<Scalar>, k: nat)
    requires 1 <= k <= |points|
    ensures Bytes(points[..k]) == PointBytes(points[0]) + Bytes(points[1..][..k - 1])
    ensures Bytes(points[..0]) == []
  {
    hide PointBytes;
    assert points[..k][1..] == points[1..][..k - 1];
  }

  /** With a limit the encoder emits whole code points, as many from the start as fit. */
  lemma {:induction false} FittingIsLongestPrefix(points: seq<Scalar>, limit: int) returns (k: nat)
    ensures LongestWithin(Fitting(points, Some(limit)), points, limit, k)
  {
    k := 0;
    if points == [] {
    } else {
      var n := |PointBytes(points[0])|;
      hide PointBytes, Bytes;
      BytesPrefix(points, 1);
      if limit - n >= 0 {
        var j := FittingIsLongestPrefix(points[1..], limit - n);
        k := j + 1;
        BytesPrefix(points, k);
        if k < |points| {
          BytesPrefix(points, k + 1);
        }
      }
    }
  }

  /** The usual conversion of an ill-formed string: every surrogate outside a pair is replaced. */
  ghost function Repaired(s: seq<Unit>): seq<Scalar> {
    if s == [] then []
    else if !IsSurrogate(s[0]) then [s[0]] + Repaired(s[1..])
    else if IsLead(s[0]) && |s| >= 2 && IsTrail(s[1]) then [Combine(s[0], s[1])] + Repaired(s[2..])
    else [0xFFFD] + Repaired(s[1..])
  }

  /** Two lead surrogates at the end of the string. */
  ghost predicate EndsWithTwoLeads(s: seq<Unit>) {
    |s| >= 2 && IsLead(s[|s| - 1]) && IsLead(s[|s| - 2])
  }

  /** The units the encoder has still to emit: the held lead and the rest of the string. */
  ghost function Pending(s: seq<Unit>, held: Option<Unit>): seq<Unit> {
    if held.Some? then [held.value] + s else s
  }

  lemma RepairedStep(s: seq<Unit>, held: Option<Unit>)
    requires s != [] && (held.Some? ==> IsLead(held.value))
    ensures var u, rest := s[0], s[1..];
      Repaired(Pending(s, held)) ==
        if held.None? then
          if IsLead(u) && |s| > 1 then Repaired(Pending(rest, Some(u)))
          else if IsSurrogate(u) then [REPLACEMENT] + Repaired(rest)
          else [u] + Repaired(rest)
        else if IsLead(u) then [REPLACEMENT] + Repaired(Pending(rest, Some(u)))
        else if IsTrail(u) then [Combine(held.value, u)] + Repaired(rest)
        else [REPLACEMENT] + ([u] + Repaired(rest))
  {
    var whole := Pending(s, held);
    assert Pending(s[1..], Some(s[0])) == s;
    if held.Some? {
      assert whole[1..] == s && whole[2..] == s[1..];
    }
  }

  /** The replacement for a lead that is still held at the end of the string. */
  ghost function Lost(s: seq<Unit>, held: Option<Unit>): seq<Scalar> {
    if (s == [] && held.Some?) || EndsWithTwoLeads(Pending(s, held)) then [REPLACEMENT] else []
  }

  lemma {:induction false} PointsAreRepaired(s: seq<Unit>, held: Option<Unit>)
    requires held.Some? ==> IsLead(held.value)
    ensures Repaired(Pending(s, held)) == Points(s, held) + Lost(s, held)
    decreases |s|
  {
    hide Repaired, EndsWithTwoLeads, Lost;
    if s == [] {
      NothingRepaired(held);
    } else {
      var u, rest := s[0], s[1..];
      var kept := if IsLead(u) && (held.Some? || |s| > 1) then Some(u) else None;
      RepairedStep(s, held);
      PointsAreRepaired(rest, kept);
      LostStep(s, held, kept);
      var tail := Lost(rest, kept);
      var points := Points(rest, kept);
      if kept.Some? {
        if held.Some? {
          Assoc([REPLACEMENT], points, tail);
        }
      } else if IsSurrogate(u) {
        Assoc([if held.Some? then Combine(held.value, u) else REPLACEMENT], points, tail);
      } else {
        Assoc([u], points, tail);
        Assoc([REPLACEMENT], [u] + points, tail);
        Assoc([REPLACEMENT], [u], points);
      }
    }
  }

  lemma {:induction false} NothingRepaired(held: Option<Unit>)
    requires held.Some? ==> IsLead(held.value)
    ensures Repaired(Pending([], held)) == Points([], held) + Lost([], held)
  {
    if held.Some? { assert Pending([], held)[1..] == []; }
  }

  lemma LostStep(s: seq<Unit>, held: Option<Unit>, kept: Option<Unit>)
    requires s != [] && (held.Some? ==> IsLead(held.value))
    requires kept == if IsLead(s[0]) && (held.Some? || |s| > 1) then Some(s[0]) else None
    ensures Lost(s, held) == Lost(s[1..], kept)
  {
    TwoLeadsStep(s, held, kept);
  }

  lemma TwoLeadsStep(s: seq<Unit>, held: Option<Unit>, kept: Option<Unit>)
    requires s != [] && (held.Some? ==> IsLead(held.value))
    requires kept == if IsLead(s[0]) && (held.Some? || |s| > 1) then Some(s[0]) else None
    ensures EndsWithTwoLeads(Pending(s, held)) <==>
      (s[1..] == [] && kept.Some?) || EndsWithTwoLeads(Pending(s[1..], kept))
  {
    var whole, next := Pending(s, held), Pending(s[1..], kept);
    assert |s| >= 2 ==> whole[|whole| - 1] == s[|s| - 1] && whole[|whole| - 2] == s[|s| - 2];
    assert |s| >= 3 ==> next[|next| - 1] == s[|s| - 1] && next[|next| - 2] == s[|s| - 2];
    assert |s| == 2 && kept.Some? ==> next == s;
  }

  /** The encoder replaces every lone surrogate, except that of two lead surrogates at the very
      end of the string it loses the last one. */
  lemma {:induction false} LosesOnlyAHeldLead(s: seq<Unit>)
    ensures Points(s, None) == Repaired(s) <==> !EndsWithTwoLeads(s)
    ensures EndsWithTwoLeads(s) ==> Repaired(s) == Points(s, None) + [0xFFFD]
  {
    PointsAreRepaired(s, None);
  }

  /** Such a string: its encoding is that of one replacement character, not two. */
  lemma LostLeadExample()
    ensures Points([0xD800, 0xD800], None) == [0xFFFD]
    ensures Repaired([0xD800, 0xD800]) == [0xFFFD, 0xFFFD]
  {
    var s: seq<Unit> := [0xD800, 0xD800];
    assert s[1..] == [0xD800] && s[1..][1..] == [];
    assert Repaired(s[1..]) == [REPLACEMENT] + Repaired(s[1..][1..]);
    assert Points(s, None) == Points(s[1..], Some(0xD800)) == [REPLACEMENT] + Points(s[1..][1..], Some(0xD800));
  }
}
