/** The 32-bit words that the persistent hash trie computes with: one-bit masks, the population
    count that turns a slot into a child index, and the 5-bit slices of a hash.

    The population count is written as the source writes it, with masked sums of neighbouring
    fields.  It is shown equal to Rank, a plain count of the set bits. */
module Bits {

  // ----- one-bit masks -----

  /** The number i as a word. */
  function Position(i: nat): bv32 {
    if i == 0 then 0 else Up(Position(i - 1), 1)
  }

  function Up(i: bv32, w: bv32): bv32 { i + w }
  function Down(i: bv32, w: bv32): bv32 { i - w }

  /** The word with only bit p set. */
  function Shifted(p: bv32): bv32
    requires p < 32
  {
    1 << p
  }

  /** The word with only bit i set. */
  function Mask(i: nat): bv32
    requires i < 32
  {
    PositionIs(i);
    Shifted(Position(i))
  }

  // Numbers as words: facts about single words, to be used with the words folded.

  lemma NextNumber(x: bv32)
    requires x < 32
    ensures Up(x, 1) <= 32 && Up(x, 1) as nat == x as nat + 1
  {
  }

  lemma NumberBelow(x: bv32, y: bv32)
    requires x <= 127 && y <= 127 && x as nat < y as nat
    ensures x < y
  {
  }

  lemma Number32()
    ensures 31 as bv32 as nat == 31 && 32 as bv32 as nat == 32
  {
  }

  lemma {:induction false} PositionIs(i: nat)
    requires i <= 32
    ensures Position(i) as nat == i
    ensures Position(i) <= 32 && (i < 32 ==> Position(i) < 32)
  {
    Number32();
    if i == 0 {
    } else {
      PositionIs(i - 1);
      NextNumber(Position(i - 1));
      if i < 32 { NumberBelow(Position(i), 32); } else { SameNumber(Position(i), 32); }
    }
  }

  lemma SameNumber(x: bv32, y: bv32)
    requires x <= 127 && y <= 127 && x as nat == y as nat
    ensures x == y
  {
  }

  // The word operations carry names so that proofs about bits can leave them folded.
  predicate Meets(b: bv32, m: bv32) { b & m != 0 }
  function Or(b: bv32, m: bv32): bv32 { b | m }
  function Xor(b: bv32, m: bv32): bv32 { b ^ m }
  function Below(b: bv32, m: bv32): bv32 { b & (m - 1) }
  predicate Less(m: bv32, n: bv32) { m < n }

  predicate Bit(b: bv32, i: nat)
    requires i < 32
  {
    Meets(b, Mask(i))
  }

  ghost predicate OneHot(m: bv32) {
    m != 0 && m & (m - 1) == 0
  }

  lemma ShiftedWords(p: bv32, q: bv32)
    requires p < 32 && q < 32
    ensures OneHot(Shifted(p))
    ensures p < q ==> Shifted(p) < Shifted(q)
    ensures p < 31 ==> Up(p, 1) < 32 && Shifted(Up(p, 1)) == Shifted(p) << 1
    ensures Shifted(0) == 1 && Shifted(31) == 0x8000_0000
  {
  }

  lemma MaskStep(i: nat)
    requires i < 32
    ensures Mask(0) == 1 && Mask(31) == 0x8000_0000
    ensures i < 31 ==> Mask(i + 1) == Mask(i) << 1
  {
    hide Shifted, Up;
    PositionIs(i);
    PositionIs(31);
    Number32();
    SameNumber(Position(31), 31);
    ShiftedWords(Position(i), 0);
    if i < 31 { NumberBelow(Position(i), 31); }
  }

  lemma MaskOneHot(i: nat)
    requires i < 32
    ensures OneHot(Mask(i)) && Mask(i) != 0
  {
    hide Position, Shifted;
    PositionIs(i);
    ShiftedWords(Position(i), 0);
  }

  lemma MaskOrder(i: nat, j: nat)
    requires i < j < 32
    ensures Mask(i) < Mask(j)
  {
    hide Position, Shifted, OneHot;
    PositionIs(i);
    PositionIs(j);
    NumberBelow(Position(i), Position(j));
    ShiftedWords(Position(i), Position(j));
  }

  lemma MaskCompare(i: nat, j: nat)
    requires i < 32 && j < 32
    ensures OneHot(Mask(i)) && OneHot(Mask(j))
    ensures Less(Mask(i), Mask(j)) <==> i < j
    ensures Mask(i) == Mask(j) <==> i == j
  {
    hide Mask, OneHot, Less;
    MaskOneHot(i);
    MaskOneHot(j);
    if i < j {
      MaskOrder(i, j);
      LessIs(Mask(i), Mask(j));
    } else if j < i {
      MaskOrder(j, i);
      LessIs(Mask(j), Mask(i));
    } else {
      NotLess(Mask(i));
    }
  }

  lemma LessIs(m: bv32, n: bv32)
    requires m < n
    ensures Less(m, n) && !Less(n, m) && m != n
  {
  }

  lemma NotLess(m: bv32)
    ensures !Less(m, m)
  {
  }

  // What each operation on a word with a one-hot mask m leaves at a one-hot mask n.

  lemma OrWord(b: bv32, m: bv32, n: bv32, c: bv32)
    requires OneHot(m) && OneHot(n) && c == Or(b, m)
    ensures c & n == if m == n then n else b & n
  {
  }

  lemma XorWord(b: bv32, m: bv32, n: bv32, c: bv32)
    requires OneHot(m) && OneHot(n) && c == Xor(b, m) && b & m != 0
    ensures c & n == if m == n then 0 else b & n
  {
    if m == n { XorSame(b, m); } else { OneHotApart(m, n); XorOther(b, m, n); }
  }

  lemma XorSame(b: bv32, m: bv32)
    requires OneHot(m) && b & m != 0
    ensures (b ^ m) & m == 0
  {
  }

  lemma OneHotApart(m: bv32, n: bv32)
    requires OneHot(m) && OneHot(n) && m != n
    ensures m & n == 0
  {
  }

  lemma XorOther(b: bv32, m: bv32, n: bv32)
    requires m & n == 0
    ensures (b ^ m) & n == b & n
  {
  }

  lemma BelowWord(b: bv32, m: bv32, n: bv32, c: bv32)
    requires OneHot(m) && OneHot(n) && c == Below(b, m)
    ensures c & n == if n < m then b & n else 0
  {
  }

  lemma OrMeets(b: bv32, m: bv32, n: bv32, c: bv32)
    requires OneHot(m) && OneHot(n) && c == Or(b, m)
    ensures Meets(c, n) == (m == n || Meets(b, n))
  {
    hide Or;
    OrWord(b, m, n, c);
  }

  lemma XorMeets(b: bv32, m: bv32, n: bv32, c: bv32)
    requires OneHot(m) && OneHot(n) && c == Xor(b, m) && Meets(b, m)
    ensures Meets(c, n) == (m != n && Meets(b, n))
  {
    XorWord(b, m, n, c);
    hide Xor, OneHot;
  }

  lemma BelowMeets(b: bv32, m: bv32, n: bv32, c: bv32)
    requires OneHot(m) && OneHot(n) && c == Below(b, m)
    ensures Meets(c, n) == (Less(n, m) && Meets(b, n))
  {
    BelowWord(b, m, n, c);
    hide Below, OneHot;
  }

  // What setting bit s, clearing a set bit s, and keeping only the bits below s do to bit j.

  lemma BitSet(b: bv32, s: nat, j: nat)
    requires s < 32 && j < 32
    ensures Bit(Or(b, Mask(s)), j) == (j == s || Bit(b, j))
  {
    hide Mask, OneHot, Or, Meets;
    MaskCompare(s, j);
    OrMeets(b, Mask(s), Mask(j), Or(b, Mask(s)));
  }

  lemma BitClear(b: bv32, s: nat, j: nat)
    requires s < 32 && j < 32 && Bit(b, s)
    ensures Bit(Xor(b, Mask(s)), j) == (j != s && Bit(b, j))
  {
    hide Mask, OneHot, Xor, Meets;
    MaskCompare(s, j);
    XorMeets(b, Mask(s), Mask(j), Xor(b, Mask(s)));
  }

  lemma BitBelow(b: bv32, s: nat, j: nat)
    requires s < 32 && j < 32
    ensures Bit(Below(b, Mask(s)), j) == (j < s && Bit(b, j))
  {
    hide Mask, OneHot, Below, Meets, Less;
    MaskCompare(j, s);
    BelowMeets(b, Mask(s), Mask(j), Below(b, Mask(s)));
  }

  // ----- counting set bits -----

  /** The number of set bits of b below position i: the reference for Popcount. */
  ghost function Rank(b: bv32, i: nat): nat
    requires i <= 32
  {
    if i == 0 then 0 else Rank(b, i - 1) + if Bit(b, i - 1) then 1 else 0
  }

  function PairSums(t: bv32): bv32 { t - ((t >> 1) & 0x5555_5555) }
  function NibbleSums(t: bv32): bv32 { (0x3333_3333 & t) + ((t >> 2) & 0x3333_3333) }
  function ByteSums(t: bv32): bv32 { (t + (t >> 4)) & 0x0f0f_0f0f }
  function HalfSums(t: bv32): bv32 { t + (t >> 8) }
  function TotalSum(u: bv32): bv32 { (u + (u >> 16)) & 127 }

  function Popcount(t: bv32): bv32 {
    TotalSum(HalfSums(ByteSums(NibbleSums(PairSums(t)))))
  }

  /** The field of b at position i under the mask m. */
  function Part(b: bv32, i: bv32, m: bv32): bv32
    requires i < 32
  {
    (b >> i) & m
  }

  function Value(x: bv32): nat {
    x as nat
  }

  ghost predicate Aligned(i: bv32, w: bv32) {
    i <= 32 && i & (w - 1) == 0 && (w == 1 || w == 2 || w == 4 || w == 8)
  }

  /** The sum of the fields of width w below position i. */
  ghost function Fields(b: bv32, w: bv32, m: bv32, i: bv32): nat
    requires Aligned(i, w)
    decreases i
  {
    if i == 0 then 0
    else
      FieldBelow(i, w);
      Fields(b, w, m, Down(i, w)) + Value(Part(b, Down(i, w), m))
  }

  lemma FieldBelow(i: bv32, w: bv32)
    requires Aligned(i, w) && i != 0
    ensures Down(i, w) < i && Down(i, w) < 32 && Aligned(Down(i, w), w)
  {
  }

  ghost predicate IsSmallSum(p: bv32, x: bv32, y: bv32) {
    p == x + y && x <= 32 && y <= 32
  }

  lemma AddSmall(p: bv32, x: bv32, y: bv32)
    requires IsSmallSum(p, x, y)
    ensures Value(p) == Value(x) + Value(y)
  {
  }

  // The stages: each field becomes the sum of the two fields of half its width.  What the sums leave
  // unset keeps the next stage from carrying into a neighbour.

  predicate PairsSmall(b: bv32) { b & 0xaaaa_aaaa & (b << 1) == 0 }
  predicate NibblesSmall(b: bv32) { b & 0x8888_8888 == 0 }
  predicate BytesSmall(b: bv32) { b & 0xf0f0_f0f0 == 0 }

  lemma PairsAreSmall(b: bv32)
    ensures PairsSmall(PairSums(b))
  {
  }

  lemma NibblesAreSmall(b: bv32)
    requires PairsSmall(b)
    ensures NibblesSmall(NibbleSums(b))
  {
  }

  lemma BytesAreSmall(b: bv32)
    ensures BytesSmall(ByteSums(b))
  {
  }

  lemma PairSumsAdd(b: bv32)
    ensures PairSums(b) == (b & 0x5555_5555) + ((b >> 1) & 0x5555_5555)
  {
  }

  lemma PairWord(b: bv32, c: bv32, i: bv32)
    requires i <= 30 && i & 1 == 0 && c == (b & 0x5555_5555) + ((b >> 1) & 0x5555_5555)
    ensures IsSmallSum(Part(c, i, 3), Part(b, i, 1), Part(b, i + 1, 1))
  {
  }

  lemma NibbleWord(b: bv32, i: bv32)
    requires i <= 28 && i & 3 == 0
    ensures IsSmallSum(Part(NibbleSums(b), i, 15), Part(b, i, 3), Part(b, i + 2, 3))
  {
  }

  lemma ByteWord(b: bv32, i: bv32)
    requires i <= 24 && i & 7 == 0 && NibblesSmall(b)
    ensures IsSmallSum(Part(ByteSums(b), i, 255), Part(b, i, 15), Part(b, i + 4, 15))
  {
  }

  ghost predicate Doubles(v: bv32, w: bv32) {
    (v == 1 && w == 2) || (v == 2 && w == 4) || (v == 4 && w == 8)
  }

  /** Each field of c of width w is the sum of the two fields of d of width v it covers. */
  ghost predicate AddsFields(c: bv32, w: bv32, m: bv32, d: bv32, v: bv32, n: bv32) {
    Doubles(v, w) && forall i: bv32 :: Aligned(i, w) && i < 32 ==> AddsField(c, m, d, v, n, i)
  }

  ghost predicate AddsField(c: bv32, m: bv32, d: bv32, v: bv32, n: bv32, i: bv32) {
    i < 32 && Up(i, v) < 32 && IsSmallSum(Part(c, i, m), Part(d, i, n), Part(d, Up(i, v), n))
  }

  lemma HalfAligned(i: bv32, v: bv32, w: bv32)
    requires Doubles(v, w) && Aligned(i, w)
    ensures Aligned(i, v)
    ensures i != 0 ==> Aligned(Down(i, w), w) && Down(i, w) < 32 && Down(i, w) < i
    ensures i != 0 ==> Aligned(Down(i, v), v) && Down(i, v) != 0 && Down(i, v) < 32
    ensures i != 0 ==> Down(Down(i, v), v) == Down(i, w) && Up(Down(i, w), v) == Down(i, v)
  {
  }

  /** Adding neighbouring fields keeps the sum of all of them. */
  lemma {:induction false} FieldsAdd(c: bv32, w: bv32, m: bv32, d: bv32, v: bv32, n: bv32, i: bv32)
    requires AddsFields(c, w, m, d, v, n) && Aligned(i, w)
    ensures Aligned(i, v) && Fields(c, w, m, i) == Fields(d, v, n, i)
    decreases i
  {
    hide Part, Value, Aligned, IsSmallSum, Doubles, Down, Up;
    HalfAligned(i, v, w);
    if i == 0 {
    } else {
      var low, high := Down(i, w), Down(i, v);
      FieldsAdd(c, w, m, d, v, n, low);
      assert AddsField(c, m, d, v, n, low);
      AddSmall(Part(c, low, m), Part(d, low, n), Part(d, high, n));
    }
  }

  lemma {:induction false} BitField(b: bv32, p: bv32)
    requires p < 32
    ensures Value(Part(b, p, 1)) == if Meets(b, Shifted(p)) then 1 else 0
    ensures Part(b, p, 1) <= 1
  {
  }

  lemma {:induction false} RankIsFields(b: bv32, i: nat)
    requires i <= 32
    ensures Aligned(Position(i), 1) && Rank(b, i) == Fields(b, 1, 1, Position(i))
  {
    hide Meets, Part, Value, Shifted, Down, Up, Aligned;
    PositionIs(i);
    AllAligned(Position(i));
    if i == 0 {
    } else {
      PositionIs(i - 1);
      RankIsFields(b, i - 1);
      BitField(b, Position(i - 1));
      NextIsNonZero(Position(i - 1));
    }
  }

  lemma AllAligned(p: bv32)
    requires p <= 32
    ensures Aligned(p, 1)
  {
  }

  lemma NextIsNonZero(p: bv32)
    requires p < 32
    ensures Up(p, 1) != 0 && Down(Up(p, 1), 1) == p
  {
  }

  lemma StageOne(b: bv32)
    ensures AddsFields(PairSums(b), 2, 3, b, 1, 1)
  {
    hide Part, PairSums, IsSmallSum;
    PairSumsAdd(b);
    forall i: bv32 | Aligned(i, 2) && i < 32
      ensures AddsField(PairSums(b), 3, b, 1, 1, i)
    {
      AlignedBelow(i, 2);
      PairWord(b, PairSums(b), i);
    }
  }

  lemma StageTwo(b: bv32)
    ensures AddsFields(NibbleSums(b), 4, 15, b, 2, 3)
  {
    hide Part, NibbleSums, IsSmallSum;
    forall i: bv32 | Aligned(i, 4) && i < 32
      ensures AddsField(NibbleSums(b), 15, b, 2, 3, i)
    {
      AlignedBelow(i, 4);
      NibbleWord(b, i);
    }
  }

  lemma StageThree(b: bv32)
    requires NibblesSmall(b)
    ensures AddsFields(ByteSums(b), 8, 255, b, 4, 15)
  {
    hide Part, ByteSums, IsSmallSum, NibblesSmall;
    forall i: bv32 | Aligned(i, 8) && i < 32
      ensures AddsField(ByteSums(b), 255, b, 4, 15, i)
    {
      AlignedBelow(i, 8);
      ByteWord(b, i);
    }
  }

  lemma AlignedBelow(i: bv32, w: bv32)
    requires Aligned(i, w) && i < 32
    ensures i <= 32 - w && i & (w - 1) == 0
    ensures w == 2 ==> i + 1 < 32
    ensures w == 4 ==> i + 2 < 32
    ensures w == 8 ==> i + 4 < 32
  {
  }

  lemma HalvesWord(b: bv32)
    requires BytesSmall(b)
    ensures IsSmallSum(Part(HalfSums(b), 0, 255), Part(b, 0, 255), Part(b, 8, 255))
    ensures IsSmallSum(Part(HalfSums(b), 16, 255), Part(b, 16, 255), Part(b, 24, 255))
    ensures Part(HalfSums(b), 0, 255) <= 32 && Part(HalfSums(b), 16, 255) <= 32
  {
  }

  lemma TotalWord(u: bv32)
    requires Part(u, 0, 255) <= 32 && Part(u, 16, 255) <= 32
    ensures IsSmallSum(TotalSum(u), Part(u, 0, 255), Part(u, 16, 255))
  {
  }

  lemma BytePositions()
    ensures Aligned(0, 8) && Aligned(8, 8) && Aligned(16, 8) && Aligned(24, 8) && Aligned(32, 8)
    ensures Position(32) == 32
  {
    PositionIs(32);
    Number32();
    SameNumber(Position(32), 32);
  }

  lemma {:induction false} TotalAdds(b: bv32)
    requires BytesSmall(b)
    ensures Aligned(32, 8) && Value(TotalSum(HalfSums(b))) == Fields(b, 8, 255, 32)
  {
    hide Part, Value, HalfSums, TotalSum, IsSmallSum, Aligned, BytesSmall;
    BytePositions();
    assert Fields(b, 8, 255, 8) == Value(Part(b, 0, 255));
    assert Fields(b, 8, 255, 16) == Value(Part(b, 0, 255)) + Value(Part(b, 8, 255));
    assert Fields(b, 8, 255, 24) == Fields(b, 8, 255, 16) + Value(Part(b, 16, 255));
    HalvesWord(b);
    TotalWord(HalfSums(b));
    AddSmall(Part(HalfSums(b), 0, 255), Part(b, 0, 255), Part(b, 8, 255));
    AddSmall(Part(HalfSums(b), 16, 255), Part(b, 16, 255), Part(b, 24, 255));
    AddSmall(TotalSum(HalfSums(b)), Part(HalfSums(b), 0, 255), Part(HalfSums(b), 16, 255));
  }

  /** The source's population count is the number of set bits. */
  lemma {:induction false} PopcountIsRank(b: bv32)
    ensures Popcount(b) as nat == Rank(b, 32)
  {
    var pairs := PairSums(b);
    var nibbles := NibbleSums(pairs);
    var bytes := ByteSums(nibbles);
    assert Popcount(b) as nat == Value(TotalSum(HalfSums(bytes)));
    hide PairSums, NibbleSums, ByteSums, HalfSums, TotalSum, Part, Value, Popcount, Aligned, AddsFields, Fields;
    hide PairsSmall, NibblesSmall, BytesSmall;
    BytePositions();
    RankIsFields(b, 32);
    PairsAreSmall(b);
    NibblesAreSmall(pairs);
    BytesAreSmall(nibbles);
    StageOne(b);
    StageTwo(pairs);
    StageThree(nibbles);
    TotalAdds(bytes);
    FieldsAdd(bytes, 8, 255, nibbles, 4, 15, 32);
    FieldsAdd(nibbles, 4, 15, pairs, 2, 3, 32);
    FieldsAdd(pairs, 2, 3, b, 1, 1, 32);
  }

  // ----- the child index -----

  /** The position, among the children of a bitmap node, of the child in slot s: the population
      count of the bitmap below the slot's bit. */
  function Index(b: bv32, s: nat): nat
    requires s < 32
  {
    Popcount(Below(b, Mask(s))) as nat
  }

  lemma {:induction false} RankOfBelow(b: bv32, s: nat, i: nat)
    requires s < 32 && i <= 32
    ensures Rank(Below(b, Mask(s)), i) == Rank(b, if i < s then i else s)
  {
    hide Bit, Below, Mask;
    if i == 0 {
    } else {
      RankOfBelow(b, s, i - 1);
      BitBelow(b, s, i - 1);
    }
  }

  lemma {:induction false} IndexIsRank(b: bv32, s: nat)
    requires s < 32
    ensures Index(b, s) == Rank(b, s)
  {
    hide Bit, Below, Mask, Popcount;
    var below := Below(b, Mask(s));
    PopcountIsRank(below);
    RankOfBelow(b, s, 32);
  }

  /** Slots in increasing order have non-decreasing ranks, strictly so past a set bit. */
  lemma {:induction false} RankOrder(b: bv32, i: nat, j: nat)
    requires i <= j <= 32
    ensures Rank(b, i) <= Rank(b, j)
    ensures i < j && Bit(b, i) ==> Rank(b, i) < Rank(b, j)
    decreases j
  {
    hide Bit;
    if i == j {
    } else {
      RankOrder(b, i, j - 1);
    }
  }

  lemma {:induction false} RankSet(b: bv32, s: nat, i: nat)
    requires s < 32 && i <= 32 && !Bit(b, s)
    ensures Rank(Or(b, Mask(s)), i) == Rank(b, i) + if s < i then 1 else 0
  {
    hide Bit, Or, Mask;
    if i == 0 {
    } else {
      RankSet(b, s, i - 1);
      BitSet(b, s, i - 1);
    }
  }

  lemma {:induction false} RankClear(b: bv32, s: nat, i: nat)
    requires s < 32 && i <= 32 && Bit(b, s)
    ensures Rank(Xor(b, Mask(s)), i) + (if s < i then 1 else 0) == Rank(b, i)
  {
    hide Bit, Xor, Mask;
    if i == 0 {
    } else {
      RankClear(b, s, i - 1);
      BitClear(b, s, i - 1);
    }
  }

  lemma NoBits(i: nat)
    requires i < 32
    ensures !Bit(0, i)
  {
    hide Mask;
  }

  lemma {:induction false} NoRank(i: nat)
    requires i <= 32
    ensures Rank(0, i) == 0
  {
    hide Bit;
    if i == 0 {
    } else {
      NoBits(i - 1);
      NoRank(i - 1);
    }
  }

  // ----- walking a bitmap from its low end -----

  function Half(b: bv32): bv32 { b >> 1 }

  function Twice(m: bv32): bv32 { m << 1 }

  predicate LowBit(b: bv32) { 1 & b != 0 }

  predicate NonZero(b: bv32) { b != 0 }

  lemma MaskTwice(i: nat)
    requires i < 32
    ensures Mask(0) == 1
    ensures i < 31 ==> Mask(i + 1) == Twice(Mask(i))
  {
    hide Mask;
    MaskStep(i);
  }

  lemma HalfWord(b: bv32, m: bv32, n: bv32)
    requires n == m << 1 && n != 0 && OneHot(m)
    ensures (b >> 1) & m != 0 <==> b & n != 0
  {
    assert ((b >> 1) & m) << 1 == b & n;
  }

  lemma HalfMeets(b: bv32, m: bv32, n: bv32, h: bv32)
    requires n == m << 1 && n != 0 && OneHot(m) && h == Half(b)
    ensures Meets(h, m) == Meets(b, n)
  {
    hide OneHot;
    HalfWord(b, m, n);
  }

  lemma HalfTop(b: bv32, m: bv32, h: bv32)
    requires m == 0x8000_0000 && h == Half(b)
    ensures !Meets(h, m)
  {
  }

  lemma HalfBit(b: bv32, j: nat)
    requires j < 32
    ensures Bit(Half(b), j) == (j < 31 && Bit(b, j + 1))
  {
    hide Mask, OneHot, Meets, Half;
    if j < 31 {
      MaskStep(j);
      MaskOneHot(j + 1);
      MaskOneHot(j);
      HalfMeets(b, Mask(j), Mask(j + 1), Half(b));
    } else {
      MaskStep(31);
      HalfTop(b, Mask(31), Half(b));
    }
  }

  lemma LowBitIsBit(b: bv32)
    ensures LowBit(b) == Bit(b, 0)
  {
    hide Mask;
    MaskStep(0);
  }

  lemma PopcountSmall(b: bv32)
    ensures Popcount(b) <= 127
  {
  }

  lemma PopcountOfZero(b: bv32)
    requires Popcount(b) == 0
    ensures b == 0
  {
  }

  lemma {:induction false} NoBitsNoRank(b: bv32, i: nat)
    requires i <= 32 && forall j: nat | j < 32 :: !Bit(b, j)
    ensures Rank(b, i) == 0
  {
    if i == 0 {
    } else {
      NoBitsNoRank(b, i - 1);
    }
  }

  lemma NoBitsIsZero(b: bv32)
    requires forall j: nat | j < 32 :: !Bit(b, j)
    ensures b == 0
  {
    hide Popcount, Bit;
    NoBitsNoRank(b, 32);
    PopcountIsRank(b);
    PopcountSmall(b);
    SameNumber(Popcount(b), 0);
    PopcountOfZero(b);
  }

  lemma OrZero(m: bv32)
    ensures Or(0, m) == m && Or(m, m) == m
  {
  }

  /** The word with only bit u, or with two bits u and s. */
  lemma {:induction false} OneBit(u: nat, j: nat)
    requires u < 32 && j <= 32
    ensures j < 32 ==> Bit(Mask(u), j) == (j == u)
    ensures Rank(Mask(u), j) == if u < j then 1 else 0
  {
    hide Bit, Or, Mask;
    OrZero(Mask(u));
    NoBits(u);
    NoRank(j);
    RankSet(0, u, j);
    if j < 32 {
      BitSet(0, u, j);
      NoBits(j);
    }
  }

  lemma {:induction false} TwoBits(u: nat, s: nat, j: nat)
    requires u < 32 && s < 32 && j <= 32
    ensures j < 32 ==> Bit(Or(Mask(u), Mask(s)), j) == (j == u || j == s)
    ensures Rank(Or(Mask(u), Mask(s)), j) == (if u < j then 1 else 0) + (if s < j && s != u then 1 else 0)
  {
    hide Bit, Or, Mask;
    OneBit(u, j);
    OneBit(u, s);
    if u == s {
      OrZero(Mask(u));
    } else {
      RankSet(Mask(u), s, j);
      if j < 32 {
        BitSet(Mask(u), s, j);
      }
    }
  }

  // ----- 5-bit slices of a hash -----

  /** The slice of a hash that a node at depth `level` branches on: the source's
      (hash >>> shift) & 31 at shift = 5 * level, at the seven shifts the trie reaches. */
  function SliceWord(h: bv32, level: nat): bv32
    requires level < 7
  {
    if level == 0 then h & 31
    else if level == 1 then (h >> 5) & 31
    else if level == 2 then (h >> 10) & 31
    else if level == 3 then (h >> 15) & 31
    else if level == 4 then (h >> 20) & 31
    else if level == 5 then (h >> 25) & 31
    else (h >> 30) & 31
  }

  function Slot(h: bv32, level: nat): (s: nat)
    requires level < 7
    ensures s < 32
  {
    SmallWord(SliceWord(h, level));
    SliceWord(h, level) as nat
  }

  lemma SmallWord(x: bv32)
    requires x < 32
    ensures x as nat < 32
  {
  }

  lemma SliceBound(h: bv32, level: nat)
    requires level < 7
    ensures SliceWord(h, level) < 32
  {
  }

  lemma SlicesDecide(a: bv32, b: bv32)
    requires SliceWord(a, 0) == SliceWord(b, 0) && SliceWord(a, 1) == SliceWord(b, 1)
    requires SliceWord(a, 2) == SliceWord(b, 2) && SliceWord(a, 3) == SliceWord(b, 3)
    requires SliceWord(a, 4) == SliceWord(b, 4) && SliceWord(a, 5) == SliceWord(b, 5)
    requires SliceWord(a, 6) == SliceWord(b, 6)
    ensures a == b
  {
  }

  lemma SameSlice(a: bv32, b: bv32, level: nat)
    requires level < 7 && Slot(a, level) == Slot(b, level)
    ensures SliceWord(a, level) == SliceWord(b, level)
  {
    hide SliceWord;
    SliceBound(a, level);
    SliceBound(b, level);
    SameNumber(SliceWord(a, level), SliceWord(b, level));
  }

  /** Two hashes that fall into the same slot at all seven depths are the same hash.  So two
      different hashes that agree on the first `level` slots differ at some depth from `level` up,
      and the shift of a trie node never reaches 35. */
  lemma SlotsDecide(a: bv32, b: bv32)
    requires forall l: nat | l < 7 :: Slot(a, l) == Slot(b, l)
    ensures a == b
  {
    hide Slot, SliceWord;
    forall level: nat | level < 7
      ensures SliceWord(a, level) == SliceWord(b, level)
    {
      SameSlice(a, b, level);
    }
    SlicesDecide(a, b);
  }
}
