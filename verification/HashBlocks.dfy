/** The streaming block buffer of the hash functions (module 4189), against the padding of
    FIPS 180-4, section 5.1. */
module HashBlocks {
  import opened Wrappers
  import opened Division

  // ----- the padding -----

  /** The whole blocks of a message; a shorter rest is left out. */
  function Blocks(m: seq<Byte>, size: nat): seq<seq<Byte>>
    requires size > 0
  {
    if |m| < size then [] else [m[..size]] + Blocks(m[size..], size)
  }

  /** What is left after the whole blocks. */
  function Tail(m: seq<Byte>, size: nat): seq<Byte>
    requires size > 0
  {
    if |m| < size then m else Tail(m[size..], size)
  }

  function Zeros(n: nat): (r: seq<Byte>)
    ensures |r| == n
  {
    seq(n, _ => 0)
  }

  /** The last width bytes of a number, most significant first. */
  function BigEndian(x: nat, width: nat): (r: seq<Byte>)
    ensures |r| == width
  {
    if width == 0 then [] else BigEndian(x / 256, width - 1) + [x % 256]
  }

  /** The smallest number of zero bytes that puts the length field at the end of a block. */
  function Gap(length: nat, size: nat, final: nat): (k: nat)
    requires final < size
    ensures (length + 1 + k) % size == final && k < size
  {
    var e := length % size;
    assert length + 1 + (final - e - 1) == size * (length / size) + final;
    assert length + 1 + (size + final - e - 1) == size * (length / size + 1) + final;
    if e < final then Divides(size, length + final - e, length / size, final); final - e - 1
    else Divides(size, length + size + final - e, length / size + 1, final); size + final - e - 1
  }

  /** FIPS 180-4, section 5.1: a one bit, zeros, and the length in bits. */
  function Padded(m: seq<Byte>, size: nat, final: nat): seq<Byte>
    requires final < size
  {
    m + [0x80] + Zeros(Gap(|m|, size, final)) + BigEndian(8 * |m|, size - final)
  }

  /** The padding in numbers: where every byte of it comes from. */
  lemma {:induction false} PaddedIs(m: seq<Byte>, size: nat, final: nat, i: nat)
    requires final < size && i < |Padded(m, size, final)|
    ensures var p, width := Padded(m, size, final), size - final;
            && |m| + 1 + width <= |p|
            && p[i] == if i < |m| then m[i]
                       else if i == |m| then 0x80
                       else if i < |p| - width then 0
                       else 8 * |m| / Power256(|p| - 1 - i) % 256
  {
    var p, width := Padded(m, size, final), size - final;
    var front := m + [0x80] + Zeros(Gap(|m|, size, final));
    assert p == front + BigEndian(8 * |m|, width);
    if i >= |front| { BigEndianAt(8 * |m|, width, i - |front|); }
  }

  /** Byte i of a number, counted from the most significant one of the field. */
  lemma {:induction false} BigEndianAt(x: nat, width: nat, i: nat)
    requires i < width
    ensures BigEndian(x, width)[i] == x / Power256(width - 1 - i) % 256
  {
    if i == width - 1 {
    } else {
      BigEndianAt(x / 256, width - 1, i);
      DivideTwice(x, Power256(width - 2 - i));
    }
  }

  lemma DivideTwice(x: nat, n: nat)
    requires n > 0
    ensures x / 256 / n == x / (256 * n)
  {
    var q, r := x / 256 / n, x / 256 % n;
    assert x / 256 == n * q + r;
    assert x == 256 * (x / 256) + x % 256;
    assert x == (256 * n) * q + (256 * r + x % 256);
    Divides(256 * n, x, q, 256 * r + x % 256);
  }

  // ----- what the padding is for -----

  lemma GapIsSmallest(length: nat, size: nat, final: nat, k: nat)
    requires final < size && (length + 1 + k) % size == final
    ensures Gap(length, size, final) <= k
  {
    hide Gap;
    var g := Gap(length, size, final);
    if k < g { OtherRemainder(size, length + 1 + k, g - k); }
  }

  lemma OtherRemainder(size: nat, a: nat, d: nat)
    requires 0 < d < size
    ensures (a + d) % size != a % size
  {
    var q, r := a / size, a % size;
    if r + d < size {
      Divides(size, a + d, q, r + d);
    } else {
      assert size * (q + 1) == size * q + size;
      Divides(size, a + d, q + 1, r + d - size);
    }
  }

  lemma PaddedIsWhole(m: seq<Byte>, size: nat, final: nat)
    requires final < size
    ensures |Padded(m, size, final)| % size == 0
  {
    var n := |m| + 1 + Gap(|m|, size, final);
    EndsBlock(n, size, final);
    assert |Padded(m, size, final)| == n + (size - final);
  }

  lemma EndsBlock(n: nat, size: nat, final: nat)
    requires final < size && n % size == final
    ensures (n + (size - final)) % size == 0
  {
    assert n + (size - final) == size * (n / size + 1);
    Divides(size, n + (size - final), n / size + 1, 0);
  }

  /** Whole blocks and the rest make up the message. */
  lemma {:induction false} BlocksJoin(m: seq<Byte>, size: nat)
    requires size > 0
    ensures Joined(Blocks(m, size)) + Tail(m, size) == m
    ensures forall i :: 0 <= i < |Blocks(m, size)| ==> |Blocks(m, size)[i]| == size
  {
    hide Joined, Blocks, Tail;
    BlockSizes(m, size);
    BlocksFirst(m, size);
    if |m| < size {
      NothingJoined(m);
    } else {
      BlocksJoin(m[size..], size);
      FirstJoins(m[..size], Blocks(m[size..], size), Tail(m[size..], size));
    }
  }

  lemma {:induction false} BlocksFirst(m: seq<Byte>, size: nat)
    requires size > 0
    ensures if |m| < size then Blocks(m, size) == [] && Tail(m, size) == m
            else
              && Blocks(m, size) == [m[..size]] + Blocks(m[size..], size)
              && Tail(m, size) == Tail(m[size..], size)
              && m == m[..size] + m[size..]
  {
  }

  lemma {:induction false} BlockSizes(m: seq<Byte>, size: nat)
    requires size > 0
    ensures forall i :: 0 <= i < |Blocks(m, size)| ==> |Blocks(m, size)[i]| == size
  {
    if |m| < size {
    } else {
      BlockSizes(m[size..], size);
    }
  }

  lemma NothingJoined(m: seq<Byte>)
    ensures Joined([]) + m == m
  {
  }

  lemma {:induction false} FirstJoins(first: seq<Byte>, rest: seq<seq<Byte>>, tail: seq<Byte>)
    ensures Joined([first] + rest) + tail == first + (Joined(rest) + tail)
  {
    assert ([first] + rest)[1..] == rest;
    Assoc(first, Joined(rest), tail);
    hide Joined;
  }

  lemma {:induction false} TailLength(m: seq<Byte>, size: nat)
    requires size > 0
    ensures |Tail(m, size)| == |m| % size
  {
    if |m| >= size {
      TailLength(m[size..], size);
      var n := |m| - size;
      assert |m| == size * (n / size + 1) + n % size;
      Divides(size, |m|, n / size + 1, n % size);
    } else {
      Divides(size, |m|, 0, |m|);
    }
  }

  lemma {:induction false} BigEndianInjective(x: nat, y: nat, width: nat)
    requires BigEndian(x, width) == BigEndian(y, width) && x < Power256(width) && y < Power256(width)
    ensures x == y
  {
    if width == 0 {
    } else {
      var a, b := BigEndian(x / 256, width - 1), BigEndian(y / 256, width - 1);
      assert a + [x % 256] == b + [y % 256];
      assert (a + [x % 256])[..width - 1] == a && (b + [y % 256])[..width - 1] == b;
      assert (a + [x % 256])[width - 1] == x % 256 && (b + [y % 256])[width - 1] == y % 256;
      BigEndianInjective(x / 256, y / 256, width - 1);
    }
  }

  function Power256(n: nat): (p: nat)
    ensures p > 0
  {
    if n == 0 then 1 else 256 * Power256(n - 1)
  }

  /** Different messages are padded differently, as far as the length field can tell lengths apart. */
  lemma {:induction false} PaddingIsInjective(a: seq<Byte>, b: seq<Byte>, size: nat, final: nat)
    requires final < size && Padded(a, size, final) == Padded(b, size, final)
    requires 8 * |a| < Power256(size - final) && 8 * |b| < Power256(size - final)
    ensures a == b
  {
    var p, q, w := Padded(a, size, final), Padded(b, size, final), size - final;
    assert p[|p| - w..] == BigEndian(8 * |a|, w) && q[|q| - w..] == BigEndian(8 * |b|, w);
    BigEndianInjective(8 * |a|, 8 * |b|, w);
    assert p[..|a|] == a && q[..|b|] == b;
  }

  // ----- taking in one piece -----

  /** A piece that fits into the current block. */
  lemma {:induction false} PieceFits(m: seq<Byte>, piece: seq<Byte>, size: nat)
    requires size > 0 && |Tail(m, size)| + |piece| <= size
    ensures var rest := Tail(m, size) + piece;
            if |rest| < size
            then Blocks(m + piece, size) == Blocks(m, size) && Tail(m + piece, size) == rest
            else Blocks(m + piece, size) == Blocks(m, size) + [rest] && Tail(m + piece, size) == []
    decreases |m|
  {
    if |m| >= size {
      PieceFits(m[size..], piece, size);
      assert (m + piece)[size..] == m[size..] + piece && (m + piece)[..size] == m[..size];
    } else if |m| + |piece| == size {
      assert (m + piece)[..size] == m + piece;
    }
  }

  lemma PieceLength(length: nat, more: nat, size: nat)
    requires size > 0 && length % size + more <= size
    ensures (length + more) % size == if length % size + more == size then 0 else length % size + more
  {
    if length % size + more == size {
      assert length + more == size * (length / size + 1);
      Divides(size, length + more, length / size + 1, 0);
    } else {
      Divides(size, length + more, length / size, length % size + more);
    }
  }

  /** b with a four-byte word written over it. */
  function Patched(b: seq<Byte>, at: nat, word: seq<Byte>): (r: seq<Byte>)
    requires |word| == 4 && at + 4 <= |b|
    ensures |r| == |b|
  {
    b[..at] + word + b[at + 4..]
  }

  lemma WordAtEnd(b: seq<Byte>, word: seq<Byte>)
    requires 8 <= |b| && |word| == 4 && b[|b| - 8..] == Zeros(8)
    ensures Patched(b, |b| - 4, word) == b[..|b| - 8] + (Zeros(4) + word)
  {
    assert b == b[..|b| - 8] + Zeros(8);
  }

  lemma WordsAtEnd(b: seq<Byte>, high: seq<Byte>, low: seq<Byte>)
    requires 8 <= |b| && |high| == |low| == 4
    ensures Patched(Patched(b, |b| - 8, high), |b| - 4, low) == b[..|b| - 8] + (high + low)
  {
  }

  /** The lower and the upper word of the length. */
  function LowWord(bits: nat): (r: nat)
    ensures r < 0x1_0000_0000
  {
    bits % 0x1_0000_0000
  }

  function HighWord(bits: nat): (r: nat)
    requires bits < 0x1_0000_0000_0000_0000
    ensures r < 0x1_0000_0000
  {
    (bits - LowWord(bits)) / 0x1_0000_0000
  }

  lemma HighWordIs(bits: nat)
    requires bits < 0x1_0000_0000_0000_0000
    ensures HighWord(bits) == bits / 0x1_0000_0000
  {
    Divides(0x1_0000_0000, bits - LowWord(bits), bits / 0x1_0000_0000, 0);
  }

  lemma {:induction false} LengthField(b: seq<Byte>, bits: nat)
    requires 8 <= |b| && bits < 0x1_0000_0000_0000_0000 && b[|b| - 8..] == Zeros(8)
    ensures var at, field := |b| - 8, b[..|b| - 8] + BigEndian(bits, 8);
            if bits <= 0xFFFF_FFFF then Patched(b, at + 4, BigEndian(bits, 4)) == field
            else Patched(Patched(b, at, BigEndian(HighWord(bits), 4)), at + 4, BigEndian(LowWord(bits), 4)) == field
  {
    hide BigEndian, Patched, HighWord, LowWord, Zeros;
    Words(bits);
    WordsAtEnd(b, BigEndian(HighWord(bits), 4), BigEndian(LowWord(bits), 4));
    if bits <= 0xFFFF_FFFF { WordAtEnd(b, BigEndian(bits, 4)); }
  }

  lemma {:induction false} Words(bits: nat)
    requires bits < 0x1_0000_0000_0000_0000
    ensures BigEndian(bits, 8) == BigEndian(HighWord(bits), 4) + BigEndian(LowWord(bits), 4)
    ensures bits <= 0xFFFF_FFFF ==> BigEndian(bits, 8) == Zeros(4) + BigEndian(bits, 4)
  {
    hide BigEndian, Zeros;
    BigEndianHalves(bits);
    HighWordIs(bits);
    if bits <= 0xFFFF_FFFF { Divides(0x1_0000_0000, bits, 0, bits); }
  }

  lemma ZerosEnd(a: seq<Byte>, n: nat)
    ensures var b := a + Zeros(n);
            n >= 8 ==> b[..|b| - 8] == a + Zeros(n - 8) && b[|b| - 8..] == Zeros(8)
  {
  }

  class Hash {
    const blockSize: nat
    const finalSize: nat
    const block: array<Byte>
    var len: nat
    /** The blocks handed to the compression function so far. */
    var blocks: seq<seq<Byte>>
    /** Everything taken in so far. */
    ghost var input: seq<Byte>

    ghost predicate Valid()
      reads this, block
    {
      && finalSize + 8 <= blockSize == block.Length
      && len == |input|
      && Holds(input)
    }

    constructor (blockSize: nat, finalSize: nat)
      requires finalSize + 8 <= blockSize
      ensures Valid() && fresh(block) && input == []
      ensures this.blockSize == blockSize && this.finalSize == finalSize
    {
      this.blockSize, this.finalSize := blockSize, finalSize;
      block := new Byte[blockSize](_ => 0);
      len, blocks, input := 0, [], [];
    }

    /** Fills the block, hands it on whenever it is full, and starts over. */
    method Update(data: seq<Byte>)
      requires Valid()
      modifies this, block
      ensures Valid() && input == old(input) + data
    {
      hide Blocks, Tail;
      var accum, offset := len, 0;
      assert input + data[..0] == input;
      while offset < |data|
        invariant 0 <= offset <= |data| && accum == |input| + offset
        invariant finalSize + 8 <= blockSize == block.Length && len == |input| && input == old(input)
        invariant Holds(old(input) + data[..offset])
      {
        ghost var m := old(input) + data[..offset];
        var start := accum % blockSize;
        var remainder := if |data| - offset < blockSize - start then |data| - offset else blockSize - start;
        Fill(m, accum, data, offset, remainder);
        accum, offset := accum + remainder, offset + remainder;
        assert m + data[offset - remainder..offset] == old(input) + data[..offset];
      }
      assert data[..|data|] == data;
      len := len + |data|;
      input := input + data;
    }

    /** The whole blocks of the message have been handed on, and the block starts with the rest. */
    ghost predicate Holds(m: seq<Byte>)
      requires blockSize > 0
      reads this, block
    {
      && blocks == Blocks(m, blockSize)
      && |Tail(m, blockSize)| < block.Length && block[..|Tail(m, blockSize)|] == Tail(m, blockSize)
    }

    /** One round of the loop: copy a piece and hand the block on if that completes it. */
    method Fill(ghost m: seq<Byte>, accum: nat, data: seq<Byte>, offset: nat, remainder: nat)
      requires blockSize == block.Length > 0 && Holds(m) && accum == |m|
      requires 0 < remainder <= blockSize - accum % blockSize && offset + remainder <= |data|
      modifies this`blocks, block
      ensures Holds(m + data[offset..offset + remainder])
    {
      ghost var piece := data[offset..offset + remainder];
      var start := accum % blockSize;
      TailLength(m, blockSize);
      PieceLength(accum, remainder, blockSize);
      Copy(start, data, offset, remainder);
      PieceFits(m, piece, blockSize);
      assert block[..start + remainder] == Tail(m, blockSize) + piece;
      if (accum + remainder) % blockSize == 0 {
        assert block[..] == block[..start + remainder];
        blocks := blocks + [block[..]];
      }
    }

    method Copy(at: nat, data: seq<Byte>, offset: nat, count: nat)
      requires at + count <= block.Length && offset + count <= |data|
      modifies block
      ensures block[..] == old(block[..at]) + data[offset..offset + count] + old(block[at + count..])
    {
      for f := 0 to count
        invariant forall k :: 0 <= k < block.Length ==>
                    block[k] == if at <= k < at + f then data[offset + k - at] else old(block[k])
      {
        block[at + f] := data[offset + f];
      }
    }

    /** Pads and hands on the last one or two blocks. */
    method Digest()
      requires Valid() && len < 0x20_0000_0000_0000
      modifies this, block
      ensures blocks == Blocks(Padded(old(input), blockSize, finalSize), blockSize)
    {
      TailLength(input, blockSize);
      LastBlocks(input, blockSize, finalSize);
      hide Zeros, Blocks, Tail, Padded, BigEndian;
      ghost var rest := Tail(input, blockSize);
      var e := len % blockSize;
      block[e] := 128;
      assert block[..e + 1] == rest + [0x80];
      FillZero(e + 1);
      ZerosEnd(rest + [0x80], blockSize - e - 1);
      if e >= finalSize {
        blocks := blocks + [block[..]];
        FillZero(0);
        ZerosEnd([], blockSize);
        assert block[..] == [] + Zeros(blockSize) && [] + Zeros(blockSize - 8) == Zeros(blockSize - 8);
      }
      WriteLength();
      blocks := blocks + [block[..]];
    }

    method FillZero(from: nat)
      requires from <= block.Length
      modifies block
      ensures block[..] == old(block[..from]) + Zeros(block.Length - from)
    {
      for i := from to block.Length
        invariant block[..] == old(block[..from]) + Zeros(i - from) + old(block[i..])
      {
        block[i] := 0;
      }
    }

    /** Writes the length in bits over the zeros at the end of the block. */
    method WriteLength()
      requires 8 <= block.Length == blockSize && len < 0x20_0000_0000_0000
      requires block[blockSize - 8..] == Zeros(8)
      modifies block
      ensures block[..] == old(block[..blockSize - 8]) + BigEndian(8 * len, 8)
    {
      var bits := 8 * len;
      LengthField(block[..], bits);
      if bits <= 0xFFFF_FFFF {
        WriteWord(bits, blockSize - 4);
      } else {
        var low, high := LowWord(bits), HighWord(bits);
        WriteWord(high, blockSize - 8);
        WriteWord(low, blockSize - 4);
      }
    }

    method WriteWord(x: nat, at: nat)
      requires x < 0x1_0000_0000 && at + 4 <= block.Length
      modifies block
      ensures block[..] == Patched(old(block[..]), at, BigEndian(x, 4))
    {
      block[at] := x / 0x100_0000;
      block[at + 1] := x / 0x1_0000 % 256;
      block[at + 2] := x / 0x100 % 256;
      block[at + 3] := x % 256;
      FourBytes(x);
    }
  }

  lemma {:induction false} FourBytes(x: nat)
    requires x < 0x1_0000_0000
    ensures x / 0x100_0000 < 256
    ensures BigEndian(x, 4) == [x / 0x100_0000, x / 0x1_0000 % 256, x / 0x100 % 256, x % 256]
  {
    assert BigEndian(x / 0x100_0000, 1) == [x / 0x100_0000];
    assert BigEndian(x / 0x1_0000, 2) == [x / 0x100_0000, x / 0x1_0000 % 256];
    assert BigEndian(x / 0x100, 3) == [x / 0x100_0000, x / 0x1_0000 % 256, x / 0x100 % 256];
  }

  lemma {:induction false} BigEndianHalves(x: nat)
    requires x < 0x1_0000_0000_0000_0000
    ensures BigEndian(x, 8) == BigEndian(x / 0x1_0000_0000, 4) + BigEndian(x % 0x1_0000_0000, 4)
    ensures x < 0x1_0000_0000 ==> BigEndian(x / 0x1_0000_0000, 4) == Zeros(4)
  {
    var a := x / 256;
    var b := a / 256;
    var c := b / 256;
    var d := c / 256;
    assert BigEndian(c, 5) == BigEndian(d, 4) + [c % 256];
    assert BigEndian(b, 6) == BigEndian(d, 4) + [c % 256, b % 256];
    assert BigEndian(a, 7) == BigEndian(d, 4) + [c % 256, b % 256, a % 256];
    assert BigEndian(x, 8) == BigEndian(d, 4) + [c % 256, b % 256, a % 256, x % 256];
    LowBytes(x, a, b, c, d);
    FourBytes(x % 0x1_0000_0000);
    BigEndianOfZero(4);
    hide BigEndian;
  }

  lemma LowBytes(x: nat, a: nat, b: nat, c: nat, d: nat)
    requires a == x / 256 && b == a / 256 && c == b / 256 && d == c / 256
    ensures d == x / 0x1_0000_0000
    ensures var low := x % 0x1_0000_0000;
            && low / 0x100_0000 == c % 256 && low / 0x1_0000 % 256 == b % 256
            && low / 0x100 % 256 == a % 256 && low % 256 == x % 256
  {
    var p, q, r, s := c % 256, b % 256, a % 256, x % 256;
    var low := 0x100_0000 * p + 0x1_0000 * q + 0x100 * r + s;
    Divides(0x1_0000_0000, x, d, low);
    Divides(0x100_0000, low, p, 0x1_0000 * q + 0x100 * r + s);
    Divides(0x1_0000, low, 256 * p + q, 0x100 * r + s);
    Divides(256, 256 * p + q, p, q);
    Divides(0x100, low, 0x1_0000 * p + 0x100 * q + r, s);
    Divides(256, 0x1_0000 * p + 0x100 * q + r, 256 * p + q, r);
  }

  lemma {:induction false} BigEndianOfZero(width: nat)
    ensures BigEndian(0, width) == Zeros(width)
  {
    if width == 0 {
    } else {
      BigEndianOfZero(width - 1);
    }
  }

  /** Wider fields start with zeros. */
  lemma {:induction false} BigEndianWider(x: nat, width: nat, more: nat)
    requires x < Power256(width)
    ensures BigEndian(x, more + width) == Zeros(more) + BigEndian(x, width)
  {
    if width == 0 { BigEndianOfZero(more); } else { BigEndianWider(x / 256, width - 1, more); }
  }

  /** What Digest does to the tail: pad to one block, or to two if the length field does not fit. */
  lemma {:induction false} LastBlocks(m: seq<Byte>, size: nat, final: nat)
    requires final + 8 <= size && |m| < 0x20_0000_0000_0000
    ensures var rest, e, count := Tail(m, size), |m| % size, BigEndian(8 * |m|, 8);
            Blocks(Padded(m, size, final), size) == Blocks(m, size) +
              if e < final then [rest + [0x80] + Zeros(size - e - 9) + count]
              else [rest + [0x80] + Zeros(size - e - 1), Zeros(size - 8) + count]
  {
    TailLength(m, size);
    assert Power256(8) == 0x1_0000_0000_0000_0000;
    BigEndianWider(8 * |m|, 8, size - final - 8);
    if |m| % size < final { OneMoreBlock(m, size, final); } else { TwoMoreBlocks(m, size, final); }
  }

  lemma TwoPieces(m: seq<Byte>, h: seq<Byte>, y: seq<Byte>, z: seq<Byte>, count: seq<Byte>)
    ensures m + (h + (y + z) + count) == (m + (h + y)) + (z + count)
  {
  }

  lemma Regroup(m: seq<Byte>, h: seq<Byte>, y: seq<Byte>, z: seq<Byte>, count: seq<Byte>, w: seq<Byte>)
    requires y + z == w
    ensures m + h + y + (z + count) == m + (h + w + count)
  {
  }

  lemma {:induction false} OneMoreBlock(m: seq<Byte>, size: nat, final: nat)
    requires final + 8 <= size && |Tail(m, size)| == |m| % size < final
    requires BigEndian(8 * |m|, size - final) == Zeros(size - final - 8) + BigEndian(8 * |m|, 8)
    ensures var rest, e, count := Tail(m, size), |m| % size, BigEndian(8 * |m|, 8);
            Blocks(Padded(m, size, final), size) == Blocks(m, size) + [rest + [0x80] + Zeros(size - e - 9) + count]
  {
    var rest, e, count := Tail(m, size), |m| % size, BigEndian(8 * |m|, 8);
    var piece := [0x80] + Zeros(size - e - 9) + count;
    Regroup(m, [0x80], Zeros(final - e - 1), Zeros(size - final - 8), count, Zeros(size - e - 9));
    PieceFits(m, piece, size);
    hide Blocks, Tail, BigEndian, Zeros;
    var zeros := Zeros(size - e - 9);
    Assoc(rest, [0x80], zeros);
    Assoc(rest, [0x80] + zeros, count);
  }

  lemma {:induction false} TwoMoreBlocks(m: seq<Byte>, size: nat, final: nat)
    requires final + 8 <= size && |Tail(m, size)| == |m| % size >= final
    requires BigEndian(8 * |m|, size - final) == Zeros(size - final - 8) + BigEndian(8 * |m|, 8)
    ensures var rest, e, count := Tail(m, size), |m| % size, BigEndian(8 * |m|, 8);
            Blocks(Padded(m, size, final), size)
            == Blocks(m, size) + [rest + [0x80] + Zeros(size - e - 1), Zeros(size - 8) + count]
  {
    var rest, e, count := Tail(m, size), |m| % size, BigEndian(8 * |m|, 8);
    var piece, last := [0x80] + Zeros(size - e - 1), Zeros(size - 8) + count;
    var ones := Zeros(size - e - 1) + Zeros(size - 8);
    Regroup(m, [0x80], Zeros(size + final - e - 1), Zeros(size - final - 8), count, ones);
    PieceFits(m, piece, size);
    assert [] + last == last;
    PieceFits(m + piece, last, size);
    hide Blocks, Tail, BigEndian, Zeros;
    TwoPieces(m, [0x80], Zeros(size - e - 1), Zeros(size - 8), count);
    assert rest + piece == rest + [0x80] + Zeros(size - e - 1);
    var before, first := Blocks(m, size), rest + piece;
    assert (before + [first]) + [last] == before + [first, last];
  }

  /** However the input is split over calls of Update, the same blocks are hashed. */
  method HashPieces(pieces: seq<seq<Byte>>, blockSize: nat, finalSize: nat) returns (blocks: seq<seq<Byte>>)
    requires finalSize + 8 <= blockSize && |Joined(pieces)| < 0x20_0000_0000_0000
    ensures blocks == Blocks(Padded(Joined(pieces), blockSize, finalSize), blockSize)
  {
    var h := new Hash(blockSize, finalSize);
    for i := 0 to |pieces|
      invariant h.Valid() && h.input == Joined(pieces[..i])
      invariant fresh(h) && fresh(h.block)
    {
      JoinedSnoc(pieces[..i], pieces[i]);
      assert pieces[..i + 1] == pieces[..i] + [pieces[i]];
      h.Update(pieces[i]);
    }
    assert pieces[..|pieces|] == pieces;
    h.Digest();
    blocks := h.blocks;
  }
}
