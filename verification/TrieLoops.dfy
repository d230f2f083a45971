/** The loops of module 3393 that fill arrays: le, fe, ce, ve and Le, each proved to compute the
    function that HashTrie uses in its place. */
module TrieLoops {
  import opened Wrappers
  import opened Bits
  import opened HashTrie

  /** r is the bitmap shifted right by i. */
  ghost predicate Shifted(bitmap: bv32, r: bv32, i: nat) {
    forall j: nat | j < 32 :: Bit(r, j) == (i + j < 32 && Bit(bitmap, i + j))
  }

  lemma HalvedBits(bitmap: bv32, r: bv32, i: nat)
    requires i < 32 && Shifted(bitmap, r, i)
    ensures Shifted(bitmap, Half(r), i + 1)
    ensures LowBit(r) == Bit(bitmap, i)
  {
    hide Bit, Half, LowBit;
    LowBitIsBit(r);
    forall j: nat | j < 32
      ensures Bit(Half(r), j) == (i + 1 + j < 32 && Bit(bitmap, i + 1 + j))
    {
      HalfBit(r, j);
    }
  }

  ghost predicate NoneFrom(bitmap: bv32, i: nat) {
    forall j: nat | i <= j < 32 :: !Bit(bitmap, j)
  }

  lemma BitsRemain(bitmap: bv32, r: bv32, i: nat)
    requires i <= 32 && Shifted(bitmap, r, i)
    ensures NonZero(r) ==> i < 32
    ensures !NonZero(r) ==> NoneFrom(bitmap, i)
  {
    hide Bit;
    if i == 32 {
      NoBitsIsZero(r);
    }
    if !NonZero(r) {
      forall j: nat | i <= j < 32
        ensures !Bit(bitmap, j)
      {
        NoBits(j - i);
        assert Bit(r, j - i) == Bit(bitmap, i + (j - i));
      }
    }
  }

  lemma NextChild<K, V>(bitmap: bv32, nodes: seq<Node<K, V>>, i: nat)
    requires i < 32 && |nodes| == Rank(bitmap, 32)
    ensures Rank(bitmap, i) <= |nodes|
    ensures Bit(bitmap, i) ==> Rank(bitmap, i) < |nodes|
    ensures Child(Bitmap(bitmap, nodes), i) == if Bit(bitmap, i) then Some(nodes[Rank(bitmap, i)]) else None
    ensures Rank(bitmap, i + 1) == Rank(bitmap, i) + if Bit(bitmap, i) then 1 else 0
  {
    hide Bit, Index;
    ChildByRank(bitmap, nodes, i);
    RankOrder(bitmap, i, 32);
  }

  /** The slots below i hold the bitmap node's children, and the others are still empty. */
  ghost predicate Spread<K, V>(bitmap: bv32, nodes: seq<Node<K, V>>, slots: seq<Option<Node<K, V>>>, i: nat)
    requires i <= |slots| == 32
  {
    && (forall j: nat | j < i :: slots[j] == Child(Bitmap(bitmap, nodes), j))
    && (forall j: nat | i <= j < 32 :: slots[j] == None)
  }

  lemma SpreadStep<K, V>(bitmap: bv32, nodes: seq<Node<K, V>>, slots: seq<Option<Node<K, V>>>, i: nat)
    requires |slots| == 32 && i < 32 && Spread(bitmap, nodes, slots, i)
    ensures Spread(bitmap, nodes, slots[i := Child(Bitmap(bitmap, nodes), i)], i + 1)
  {
    hide Bit, Index, Child;
  }

  lemma {:induction false} SpreadDone<K, V>(bitmap: bv32, nodes: seq<Node<K, V>>, slots: seq<Option<Node<K, V>>>,
                                            i: nat, s: nat, added: Node<K, V>)
    requires |slots| == 32 && i <= 32 && s < 32 && |nodes| == Rank(bitmap, 32)
    requires Spread(bitmap, nodes, slots, i) && NoneFrom(bitmap, i)
    ensures Rank(bitmap, i) == |nodes|
    ensures HashArray(|nodes| + 1, slots[s := Some(added)]) == Expand(bitmap, nodes, s, added)
  {
    hide Bit, Index, Child, NoneFrom;
    RestIsEmpty(bitmap, nodes, i);
  }

  /** le: spreads the children of a full bitmap node over 32 slots and adds one more. */
  method ExpandNodes<K, V>(nodes: seq<Node<K, V>>, bitmap: bv32, s: nat, added: Node<K, V>) returns (n: Node<K, V>)
    requires |nodes| == Rank(bitmap, 32) && s < 32 && !Bit(bitmap, s)
    ensures n == Expand(bitmap, nodes, s, added)
  {
    assert Shifted(bitmap, bitmap, 0) && Rank(bitmap, 0) == 0;
    hide Bit, Index, Half, LowBit, NonZero, Child, Shifted, NoneFrom, Rank, Expand;
    var slots := new Option<Node<K, V>>[32](_ => None);
    assert Spread(bitmap, nodes, slots[..], 0);
    hide Spread;
    var o, i, r := 0, 0, bitmap;
    BitsRemain(bitmap, r, 0);
    while NonZero(r)
      invariant 0 <= i <= 32 && (NonZero(r) ==> i < 32)
      invariant Shifted(bitmap, r, i)
      invariant o == Rank(bitmap, i)
      invariant Spread(bitmap, nodes, slots[..], i)
      decreases 32 - i
    {
      HalvedBits(bitmap, r, i);
      NextChild(bitmap, nodes, i);
      SpreadStep(bitmap, nodes, slots[..], i);
      if LowBit(r) {
        slots[i] := Some(nodes[o]);
        o := o + 1;
      } else {
        slots[i] := None;
      }
      i, r := i + 1, Half(r);
      BitsRemain(bitmap, r, i);
    }
    BitsRemain(bitmap, r, i);
    SpreadDone(bitmap, nodes, slots[..], i, s, added);
    slots[s] := Some(added);
    n := HashArray(o + 1, slots[..]);
  }

  lemma {:induction false} RestIsEmpty<K, V>(bitmap: bv32, nodes: seq<Node<K, V>>, i: nat)
    requires i <= 32 && |nodes| == Rank(bitmap, 32) && NoneFrom(bitmap, i)
    ensures Rank(bitmap, i) == |nodes|
    ensures forall j: nat | i <= j < 32 :: Child(Bitmap(bitmap, nodes), j) == None
    decreases 32 - i
  {
    hide Bit, Index, Child;
    if i == 32 {
    } else {
      RestIsEmpty(bitmap, nodes, i + 1);
      NextChild(bitmap, nodes, i);
    }
  }

  /** fe: collects the occupied slots, except one, into a bitmap node with the given child count. */
  method PackNodes<K, V>(slots: seq<Option<Node<K, V>>>, count: nat, excluded: nat, default_: Node<K, V>)
    returns (n: Node<K, V>)
    requires |slots| == 32 && count == |PackedNodes(slots, excluded, 32)|
    ensures n == Pack(slots, excluded)
  {
    hide Or, Mask, Twice;
    var packed := new Node<K, V>[count](_ => default_);
    var bits, o, a := 0, 0, 1;
    MaskTwice(0);
    for i := 0 to 32
      invariant i < 32 ==> a == Mask(i)
      invariant bits == PackedBits(slots, excluded, i)
      invariant o == |PackedNodes(slots, excluded, i)| <= count
      invariant packed[..o] == PackedNodes(slots, excluded, i)
    {
      PackedGrows(slots, excluded, i + 1, 32);
      if slots[i].Some? && i != excluded {
        bits := Or(bits, a);
        packed[o] := slots[i].value;
        o := o + 1;
      }
      MaskTwice(i);
      a := Twice(a);
    }
    n := Bitmap(bits, packed[..]);
  }

  lemma {:induction false} PackedGrows<K, V>(slots: seq<Option<Node<K, V>>>, excluded: nat, i: nat, j: nat)
    requires i <= j <= |slots|
    ensures |PackedNodes(slots, excluded, i)| <= |PackedNodes(slots, excluded, j)|
    decreases j
  {
    if i == j {
    } else {
      PackedGrows(slots, excluded, i, j - 1);
    }
  }

  /** ce: puts the entries of a full array map, one by one, beside a first leaf. */
  method CreateNodes<K(==, !new), V(==)>(entries: seq<(K, V)>, hash: K -> bv32, k: K, v: V) returns (n: Node<K, V>)
    requires WellFormed(Value(hash(k), (k, v)), hash, [])
    ensures n == Create(Value(hash(k), (k, v)), entries, hash)
  {
    hide WellFormed;
    n := Value(hash(k), (k, v));
    var o := 0;
    while o < |entries|
      invariant 0 <= o <= |entries| && WellFormed(n, hash, []) && !n.ArrayMap?
      invariant Create(n, entries[o..], hash) == Create(Value(hash(k), (k, v)), entries, hash)
    {
      var u := entries[o];
      UpdateCorrect(n, hash, [], u.0, Some(u.1));
      var outcome := Update(n, hash, [], u.0, Some(u.1));
      assert GetChild(outcome.node, hash, [], u.0) == Some(u.1);
      assert entries[o..][1..] == entries[o + 1..];
      n := outcome.node.value;
      o := o + 1;
    }
  }

  /** ve: a copy of the list with x inserted at position e. */
  method SpliceIn<T>(list: seq<T>, e: nat, x: T) returns (copy: seq<T>)
    requires e <= |list|
    ensures copy == list[..e] + [x] + list[e..]
  {
    var copied := new T[|list| + 1](_ => x);
    var u := 0;
    for s := 0 to |list| + 1
      invariant u == if s <= e then 0 else -1
      invariant copied[..s] == (list[..e] + [x] + list[e..])[..s]
    {
      if s == e {
        copied[s] := x;
        u := -1;
      } else {
        copied[s] := list[s + u];
      }
    }
    copy := copied[..];
  }

  /** Le: a copy of the list without position e. */
  method SpliceOut<T>(list: seq<T>, e: nat) returns (copy: seq<T>)
    requires e < |list|
    ensures copy == list[..e] + list[e + 1..]
  {
    var copied := new T[|list| - 1](_ => list[0]);
    var o := 0;
    for u := 0 to |list| - 1
      invariant o == if u <= e then 0 else 1
      invariant copied[..u] == (list[..e] + list[e + 1..])[..u]
    {
      if u == e {
        o := 1;
      }
      copied[u] := list[u + o];
    }
    copy := copied[..];
  }
}
