/** The persistent hash trie behind the immutable map (module 3393 of the bundle), without owner
    ids: every update copies the nodes it changes. */
module HashTrie {
  import opened Wrappers
  import opened Bits

  /** The five node classes: $t, Xt, Vt, Ht and Kt of the source, in this order. */
  datatype Node<K, V> =
    | ArrayMap(entries: seq<(K, V)>)
    | Bitmap(bitmap: bv32, nodes: seq<Node<K, V>>)
    | HashArray(count: nat, slots: seq<Option<Node<K, V>>>)
    | Collision(keyHash: bv32, entries: seq<(K, V)>)
    | Value(keyHash: bv32, entry: (K, V))

  const MAX_ARRAY_MAP_SIZE := 8
  const MAX_BITMAP_SIZE := 16
  const MIN_HASH_ARRAY_SIZE := 8

  /** The child of a branch node in slot s; the bitmap node finds it by a population count. */
  function Child<K, V>(n: Node<K, V>, s: nat): (c: Option<Node<K, V>>)
    requires s < 32
    ensures c.Some? ==> c.value < n
  {
    match n
    case Bitmap(bitmap, nodes) =>
      if Bit(bitmap, s) && Index(bitmap, s) < |nodes| then Some(nodes[Index(bitmap, s)]) else None
    case HashArray(_, slots) => if s < |slots| then slots[s] else None
    case _ => None
  }

  /** The source's se: a node that holds entries of one hash. */
  predicate IsLeaf<K, V>(n: Node<K, V>) {
    n.Value? || n.Collision?
  }

  predicate IsBranch<K, V>(n: Node<K, V>) {
    n.Bitmap? || n.HashArray?
  }

  // ----- entry lists -----

  /** The index of the first entry with the key, or the length of the list. */
  function FindKey<K(==), V>(entries: seq<(K, V)>, k: K): (i: nat)
    ensures i <= |entries|
    ensures i < |entries| ==> entries[i].0 == k
    ensures forall j | 0 <= j < i :: entries[j].0 != k
  {
    if entries == [] then 0 else if entries[0].0 == k then 0 else 1 + FindKey(entries[1..], k)
  }

  function Lookup<K(==), V>(entries: seq<(K, V)>, k: K): Option<V> {
    var i := FindKey(entries, k);
    if i < |entries| then Some(entries[i].1) else None
  }

  ghost predicate Distinct<K, V>(entries: seq<(K, V)>) {
    forall i, j | 0 <= i < j < |entries| :: entries[i].0 != entries[j].0
  }

  /** Removes an entry by moving the last one into its place. */
  function WithoutEntry<K, V>(entries: seq<(K, V)>, c: nat): seq<(K, V)>
    requires c < |entries|
  {
    var last := |entries| - 1;
    if c == last then entries[..last] else entries[..last][c := entries[last]]
  }

  /** The list after setting (Some) or removing (None) a key, with its first position c. */
  function PutEntry<K, V>(entries: seq<(K, V)>, c: nat, k: K, v: Option<V>): seq<(K, V)>
    requires c <= |entries| && (v.None? ==> c < |entries|)
  {
    match v
    case None => WithoutEntry(entries, c)
    case Some(value) => if c < |entries| then entries[c := (k, value)] else entries + [(k, value)]
  }

  /** In a list without repeated keys, lookup finds exactly what some position holds. */
  lemma LookupHit<K, V>(entries: seq<(K, V)>, i: nat)
    requires Distinct(entries) && i < |entries|
    ensures Lookup(entries, entries[i].0) == Some(entries[i].1)
  {
  }

  lemma LookupMiss<K, V>(entries: seq<(K, V)>, q: K)
    requires forall i | 0 <= i < |entries| :: entries[i].0 != q
    ensures Lookup(entries, q) == None
  {
  }

  lemma {:induction false} LookupSet<K, V>(entries: seq<(K, V)>, k: K, v: V, q: K)
    requires Distinct(entries)
    ensures var put := PutEntry(entries, FindKey(entries, k), k, Some(v));
      Distinct(put) && Lookup(put, q) == if q == k then Some(v) else Lookup(entries, q)
  {
    var c := FindKey(entries, k);
    var put := PutEntry(entries, c, k, Some(v));
    var i := FindKey(entries, q);
    if q == k {
      LookupHit(put, c);
    } else if i < |entries| {
      LookupHit(put, i);
    } else {
      LookupMiss(put, q);
    }
  }

  /** Where position j of a list comes from once position c has been removed. */
  ghost function MovedFrom(size: nat, c: nat, j: nat): nat
    requires c < size && j < size - 1
  {
    if j == c then size - 1 else j
  }

  lemma WithoutEntryAt<K, V>(entries: seq<(K, V)>, c: nat, j: nat)
    requires c < |entries| && j < |entries| - 1
    ensures |WithoutEntry(entries, c)| == |entries| - 1
    ensures WithoutEntry(entries, c)[j] == entries[MovedFrom(|entries|, c, j)]
    ensures MovedFrom(|entries|, c, j) != c
  {
  }

  lemma WithoutEntryDistinct<K, V>(entries: seq<(K, V)>, c: nat)
    requires Distinct(entries) && c < |entries|
    ensures Distinct(WithoutEntry(entries, c))
    ensures forall j | 0 <= j < |WithoutEntry(entries, c)| :: WithoutEntry(entries, c)[j].0 != entries[c].0
  {
    var put := WithoutEntry(entries, c);
    assert |put| == |entries| - 1;
    hide WithoutEntry;
    forall i, j | 0 <= i < j < |entries| - 1
      ensures put[i].0 != put[j].0
    {
      WithoutEntryAt(entries, c, i);
      WithoutEntryAt(entries, c, j);
    }
    forall j | 0 <= j < |entries| - 1
      ensures put[j].0 != entries[c].0
    {
      WithoutEntryAt(entries, c, j);
    }
  }

  /** After a removal the other entries are still found, and no other key appears. */
  lemma RemoveHit<K, V>(entries: seq<(K, V)>, c: nat, i: nat)
    requires Distinct(entries) && c < |entries| && i < |entries| && i != c
    ensures Lookup(WithoutEntry(entries, c), entries[i].0) == Some(entries[i].1)
  {
    var put := WithoutEntry(entries, c);
    var at := if i == |entries| - 1 then c else i;
    WithoutEntryDistinct(entries, c);
    WithoutEntryAt(entries, c, at);
    hide WithoutEntry, Lookup;
    LookupHit(put, at);
  }

  lemma RemoveMiss<K, V>(entries: seq<(K, V)>, c: nat, q: K)
    requires Distinct(entries) && c < |entries|
    requires entries[c].0 == q || forall i | 0 <= i < |entries| :: entries[i].0 != q
    ensures Lookup(WithoutEntry(entries, c), q) == None
  {
    var put := WithoutEntry(entries, c);
    assert |put| == |entries| - 1;
    WithoutEntryDistinct(entries, c);
    hide WithoutEntry, Lookup;
    forall j | 0 <= j < |put|
      ensures put[j].0 != q
    {
      WithoutEntryAt(entries, c, j);
    }
    LookupMiss(put, q);
  }

  lemma {:induction false} LookupRemove<K, V>(entries: seq<(K, V)>, k: K, q: K)
    requires Distinct(entries) && FindKey(entries, k) < |entries|
    ensures var put := PutEntry(entries, FindKey(entries, k), k, None);
      Distinct(put) && Lookup(put, q) == if q == k then None else Lookup(entries, q)
  {
    var c := FindKey(entries, k);
    var i := FindKey(entries, q);
    WithoutEntryDistinct(entries, c);
    hide WithoutEntry;
    if q != k && i < |entries| {
      RemoveHit(entries, c, i);
    } else {
      RemoveMiss(entries, c, q);
    }
  }

  // ----- the representation invariant -----

  /** The hash takes the slots of the path at the depths the path covers. */
  ghost predicate OnPath(h: bv32, path: seq<nat>) {
    |path| <= 7 && forall l: nat | l < |path| :: Slot(h, l) == path[l]
  }

  ghost function CountSome<T>(slots: seq<Option<T>>, n: nat): nat
    requires n <= |slots|
  {
    if n == 0 then 0 else CountSome(slots, n - 1) + if slots[n - 1].Some? then 1 else 0
  }

  /** The size conditions of one node. */
  ghost predicate Shape<K, V>(n: Node<K, V>) {
    match n
    case ArrayMap(entries) => 1 <= |entries| <= MAX_ARRAY_MAP_SIZE
    case Bitmap(bitmap, nodes) =>
      |nodes| == Rank(bitmap, 32) && 1 <= |nodes| <= MAX_BITMAP_SIZE && (|nodes| == 1 ==> !IsLeaf(nodes[0]))
    case HashArray(count, slots) =>
      |slots| == 32 && count == CountSome(slots, 32) && MIN_HASH_ARRAY_SIZE <= count
    case Collision(_, entries) => 2 <= |entries|
    case Value(_, _) => true
  }

  /** The trie invariant for a node reached by the given slots: sizes agree with bitmap and
      counter, every key's hash agrees with the path it is stored under, keys are distinct,
      and the one-level array map occurs at the root only. */
  ghost predicate WellFormed<K, V>(n: Node<K, V>, hash: K -> bv32, path: seq<nat>)
    decreases n
  {
    && Shape(n)
    && match n
       case ArrayMap(entries) => path == [] && Distinct(entries)
       case Value(h, entry) => h == hash(entry.0) && OnPath(h, path)
       case Collision(h, entries) =>
         OnPath(h, path) && Distinct(entries) && forall i | 0 <= i < |entries| :: hash(entries[i].0) == h
       case _ =>
         |path| < 7 && forall s: nat | s < 32 :: var c := Child(n, s);
           c.Some? ==> !c.value.ArrayMap? && WellFormed(c.value, hash, path + [s])
  }

  // ----- lookup -----

  /** The node's get: None stands for the caller's default. */
  function Get<K(==), V>(n: Node<K, V>, hash: K -> bv32, path: seq<nat>, k: K): Option<V>
    requires WellFormed(n, hash, path)
    decreases n
  {
    match n
    case ArrayMap(entries) => Lookup(entries, k)
    case Collision(_, entries) => Lookup(entries, k)
    case Value(_, entry) => if entry.0 == k then Some(entry.1) else None
    case _ =>
      var s := Slot(hash(k), |path|);
      match Child(n, s)
      case None => None
      case Some(c) => Get(c, hash, path + [s], k)
  }

  function GetChild<K(==), V>(c: Option<Node<K, V>>, hash: K -> bv32, path: seq<nat>, k: K): Option<V>
    requires c.Some? ==> WellFormed(c.value, hash, path)
  {
    if c.Some? then Get(c.value, hash, path, k) else None
  }

  // ----- update -----

  /** What updating a node returns: the node in its place (None for undefined), and the two flags
      the source passes by reference. */
  datatype Outcome<K, V> = Outcome(node: Option<Node<K, V>>, altered: bool, resized: bool)

  lemma Extend(h: bv32, path: seq<nat>, s: nat)
    requires OnPath(h, path) && |path| < 7 && s == Slot(h, |path|)
    ensures OnPath(h, path + [s])
  {
  }

  lemma Shorten(h: bv32, path: seq<nat>, s: nat)
    requires OnPath(h, path + [s])
    ensures OnPath(h, path)
  {
    assert forall l: nat | l < |path| :: (path + [s])[l] == path[l];
  }

  /** Different hashes on the same path differ in a slice below it. */
  lemma RoomToSplit(a: bv32, b: bv32, path: seq<nat>)
    requires OnPath(a, path) && OnPath(b, path) && a != b
    ensures exists l: nat :: |path| <= l < 7 && Slot(a, l) != Slot(b, l)
  {
    if forall l: nat | l < 7 :: Slot(a, l) == Slot(b, l) {
      SlotsDecide(a, b);
    }
  }

  /** The source's ae: puts a new entry beside a leaf, branching as deep as the hashes agree. */
  function Split<K, V>(leaf: Node<K, V>, path: seq<nat>, h: bv32, entry: (K, V)): Node<K, V>
    requires IsLeaf(leaf) && OnPath(leaf.keyHash, path) && OnPath(h, path)
    requires leaf.Collision? ==> leaf.keyHash != h
    decreases 7 - |path|
  {
    if leaf.keyHash == h then Collision(h, [leaf.entry, entry])
    else
      RoomToSplit(leaf.keyHash, h, path);
      var u := Slot(leaf.keyHash, |path|);
      var s := Slot(h, |path|);
      Extend(leaf.keyHash, path, u);
      Extend(h, path, s);
      Bitmap(Or(Mask(u), Mask(s)),
             if u == s then [Split(leaf, path + [u], h, entry)]
             else if u < s then [leaf, Value(h, entry)]
             else [Value(h, entry), leaf])
  }

  /** The source's fe: a bitmap node over the first i slots without the excluded one. */
  function PackedBits<K, V>(slots: seq<Option<Node<K, V>>>, excluded: nat, i: nat): bv32
    requires i <= |slots| <= 32
  {
    if i == 0 then 0
    else if slots[i - 1].Some? && i - 1 != excluded then Or(PackedBits(slots, excluded, i - 1), Mask(i - 1))
    else PackedBits(slots, excluded, i - 1)
  }

  function PackedNodes<K, V>(slots: seq<Option<Node<K, V>>>, excluded: nat, i: nat): seq<Node<K, V>>
    requires i <= |slots|
  {
    if i == 0 then []
    else if slots[i - 1].Some? && i - 1 != excluded
    then PackedNodes(slots, excluded, i - 1) + [slots[i - 1].value]
    else PackedNodes(slots, excluded, i - 1)
  }

  function Pack<K, V>(slots: seq<Option<Node<K, V>>>, excluded: nat): Node<K, V>
    requires |slots| == 32
  {
    Bitmap(PackedBits(slots, excluded, 32), PackedNodes(slots, excluded, 32))
  }

  /** The source's le: a hash array over the children of a bitmap node and one more. */
  function Expand<K, V>(bitmap: bv32, nodes: seq<Node<K, V>>, s: nat, added: Node<K, V>): Node<K, V> {
    HashArray(|nodes| + 1,
              seq(32, j requires 0 <= j < 32 => if j == s then Some(added) else Child(Bitmap(bitmap, nodes), j)))
  }

  /** The update of a node below an array map: sets the key to Some value, or removes it. */
  function Update<K(==), V(==)>(n: Node<K, V>, hash: K -> bv32, path: seq<nat>, k: K, v: Option<V>): Outcome<K, V>
    requires WellFormed(n, hash, path) && OnPath(hash(k), path) && !n.ArrayMap?
    decreases n
  {
    if n.Value? then UpdateValue(n.keyHash, n.entry, hash, path, k, v)
    else if n.Collision? then UpdateCollision(n.keyHash, n.entries, hash, path, k, v)
    else
      var s := Slot(hash(k), |path|);
      var child := Child(n, s);
      Extend(hash(k), path, s);
      var r := match child
        case None => UpdateMissing(hash, k, v)
        case Some(c) => Update(c, hash, path + [s], k, v);
      if child.None? && v.None? then Outcome(Some(n), false, false)
      else if r.node == child then Outcome(Some(n), r.altered, r.resized)
      else Outcome(Replace(n, s, r.node), r.altered, r.resized)
  }

  /** A branch node after the child in slot s was replaced, removed or added. */
  function Replace<K, V>(n: Node<K, V>, s: nat, c: Option<Node<K, V>>): Option<Node<K, V>>
    requires IsBranch(n) && Shape(n) && s < 32 && (Child(n, s).Some? || c.Some?)
  {
    ChildExists(n, s);
    if n.Bitmap? then ReplaceInBitmap(n.bitmap, n.nodes, s, Bit(n.bitmap, s), Index(n.bitmap, s), c)
    else Some(ReplaceInHashArray(n.count, n.slots, s, c))
  }

  /** In a bitmap node of the right size, the set bits are the occupied slots. */
  lemma {:induction false} ChildExists<K, V>(n: Node<K, V>, s: nat)
    requires Shape(n) && s < 32
    ensures n.Bitmap? ==> Index(n.bitmap, s) == Rank(n.bitmap, s) <= |n.nodes|
    ensures n.Bitmap? && Bit(n.bitmap, s) ==> Index(n.bitmap, s) < |n.nodes|
    ensures n.Bitmap? ==> Child(n, s).Some? == Bit(n.bitmap, s)
  {
    hide Bit, Index;
    if n.Bitmap? {
      IndexIsRank(n.bitmap, s);
      RankOrder(n.bitmap, s, 32);
    }
  }

  /** The source's ue on an absent node. */
  function UpdateMissing<K, V>(hash: K -> bv32, k: K, v: Option<V>): Outcome<K, V> {
    match v
    case None => Outcome(None, false, false)
    case Some(value) => Outcome(Some(Value(hash(k), (k, value))), true, true)
  }

  function UpdateValue<K(==), V(==)>(h: bv32, entry: (K, V), hash: K -> bv32, path: seq<nat>, k: K, v: Option<V>)
      : Outcome<K, V>
    requires WellFormed(Value(h, entry), hash, path) && OnPath(hash(k), path)
  {
    var n := Value(h, entry);
    var found := k == entry.0;
    if (if found then v == Some(entry.1) else v.None?) then Outcome(Some(n), false, false)
    else
      match v
      case None => Outcome(None, true, true)
      case Some(value) =>
        if found then Outcome(Some(Value(h, (k, value))), true, false)
        else Outcome(Some(Split(n, path, hash(k), (k, value))), true, true)
  }

  function UpdateCollision<K(==), V(==)>(h: bv32, entries: seq<(K, V)>, hash: K -> bv32, path: seq<nat>,
                                         k: K, v: Option<V>): Outcome<K, V>
    requires WellFormed(Collision(h, entries), hash, path) && OnPath(hash(k), path)
  {
    var n := Collision(h, entries);
    if hash(k) != h then
      match v
      case None => Outcome(Some(n), false, false)
      case Some(value) => Outcome(Some(Split(n, path, hash(k), (k, value))), true, true)
    else
      var c := FindKey(entries, k);
      var found := c < |entries|;
      if (if found then v == Some(entries[c].1) else v.None?) then Outcome(Some(n), false, false)
      else
        var resized := v.None? || !found;
        if v.None? && |entries| == 2 then Outcome(Some(Value(h, entries[1 - c])), true, resized)
        else Outcome(Some(Collision(h, PutEntry(entries, c, k, v))), true, resized)
  }

  /** The bitmap node after slot s, with child index i, received a changed child. */
  function ReplaceInBitmap<K, V>(bitmap: bv32, nodes: seq<Node<K, V>>, s: nat, present: bool, i: nat,
                                 c: Option<Node<K, V>>): Option<Node<K, V>>
    requires s < 32 && i <= |nodes| && (if present then i < |nodes| else c.Some?)
  {
    if !present && |nodes| >= MAX_BITMAP_SIZE then Some(Expand(bitmap, nodes, s, c.value))
    else if present && c.None? && |nodes| == 2 && IsLeaf(nodes[1 - i]) then Some(nodes[1 - i])
    else if present && c.Some? && |nodes| == 1 && IsLeaf(c.value) then c
    else if !present then Some(Bitmap(Or(bitmap, Mask(s)), nodes[..i] + [c.value] + nodes[i..]))
    else
      match c
      case Some(child) => Some(Bitmap(bitmap, nodes[i := child]))
      case None => Some(Bitmap(Xor(bitmap, Mask(s)), nodes[..i] + nodes[i + 1..]))
  }

  function ReplaceInHashArray<K, V>(count: nat, slots: seq<Option<Node<K, V>>>, s: nat,
                                    c: Option<Node<K, V>>): Node<K, V>
    requires s < |slots| == 32 && (slots[s].Some? ==> count > 0)
  {
    if slots[s].Some? && c.None? && count - 1 < MIN_HASH_ARRAY_SIZE then Pack(slots, s)
    else
      HashArray(if slots[s].None? then count + 1 else if c.None? then count - 1 else count, slots[s := c])
  }

  // ----- what replacing a child does to the slots -----

  /** The children of n with slot s changed to c. */
  ghost function View<K, V>(n: Node<K, V>, s: nat, c: Option<Node<K, V>>, j: nat): Option<Node<K, V>>
    requires j < 32
  {
    if j == s then c else Child(n, j)
  }

  /** m is a well-sized branch node with exactly the children of n except for c in slot s. */
  ghost predicate Patched<K, V>(n: Node<K, V>, s: nat, c: Option<Node<K, V>>, m: Node<K, V>) {
    IsBranch(m) && Shape(m) && forall j: nat | j < 32 :: Child(m, j) == View(n, s, c, j)
  }

  /** m is a leaf, the only child that is left, in slot t. */
  ghost predicate Collapsed<K, V>(n: Node<K, V>, s: nat, c: Option<Node<K, V>>, m: Node<K, V>, t: nat) {
    t < 32 && IsLeaf(m) && View(n, s, c, t) == Some(m) && forall j: nat | j < 32 && j != t :: View(n, s, c, j) == None
  }

  lemma {:induction false} ChildByRank<K, V>(bitmap: bv32, nodes: seq<Node<K, V>>, j: nat)
    requires j < 32
    ensures Child(Bitmap(bitmap, nodes), j) ==
      if Bit(bitmap, j) && Rank(bitmap, j) < |nodes| then Some(nodes[Rank(bitmap, j)]) else None
  {
    hide Bit, Index;
    IndexIsRank(bitmap, j);
  }

  lemma {:induction false} ReplacedChild<K, V>(bitmap: bv32, nodes: seq<Node<K, V>>, s: nat, c: Node<K, V>)
    requires s < 32 && |nodes| == Rank(bitmap, 32) <= MAX_BITMAP_SIZE && Bit(bitmap, s)
    requires |nodes| == 1 ==> !IsLeaf(c)
    requires Rank(bitmap, s) < |nodes|
    ensures Patched(Bitmap(bitmap, nodes), s, Some(c), Bitmap(bitmap, nodes[Rank(bitmap, s) := c]))
  {
    hide Bit, Index, Child;
    var i := Rank(bitmap, s);
    var replaced := nodes[i := c];
    forall j: nat | j < 32
      ensures Child(Bitmap(bitmap, replaced), j) == View(Bitmap(bitmap, nodes), s, Some(c), j)
    {
      ChildByRank(bitmap, nodes, j);
      ChildByRank(bitmap, replaced, j);
      RankOrder(bitmap, j, 32);
      if j < s {
        RankOrder(bitmap, j, s);
      } else {
        RankOrder(bitmap, s, j);
      }
    }
  }

  ghost predicate IsInserted<T>(inserted: seq<T>, list: seq<T>, i: nat, x: T) {
    i <= |list| && inserted == list[..i] + [x] + list[i..]
  }

  lemma InsertedAt<T>(inserted: seq<T>, list: seq<T>, i: nat, x: T, r: nat)
    requires IsInserted(inserted, list, i, x) && r <= |list|
    ensures |inserted| == |list| + 1
    ensures inserted[r] == if r < i then list[r] else if r == i then x else list[r - 1]
  {
  }

  lemma {:induction false} InsertedChild<K, V>(bitmap: bv32, nodes: seq<Node<K, V>>, s: nat, c: Node<K, V>)
    requires s < 32 && 1 <= |nodes| == Rank(bitmap, 32) < MAX_BITMAP_SIZE && !Bit(bitmap, s)
    requires Rank(bitmap, s) <= |nodes|
    ensures var i := Rank(bitmap, s);
      Patched(Bitmap(bitmap, nodes), s, Some(c), Bitmap(Or(bitmap, Mask(s)), nodes[..i] + [c] + nodes[i..]))
  {
    hide Bit, Index, Child, Or, Mask;
    var i := Rank(bitmap, s);
    var inserted := nodes[..i] + [c] + nodes[i..];
    var bits := Or(bitmap, Mask(s));
    RankSet(bitmap, s, 32);
    InsertedAt(inserted, nodes, i, c, 0);
    forall j: nat | j < 32
      ensures Child(Bitmap(bits, inserted), j) == View(Bitmap(bitmap, nodes), s, Some(c), j)
    {
      InsertedChildAt(bitmap, nodes, s, c, inserted, j);
    }
  }

  lemma {:induction false} InsertedChildAt<K, V>(bitmap: bv32, nodes: seq<Node<K, V>>, s: nat, c: Node<K, V>,
                                                 inserted: seq<Node<K, V>>, j: nat)
    requires s < 32 && j < 32 && |nodes| == Rank(bitmap, 32) && !Bit(bitmap, s) && Rank(bitmap, s) <= |nodes|
    requires IsInserted(inserted, nodes, Rank(bitmap, s), c)
    ensures Child(Bitmap(Or(bitmap, Mask(s)), inserted), j) == View(Bitmap(bitmap, nodes), s, Some(c), j)
  {
    hide Bit, Index, Child, Or, Mask, Rank, IsInserted;
    ChildByRank(bitmap, nodes, j);
    ChildByRank(Or(bitmap, Mask(s)), inserted, j);
    BitSet(bitmap, s, j);
    RankSet(bitmap, s, j);
    RankOrder(bitmap, j, 32);
    if j <= s {
      RankOrder(bitmap, j, s);
      InsertedAt(inserted, nodes, Rank(bitmap, s), c, Rank(bitmap, j));
    } else {
      RankOrder(bitmap, s, j);
      if Bit(bitmap, j) {
        InsertedAt(inserted, nodes, Rank(bitmap, s), c, Rank(bitmap, j) + 1);
      }
    }
  }

  lemma {:induction false} RemovedChild<K, V>(bitmap: bv32, nodes: seq<Node<K, V>>, s: nat)
    requires s < 32 && 2 <= |nodes| == Rank(bitmap, 32) <= MAX_BITMAP_SIZE && Bit(bitmap, s)
    requires Rank(bitmap, s) < |nodes|
    requires |nodes| == 2 ==> !IsLeaf(nodes[1 - Rank(bitmap, s)])
    ensures var i := Rank(bitmap, s);
      Patched(Bitmap(bitmap, nodes), s, None, Bitmap(Xor(bitmap, Mask(s)), nodes[..i] + nodes[i + 1..]))
  {
    hide Bit, Index, Child, Xor, Mask;
    var i := Rank(bitmap, s);
    var removed := nodes[..i] + nodes[i + 1..];
    var bits := Xor(bitmap, Mask(s));
    RankClear(bitmap, s, 32);
    forall j: nat | j < 32
      ensures Child(Bitmap(bits, removed), j) == View(Bitmap(bitmap, nodes), s, None, j)
    {
      ChildByRank(bitmap, nodes, j);
      ChildByRank(bits, removed, j);
      BitClear(bitmap, s, j);
      RankClear(bitmap, s, j);
      RankOrder(bitmap, j, 32);
      if j < s {
        RankOrder(bitmap, j, s);
      } else {
        RankOrder(bitmap, s, j);
      }
    }
  }

  lemma {:induction false} ExpandedCount<K, V>(bitmap: bv32, nodes: seq<Node<K, V>>, s: nat, c: Node<K, V>, i: nat)
    requires s < 32 && i <= 32 && |nodes| == Rank(bitmap, 32) && !Bit(bitmap, s)
    ensures CountSome(Expand(bitmap, nodes, s, c).slots, i) == Rank(bitmap, i) + if s < i then 1 else 0
  {
    hide Bit, Index;
    if i == 0 {
    } else {
      ExpandedCount(bitmap, nodes, s, c, i - 1);
      ChildExists2(bitmap, nodes, i - 1);
    }
  }

  lemma {:induction false} ChildExists2<K, V>(bitmap: bv32, nodes: seq<Node<K, V>>, j: nat)
    requires j < 32 && |nodes| == Rank(bitmap, 32)
    ensures Child(Bitmap(bitmap, nodes), j).Some? == Bit(bitmap, j)
    ensures Rank(bitmap, j) <= |nodes| && (Bit(bitmap, j) ==> Rank(bitmap, j) < |nodes|)
  {
    hide Bit, Index, Child;
    ChildByRank(bitmap, nodes, j);
    RankOrder(bitmap, j, 32);
  }

  lemma {:induction false} ExpandedNode<K, V>(bitmap: bv32, nodes: seq<Node<K, V>>, s: nat, c: Node<K, V>)
    requires s < 32 && MAX_BITMAP_SIZE <= |nodes| == Rank(bitmap, 32) && !Bit(bitmap, s)
    ensures Patched(Bitmap(bitmap, nodes), s, Some(c), Expand(bitmap, nodes, s, c))
  {
    hide Bit, Index;
    ExpandedCount(bitmap, nodes, s, c, 32);
  }

  lemma {:induction false} CountUpdate<T>(slots: seq<Option<T>>, s: nat, c: Option<T>, i: nat)
    requires s < |slots| && i <= |slots|
    ensures CountSome(slots[s := c], i) + (if s < i && slots[s].Some? then 1 else 0)
         == CountSome(slots, i) + (if s < i && c.Some? then 1 else 0)
  {
    if i == 0 {
    } else {
      CountUpdate(slots, s, c, i - 1);
    }
  }

  lemma RankNext(b: bv32, i: nat)
    requires i < 32
    ensures Rank(b, i + 1) == Rank(b, i) + if Bit(b, i) then 1 else 0
  {
  }

  /** Packing lists the occupied slots below i in order: their bits, and one node for each. */
  lemma {:induction false} PackedBelow<K, V>(slots: seq<Option<Node<K, V>>>, x: nat, i: nat, j: nat)
    requires |slots| == 32 && i <= 32 && j < 32
    ensures Bit(PackedBits(slots, x, i), j) == (j < i && j != x && slots[j].Some?)
    ensures |PackedNodes(slots, x, i)| == Rank(PackedBits(slots, x, i), 32) == Rank(PackedBits(slots, x, i), i)
    ensures |PackedNodes(slots, x, i)| + (if x < i && slots[x].Some? then 1 else 0) == CountSome(slots, i)
    decreases i
  {
    hide Bit, Or, Mask, Rank;
    if i == 0 {
      NoBits(j);
      NoRank(32);
      NoRank(0);
    } else {
      var before := PackedBits(slots, x, i - 1);
      RankNext(before, i - 1);
      PackedBelow(slots, x, i - 1, j);
      PackedBelow(slots, x, i - 1, i - 1);
      if slots[i - 1].Some? && i - 1 != x {
        BitSet(before, i - 1, j);
        RankSet(before, i - 1, 32);
        RankSet(before, i - 1, i);
      }
    }
  }

  lemma {:induction false} PackedChild<K, V>(slots: seq<Option<Node<K, V>>>, x: nat, i: nat, j: nat)
    requires |slots| == 32 && j < i <= 32 && j != x && slots[j].Some?
    ensures var bits, nodes := PackedBits(slots, x, i), PackedNodes(slots, x, i);
      Rank(bits, j) < |nodes| && nodes[Rank(bits, j)] == slots[j].value
    decreases i
  {
    hide Bit, Or, Mask, Rank;
    var before := PackedBits(slots, x, i - 1);
    PackedBelow(slots, x, i - 1, i - 1);
    if slots[i - 1].Some? && i - 1 != x {
      RankSet(before, i - 1, j);
    }
    if j == i - 1 {
    } else {
      PackedChild(slots, x, i - 1, j);
    }
  }

  lemma {:induction false} PackedNode<K, V>(count: nat, slots: seq<Option<Node<K, V>>>, s: nat)
    requires |slots| == 32 && s < 32 && slots[s].Some?
    requires count == CountSome(slots, 32) == MIN_HASH_ARRAY_SIZE
    ensures Patched(HashArray(count, slots), s, None, Pack(slots, s))
  {
    hide Bit, Index, PackedBits, PackedNodes;
    var bits, nodes := PackedBits(slots, s, 32), PackedNodes(slots, s, 32);
    PackedBelow(slots, s, 32, 0);
    forall j: nat | j < 32
      ensures Child(Bitmap(bits, nodes), j) == View(HashArray(count, slots), s, None, j)
    {
      PackedBelow(slots, s, 32, j);
      ChildByRank(bits, nodes, j);
      if j != s && slots[j].Some? {
        PackedChild(slots, s, 32, j);
      }
    }
  }

  /** Replacing a child yields a branch node with that one slot changed, or, when a single leaf is
      left, that leaf itself. */
  lemma ReplaceCorrect<K, V>(n: Node<K, V>, s: nat, c: Option<Node<K, V>>) returns (t: nat)
    requires IsBranch(n) && Shape(n) && s < 32 && (Child(n, s).Some? || c.Some?)
    requires Child(n, s).Some? && !IsLeaf(Child(n, s).value) ==> c.Some?
    ensures var m := Replace(n, s, c);
      m.Some? && (Patched(n, s, c, m.value) || Collapsed(n, s, c, m.value, t))
  {
    t := s;
    hide Bit, Index;
    ChildExists(n, s);
    if n.Bitmap? {
      ChildByRank(n.bitmap, n.nodes, s);
      t := ReplaceInBitmapCorrect(n.bitmap, n.nodes, s, c);
    } else {
      CountUpdate(n.slots, s, c, 32);
      if n.slots[s].Some? && c.None? && n.count - 1 < MIN_HASH_ARRAY_SIZE {
        PackedNode(n.count, n.slots, s);
      }
    }
  }

  lemma ReplaceInBitmapCorrect<K, V>(bitmap: bv32, nodes: seq<Node<K, V>>, s: nat, c: Option<Node<K, V>>)
    returns (t: nat)
    requires s < 32 && Shape(Bitmap(bitmap, nodes))
    requires Rank(bitmap, s) <= |nodes| && (Bit(bitmap, s) ==> Rank(bitmap, s) < |nodes|)
    requires !Bit(bitmap, s) ==> c.Some?
    requires Bit(bitmap, s) && !IsLeaf(nodes[Rank(bitmap, s)]) ==> c.Some?
    ensures var n, m := Bitmap(bitmap, nodes), ReplaceInBitmap(bitmap, nodes, s, Bit(bitmap, s), Rank(bitmap, s), c);
      m.Some? && (Patched(n, s, c, m.value) || Collapsed(n, s, c, m.value, t))
  {
    t := s;
    hide Bit, Index, Child, Patched, Or, Xor, Mask;
    var i := Rank(bitmap, s);
    if !Bit(bitmap, s) {
      if |nodes| >= MAX_BITMAP_SIZE {
        ExpandedNode(bitmap, nodes, s, c.value);
      } else {
        InsertedChild(bitmap, nodes, s, c.value);
      }
    } else if c.None? && |nodes| == 2 && IsLeaf(nodes[1 - i]) {
      t := OtherChild(bitmap, nodes, s);
    } else if c.Some? && |nodes| == 1 && IsLeaf(c.value) {
      OnlyChild(bitmap, nodes, s, c.value);
    } else if c.Some? {
      ReplacedChild(bitmap, nodes, s, c.value);
    } else {
      RemovedChild(bitmap, nodes, s);
    }
  }

  lemma {:induction false} OnlyChild<K, V>(bitmap: bv32, nodes: seq<Node<K, V>>, s: nat, c: Node<K, V>)
    requires s < 32 && |nodes| == Rank(bitmap, 32) == 1 && Bit(bitmap, s) && IsLeaf(c)
    ensures Collapsed(Bitmap(bitmap, nodes), s, Some(c), c, s)
  {
    hide Bit, Index, Child;
    forall j: nat | j < 32 && j != s
      ensures Child(Bitmap(bitmap, nodes), j) == None
    {
      ChildByRank(bitmap, nodes, j);
      RankOrder(bitmap, j, 32);
      RankOrder(bitmap, s, 32);
      if j < s {
        RankOrder(bitmap, j, s);
      } else {
        RankOrder(bitmap, s, j);
      }
    }
  }

  /** Some slot below i holds the child of each rank. */
  lemma {:induction false} SlotOfRank(b: bv32, r: nat, i: nat) returns (t: nat)
    requires i <= 32 && r < Rank(b, i)
    ensures t < i && Bit(b, t) && Rank(b, t) == r
  {
    hide Bit;
    if r < Rank(b, i - 1) {
      t := SlotOfRank(b, r, i - 1);
    } else {
      t := i - 1;
    }
  }

  lemma OtherChild<K, V>(bitmap: bv32, nodes: seq<Node<K, V>>, s: nat) returns (t: nat)
    requires s < 32 && |nodes| == Rank(bitmap, 32) == 2 && Bit(bitmap, s) && Rank(bitmap, s) < 2
    requires IsLeaf(nodes[1 - Rank(bitmap, s)])
    ensures Collapsed(Bitmap(bitmap, nodes), s, None, nodes[1 - Rank(bitmap, s)], t)
  {
    hide Bit, Index, Child;
    var r := 1 - Rank(bitmap, s);
    t := SlotOfRank(bitmap, r, 32);
    ChildByRank(bitmap, nodes, t);
    forall j: nat | j < 32 && j != s && j != t
      ensures Child(Bitmap(bitmap, nodes), j) == None
    {
      ChildByRank(bitmap, nodes, j);
      RankOrder(bitmap, j, 32);
      if Bit(bitmap, j) {
        RanksDiffer(bitmap, j, s);
        RanksDiffer(bitmap, j, t);
      }
    }
  }

  lemma {:induction false} RanksDiffer(b: bv32, i: nat, j: nat)
    requires i < 32 && j < 32 && i != j && Bit(b, i) && Bit(b, j)
    ensures Rank(b, i) != Rank(b, j)
  {
    hide Bit;
    if i < j {
      RankOrder(b, i, j);
    } else {
      RankOrder(b, j, i);
    }
  }

  // ----- correctness of update -----

  /** An update's result stores the key as asked, leaves every other key alone, keeps the
      invariant, and raises each flag exactly when it should. */
  ghost predicate Updated<K(!new), V>(o: Outcome<K, V>, n: Option<Node<K, V>>, hash: K -> bv32, path: seq<nat>,
                                      k: K, v: Option<V>)
    requires n.Some? ==> WellFormed(n.value, hash, path)
  {
    && (o.node.Some? ==> !o.node.value.ArrayMap? && WellFormed(o.node.value, hash, path))
    && (forall q :: GetChild(o.node, hash, path, q) == if q == k then v else GetChild(n, hash, path, q))
    && o.altered == (GetChild(n, hash, path, k) != v)
    && o.resized == (GetChild(n, hash, path, k).Some? != v.Some?)
    && (!o.altered ==> o.node == n)
    && (n.Some? && IsBranch(n.value) ==> o.node.Some?)
  }

  lemma {:induction false} LeafKeys<K, V>(leaf: Node<K, V>, hash: K -> bv32, path: seq<nat>, q: K)
    requires IsLeaf(leaf) && WellFormed(leaf, hash, path)
    ensures OnPath(leaf.keyHash, path)
    ensures hash(q) != leaf.keyHash ==> Get(leaf, hash, path, q) == None
  {
  }

  /** A leaf means the same anywhere along its path. */
  lemma {:induction false} LeafMoves<K, V>(leaf: Node<K, V>, hash: K -> bv32, path: seq<nat>, other: seq<nat>, q: K)
    requires IsLeaf(leaf) && WellFormed(leaf, hash, path) && OnPath(leaf.keyHash, other)
    ensures WellFormed(leaf, hash, other) && Get(leaf, hash, other, q) == Get(leaf, hash, path, q)
  {
  }

  lemma {:induction false} SplitChild<K, V>(leaf: Node<K, V>, path: seq<nat>, h: bv32, entry: (K, V), j: nat)
    requires IsLeaf(leaf) && OnPath(leaf.keyHash, path) && OnPath(h, path) && leaf.keyHash != h && j < 32
    ensures |path| < 7
    ensures var u, s, n := Slot(leaf.keyHash, |path|), Slot(h, |path|), Split(leaf, path, h, entry);
      && n.Bitmap? && |n.nodes| == Rank(n.bitmap, 32) == (if u == s then 1 else 2)
      && OnPath(leaf.keyHash, path + [u]) && OnPath(h, path + [s])
      && (u == s ==> n.nodes[0] == Split(leaf, path + [u], h, entry))
      && Child(n, j) == if u == s && j == u then Some(n.nodes[0])
                        else if j == u then Some(leaf)
                        else if j == s then Some(Value(h, entry)) else None
  {
    RoomToSplit(leaf.keyHash, h, path);
    var u, s := Slot(leaf.keyHash, |path|), Slot(h, |path|);
    Extend(leaf.keyHash, path, u);
    Extend(h, path, s);
    var n := Split(leaf, path, h, entry);
    hide Bit, Index, Or, Mask;
    TwoBits(u, s, 32);
    TwoBits(u, s, j);
    ChildByRank(n.bitmap, n.nodes, j);
  }

  /** Nodes that hold the same children hold the same bindings: lookup goes through the slot. */
  lemma {:induction false} GetThroughSlot<K, V>(n: Node<K, V>, hash: K -> bv32, path: seq<nat>, q: K)
    requires IsBranch(n) && WellFormed(n, hash, path)
    ensures |path| < 7
    ensures var s := Slot(hash(q), |path|);
      (Child(n, s).Some? ==> WellFormed(Child(n, s).value, hash, path + [s]))
      && Get(n, hash, path, q) == GetChild(Child(n, s), hash, path + [s], q)
  {
    hide Slot;
  }

  lemma {:induction false} BranchWellFormed<K, V>(n: Node<K, V>, hash: K -> bv32, path: seq<nat>)
    requires IsBranch(n) && Shape(n) && |path| < 7
    requires forall s: nat | s < 32 :: var c := Child(n, s);
      c.Some? ==> !c.value.ArrayMap? && WellFormed(c.value, hash, path + [s])
    ensures WellFormed(n, hash, path)
  {
  }

  lemma LookupOfTwo<K, V>(a: (K, V), b: (K, V), q: K)
    requires a.0 != b.0
    ensures Distinct([a, b])
    ensures Lookup([a, b], q) == if q == a.0 then Some(a.1) else if q == b.0 then Some(b.1) else None
  {
    var two := [a, b];
    if q == a.0 {
      LookupHit(two, 0);
    } else if q == b.0 {
      LookupHit(two, 1);
    } else {
      LookupMiss(two, q);
    }
  }

  /** One step of a split at a depth where the two hashes differ, or agree once more. */
  lemma {:induction false} SplitBranch<K, V>(leaf: Node<K, V>, hash: K -> bv32, path: seq<nat>, k: K, v: V)
    requires IsLeaf(leaf) && WellFormed(leaf, hash, path) && OnPath(hash(k), path) && leaf.keyHash != hash(k)
    requires |path| < 7
    requires var u, inner := Slot(leaf.keyHash, |path|), Split(leaf, path, hash(k), (k, v)).nodes[0];
      u == Slot(hash(k), |path|) ==> IsBranch(inner) && WellFormed(inner, hash, path + [u])
    ensures WellFormed(Split(leaf, path, hash(k), (k, v)), hash, path)
  {
    hide Bit, Index, Or, Mask, SliceWord;
    var h := hash(k);
    var n := Split(leaf, path, h, (k, v));
    var u, s := Slot(leaf.keyHash, |path|), Slot(h, |path|);
    SplitChild(leaf, path, h, (k, v), 0);
    assert WellFormed(Value(h, (k, v)), hash, path + [s]);
    assert WellFormed(leaf, hash, path + [u]);
    assert Shape(n);
    hide Split, WellFormed, Child, Slot, OnPath, Shape;
    forall j: nat | j < 32
      ensures var c := Child(n, j); c.Some? ==> !c.value.ArrayMap? && WellFormed(c.value, hash, path + [j])
    {
      SplitChild(leaf, path, h, (k, v), j);
    }
    BranchWellFormed(n, hash, path);
  }

  lemma {:induction false} SplitCorrect<K, V>(leaf: Node<K, V>, hash: K -> bv32, path: seq<nat>, k: K, v: V, q: K)
    requires IsLeaf(leaf) && WellFormed(leaf, hash, path) && OnPath(hash(k), path)
    requires if leaf.Value? then leaf.entry.0 != k else leaf.keyHash != hash(k)
    ensures var n := Split(leaf, path, hash(k), (k, v));
      && !n.ArrayMap? && WellFormed(n, hash, path)
      && Get(n, hash, path, q) == (if q == k then Some(v) else Get(leaf, hash, path, q))
      && (leaf.keyHash != hash(k) ==> IsBranch(n))
    decreases 7 - |path|
  {
    hide Bit, Index, Or, Mask, SliceWord;
    var h := hash(k);
    var n := Split(leaf, path, h, (k, v));
    LeafKeys(leaf, hash, path, q);
    if leaf.keyHash != h {
      SplitChild(leaf, path, h, (k, v), 0);
      var u, s, t := Slot(leaf.keyHash, |path|), Slot(h, |path|), Slot(hash(q), |path|);
      LeafMoves(leaf, hash, path, path + [u], q);
      var added := Value(h, (k, v));
      assert WellFormed(added, hash, path + [s]);
      assert Get(added, hash, path + [s], q) == if q == k then Some(v) else None;
      if u == s {
        SplitCorrect(leaf, hash, path + [u], k, v, q);
      }
      hide Split, WellFormed, Child, Slot, OnPath, Get;
      SplitBranch(leaf, hash, path, k, v);
      GetThroughSlot(n, hash, path, q);
      SplitChild(leaf, path, h, (k, v), t);
    } else {
      LookupOfTwo(leaf.entry, (k, v), q);
    }
  }

  lemma {:induction false} UpdateSplitCorrect<K(!new), V>(leaf: Node<K, V>, hash: K -> bv32, path: seq<nat>, k: K, v: V)
    requires IsLeaf(leaf) && WellFormed(leaf, hash, path) && OnPath(hash(k), path)
    requires if leaf.Value? then leaf.entry.0 != k else leaf.keyHash != hash(k)
    ensures var n := Split(leaf, path, hash(k), (k, v));
      Updated(Outcome(Some(n), true, true), Some(leaf), hash, path, k, Some(v))
  {
    hide Bit, Index, Or, Mask, SliceWord;
    LeafKeys(leaf, hash, path, k);
    assert Get(leaf, hash, path, k) == None;
    SplitCorrect(leaf, hash, path, k, v, k);
    hide Split, WellFormed, OnPath, Get;
    var n := Split(leaf, path, hash(k), (k, v));
    forall q
      ensures Get(n, hash, path, q) == if q == k then Some(v) else Get(leaf, hash, path, q)
    {
      SplitCorrect(leaf, hash, path, k, v, q);
    }
  }

  lemma {:induction false} UpdateValueCorrect<K(!new), V>(n: Node<K, V>, hash: K -> bv32, path: seq<nat>, k: K,
                                                          v: Option<V>)
    requires n.Value? && WellFormed(n, hash, path) && OnPath(hash(k), path)
    ensures Updated(Update(n, hash, path, k, v), Some(n), hash, path, k, v)
  {
    hide Bit, Index, Or, Mask, SliceWord;
    if v.Some? && k != n.entry.0 {
      UpdateSplitCorrect(n, hash, path, k, v.value);
    }
  }

  lemma {:induction false} UpdateCollisionCorrect<K(!new), V>(n: Node<K, V>, hash: K -> bv32, path: seq<nat>, k: K,
                                                              v: Option<V>)
    requires n.Collision? && WellFormed(n, hash, path) && OnPath(hash(k), path)
    ensures Updated(Update(n, hash, path, k, v), Some(n), hash, path, k, v)
  {
    hide Bit, Index, Or, Mask, SliceWord;
    var c := FindKey(n.entries, k);
    var o := Update(n, hash, path, k, v);
    LeafKeys(n, hash, path, k);
    if hash(k) != n.keyHash {
      if v.Some? {
        UpdateSplitCorrect(n, hash, path, k, v.value);
      }
    } else if o.altered {
      CollisionPut(n, hash, path, k, v);
    }
  }

  /** Entries with one hash as a node: a collision node, or a plain value if there is only one. */
  function EntriesNode<K, V>(h: bv32, entries: seq<(K, V)>): Node<K, V>
    requires entries != []
  {
    if |entries| == 1 then Value(h, entries[0]) else Collision(h, entries)
  }

  lemma {:induction false} EntriesHold<K(!new), V>(h: bv32, entries: seq<(K, V)>, hash: K -> bv32, path: seq<nat>)
    requires entries != [] && Distinct(entries) && OnPath(h, path)
    requires forall i | 0 <= i < |entries| :: hash(entries[i].0) == h
    ensures var n := EntriesNode(h, entries);
      && !n.ArrayMap? && !IsBranch(n) && WellFormed(n, hash, path)
      && forall q :: Get(n, hash, path, q) == Lookup(entries, q)
  {
    hide OnPath;
    if |entries| == 1 { assert entries[1..] == []; }
  }

  lemma {:induction false} CollisionHolds<K(!new), V>(n: Node<K, V>, hash: K -> bv32, path: seq<nat>)
    requires n.Collision? && WellFormed(n, hash, path)
    ensures Distinct(n.entries) && OnPath(n.keyHash, path) && 2 <= |n.entries|
    ensures forall i | 0 <= i < |n.entries| :: hash(n.entries[i].0) == n.keyHash
    ensures forall q :: Get(n, hash, path, q) == Lookup(n.entries, q)
  {
    hide OnPath;
  }

  lemma {:induction false} CollisionPut<K(!new), V>(n: Node<K, V>, hash: K -> bv32, path: seq<nat>, k: K, v: Option<V>)
    requires n.Collision? && WellFormed(n, hash, path) && OnPath(hash(k), path) && hash(k) == n.keyHash
    requires Update(n, hash, path, k, v).altered
    ensures Updated(Update(n, hash, path, k, v), Some(n), hash, path, k, v)
  {
    hide Bit, Index, Or, Mask, SliceWord, WellFormed, Get, OnPath, Distinct;
    CollisionHolds(n, hash, path);
    var c := FindKey(n.entries, k);
    var put := PutEntry(n.entries, c, k, v);
    forall q
      ensures Distinct(put) && Lookup(put, q) == if q == k then v else Lookup(n.entries, q)
    {
      PutLookup(n.entries, k, v, q);
    }
    forall i | 0 <= i < |put|
      ensures hash(put[i].0) == n.keyHash
    {
      PutKeys(n.entries, c, k, v, i);
    }
    CollisionOutcome(n, hash, path, k, v, put);
    EntriesHold(n.keyHash, put, hash, path);
    hide Update, PutEntry, FindKey, Lookup;
  }

  lemma {:induction false} CollisionOutcome<K(!new), V>(n: Node<K, V>, hash: K -> bv32, path: seq<nat>, k: K,
                                                        v: Option<V>, put: seq<(K, V)>)
    requires n.Collision? && WellFormed(n, hash, path) && OnPath(hash(k), path) && hash(k) == n.keyHash
    requires Update(n, hash, path, k, v).altered && 2 <= |n.entries|
    requires put == PutEntry(n.entries, FindKey(n.entries, k), k, v)
    ensures put != []
    ensures var o := Update(n, hash, path, k, v);
      && o.node == Some(EntriesNode(n.keyHash, put))
      && Lookup(n.entries, k) != v
      && o.resized == (Lookup(n.entries, k).Some? != v.Some?)
  {
    hide Bit, Index, Or, Mask, SliceWord, WellFormed, OnPath;
    var c := FindKey(n.entries, k);
    if v.None? && |n.entries| == 2 { assert put == [n.entries[1 - c]]; }
  }

  lemma {:induction false} PutLookup<K, V>(entries: seq<(K, V)>, k: K, v: Option<V>, q: K)
    requires Distinct(entries) && (v.None? ==> FindKey(entries, k) < |entries|)
    ensures var put := PutEntry(entries, FindKey(entries, k), k, v);
      Distinct(put) && Lookup(put, q) == if q == k then v else Lookup(entries, q)
  {
    match v
    case None => LookupRemove(entries, k, q);
    case Some(value) => LookupSet(entries, k, value, q);
  }

  lemma PutKeys<K, V>(entries: seq<(K, V)>, c: nat, k: K, v: Option<V>, i: nat)
    requires c <= |entries| && (v.None? ==> c < |entries|) && i < |PutEntry(entries, c, k, v)|
    ensures var put := PutEntry(entries, c, k, v);
      (v.Some? && put[i].0 == k) || exists j | 0 <= j < |entries| :: put[i] == entries[j]
  {
    var put := PutEntry(entries, c, k, v);
    match v
    case None => WithoutEntryAt(entries, c, i);
    case Some(_) => if i != c && i < |entries| { assert put[i] == entries[i]; }
  }

  /** A branch node with one child changed is well-formed and finds what the changed children hold. */
  lemma {:induction false} PatchedCorrect<K, V>(n: Node<K, V>, hash: K -> bv32, path: seq<nat>, s: nat,
                                                c: Option<Node<K, V>>, m: Node<K, V>, q: K)
    requires IsBranch(n) && WellFormed(n, hash, path) && s < 32 && Patched(n, s, c, m)
    requires c.Some? ==> !c.value.ArrayMap? && WellFormed(c.value, hash, path + [s])
    ensures WellFormed(m, hash, path)
    ensures |path| < 7 && Get(m, hash, path, q) ==
      if Slot(hash(q), |path|) == s then GetChild(c, hash, path + [s], q) else Get(n, hash, path, q)
  {
    assert |path| < 7;
    assert forall j: nat | j < 32 :: var d := Child(n, j);
      d.Some? ==> !d.value.ArrayMap? && WellFormed(d.value, hash, path + [j]);
    hide Slot, Shape, Child, WellFormed, Get;
    BranchWellFormed(m, hash, path);
    GetThroughSlot(m, hash, path, q);
    GetThroughSlot(n, hash, path, q);
  }

  /** The leaf that is left when all other children are gone lies on the shorter path too. */
  lemma {:induction false} CollapsedLeaf<K, V>(n: Node<K, V>, hash: K -> bv32, path: seq<nat>, s: nat,
                                               c: Option<Node<K, V>>, m: Node<K, V>, t: nat)
    requires IsBranch(n) && WellFormed(n, hash, path) && s < 32 && Collapsed(n, s, c, m, t)
    requires c.Some? ==> !c.value.ArrayMap? && WellFormed(c.value, hash, path + [s])
    ensures |path| < 7 && WellFormed(m, hash, path + [t])
    ensures OnPath(m.keyHash, path) && Slot(m.keyHash, |path|) == t
  {
    hide Bit, Index, SliceWord, Slot;
    assert |path| < 7 && WellFormed(m, hash, path + [t]) by {
      hide Shape, OnPath;
    }
    assert OnPath(m.keyHash, path + [t]);
    assert (path + [t])[|path|] == t;
    hide WellFormed, Child;
    Shorten(m.keyHash, path, t);
  }

  lemma {:induction false} CollapsedCorrect<K, V>(n: Node<K, V>, hash: K -> bv32, path: seq<nat>, s: nat,
                                                  c: Option<Node<K, V>>, m: Node<K, V>, t: nat, q: K)
    requires IsBranch(n) && WellFormed(n, hash, path) && s < 32 && Collapsed(n, s, c, m, t)
    requires c.Some? ==> !c.value.ArrayMap? && WellFormed(c.value, hash, path + [s])
    ensures WellFormed(m, hash, path)
    ensures |path| < 7 && Get(m, hash, path, q) ==
      if Slot(hash(q), |path|) == s then GetChild(c, hash, path + [s], q) else Get(n, hash, path, q)
  {
    hide Bit, Index, SliceWord, Slot, Shape, Child, WellFormed, Get, OnPath;
    CollapsedLeaf(n, hash, path, s, c, m, t);
    LeafMoves(m, hash, path + [t], path, q);
    LeafKeys(m, hash, path, q);
    GetThroughSlot(n, hash, path, q);
    var u := Slot(hash(q), |path|);
    if u == t {
      assert View(n, s, c, u) == Some(m);
    } else {
      assert View(n, s, c, u) == None;
      assert hash(q) != m.keyHash;
    }
  }

  /** Replacing the child in a slot changes what is found through that slot only. */
  lemma {:induction false} ReplacedGet<K, V>(n: Node<K, V>, hash: K -> bv32, path: seq<nat>, s: nat,
                                             c: Option<Node<K, V>>, q: K)
    requires IsBranch(n) && WellFormed(n, hash, path) && s < 32 && (Child(n, s).Some? || c.Some?)
    requires c.Some? ==> !c.value.ArrayMap? && WellFormed(c.value, hash, path + [s])
    requires Shape(n) && (Child(n, s).Some? && !IsLeaf(Child(n, s).value) ==> c.Some?)
    ensures Replace(n, s, c).Some?
    ensures var m := Replace(n, s, c).value;
      && !m.ArrayMap? && WellFormed(m, hash, path) && |path| < 7
      && Get(m, hash, path, q) ==
           if Slot(hash(q), |path|) == s then GetChild(c, hash, path + [s], q) else Get(n, hash, path, q)
  {
    hide Bit, Index, Or, Mask, SliceWord, Slot, Replace, WellFormed, Get, GetChild, Child, Shape;
    var t := ReplaceCorrect(n, s, c);
    var m := Replace(n, s, c).value;
    if Patched(n, s, c, m) {
      PatchedCorrect(n, hash, path, s, c, m, q);
    } else {
      CollapsedCorrect(n, hash, path, s, c, m, t, q);
    }
  }

  lemma {:induction false} BranchShape<K, V>(n: Node<K, V>, hash: K -> bv32, path: seq<nat>, s: nat)
    requires IsBranch(n) && WellFormed(n, hash, path) && s < 32
    ensures Shape(n) && (Child(n, s).Some? ==> !Child(n, s).value.ArrayMap?)
  {
    hide Child;
  }

  lemma {:induction false} UpdateBranchCorrect<K(!new), V>(n: Node<K, V>, hash: K -> bv32, path: seq<nat>, k: K,
                                                           v: Option<V>, s: nat, r: Outcome<K, V>)
    requires IsBranch(n) && WellFormed(n, hash, path) && |path| < 7 && s == Slot(hash(k), |path|)
    requires Child(n, s).Some? ==> WellFormed(Child(n, s).value, hash, path + [s])
    requires Updated(r, Child(n, s), hash, path + [s], k, v) && r.altered
    requires Child(n, s).Some? || r.node.Some?
    ensures Shape(n)
    ensures Updated(Outcome(Replace(n, s, r.node), r.altered, r.resized), Some(n), hash, path, k, v)
  {
    hide Bit, Index, Or, Mask, SliceWord, Slot, Replace, WellFormed, Get, Shape, Child;
    BranchShape(n, hash, path, s);
    assert Child(n, s).Some? && !IsLeaf(Child(n, s).value) ==> r.node.Some?;
    ReplacedGet(n, hash, path, s, r.node, k);
    GetThroughSlot(n, hash, path, k);
    var m := Replace(n, s, r.node).value;
    forall q
      ensures Get(m, hash, path, q) == if q == k then v else Get(n, hash, path, q)
    {
      ReplacedGet(n, hash, path, s, r.node, q);
      GetThroughSlot(n, hash, path, q);
    }
  }

  /** The update of a branch node, given that of the child in the key's slot. */
  lemma {:induction false} UpdateThroughSlot<K(!new), V>(n: Node<K, V>, hash: K -> bv32, path: seq<nat>, k: K,
                                                         v: Option<V>)
    requires IsBranch(n) && WellFormed(n, hash, path) && OnPath(hash(k), path) && |path| < 7
    requires var s := Slot(hash(k), |path|); var c := Child(n, s);
      c.Some? ==> !c.value.ArrayMap? && WellFormed(c.value, hash, path + [s]) && OnPath(hash(k), path + [s])
                  && Updated(Update(c.value, hash, path + [s], k, v), c, hash, path + [s], k, v)
    ensures Updated(Update(n, hash, path, k, v), Some(n), hash, path, k, v)
  {
    hide Bit, Index, Or, Mask, SliceWord;
    assert Shape(n);
    var s := Slot(hash(k), |path|);
    var child := Child(n, s);
    Extend(hash(k), path, s);
    GetThroughSlot(n, hash, path, k);
    var r := if child.Some? then Update(child.value, hash, path + [s], k, v) else UpdateMissing(hash, k, v);
    var o := Update(n, hash, path, k, v);
    assert o == if (child.None? && v.None?) || r.node == child then Outcome(Some(n), r.altered, r.resized)
                else Outcome(Replace(n, s, r.node), r.altered, r.resized);
    assert child.None? ==> Updated(r, child, hash, path + [s], k, v);
    hide Update, WellFormed, Slot, Shape, Get;
    if r.altered {
      UpdateBranchCorrect(n, hash, path, k, v, s, r);
      assert r.node != child;
    }
  }

  /** Updating any node below an array map does what Updated says. */
  lemma {:induction false} UpdateCorrect<K(!new), V>(n: Node<K, V>, hash: K -> bv32, path: seq<nat>, k: K, v: Option<V>)
    requires WellFormed(n, hash, path) && OnPath(hash(k), path) && !n.ArrayMap?
    ensures Updated(Update(n, hash, path, k, v), Some(n), hash, path, k, v)
    decreases n
  {
    if n.Value? {
      UpdateValueCorrect(n, hash, path, k, v);
    } else if n.Collision? {
      UpdateCollisionCorrect(n, hash, path, k, v);
    } else {
      hide Bit, Index, Or, Mask, SliceWord, Update, Updated;
      var s := Slot(hash(k), |path|);
      Extend(hash(k), path, s);
      if Child(n, s).Some? {
        UpdateCorrect(Child(n, s).value, hash, path + [s], k, v);
      }
      UpdateThroughSlot(n, hash, path, k, v);
    }
  }

  // ----- the root: array maps -----

  /** The source's ce: a trie built from the entries of a full array map, after a first entry. */
  function Create<K(==, !new), V(==)>(n: Node<K, V>, entries: seq<(K, V)>, hash: K -> bv32): Node<K, V>
    requires WellFormed(n, hash, []) && !n.ArrayMap?
    decreases |entries|
  {
    if entries == [] then n
    else
      var o := Update(n, hash, [], entries[0].0, Some(entries[0].1));
      UpdateCorrect(n, hash, [], entries[0].0, Some(entries[0].1));
      assert o.node.Some? by {
        assert GetChild(o.node, hash, [], entries[0].0) == Some(entries[0].1);
      }
      Create(o.node.value, entries[1..], hash)
  }

  /** The update of the root node. */
  function UpdateRoot<K(==, !new), V(==)>(n: Node<K, V>, hash: K -> bv32, k: K, v: Option<V>): Outcome<K, V>
    requires WellFormed(n, hash, [])
  {
    if !n.ArrayMap? then Update(n, hash, [], k, v)
    else
      var c := FindKey(n.entries, k);
      var found := c < |n.entries|;
      if (if found then v == Some(n.entries[c].1) else v.None?) then Outcome(Some(n), false, false)
      else
        var resized := v.None? || !found;
        if v.None? && |n.entries| == 1 then Outcome(None, true, resized)
        else if v.Some? && !found && |n.entries| >= MAX_ARRAY_MAP_SIZE then
          Outcome(Some(Create(Value(hash(k), (k, v.value)), n.entries, hash)), true, resized)
        else Outcome(Some(ArrayMap(PutEntry(n.entries, c, k, v))), true, resized)
  }

  lemma LookupCons<K, V>(entries: seq<(K, V)>, q: K)
    requires entries != [] && Distinct(entries)
    ensures Distinct(entries[1..]) && Lookup(entries[1..], entries[0].0) == None
    ensures Lookup(entries, q) == if q == entries[0].0 then Some(entries[0].1) else Lookup(entries[1..], q)
  {
    LookupMiss(entries[1..], entries[0].0);
  }

  /** The trie built from a list of entries holds them on top of what it held before. */
  lemma {:induction false} CreateCorrect<K(!new), V>(n: Node<K, V>, entries: seq<(K, V)>, hash: K -> bv32, q: K)
    requires WellFormed(n, hash, []) && !n.ArrayMap? && Distinct(entries)
    ensures var created := Create(n, entries, hash);
      && WellFormed(created, hash, []) && !created.ArrayMap?
      && Get(created, hash, [], q) ==
         if Lookup(entries, q).Some? then Lookup(entries, q) else Get(n, hash, [], q)
    decreases |entries|
  {
    hide Update, WellFormed, Get, Lookup;
    if entries != [] {
      var o := Update(n, hash, [], entries[0].0, Some(entries[0].1));
      UpdateCorrect(n, hash, [], entries[0].0, Some(entries[0].1));
      assert GetChild(o.node, hash, [], entries[0].0) == Some(entries[0].1);
      assert GetChild(o.node, hash, [], q) ==
        if q == entries[0].0 then Some(entries[0].1) else GetChild(Some(n), hash, [], q);
      LookupCons(entries, q);
      CreateCorrect(o.node.value, entries[1..], hash, q);
    } else {
      EmptyLookup(entries);
    }
  }

  /** The update of the root stores or removes the key and nothing else. */
  lemma {:induction false} UpdateRootCorrect<K(!new), V>(n: Node<K, V>, hash: K -> bv32, k: K, v: Option<V>)
    requires WellFormed(n, hash, [])
    ensures var o := UpdateRoot(n, hash, k, v);
      && (o.node.Some? ==> WellFormed(o.node.value, hash, []))
      && (forall q :: GetChild(o.node, hash, [], q) == if q == k then v else Get(n, hash, [], q))
      && o.altered == (Get(n, hash, [], k) != v)
      && o.resized == (Get(n, hash, [], k).Some? != v.Some?)
  {
    hide Bit, Index, Or, Mask, SliceWord, Slot;
    if !n.ArrayMap? {
      UpdateCorrect(n, hash, [], k, v);
    } else {
      assert forall q :: Get(n, hash, [], q) == Lookup(n.entries, q);
      if UpdateRoot(n, hash, k, v).altered {
        ArrayMapPut(n, hash, k, v);
      } else {
        assert Lookup(n.entries, k) == v;
      }
    }
  }

  lemma {:induction false} ArrayMapOverflow<K(!new), V>(entries: seq<(K, V)>, hash: K -> bv32, k: K, v: V)
    requires Distinct(entries) && FindKey(entries, k) == |entries|
    ensures WellFormed(Value(hash(k), (k, v)), hash, [])
    ensures var n := Create(Value(hash(k), (k, v)), entries, hash);
      && WellFormed(n, hash, [])
      && forall q :: Get(n, hash, [], q) == if q == k then Some(v) else Lookup(entries, q)
  {
    hide Bit, Index, Or, Mask, SliceWord, Slot;
    var first := Value(hash(k), (k, v));
    assert WellFormed(first, hash, []);
    assert forall q :: Get(first, hash, [], q) == if q == k then Some(v) else None;
    assert forall q :: Lookup(entries, q).Some? ==> q != k;
    hide WellFormed, Get, Create, FindKey, Lookup;
    var n := Create(first, entries, hash);
    CreateCorrect(first, entries, hash, k);
    forall q
      ensures Get(n, hash, [], q) == if q == k then Some(v) else Lookup(entries, q)
    {
      CreateCorrect(first, entries, hash, q);
    }
  }

  lemma {:induction false} ArrayMapPut<K(!new), V>(n: Node<K, V>, hash: K -> bv32, k: K, v: Option<V>)
    requires n.ArrayMap? && WellFormed(n, hash, []) && UpdateRoot(n, hash, k, v).altered
    ensures var o := UpdateRoot(n, hash, k, v);
      && (o.node.Some? ==> WellFormed(o.node.value, hash, []))
      && forall q :: GetChild(o.node, hash, [], q) == if q == k then v else Lookup(n.entries, q)
  {
    hide Bit, Index, Or, Mask, SliceWord, Slot;
    var c := FindKey(n.entries, k);
    assert Distinct(n.entries);
    if v.Some? && c == |n.entries| && |n.entries| >= MAX_ARRAY_MAP_SIZE {
      ArrayMapOverflow(n.entries, hash, k, v.value);
    } else {
      var put := PutEntry(n.entries, c, k, v);
      assert forall q :: Lookup(put, q) == if q == k then v else Lookup(n.entries, q) by {
        forall q {
          PutLookup(n.entries, k, v, q);
        }
      }
      PutLookup(n.entries, k, v, k);
      if v.None? && |n.entries| == 1 {
        assert put == [];
        EmptyLookup(put);
      }
    }
  }

  lemma EmptyLookup<K(!new), V>(entries: seq<(K, V)>)
    requires entries == []
    ensures forall q :: Lookup(entries, q) == None
  {
  }

  // ----- the map object -----

  /** The immutable map: its size and its root node, absent when the map is empty. */
  datatype Map<K, V> = Map(size: int, root: Option<Node<K, V>>)

  function Empty<K, V>(): Map<K, V> {
    Map(0, None)
  }

  ghost predicate Valid<K, V>(m: Map<K, V>, hash: K -> bv32) {
    m.root.Some? ==> WellFormed(m.root.value, hash, [])
  }

  /** The source's oe: sets (Some) or removes (None) a key. */
  function Put<K(==, !new), V(==)>(m: Map<K, V>, hash: K -> bv32, k: K, v: Option<V>): Map<K, V>
    requires Valid(m, hash)
  {
    match m.root
    case Some(root) =>
      var o := UpdateRoot(root, hash, k, v);
      if !o.altered then m
      else if o.node.None? then Empty()
      else Map(m.size + (if !o.resized then 0 else if v.None? then -1 else 1), o.node)
    case None =>
      match v
      case None => m
      case Some(value) => Map(1, Some(ArrayMap([(k, value)])))
  }

  function MapGet<K(==), V>(m: Map<K, V>, hash: K -> bv32, k: K, notSet: V): V
    requires Valid(m, hash)
  {
    match m.root
    case None => notSet
    case Some(root) =>
      match Get(root, hash, [], k)
      case None => notSet
      case Some(v) => v
  }

  /** The trie map stands for the finite map a: the same bindings, and its size counts them. */
  ghost predicate Refines<K(!new), V>(m: Map<K, V>, hash: K -> bv32, a: map<K, V>) {
    && Valid(m, hash)
    && m.size == |a|
    && forall q :: GetChild(m.root, hash, [], q) == if q in a then Some(a[q]) else None
  }

  /** The finite-map counterpart of Put. */
  ghost function PutAbstract<K, V>(a: map<K, V>, k: K, v: Option<V>): map<K, V> {
    match v
    case None => a - {k}
    case Some(value) => a[k := value]
  }

  /** What an update of the root does to the number of bindings. */
  lemma PutOnRoot<K(!new), V>(m: Map<K, V>, hash: K -> bv32, k: K, v: Option<V>)
    requires Valid(m, hash) && m.root.Some?
    ensures var p := Put(m, hash, k, v);
      && Valid(p, hash)
      && (forall q :: GetChild(p.root, hash, [], q) == if q == k then v else GetChild(m.root, hash, [], q))
      && (p.root.Some? ==> p.size == m.size + if GetChild(m.root, hash, [], k).Some? == v.Some? then 0
                                              else if v.None? then -1 else 1)
      && (p.root.None? ==> p.size == 0)
  {
    UpdateRootCorrect(m.root.value, hash, k, v);
    hide WellFormed, Get, UpdateRoot;
  }

  lemma PutRefines<K(!new), V>(m: Map<K, V>, hash: K -> bv32, a: map<K, V>, k: K, v: Option<V>)
    requires Refines(m, hash, a)
    ensures Refines(Put(m, hash, k, v), hash, PutAbstract(a, k, v))
  {
    hide UpdateRoot, Get, WellFormed;
    if m.root.Some? {
      PutOnRoot(m, hash, k, v);
      hide Put, GetChild;
      PutOnRootRefines(m, Put(m, hash, k, v), hash, a, k, v);
    } else {
      NoRoot(m, hash, a);
      if v.Some? {
        OneEntry(hash, k, v.value);
      }
    }
  }

  lemma PutOnRootRefines<K(!new), V>(m: Map<K, V>, p: Map<K, V>, hash: K -> bv32, a: map<K, V>, k: K, v: Option<V>)
    requires Refines(m, hash, a) && Valid(p, hash)
    requires forall q :: GetChild(p.root, hash, [], q) == if q == k then v else GetChild(m.root, hash, [], q)
    requires if p.root.None? then p.size == 0
             else p.size == m.size + if GetChild(m.root, hash, [], k).Some? == v.Some? then 0
                                     else if v.None? then -1 else 1
    ensures Refines(p, hash, PutAbstract(a, k, v))
  {
    hide Get, WellFormed;
    var b := PutAbstract(a, k, v);
    assert GetChild(m.root, hash, [], k) == if k in a then Some(a[k]) else None;
    PutSize(a, k, v);
    assert forall q :: GetChild(p.root, hash, [], q) == if q in b then Some(b[q]) else None;
    if p.root.None? {
      NoRoot(p, hash, b);
    }
  }

  lemma NoRoot<K(!new), V>(m: Map<K, V>, hash: K -> bv32, a: map<K, V>)
    requires m.root.None? && forall q :: GetChild(m.root, hash, [], q) == if q in a then Some(a[q]) else None
    ensures a == map[]
  {
    assert forall q :: GetChild(m.root, hash, [], q) == None;
  }

  lemma OneEntry<K(!new), V>(hash: K -> bv32, k: K, v: V)
    ensures WellFormed(ArrayMap([(k, v)]), hash, [])
    ensures forall q :: Get(ArrayMap([(k, v)]), hash, [], q) == if q == k then Some(v) else None
  {
    assert PutEntry([], 0, k, Some(v)) == [(k, v)];
    assert Distinct([(k, v)]);
  }

  lemma PutSize<K, V>(a: map<K, V>, k: K, v: Option<V>)
    ensures |PutAbstract(a, k, v)| == |a| + (if (k in a) == v.Some? then 0 else if v.None? then -1 else 1)
  {
    var b := PutAbstract(a, k, v);
    assert |b| == |b.Keys| && |a| == |a.Keys|;
    match v
    case None =>
      assert b.Keys == a.Keys - {k};
    case Some(value) =>
      assert b.Keys == a.Keys + {k};
  }

  /** A run of sets and removals from the empty map, on the trie and on a finite map. */
  ghost function RunAbstract<K, V>(ops: seq<(K, Option<V>)>): map<K, V> {
    if ops == [] then map[]
    else var last := ops[|ops| - 1]; PutAbstract(RunAbstract(ops[..|ops| - 1]), last.0, last.1)
  }

  ghost function Run<K(!new), V>(hash: K -> bv32, ops: seq<(K, Option<V>)>): (m: Map<K, V>)
    ensures Refines(m, hash, RunAbstract(ops))
  {
    if ops == [] then Empty()
    else
      var before := Run(hash, ops[..|ops| - 1]);
      var last := ops[|ops| - 1];
      PutRefines(before, hash, RunAbstract(ops[..|ops| - 1]), last.0, last.1);
      Put(before, hash, last.0, last.1)
  }

  /** After any sequence of sets and removals, whatever the hash function, the trie map returns
      exactly what a finite map would, and its size is that map's cardinality. */
  lemma {:induction false} RunRefines<K(!new), V>(hash: K -> bv32, ops: seq<(K, Option<V>)>, k: K, notSet: V)
    ensures var m, a := Run(hash, ops), RunAbstract(ops);
      m.size == |a| && MapGet(m, hash, k, notSet) == if k in a then a[k] else notSet
  {
    var m, a := Run(hash, ops), RunAbstract(ops);
    assert GetChild(m.root, hash, [], k) == if k in a then Some(a[k]) else None;
  }

  /** Operation i is the last one on its key. */
  ghost predicate IsLast<K(!new), V>(ops: seq<(K, Option<V>)>, i: nat) {
    i < |ops| && forall j :: i < j < |ops| ==> ops[j].0 != ops[i].0
  }

  /** The operations that set a key which none after them touches. */
  ghost function Effective<K(!new), V>(ops: seq<(K, Option<V>)>): set<nat> {
    set i: nat | i < |ops| && IsLast(ops, i) && ops[i].1.Some?
  }

  lemma {:induction false} AbstractIsLast<K(!new), V>(ops: seq<(K, Option<V>)>, k: K)
    ensures (forall i :: 0 <= i < |ops| ==> ops[i].0 != k) ==> k !in RunAbstract(ops)
    ensures forall i: nat :: IsLast(ops, i) && ops[i].0 == k ==>
              ops[i].1 == if k in RunAbstract(ops) then Some(RunAbstract(ops)[k]) else None
  {
    if ops == [] {
    } else {
      var n := |ops| - 1;
      AbstractIsLast(ops[..n], k);
      assert ops == ops[..n] + [ops[n]];
      forall i: nat | i < n && IsLast(ops, i) && ops[i].0 == k
        ensures IsLast(ops[..n], i) && ops[n].0 != k
      {
        LastSnoc(ops[..n], ops[n], i);
      }
    }
  }

  lemma {:induction false} EffectiveCount<K(!new), V>(ops: seq<(K, Option<V>)>)
    ensures |Effective(ops)| == |RunAbstract(ops)|
  {
    if ops == [] {
      assert Effective(ops) == {};
    } else {
      var n := |ops| - 1;
      var before, k := ops[..n], ops[n].0;
      EffectiveCount(before);
      PutSize(RunAbstract(before), k, ops[n].1);
      EffectiveNext(before, ops[n]);
      assert ops == before + [ops[n]];
    }
  }

  /** An operation takes the place of the last one on its key, if that one set it. */
  lemma {:induction false} EffectiveNext<K(!new), V>(ops: seq<(K, Option<V>)>, op: (K, Option<V>))
    ensures |Effective(ops + [op])|
         == |Effective(ops)| + (if (op.0 in RunAbstract(ops)) == op.1.Some? then 0 else if op.1.None? then -1 else 1)
  {
    var n, all := |ops|, ops + [op];
    var was, now := Effective(ops), Effective(all);
    var added: set<nat> := if op.1.Some? then {n} else {};
    AbstractIsLast(ops, op.0);
    if op.0 in RunAbstract(ops) {
      var i := LastOn(ops, op.0);
      assert i in was;
      assert now == was - {i} + added by { OthersStay(ops, op, i); }
    } else {
      assert now == was + added by { AllStay(ops, op); }
    }
  }

  lemma {:induction false} LastOn<K(!new), V>(ops: seq<(K, Option<V>)>, k: K) returns (i: nat)
    requires k in RunAbstract(ops)
    ensures IsLast(ops, i) && ops[i].0 == k && ops[i].1.Some?
  {
    i := |ops| - 1;
    if ops[i].0 != k { i := LastOn(ops[..i], k); }
  }

  lemma OthersStay<K(!new), V>(ops: seq<(K, Option<V>)>, op: (K, Option<V>), i: nat)
    requires IsLast(ops, i) && ops[i].0 == op.0
    ensures Effective(ops + [op]) == Effective(ops) - {i} + if op.1.Some? then {|ops|} else {}
  {
    forall j: nat | j < |ops|
      ensures IsLast(ops + [op], j) <==> IsLast(ops, j) && j != i
    {
      LastSnoc(ops, op, j);
    }
  }

  lemma LastSnoc<K(!new), V>(ops: seq<(K, Option<V>)>, op: (K, Option<V>), j: nat)
    requires j < |ops|
    ensures IsLast(ops + [op], j) <==> IsLast(ops, j) && ops[j].0 != op.0
  {
    var all := ops + [op];
    assert all[|ops|] == op && forall l :: 0 <= l < |ops| ==> all[l] == ops[l];
  }

  lemma {:induction false} AllStay<K(!new), V>(ops: seq<(K, Option<V>)>, op: (K, Option<V>))
    requires op.0 !in RunAbstract(ops)
    ensures Effective(ops + [op]) == Effective(ops) + if op.1.Some? then {|ops|} else {}
  {
    AbstractIsLast(ops, op.0);
    forall j: nat | j < |ops| && ops[j].1.Some?
      ensures IsLast(ops + [op], j) <==> IsLast(ops, j)
    {
      LastSnoc(ops, op, j);
    }
  }

  /** After any sequence of sets and removals a key has the value of the last operation on it, and
      the size counts the operations whose value is still there. */
  lemma {:induction false} RunIsLastPut<K(!new), V>(hash: K -> bv32, ops: seq<(K, Option<V>)>, k: K, notSet: V)
    ensures var m := Run(hash, ops);
            && m.size == |set i: nat | i < |ops| && IsLast(ops, i) && ops[i].1.Some?|
            && ((forall i :: 0 <= i < |ops| ==> ops[i].0 != k) ==> MapGet(m, hash, k, notSet) == notSet)
            && forall i: nat :: IsLast(ops, i) && ops[i].0 == k ==>
                 MapGet(m, hash, k, notSet) == if ops[i].1.Some? then ops[i].1.value else notSet
  {
    RunRefines(hash, ops, k, notSet);
    AbstractIsLast(ops, k);
    EffectiveCount(ops);
    assert Effective(ops) == set i: nat | i < |ops| && IsLast(ops, i) && ops[i].1.Some?;
  }

  /** The sizes at which a node changes its form. */
  lemma {:induction false} Sizes<K(!new), V>(n: Node<K, V>, hash: K -> bv32, path: seq<nat>)
    requires WellFormed(n, hash, path)
    ensures n.ArrayMap? ==> 1 <= |n.entries| <= 8
    ensures n.Bitmap? ==> 1 <= |n.nodes| <= 16
    ensures n.HashArray? ==> |n.slots| == 32 && n.count >= 8
  {
  }

  lemma {:induction false} FormChanges<K(!new), V>(n: Node<K, V>, s: nat, c: Option<Node<K, V>>)
    requires IsBranch(n) && Shape(n) && s < 32 && (Child(n, s).Some? || c.Some?)
    ensures n.Bitmap? && Child(n, s).None? ==>
              (Replace(n, s, c).value.HashArray? <==> |n.nodes| == 16)
    ensures n.HashArray? ==> (Replace(n, s, c).value.Bitmap? <==> Child(n, s).Some? && c.None? && n.count == 8)
  {
    hide Bit, Index, PackedBits, PackedNodes;
    ChildExists(n, s);
  }

  /** Setting and then removing a key that was not there gives back the same bindings. */
  lemma PutThenRemove<K(!new), V>(m: Map<K, V>, hash: K -> bv32, a: map<K, V>, k: K, v: V)
    requires Refines(m, hash, a) && k !in a
    ensures Valid(Put(m, hash, k, Some(v)), hash)
    ensures Refines(Put(Put(m, hash, k, Some(v)), hash, k, None), hash, a)
  {
    hide Put, WellFormed, Get, GetChild;
    PutRefines(m, hash, a, k, Some(v));
    PutRefines(Put(m, hash, k, Some(v)), hash, a[k := v], k, None);
    assert a[k := v] - {k} == a;
  }
}
