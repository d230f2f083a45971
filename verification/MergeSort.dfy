/** The stable array sort (module 1388): insertion sort below eight elements, merging above.  The
    array methods are proved equal to functions on sequences. */
module MergeSort {
  import opened Wrappers

  type Comparator<!T> = (T, T) -> int

  predicate Leq<T>(cmp: Comparator<T>, a: T, b: T) {
    cmp(a, b) <= 0
  }

  // ----- what the sort computes -----

  /** Puts x behind the last element that does not come after it. */
  function Insert<T>(cmp: Comparator<T>, s: seq<T>, x: T): (r: seq<T>)
    ensures |r| == |s| + 1
  {
    var n := |s|;
    if n == 0 || Leq(cmp, s[n - 1], x) then s + [x] else Insert(cmp, s[..n - 1], x) + [s[n - 1]]
  }

  function Inserted<T>(cmp: Comparator<T>, s: seq<T>): (r: seq<T>)
    ensures |r| == |s|
  {
    if s == [] then [] else Insert(cmp, Inserted(cmp, s[..|s| - 1]), s[|s| - 1])
  }

  function Merged<T>(cmp: Comparator<T>, a: seq<T>, b: seq<T>): (r: seq<T>)
    ensures |r| == |a| + |b|
  {
    if a == [] then b
    else if b == [] then a
    else if Leq(cmp, a[0], b[0]) then [a[0]] + Merged(cmp, a[1..], b)
    else [b[0]] + Merged(cmp, a, b[1..])
  }

  function Sorted<T>(cmp: Comparator<T>, s: seq<T>): (r: seq<T>)
    ensures |r| == |s|
    decreases |s|
  {
    if |s| < 8 then Inserted(cmp, s)
    else Merged(cmp, Sorted(cmp, s[..|s| / 2]), Sorted(cmp, s[|s| / 2..]))
  }

  // ----- a permutation, whatever the comparator -----

  lemma {:induction false} InsertPermutes<T>(cmp: Comparator<T>, s: seq<T>, x: T)
    ensures multiset(Insert(cmp, s, x)) == multiset(s) + multiset{x}
  {
    var n := |s|;
    if n == 0 || Leq(cmp, s[n - 1], x) {
    } else {
      InsertPermutes(cmp, s[..n - 1], x);
      assert s == s[..n - 1] + [s[n - 1]];
    }
  }

  lemma {:induction false} InsertedPermutes<T>(cmp: Comparator<T>, s: seq<T>)
    ensures multiset(Inserted(cmp, s)) == multiset(s)
  {
    if s == [] {
    } else {
      InsertedPermutes(cmp, s[..|s| - 1]);
      InsertPermutes(cmp, Inserted(cmp, s[..|s| - 1]), s[|s| - 1]);
      assert s == s[..|s| - 1] + [s[|s| - 1]];
    }
  }

  lemma FirstApart<T>(a: seq<T>)
    requires a != []
    ensures multiset(a) == multiset{a[0]} + multiset(a[1..])
  {
    assert a == [a[0]] + a[1..];
  }

  lemma {:induction false} MergedPermutes<T>(cmp: Comparator<T>, a: seq<T>, b: seq<T>)
    ensures multiset(Merged(cmp, a, b)) == multiset(a) + multiset(b)
  {
    if a == [] || b == [] {
    } else {
      if Leq(cmp, a[0], b[0]) { MergedPermutes(cmp, a[1..], b); } else { MergedPermutes(cmp, a, b[1..]); }
      FirstApart(a);
      FirstApart(b);
    }
  }

  lemma {:induction false} SortedPermutes<T>(cmp: Comparator<T>, s: seq<T>)
    ensures multiset(Sorted(cmp, s)) == multiset(s)
    decreases |s|
  {
    if |s| < 8 {
      InsertedPermutes(cmp, s);
    } else {
      var a, b := s[..|s| / 2], s[|s| / 2..];
      SortedPermutes(cmp, a);
      SortedPermutes(cmp, b);
      MergedPermutes(cmp, Sorted(cmp, a), Sorted(cmp, b));
      assert s == a + b;
    }
  }

  // ----- sorted and stable, for a total preorder -----

  ghost predicate TotalPreorder<T(!new)>(cmp: Comparator<T>) {
    && (forall a, b :: Leq(cmp, a, b) || Leq(cmp, b, a))
    && (forall a, b, c :: Leq(cmp, a, b) && Leq(cmp, b, c) ==> Leq(cmp, a, c))
  }

  ghost predicate Ordered<T(!new)>(cmp: Comparator<T>, s: seq<T>) {
    forall i, j :: 0 <= i < j < |s| ==> Leq(cmp, s[i], s[j])
  }

  predicate Ties<T>(cmp: Comparator<T>, a: T, b: T) {
    Leq(cmp, a, b) && Leq(cmp, b, a)
  }

  /** The elements that tie with x, in order. */
  function Class<T>(cmp: Comparator<T>, s: seq<T>, x: T): seq<T> {
    if s == [] then []
    else if Ties(cmp, s[0], x) then [s[0]] + Class(cmp, s[1..], x)
    else Class(cmp, s[1..], x)
  }

  /** r orders s and keeps the order of ties. */
  ghost predicate StableSortOf<T(!new)>(cmp: Comparator<T>, r: seq<T>, s: seq<T>) {
    Ordered(cmp, r) && forall x :: Class(cmp, r, x) == Class(cmp, s, x)
  }

  lemma {:induction false} ClassConcat<T>(cmp: Comparator<T>, a: seq<T>, b: seq<T>, x: T)
    ensures Class(cmp, a + b, x) == Class(cmp, a, x) + Class(cmp, b, x)
  {
    if a == [] {
      assert a + b == b;
    } else {
      assert (a + b)[1..] == a[1..] + b;
      ClassConcat(cmp, a[1..], b, x);
    }
  }

  /** Two elements that are not in order never tie with the same element, so their classes commute. */
  lemma Commute<T(!new)>(cmp: Comparator<T>, a: T, b: T, x: T)
    requires TotalPreorder(cmp) && !Leq(cmp, a, b)
    ensures Class(cmp, [a], x) == [] || Class(cmp, [b], x) == []
  {
  }

  lemma {:induction false} InsertKeeps<T(!new)>(cmp: Comparator<T>, s: seq<T>, x: T, y: T)
    requires TotalPreorder(cmp)
    ensures Class(cmp, Insert(cmp, s, x), y) == Class(cmp, s, y) + Class(cmp, [x], y)
  {
    var n := |s|;
    ClassConcat(cmp, s, [x], y);
    if n == 0 || Leq(cmp, s[n - 1], x) {
    } else {
      var before, last := s[..n - 1], s[n - 1];
      assert s == before + [last];
      InsertKeeps(cmp, before, x, y);
      ClassConcat(cmp, before, [last], y);
      ClassConcat(cmp, Insert(cmp, before, x), [last], y);
      Commute(cmp, last, x, y);
    }
  }

  lemma {:induction false} InsertOrders<T(!new)>(cmp: Comparator<T>, s: seq<T>, x: T)
    requires TotalPreorder(cmp) && Ordered(cmp, s)
    ensures Ordered(cmp, Insert(cmp, s, x))
    ensures forall i :: 0 <= i <= |s| ==> Insert(cmp, s, x)[i] in s + [x]
  {
    var n := |s|;
    if n == 0 || Leq(cmp, s[n - 1], x) {
    } else {
      var before, last := s[..n - 1], s[n - 1];
      InsertOrders(cmp, before, x);
      var r := Insert(cmp, before, x);
      forall i | 0 <= i < n
        ensures Leq(cmp, r[i], last) && r[i] in s + [x]
      {
        assert r[i] in before + [x];
        if r[i] in before { var j :| 0 <= j < n - 1 && before[j] == r[i]; assert s[j] == r[i]; }
      }
    }
  }

  lemma {:induction false} InsertedStable<T(!new)>(cmp: Comparator<T>, s: seq<T>)
    requires TotalPreorder(cmp)
    ensures StableSortOf(cmp, Inserted(cmp, s), s)
  {
    if s == [] {
    } else {
      var before, last := s[..|s| - 1], s[|s| - 1];
      InsertedStable(cmp, before);
      InsertOrders(cmp, Inserted(cmp, before), last);
      assert s == before + [last];
      forall x
        ensures Class(cmp, Inserted(cmp, s), x) == Class(cmp, s, x)
      {
        InsertKeeps(cmp, Inserted(cmp, before), last, x);
        ClassConcat(cmp, before, [last], x);
      }
    }
  }

  /** All elements of a ordered sequence come after anything its head comes after. */
  lemma {:induction false} ClassAbove<T(!new)>(cmp: Comparator<T>, a: seq<T>, x: T)
    requires TotalPreorder(cmp) && forall i :: 0 <= i < |a| ==> !Leq(cmp, a[i], x)
    ensures Class(cmp, a, x) == []
  {
    if a == [] {
    } else {
      ClassAbove(cmp, a[1..], x);
    }
  }

  lemma {:induction false} MergedKeeps<T(!new)>(cmp: Comparator<T>, a: seq<T>, b: seq<T>, x: T)
    requires TotalPreorder(cmp) && Ordered(cmp, a) && Ordered(cmp, b)
    ensures Class(cmp, Merged(cmp, a, b), x) == Class(cmp, a, x) + Class(cmp, b, x)
  {
    if a == [] || b == [] {
      assert Class(cmp, [], x) == [];
    } else if Leq(cmp, a[0], b[0]) {
      MergedKeeps(cmp, a[1..], b, x);
      KeepsLeft(cmp, a, b, Merged(cmp, a[1..], b), x);
    } else {
      MergedKeeps(cmp, a, b[1..], x);
      if Ties(cmp, b[0], x) { ClassAbove(cmp, a, x); }
      KeepsRight(cmp, a, b, Merged(cmp, a, b[1..]), x);
    }
    hide Class, Ordered, Ties;
  }

  lemma {:induction false} KeepsLeft<T>(cmp: Comparator<T>, a: seq<T>, b: seq<T>, m: seq<T>, x: T)
    requires a != [] && Class(cmp, m, x) == Class(cmp, a[1..], x) + Class(cmp, b, x)
    ensures Class(cmp, [a[0]] + m, x) == Class(cmp, a, x) + Class(cmp, b, x)
  {
    ClassCons(cmp, a[0], m, x);
    ClassCons(cmp, a[0], a[1..], x);
    assert a == [a[0]] + a[1..];
    Assoc([a[0]], Class(cmp, a[1..], x), Class(cmp, b, x));
    hide Class, Ties;
  }

  lemma {:induction false} KeepsRight<T>(cmp: Comparator<T>, a: seq<T>, b: seq<T>, m: seq<T>, x: T)
    requires b != [] && Class(cmp, m, x) == Class(cmp, a, x) + Class(cmp, b[1..], x)
    requires Ties(cmp, b[0], x) ==> Class(cmp, a, x) == []
    ensures Class(cmp, [b[0]] + m, x) == Class(cmp, a, x) + Class(cmp, b, x)
  {
    ClassCons(cmp, b[0], m, x);
    ClassCons(cmp, b[0], b[1..], x);
    assert b == [b[0]] + b[1..];
    hide Class, Ties;
  }

  lemma {:induction false} ClassCons<T>(cmp: Comparator<T>, h: T, s: seq<T>, x: T)
    ensures Class(cmp, [h] + s, x) == if Ties(cmp, h, x) then [h] + Class(cmp, s, x) else Class(cmp, s, x)
  {
  }

  lemma {:induction false} MergedOrders<T(!new)>(cmp: Comparator<T>, a: seq<T>, b: seq<T>)
    requires TotalPreorder(cmp) && Ordered(cmp, a) && Ordered(cmp, b)
    ensures Ordered(cmp, Merged(cmp, a, b))
    ensures forall i :: 0 <= i < |a| + |b| ==> Merged(cmp, a, b)[i] in a || Merged(cmp, a, b)[i] in b
  {
    if a == [] || b == [] {
    } else {
      var first := Leq(cmp, a[0], b[0]);
      var head := if first then a[0] else b[0];
      var c, d := if first then a[1..] else a, if first then b else b[1..];
      MergedOrders(cmp, c, d);
      var r := Merged(cmp, c, d);
      forall i | 0 <= i < |r|
        ensures Leq(cmp, head, r[i]) && (r[i] in a || r[i] in b)
      {
        assert r[i] in c || r[i] in d;
        HeadLeads(cmp, a, b, r[i]);
      }
      assert Merged(cmp, a, b) == [head] + r;
    }
  }

  lemma HeadLeads<T(!new)>(cmp: Comparator<T>, a: seq<T>, b: seq<T>, x: T)
    requires TotalPreorder(cmp) && Ordered(cmp, a) && Ordered(cmp, b) && a != [] && b != []
    requires x in a || x in b
    ensures Leq(cmp, if Leq(cmp, a[0], b[0]) then a[0] else b[0], x)
  {
    if x in a {
      var i :| 0 <= i < |a| && a[i] == x;
      assert Leq(cmp, a[0], a[i]);
    } else {
      var i :| 0 <= i < |b| && b[i] == x;
      assert Leq(cmp, b[0], b[i]);
    }
  }

  /** The sort orders its input and keeps the order of ties. */
  lemma {:induction false} SortedStable<T(!new)>(cmp: Comparator<T>, s: seq<T>)
    requires TotalPreorder(cmp)
    ensures StableSortOf(cmp, Sorted(cmp, s), s)
    decreases |s|
  {
    if |s| < 8 {
      InsertedStable(cmp, s);
    } else {
      var a, b := s[..|s| / 2], s[|s| / 2..];
      SortedStable(cmp, a);
      SortedStable(cmp, b);
      MergedOrders(cmp, Sorted(cmp, a), Sorted(cmp, b));
      assert s == a + b;
      forall x
        ensures Class(cmp, Sorted(cmp, s), x) == Class(cmp, s, x)
      {
        MergedKeeps(cmp, Sorted(cmp, a), Sorted(cmp, b), x);
        ClassConcat(cmp, a, b, x);
      }
    }
  }

  /** The same in the comparator's own terms: a negative or zero result means that the first argument
      may stand first, and elements that may stand either way keep their order. */
  lemma {:induction false} SortsStably<T(!new)>(cmp: Comparator<T>, s: seq<T>)
    requires forall a, b :: cmp(a, b) <= 0 || cmp(b, a) <= 0
    requires forall a, b, c :: cmp(a, b) <= 0 && cmp(b, c) <= 0 ==> cmp(a, c) <= 0
    ensures var r := Sorted(cmp, s);
            && multiset(r) == multiset(s)
            && (forall i, j :: 0 <= i < j < |r| ==> cmp(r[i], r[j]) <= 0)
            && (forall x :: Class(cmp, r, x) == Class(cmp, s, x))
  {
    SortedPermutes(cmp, s);
    assert TotalPreorder(cmp);
    SortedStable(cmp, s);
    var r := Sorted(cmp, s);
    assert forall i, j :: 0 <= i < j < |r| ==> Leq(cmp, r[i], r[j]);
  }

  /** There is only one stable sorted order, so the two ways of sorting agree. */
  lemma {:induction false} StableSortIsUnique<T(!new)>(cmp: Comparator<T>, p: seq<T>, q: seq<T>)
    requires TotalPreorder(cmp) && Ordered(cmp, p) && Ordered(cmp, q)
    requires forall x :: Class(cmp, p, x) == Class(cmp, q, x)
    ensures p == q
  {
    NeitherEmpty(cmp, p, q);
    NeitherEmpty(cmp, q, p);
    if p == [] {
    } else {
      HeadIsLeast(cmp, p, q);
      HeadIsLeast(cmp, q, p);
      assert Class(cmp, p, p[0])[0] == p[0] && Class(cmp, q, p[0])[0] == q[0];
      assert p[0] == q[0];
      forall x
        ensures Class(cmp, p[1..], x) == Class(cmp, q[1..], x)
      {
        var head := if Ties(cmp, p[0], x) then [p[0]] else [];
        assert head + Class(cmp, p[1..], x) == Class(cmp, p, x) == Class(cmp, q, x) == head + Class(cmp, q[1..], x);
        Cancel(head, Class(cmp, p[1..], x), Class(cmp, q[1..], x));
      }
      StableSortIsUnique(cmp, p[1..], q[1..]);
      assert p == [p[0]] + p[1..] && q == [q[0]] + q[1..];
    }
  }

  lemma NeitherEmpty<T(!new)>(cmp: Comparator<T>, p: seq<T>, q: seq<T>)
    requires TotalPreorder(cmp) && forall x :: Class(cmp, p, x) == Class(cmp, q, x)
    ensures p != [] ==> q != []
  {
    if p != [] { assert Class(cmp, p, p[0]) != []; }
  }

  lemma Cancel<T>(head: seq<T>, a: seq<T>, b: seq<T>)
    requires head + a == head + b
    ensures a == b
  {
    assert (head + a)[|head|..] == a && (head + b)[|head|..] == b;
  }

  lemma {:induction false} HeadIsLeast<T(!new)>(cmp: Comparator<T>, p: seq<T>, q: seq<T>)
    requires TotalPreorder(cmp) && Ordered(cmp, p) && p != [] && q != []
    requires Class(cmp, p, q[0]) == Class(cmp, q, q[0])
    ensures Leq(cmp, p[0], q[0])
  {
    if !Leq(cmp, p[0], q[0]) {
      forall i | 0 <= i < |p|
        ensures !Leq(cmp, p[i], q[0])
      {
        assert i > 0 ==> Leq(cmp, p[0], p[i]);
      }
      ClassAbove(cmp, p, q[0]);
    }
  }

  // ----- the array code -----

  method InsertionSort<T>(t: array<T>, cmp: Comparator<T>)
    modifies t
    ensures t[..] == Inserted(cmp, old(t[..]))
  {
    var o := 1;
    ghost var s := t[..];
    OneInserted(cmp, s);
    while o < t.Length
      invariant 1 <= o && (o <= t.Length || t.Length == 0)
      invariant if t.Length == 0 then t[..] == s else t[..] == Inserted(cmp, s[..o]) + s[o..]
    {
      InsertedNext(cmp, s, o);
      assert t[..o] == Inserted(cmp, s[..o]) && t[o..] == s[o..];
      Place(t, o, cmp);
      o := o + 1;
    }
    assert s[..|s|] == s;
  }

  /** Shifts elements up until t[o] fits in. */
  method Place<T>(t: array<T>, o: nat, cmp: Comparator<T>)
    requires o < t.Length
    modifies t
    ensures t[..] == Insert(cmp, old(t[..o]), old(t[o])) + old(t[o + 1..])
  {
    hide Insert, Skipped;
    var n, r := o, t[o];
    ghost var before, rest := t[..o], t[o + 1..];
    SkippedNone(cmp, before, r);
    while n > 0 && cmp(t[n - 1], r) > 0
      invariant 0 <= n <= o
      invariant forall k :: 0 <= k < n ==> t[k] == before[k]
      invariant forall k :: n < k <= o ==> t[k] == before[k - 1]
      invariant forall k :: o < k < t.Length ==> t[k] == old(t[k])
      invariant n == o ==> t[n] == r
      invariant Skipped(cmp, before, n, r)
    {
      SkippedNext(cmp, before, n, r);
      t[n] := t[n - 1];
      n := n - 1;
    }
    if n != o { t[n] := r; }
    SkippedAll(cmp, before, n, r);
    Assembled(t[..], before, n, r, rest);
  }

  lemma Assembled<T>(now: seq<T>, before: seq<T>, n: nat, x: T, rest: seq<T>)
    requires n <= |before| && |now| == |before| + 1 + |rest| && now[n] == x
    requires forall k :: 0 <= k < n ==> now[k] == before[k]
    requires forall k :: n < k <= |before| ==> now[k] == before[k - 1]
    requires forall k :: 0 <= k < |rest| ==> now[|before| + 1 + k] == rest[k]
    ensures now == before[..n] + [x] + before[n..] + rest
  {
    assert now[..n] == before[..n];
    assert now[n + 1..|before| + 1] == before[n..];
    assert now[|before| + 1..] == rest;
    assert now == now[..n] + [now[n]] + now[n + 1..|before| + 1] + now[|before| + 1..];
  }

  /** x belongs before before[n..]. */
  ghost predicate Skipped<T>(cmp: Comparator<T>, before: seq<T>, n: nat, x: T)
    requires n <= |before|
  {
    Insert(cmp, before, x) == Insert(cmp, before[..n], x) + before[n..]
  }

  lemma SkippedNone<T>(cmp: Comparator<T>, before: seq<T>, x: T)
    ensures Skipped(cmp, before, |before|, x)
  {
    assert before[..|before|] == before && before[|before|..] == [];
  }

  lemma SkippedNext<T>(cmp: Comparator<T>, before: seq<T>, n: nat, x: T)
    requires 0 < n <= |before| && Skipped(cmp, before, n, x) && !Leq(cmp, before[n - 1], x)
    ensures Skipped(cmp, before, n - 1, x)
  {
    assert before[..n][..n - 1] == before[..n - 1];
  }

  lemma {:induction false} SkippedAll<T>(cmp: Comparator<T>, before: seq<T>, n: nat, x: T)
    requires n <= |before| && Skipped(cmp, before, n, x) && (n == 0 || Leq(cmp, before[n - 1], x))
    ensures Insert(cmp, before, x) == before[..n] + [x] + before[n..]
  {
  }

  lemma OneInserted<T>(cmp: Comparator<T>, s: seq<T>)
    ensures |s| >= 1 ==> Inserted(cmp, s[..1]) + s[1..] == s
  {
    if |s| >= 1 { assert s[..1][..0] == []; }
  }

  lemma InsertedNext<T>(cmp: Comparator<T>, s: seq<T>, o: nat)
    requires o < |s|
    ensures Inserted(cmp, s[..o + 1]) == Insert(cmp, Inserted(cmp, s[..o]), s[o])
    ensures var b := Inserted(cmp, s[..o]); b[..o] == b && b[o..] == []
  {
    assert s[..o + 1][..o] == s[..o];
  }

  method Merge<T>(t: array<T>, e: array<T>, r: array<T>, cmp: Comparator<T>)
    requires t.Length == e.Length + r.Length && t != e && t != r
    modifies t
    ensures t[..] == Merged(cmp, e[..], r[..])
  {
    hide MergedFrom, Merged;
    var u, s := 0, 0;
    ghost var a, b, done := e[..], r[..], [];
    MergedStarts(cmp, a, b);
    while u < e.Length || s < r.Length
      invariant u <= |a| && s <= |b| && e[..] == a && r[..] == b
      invariant t[..u + s] == done && MergedFrom(cmp, done, a, b, u, s)
      decreases e.Length - u + r.Length - s
    {
      MergedNext(cmp, done, a, b, u, s);
      var left := if u < e.Length && s < r.Length then cmp(e[u], r[s]) <= 0 else u < e.Length;
      var x := if left then e[u] else r[s];
      t[u + s] := x;
      done := done + [x];
      if left { u := u + 1; } else { s := s + 1; }
    }
    assert t[..u + s] == t[..];
    MergedEnds(cmp, t[..], a, b);
  }

  /** done followed by the merge of what is left of a and b is the whole merge. */
  ghost predicate MergedFrom<T>(cmp: Comparator<T>, done: seq<T>, a: seq<T>, b: seq<T>, u: nat, s: nat)
    requires u <= |a| && s <= |b|
  {
    done + Merged(cmp, a[u..], b[s..]) == Merged(cmp, a, b)
  }

  lemma MergedStarts<T>(cmp: Comparator<T>, a: seq<T>, b: seq<T>)
    ensures MergedFrom(cmp, [], a, b, 0, 0)
  {
    assert a[0..] == a && b[0..] == b;
  }

  lemma {:induction false} MergedEnds<T>(cmp: Comparator<T>, done: seq<T>, a: seq<T>, b: seq<T>)
    requires MergedFrom(cmp, done, a, b, |a|, |b|)
    ensures done == Merged(cmp, a, b)
  {
    assert a[|a|..] == [] && b[|b|..] == [];
  }

  lemma MergedNext<T>(cmp: Comparator<T>, done: seq<T>, a: seq<T>, b: seq<T>, u: nat, s: nat)
    requires u <= |a| && s <= |b| && MergedFrom(cmp, done, a, b, u, s) && (u < |a| || s < |b|)
    ensures if s == |b| || (u < |a| && Leq(cmp, a[u], b[s]))
            then MergedFrom(cmp, done + [a[u]], a, b, u + 1, s)
            else MergedFrom(cmp, done + [b[s]], a, b, u, s + 1)
  {
    var left := s == |b| || (u < |a| && Leq(cmp, a[u], b[s]));
    var x, rest := if left then a[u] else b[s],
                   if left then Merged(cmp, a[u + 1..], b[s..]) else Merged(cmp, a[u..], b[s + 1..]);
    assert a[u..] == [] || a[u..] == [a[u]] + a[u + 1..];
    assert b[s..] == [] || b[s..] == [b[s]] + b[s + 1..];
    assert Merged(cmp, a[u..], b[s..]) == [x] + rest;
    assert done + ([x] + rest) == (done + [x]) + rest;
  }

  method Slice<T>(t: array<T>, from: nat, to: nat) returns (r: array<T>)
    requires from <= to <= t.Length
    ensures fresh(r) && r[..] == t[from..to]
  {
    r := new T[to - from](i requires 0 <= i < to - from reads t => t[from + i]);
  }

  /** Sorts in place; what the result is for a total preorder is stated in SortedStable. */
  method Sort<T>(t: array<T>, cmp: Comparator<T>)
    modifies t
    ensures t[..] == Sorted(cmp, old(t[..]))
    ensures multiset(t[..]) == multiset(old(t[..]))
    decreases t.Length
  {
    var a := t.Length / 2;
    SortedPermutes(cmp, t[..]);
    if t.Length < 8 {
      InsertionSort(t, cmp);
    } else {
      ghost var s := t[..];
      var left := Slice(t, 0, a);
      assert left[..] == s[..a];
      Sort(left, cmp);
      var right := Slice(t, a, t.Length);
      assert right[..] == s[a..];
      Sort(right, cmp);
      Merge(t, left, right, cmp);
    }
  }
}
