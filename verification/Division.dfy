/** Division with a remainder by a number that is not a constant. */
module Division {
  lemma SameDivision(size: nat, p: int, r: nat, q: int, s: nat)
    requires r < size && s < size && size * p + r == size * q + s
    ensures p == q && r == s
  {
    if p < q { Below(size, p, q); } else if q < p { Below(size, q, p); }
  }

  lemma Below(size: nat, p: int, q: int)
    requires p < q
    ensures size * p + size <= size * q
    decreases q - p
  {
    if p + 1 == q {
    } else {
      Below(size, p, q - 1);
    }
    assert size * q == size * (q - 1) + size;
  }

  lemma AtLeast(size: nat, p: int, q: int)
    requires p <= q
    ensures size * p <= size * q
  {
    if p < q { Below(size, p, q); }
  }

  lemma Divides(size: nat, a: nat, q: int, r: nat)
    requires r < size && a == size * q + r
    ensures a % size == r && a / size == q
  {
    SameDivision(size, a / size, a % size, q, r);
  }
}
