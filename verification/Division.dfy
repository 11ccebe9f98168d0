/** Facts about Euclidean division by a variable that the other modules lean on. */
module Division {

  lemma UniqueQuotient(d: int, q: int, r: int, q': int, r': int)
    requires 0 <= r < d && 0 <= r' < d
    requires q * d + r == q' * d + r'
    ensures q == q' && r == r'
  {
    assert (q - q') * d == r' - r;
    assert (q' - q) * d == r - r';
    if q > q' {
      AtLeastOne(q - q', d);
    } else if q < q' {
      AtLeastOne(q' - q, d);
    }
  }

  lemma AtLeastOne(a: int, d: int)
    requires a >= 1 && d >= 0
    ensures a * d >= d
  {
    assert a * d == d + (a - 1) * d;
  }

  lemma QuotientIs(x: int, d: int, q: int, r: int)
    requires 0 <= r < d && x == q * d + r
    ensures x / d == q && x % d == r
  {
    UniqueQuotient(d, q, r, x / d, x % d);
  }

  lemma DivideTwice(x: nat, d: nat)
    requires d > 0
    ensures x / 2 / d == x / (2 * d)
  {
    var q, r := x / 2 / d, x / 2 % d;
    assert x / 2 == q * d + r;
    assert x == q * (2 * d) + (2 * r + x % 2);
    QuotientIs(x, 2 * d, q, 2 * r + x % 2);
  }

  // ----- one divisor at a time, for multiples of words, pages and sectors

  lemma Words(x: int, k: int)
    requires x == 4 * k
    ensures x % 4 == 0
  {
  }

  lemma WholePages(x: int)
    requires x % 0x100 == 0
    ensures x == 0x100 * (x / 0x100)
  {
  }

  lemma WholeSectors(x: int)
    requires x % 0x1000 == 0
    ensures x == 0x1000 * (x / 0x1000)
  {
  }

  lemma Pages(x: int, k: int)
    requires x == 0x100 * k
    ensures x % 0x100 == 0
  {
  }

  lemma Sectors(x: int, k: int)
    requires x == 0x1000 * k
    ensures x % 0x1000 == 0 && x / 0x1000 == k
  {
  }

  lemma SectorsAdded(k: int, x: int)
    ensures (0x1000 * k + x) % 0x1000 == x % 0x1000
  {
  }

  lemma PageInSector(q: int)
    ensures 0x100 * q % 0x1000 == 0x100 * (q % 16)
  {
    var k := q / 16;
    assert 0x100 * q == 0x1000 * k + 0x100 * (q % 16);
    SectorsAdded(k, 0x100 * (q % 16));
  }
}
