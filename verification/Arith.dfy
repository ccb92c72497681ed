/** Products, quotients and remainders of variables, in steps the verifier takes quickly. */
module Arith {

  lemma {:induction false} Product(x: nat, y: nat)
    ensures x * y >= 0
  {
  }

  lemma {:induction false} AtLeast(x: nat, y: nat)
    requires x >= 1
    ensures x * y >= y
  {
    assert x * y == (x - 1) * y + y;
    Product(x - 1, y);
  }

  lemma {:induction false} Division(x: nat, y: nat)
    requires y > 0
    ensures x == x / y * y + x % y && 0 <= x % y < y && 0 <= x / y
  {
  }

  lemma {:induction false} Quotient(x: nat, y: nat)
    requires y > 0
    ensures x == x / y * y + x % y && 0 <= x % y < y && 0 <= x / y <= x
  {
    Division(x, y);
    NoLess(x / y, y);
  }

  lemma {:induction false} NoLess(q: nat, y: nat)
    requires y > 0
    ensures q * y >= q
  {
    assert q * y == q * (y - 1) + q;
    Product(q, y - 1);
  }

  lemma {:induction false} Unique(q: nat, r: nat, q': nat, r': nat, y: nat)
    requires r < y && r' < y && q * y + r == q' * y + r'
    ensures q == q' && r == r'
  {
    assert (q - q') * y == r' - r;
    if q > q' {
      AtLeast(q - q', y);
    } else if q < q' {
      AtLeast(q' - q, y);
    }
  }

  lemma {:induction false} DivMod(q: nat, y: nat, r: nat)
    requires r < y
    ensures q * y >= 0 && (q * y + r) / y == q && (q * y + r) % y == r
  {
    Product(q, y);
    Division(q * y + r, y);
    Unique(q, r, (q * y + r) / y, (q * y + r) % y, y);
  }
}
