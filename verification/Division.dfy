/** Division of numbers by a variable, kept apart because products are costly in proofs. */
module Division {

  function Quotient(x: nat, y: nat): nat
    requires y > 0
  {
    x / y
  }

  function Remainder(x: nat, y: nat): nat
    requires y > 0
  {
    x % y
  }

  lemma QuotientIs(x: nat, y: nat)
    requires y > 0
    ensures Quotient(x, y) * y + Remainder(x, y) == x && Remainder(x, y) < y
  {
  }

  /** The quotient and the remainder are the only numbers with this property. */
  lemma QuotientUnique(x: nat, y: nat, q: nat, r: nat)
    requires x == q * y + r && r < y
    ensures Quotient(x, y) == q && Remainder(x, y) == r
  {
    hide Quotient, Remainder;
    QuotientIs(x, y);
    var p := Quotient(x, y);
    if p < q {
      ProductGap(p, q, y);
    } else if q < p {
      ProductGap(q, p, y);
    }
  }

  lemma {:induction false} ProductGap(p: nat, q: nat, y: nat)
    requires p < q
    ensures p * y + y <= q * y
    decreases q
  {
    if p + 1 < q {
      ProductGap(p, q - 1, y);
    }
    assert q * y == (q - 1) * y + y;
  }

  lemma ProductNonNegative(x: nat, y: nat)
    ensures x * y >= 0
  {
  }
}
