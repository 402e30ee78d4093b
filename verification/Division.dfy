/** Facts about division that the solver does not find by itself. */
module Division {

  lemma {:induction false} NextMultiple(p: nat, q: nat, a: nat)
    requires p < q
    ensures p * a + a <= q * a
  {
    assert q * a == (q - 1) * a + a;
    if p < q - 1 {
      NextMultiple(p, q - 1, a);
    }
  }

  lemma Quotient(q: nat, r: nat, a: nat)
    requires r < a
    ensures (q * a + r) / a == q
  {
    var x := q * a + r;
    var p := x / a;
    assert x == p * a + x % a;
    if p < q {
      NextMultiple(p, q, a);
    }
    if q < p {
      NextMultiple(q, p, a);
    }
  }

  lemma MultipleOf(q: nat, a: nat)
    requires a >= 1
    ensures q * a % a == 0
  {
    Quotient(q, 0, a);
    var x := q * a;
    assert x == x / a * a + x % a;
  }

  /** The remainder of a division, by repeated subtraction. */
  function Remainder(x: nat, n: nat): (r: nat)
    requires n > 0
    ensures r < n
  {
    if x < n then x else Remainder(x - n, n)
  }

  lemma {:induction false} RemainderSplits(x: nat, n: nat) returns (q: nat)
    requires n > 0
    ensures x == q * n + Remainder(x, n)
  {
    if x < n {
      q := 0;
    } else {
      var p := RemainderSplits(x - n, n);
      q := p + 1;
    }
  }

  lemma RemainderExactly(x: nat, n: nat)
    requires n > 0
    ensures Remainder(x, n) == x % n
  {
    var q := RemainderSplits(x, n);
    Quotient(q, Remainder(x, n), n);
    assert x == x / n * n + x % n;
  }
}
