/** Unsigned 32-bit arithmetic: what a `uint32_t` or `size_t` variable keeps of an integer. */
module Words {

  const RANGE := 0x1_0000_0000

  /** The value in range that differs from `x` by a multiple of the range. */
  function Wrap(x: int): (r: nat)
    ensures r < RANGE
    decreases if x < 0 then RANGE - x else x
  {
    if x < 0 then Wrap(x + RANGE) else if x < RANGE then x else Wrap(x - RANGE)
  }

  lemma {:induction false} WrapIsRemainder(x: int)
    ensures Wrap(x) == x % RANGE
    decreases if x < 0 then RANGE - x else x
  {
    if x < 0 {
      WrapIsRemainder(x + RANGE);
    } else if x >= RANGE {
      WrapIsRemainder(x - RANGE);
    }
  }

  lemma WrapTurns(x: int, turns: int)
    ensures Wrap(x + turns * RANGE) == Wrap(x)
  {
    WrapIsRemainder(x);
    WrapIsRemainder(x + turns * RANGE);
  }

  /** What wrapping takes off. */
  function Turns(x: int): int {
    x / RANGE
  }

  lemma WrapSplits(x: int)
    ensures x == Wrap(x) + Turns(x) * RANGE
  {
    WrapIsRemainder(x);
  }

  /** Wrapping early or late makes no difference to a sum. */
  lemma WrapAdd(a: int, b: int)
    ensures Wrap(Wrap(a) + b) == Wrap(a + b)
  {
    WrapSplits(a);
    WrapTurns(Wrap(a) + b, Turns(a));
  }

  lemma WrapDifference(a: int, b: int)
    ensures Wrap(Wrap(a) - Wrap(b)) == Wrap(a - b)
  {
    WrapAdd(a, 0 - Wrap(b));
    WrapSplits(b);
    WrapTurns(a - b, Turns(b));
  }

  /** Two 32-bit counters account for a total, exactly as long as it fits. */
  predicate Balanced(a: nat, b: nat, total: nat) {
    a < RANGE && b < RANGE && Wrap(a + b) == Wrap(total) && (total < RANGE ==> a + b == total)
  }

  /** Two counters that share out a total balance even once both have wrapped. */
  lemma WrapSplit(total: nat, part: nat)
    requires part <= total
    ensures Balanced(Wrap(part), Wrap(total - part), total)
  {
    WrapAdd(part, Wrap(total - part));
    WrapAdd(total - part, part);
  }
}
