/** The 32-bit linear congruential generator shared by `generate` and
    `generateAvatar`: `seed = (seed * 1664525 + 1013904223) >>> 0`.

    A seed is an unsigned 32-bit word. The product of a word and the
    multiplier stays below 2^53, so the JavaScript double arithmetic is
    exact and `>>> 0` (ToUint32) is reduction modulo 2^32. */
module Lcg {

  // The constants are written out as literals below, so that the solver
  // sees linear arithmetic:
  //   modulus 2^32 = 0x1_0000_0000, multiplier 1664525, increment 1013904223,
  //   inverse multiplier 4276115653 (1664525 * 4276115653 == 1 + 1657219 * 2^32).

  type Word = x: int | 0 <= x < 0x1_0000_0000

  /** JavaScript `>>> 0` on a non-negative integer-valued double. */
  function ToUint32(x: nat): (r: Word)
    ensures (x - r) % 0x1_0000_0000 == 0
  {
    x % 0x1_0000_0000
  }

  /** The unwrapped value the source computes before `>>> 0`. */
  function Unwrapped(seed: Word): nat
  {
    seed * 1664525 + 1013904223
  }

  /** One draw of `rng()`: the next state of the generator. */
  function Step(seed: Word): Word
  {
    ToUint32(Unwrapped(seed))
  }

  /** `seed >>> 24`: the top eight bits of a state. */
  function TopByte(seed: Word): (b: nat)
    ensures b < 256
    ensures b * 0x100_0000 <= seed < (b + 1) * 0x100_0000
  {
    seed / 0x100_0000
  }

  /** The state after `k` draws from `seed`. */
  function State(seed: Word, k: nat): Word
  {
    if k == 0 then seed else Step(State(seed, k - 1))
  }

  /** Runs the generator backwards by one draw. */
  function StepBack(next: Word): Word
  {
    ((next + 0x1_0000_0000 - 1013904223) * 4276115653) % 0x1_0000_0000
  }

  /** The double arithmetic of the source never rounds: the unwrapped value
      is an integer below 2^53. */
  lemma UnwrappedIsExact(seed: Word)
    ensures Unwrapped(seed) < 0x20_0000_0000_0000  // 2^53
  {
  }

  lemma {:induction false} ModAddMultiple(a: int, k: int)
    ensures (a + k * 0x1_0000_0000) % 0x1_0000_0000 == a % 0x1_0000_0000
  {
    var q, r := a / 0x1_0000_0000, a % 0x1_0000_0000;
    assert a == q * 0x1_0000_0000 + r;
    assert a + k * 0x1_0000_0000 == (q + k) * 0x1_0000_0000 + r;
  }

  /** StepBack undoes Step: the generator is a bijection on 32-bit words,
      so distinct seeds never merge into the same sequence of draws. */
  lemma {:induction false} StepBackStep(seed: Word)
    ensures StepBack(Step(seed)) == seed
  {
    var u := Unwrapped(seed);
    var q: int := u / 0x1_0000_0000;
    assert Step(seed) == u - q * 0x1_0000_0000;
    var v := (Step(seed) + 0x1_0000_0000 - 1013904223) * 4276115653;
    assert v == seed * 1664525 * 4276115653 + (1 - q) * 0x1_0000_0000 * 4276115653;
    assert 1664525 * 4276115653 == 1 + 1657219 * 0x1_0000_0000;
    assert v == seed + (seed * 1657219 + (1 - q) * 4276115653) * 0x1_0000_0000;
    ModAddMultiple(seed, seed * 1657219 + (1 - q) * 4276115653);
  }

  /** Step undoes StepBack: every word is the successor of exactly one word. */
  lemma {:induction false} StepStepBack(next: Word)
    ensures Step(StepBack(next)) == next
  {
    var v := (next + 0x1_0000_0000 - 1013904223) * 4276115653;
    var p: int := v / 0x1_0000_0000;
    var s := StepBack(next);
    assert s == v - p * 0x1_0000_0000;
    assert 1664525 * 4276115653 == 1 + 1657219 * 0x1_0000_0000;
    assert Unwrapped(s) == next + (1 + (next + 0x1_0000_0000 - 1013904223) * 1657219 - p * 1664525) * 0x1_0000_0000
      by {
        assert Unwrapped(s) == (next + 0x1_0000_0000 - 1013904223) * 1664525 * 4276115653 - p * 0x1_0000_0000 * 1664525 + 1013904223;
      }
    ModAddMultiple(next, 1 + (next + 0x1_0000_0000 - 1013904223) * 1657219 - p * 1664525);
  }

  /** Drawing `a` values and then `b` more is drawing `a + b` values. */
  lemma {:induction false} StateAdd(seed: Word, a: nat, b: nat)
    ensures State(State(seed, a), b) == State(seed, a + b)
    decreases b
  {
    if b > 0 {
      StateAdd(seed, a, b - 1);
    }
  }

  /** Two seeds that agree after the same number of draws were equal. */
  lemma {:induction false} StateInjective(s1: Word, s2: Word, k: nat)
    requires State(s1, k) == State(s2, k)
    ensures s1 == s2
  {
    if k > 0 {
      StepBackStep(State(s1, k - 1));
      StepBackStep(State(s2, k - 1));
      StateInjective(s1, s2, k - 1);
    }
  }
}
