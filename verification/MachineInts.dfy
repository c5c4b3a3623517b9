/** Machine integers and addresses of 64 bits, written out over Dafny's unbounded `int`. */
module MachineInts {
  const TWO31: int := 0x8000_0000
  const TWO32: int := 0x1_0000_0000
  const TWO63: int := 0x8000_0000_0000_0000
  const TWO64: int := 0x1_0000_0000_0000_0000

  /** The values of a `uintptr_t`. */
  type Word = x: nat | x < TWO64 witness 0

  /** The values of a pointer that is not NULL. */
  type Address = x: nat | 0 < x < TWO64 witness 1

  /** The value of `x` once stored in a `uintptr_t`. */
  function ToWord(x: int): (r: Word)
    ensures 0 <= x < TWO64 ==> r == x
    ensures -TWO64 <= x < 0 ==> r == x + TWO64
  {
    x % TWO64
  }

  function Increment(c: Word): Word {
    if c == TWO64 - 1 then 0 else c + 1
  }

  function Decrement(c: Word): Word {
    if c == 0 then TWO64 - 1 else c - 1
  }

  lemma ToWordSteps(x: int)
    ensures ToWord(x + 1) == Increment(ToWord(x))
    ensures ToWord(x - 1) == Decrement(ToWord(x))
  {
  }

  predicate Int64(x: int) {
    -TWO63 <= x < TWO63
  }

  /** The value of `x` once stored in an `int64_t`. */
  function Wrap64(x: int): (r: int)
    ensures Int64(r)
    ensures Int64(x) ==> r == x
    ensures (r - x) % TWO64 == 0
  {
    (x + TWO63) % TWO64 - TWO63
  }

  /** Wrapping can be postponed: adding wrapped values wraps to the wrapped sum. */
  lemma WrapAdd(a: int, b: int)
    ensures Wrap64(Wrap64(a) + Wrap64(b)) == Wrap64(a + b)
    ensures Wrap64(Wrap64(a) + b) == Wrap64(a + b)
  {
    var ka := (Wrap64(a) - a) / TWO64;
    var kb := (Wrap64(b) - b) / TWO64;
    assert Wrap64(a) == a + ka * TWO64;
    assert Wrap64(b) == b + kb * TWO64;
    WrapPeriodic(a + b, ka + kb);
    WrapPeriodic(a + b, ka);
  }

  lemma WrapPeriodic(x: int, k: int)
    ensures Wrap64(x + k * TWO64) == Wrap64(x)
  {
  }

  function Pow2(w: nat): (p: nat)
    ensures p >= 1
  {
    if w == 0 then 1 else 2 * Pow2(w - 1)
  }
}
