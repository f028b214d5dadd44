/** A fixed table of `2^k` slots addressed by any `int` index: the index is
    masked down to its low k bits, so every index, negative ones included,
    lands in the table. */
module ArrayedObjects {
  import opened Lang

  /** The unsigned 32-bit pattern of an `int`. */
  function Unsigned(x: int): (u: nat)
    ensures u < 0x1_0000_0000
    ensures 0 <= x < 0x1_0000_0000 ==> u == x
  {
    x % 0x1_0000_0000
  }

  /** The set bits of `u`; on `Unsigned(x)` this is `Integer.bitCount(x)`. */
  function BitCount(u: nat): nat
  {
    if u == 0 then 0 else u % 2 + BitCount(u / 2)
  }

  /** The clear bits below the lowest set bit of `u`, and 32 for `u == 0`;
      on `Unsigned(x)` this is `Integer.numberOfTrailingZeros(x)`. */
  function TrailingZeros(u: nat): nat
  {
    if u == 0 then 32 else if u % 2 == 1 then 0 else 1 + TrailingZeros(u / 2)
  }

  /** Bitwise `a & m` for a two's-complement `a` and a non-negative mask `m`:
      bits of `a` above the highest bit of `m` are cleared whatever they are,
      so this is Java's `&` on `int` whenever `m` is a non-negative `int`. */
  function BitAnd(a: int, m: nat): nat
    decreases m
  {
    if m == 0 then 0
    else (if a % 2 == 1 && m % 2 == 1 then 1 else 0) + 2 * BitAnd(a / 2, m / 2)
  }

  /** A value with exactly one set bit is the power of two that its trailing
      zeros count. */
  lemma {:induction false} SingleBit(u: nat)
    requires BitCount(u) == 1
    ensures u == Pow2(TrailingZeros(u))
  {
    if u % 2 == 1 {
      NoBitsIsZero(u / 2);
    } else {
      SingleBit(u / 2);
    }
  }

  lemma {:induction false} NoBitsIsZero(u: nat)
    requires BitCount(u) == 0
    ensures u == 0
  {
    if u != 0 {
      NoBitsIsZero(u / 2);
    }
  }

  /** Masking with `2^k - 1` keeps the low k bits of a two's-complement
      value. */
  lemma {:induction false} MaskKeepsLowBits(a: int, k: nat)
    ensures BitAnd(a, Pow2(k) - 1) == LowBits(a, k)
    decreases k
  {
    if k > 0 {
      MaskKeepsLowBits(a / 2, k - 1);
      MaskStep(a, Pow2(k - 1));
    }
  }

  /** The lowest bit of a mask `2p - 1` is set, and the rest is `p - 1`. */
  lemma MaskStep(a: int, p: int)
    requires p >= 1
    ensures BitAnd(a, 2 * p - 1) == a % 2 + 2 * BitAnd(a / 2, p - 1)
  {
    var m := 2 * p - 1;
    DivModUnique(m, 2, p - 1, 1);
  }

  /** The table: its slots, the mask `length - 1` and the shift
      `log2(length)`. The slots are never written after construction. */
  datatype ArrayedObjects<T> = ArrayedObjects(values: seq<Option<T>>, bitMask: int, bitShift: nat)
  {
    /** What construction establishes: the length is the power of two the
        shift names, and the mask is one less. */
    ghost predicate Valid()
    {
      |values| == Pow2(bitShift) && bitMask == |values| - 1
    }
  }

  /** `new ArrayedObjects(length)`: the caller promises a length with exactly
      one set bit. `Integer.MIN_VALUE` keeps that promise, and then the
      table allocation throws. */
  function Create<T>(length: int): (r: Result<ArrayedObjects<T>>)
    requires IsInt(length) && BitCount(Unsigned(length)) == 1
    ensures r.Throws? <==> length < 0
    ensures r.Throws? ==> r.exception == NegativeArraySizeException
    ensures r.Ok? ==> r.value.Valid() && |r.value.values| == length && Pow2(r.value.bitShift) == length
    ensures r.Ok? ==> forall i :: 0 <= i < |r.value.values| ==> r.value.values[i].None?
  {
    if length < 0 then Throws(NegativeArraySizeException)
    else
      SingleBit(length);
      Ok(ArrayedObjects(seq(length, _ => None), length - 1, TrailingZeros(Unsigned(length))))
  }

  /** `get(index)`: the slot at `index & bitMask`. Every `int` index reads a
      slot inside the table; it is the index modulo the length, taken
      Euclidean so that a negative index wraps around from the end. */
  function Get<T>(a: ArrayedObjects<T>, index: int): (r: Option<T>)
    requires a.Valid() && IsInt(index)
    ensures r == a.values[index % |a.values|]
    ensures 0 <= index < |a.values| ==> r == a.values[index]
  {
    MaskKeepsLowBits(index, a.bitShift);
    LowBitsIsRemainder(index, a.bitShift);
    if 0 <= index < |a.values| then
      DivModUnique(index, |a.values|, 0, index);
      a.values[BitAnd(index, a.bitMask)]
    else
      a.values[BitAnd(index, a.bitMask)]
  }
}
