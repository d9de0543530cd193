/**
 * Jenkins' one-at-a-time hash over the bytes `Encoding.Unicode.GetBytes` gives for a string,
 * with the 32-bit unsigned wrap-around of C#'s `uint`.
 */
module OneAtATime {
  import opened CsTypes
  import opened Utf16

  /** `h += h << n`, wrapping. */
  function AddShiftedLeft(h: bv32, n: bv5): bv32 {
    h + (h << n)
  }

  /** `h ^= h >> n`, with the logical right shift of `uint`. */
  function XorShiftedRight(h: bv32, n: bv5): bv32 {
    h ^ (h >> n)
  }

  /** One iteration of the loop body: `h += b; h += h << 10; h ^= h >> 6`. */
  function Step(h: bv32, b: Byte): bv32 {
    XorShiftedRight(AddShiftedLeft(h + b as bv32, 10), 6)
  }

  /** The accumulator after folding `Step` over `bytes`, from the initial value `h`. */
  function Accumulate(h: bv32, bytes: seq<Byte>): bv32
    decreases |bytes|
  {
    if bytes == [] then h else Accumulate(Step(h, bytes[0]), bytes[1..])
  }

  /** The final avalanche: `h += h << 3; h ^= h >> 11; h += h << 15`. */
  function Finalize(h: bv32): bv32 {
    AddShiftedLeft(XorShiftedRight(AddShiftedLeft(h, 3), 11), 15)
  }

  /** The hash of a non-null string: the finalized fold from 0, reduced modulo `int.MaxValue`. */
  function HashOf(s: seq<CodeUnit>): (h: int)
    ensures 0 <= h < IntMaxValue
  {
    Finalize(Accumulate(0, GetBytes(s))) as int % IntMaxValue
  }

  /** The fold can be computed in pieces: a prefix's accumulator is the seed for the rest. */
  lemma {:induction false} AccumulateConcat(h: bv32, a: seq<Byte>, b: seq<Byte>)
    ensures Accumulate(h, a + b) == Accumulate(Accumulate(h, a), b)
    decreases |a|
  {
    if a != [] {
      assert (a + b)[1..] == a[1..] + b;
      AccumulateConcat(Step(h, a[0]), a[1..], b);
    } else {
      assert a + b == b;
    }
  }

  /**
   * The hash of `s + t` depends on `s` only through the accumulator that `s` leaves behind, so
   * two strings that leave the same accumulator hash alike after any common suffix. A surrogate
   * pair split across the seam is encoded differently in the parts than in the whole, so that
   * case is excluded.
   */
  lemma HashOfSuffix(s: seq<CodeUnit>, s': seq<CodeUnit>, t: seq<CodeUnit>)
    requires !SplitsPair(s, t) && !SplitsPair(s', t)
    requires Accumulate(0, GetBytes(s)) == Accumulate(0, GetBytes(s'))
    ensures HashOf(s + t) == HashOf(s' + t)
  {
    GetBytesConcat(s, t);
    GetBytesConcat(s', t);
    AccumulateConcat(0, GetBytes(s), GetBytes(t));
    AccumulateConcat(0, GetBytes(s'), GetBytes(t));
  }
}
