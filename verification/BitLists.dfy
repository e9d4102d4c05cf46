/** Machine words as lists of bits. Element `k` is the bit of weight 2^k, so the width is the length. */
module BitLists {

  type Bits = seq<bool>

  function Xor(a: Bits, b: Bits): (r: Bits)
    requires |a| == |b|
    ensures |r| == |a|
  {
    seq(|a|, k requires 0 <= k < |a| => a[k] != b[k])
  }

  function And(a: Bits, b: Bits): (r: Bits)
    requires |a| == |b|
    ensures |r| == |a|
  {
    seq(|a|, k requires 0 <= k < |a| => a[k] && b[k])
  }

  function Or(a: Bits, b: Bits): (r: Bits)
    requires |a| == |b|
    ensures |r| == |a|
  {
    seq(|a|, k requires 0 <= k < |a| => a[k] || b[k])
  }

  function Not(a: Bits): (r: Bits)
    ensures |r| == |a|
  {
    seq(|a|, k requires 0 <= k < |a| => !a[k])
  }

  /** `a << n`, what leaves the word is lost. */
  function Shl(a: Bits, n: nat): (r: Bits)
    ensures |r| == |a|
  {
    seq(|a|, k requires 0 <= k < |a| => n <= k && a[k - n])
  }

  /** `a >> n`, zeros come in. */
  function Shr(a: Bits, n: nat): (r: Bits)
    ensures |r| == |a|
  {
    seq(|a|, k requires 0 <= k < |a| => k + n < |a| && a[k + n])
  }

  /** The word of `width` bits in which exactly the bits of `ones` are set. */
  function Word(width: nat, ones: set<nat>): (r: Bits)
    ensures |r| == width
  {
    seq(width, k requires 0 <= k < width => k in ones)
  }

  function Zeros(width: nat): (r: Bits)
    ensures |r| == width
  {
    seq(width, k requires 0 <= k < width => false)
  }
}
