/** Value types shared by every part of the Huffman model: bytes, 32-bit unsigned
    words, powers of two, the source's error results, and the Code itself. */
module HuffmanTypes {

  /** A Go `byte`. Bit operations on bytes are modelled with `/` and `%`. */
  type byte = x: int | 0 <= x < 256

  /** 2^32: the modulus of Go's `uint32` arithmetic. */
  const U32: nat := 0x1_0000_0000

  /** A Go `uint32` (also the type `Symbol`). */
  type u32 = x: int | 0 <= x < 0x1_0000_0000

  /** The longest code length the marshal format can carry (`maxCodeLen`). */
  const MaxCodeLen: nat := 20

  /** The value of a `uint32` expression after wrap-around. */
  function Wrap(x: int): (r: u32)
    ensures 0 <= x < U32 ==> r == x
    ensures 0 <= x ==> r <= x
  {
    x % 0x1_0000_0000
  }

  function Pow2(n: nat): (r: nat)
    ensures r >= 1
  {
    if n == 0 then 1 else 2 * Pow2(n - 1)
  }

  datatype Option<T> = None | Some(value: T)

  /** The errors the core returns (rather than panics with). */
  datatype Error =
    | TooManyFrequencies   // NewCode: more than 2^20 frequencies
    | NegativeFrequency    // NewCode: a frequency below zero
    | EmptyData            // UnmarshalCode: no bytes at all
    | BadMagic             // UnmarshalCode: first byte is not the magic/version byte

  datatype Result<T> = Ok(value: T) | Err(error: Error)

  /** A symbol's code: `len` bits whose value is `val`. Length 0 means the symbol is unused. */
  datatype BitCode = BitCode(val: u32, len: u32)

  /** A Code maps Symbol i to codes[i]. */
  datatype Code = Code(codes: seq<BitCode>)

  /** The code lengths of a sequence of bitcodes, in symbol order. */
  function Lengths(codes: seq<BitCode>): (r: seq<nat>)
    ensures |r| == |codes|
    ensures forall i :: 0 <= i < |codes| ==> r[i] == codes[i].len
  {
    seq(|codes|, i requires 0 <= i < |codes| => codes[i].len as nat)
  }

  /** Bitcodes with the given lengths and all values zero, as UnmarshalCode builds them
      before values are assigned. */
  function Unvalued(lens: seq<nat>): (r: seq<BitCode>)
    requires forall i :: 0 <= i < |lens| ==> lens[i] <= MaxCodeLen
    ensures Lengths(r) == lens
    ensures forall i :: 0 <= i < |r| ==> r[i].val == 0
  {
    seq(|lens|, i requires 0 <= i < |lens| => BitCode(0, lens[i]))
  }
}
