/** Building and querying a Code: NewCode's validation of the frequency table, the
    lookup Code.code, and the CodeBuilder that counts symbol frequencies. */
module Codes {
  import opened HuffmanTypes
  import opened Bits

  /** The most frequencies NewCode accepts: 1 << maxCodeLen. */
  const MaxFrequencies: nat := 0x10_0000

  lemma MaxFrequenciesIsPow2()
    ensures MaxFrequencies == Pow2(MaxCodeLen)
  {
    Pow2Twenty();
  }

  /** The Huffman length generation NewCode hands the converted frequencies to. It is
      outside the model: whatever codes it computes for the given int32 frequencies. */
  type Generator = seq<int> -> seq<BitCode>

  /** int32(f): the low 32 bits of f read as a two's-complement number. */
  function Int32(f: int): (r: int)
    ensures -0x8000_0000 <= r < 0x8000_0000
    ensures -0x8000_0000 <= f < 0x8000_0000 ==> r == f
  {
    (f + 0x8000_0000) % 0x1_0000_0000 - 0x8000_0000
  }

  /** The int32 copy of the frequencies NewCode makes before generating lengths. */
  function Int32s(frequencies: seq<int>): (r: seq<int>)
    ensures |r| == |frequencies|
  {
    seq(|frequencies|, i requires 0 <= i < |frequencies| => Int32(frequencies[i]))
  }

  /** The range loop of NewCode that looks for a negative frequency. */
  function FirstNegative(frequencies: seq<int>): (r: Option<nat>)
    ensures r.None? <==> forall i :: 0 <= i < |frequencies| ==> frequencies[i] >= 0
    ensures r.Some? ==>
      (r.value < |frequencies| && frequencies[r.value] < 0 &&
       forall i :: 0 <= i < r.value ==> frequencies[i] >= 0)
  {
    if frequencies == [] then None
    else if frequencies[0] < 0 then Some(0)
    else
      match FirstNegative(frequencies[1..])
      case None => None
      case Some(k) => Some(k + 1)
  }

  /** NewCode: too many frequencies and a negative frequency are errors, checked in that
      order; otherwise the code is what the generator makes of the int32 frequencies. */
  function NewCode(frequencies: seq<int>, generate: Generator): (r: Result<Code>)
    ensures r.Err? <==>
      |frequencies| > Pow2(MaxCodeLen) || exists i :: 0 <= i < |frequencies| && frequencies[i] < 0
    ensures r == Err(TooManyFrequencies) <==> |frequencies| > Pow2(MaxCodeLen)
    ensures r.Err? && |frequencies| <= Pow2(MaxCodeLen) ==> r == Err(NegativeFrequency)
    ensures r.Ok? ==> r.value == Code(generate(Int32s(frequencies)))
  {
    MaxFrequenciesIsPow2();
    if |frequencies| > MaxFrequencies then Err(TooManyFrequencies)
    else if FirstNegative(frequencies).Some? then Err(NegativeFrequency)
    else Ok(Code(generate(Int32s(frequencies))))
  }

  /** The int32 conversion changes no frequency below 2^31. */
  lemma Int32sKeep(frequencies: seq<int>)
    requires forall i :: 0 <= i < |frequencies| ==> 0 <= frequencies[i] < 0x8000_0000
    ensures Int32s(frequencies) == frequencies
  {
  }

  /** Code.code: the bitcode of s, or the zero bitcode (unused) from uint32(len(codes))
      on. The length is truncated to 32 bits, so a table of 2^32 codes or more answers
      with the zero bitcode for every symbol at or above the wrapped length. */
  function CodeOf(c: Code, s: u32): (b: BitCode)
    ensures s >= Wrap(|c.codes|) ==> b == BitCode(0, 0)
    ensures s >= |c.codes| ==> b == BitCode(0, 0)
    ensures |c.codes| < U32 && s < |c.codes| ==> b == c.codes[s]
    ensures b.len != 0 ==> s < |c.codes| && b == c.codes[s]
  {
    if s >= Wrap(|c.codes|) then BitCode(0, 0) else c.codes[s]
  }

  /** Exactly the symbols below the uint32 table length with a used code have a code of
      nonzero length. */
  lemma CodeOfUsed(c: Code, s: u32)
    ensures CodeOf(c, s).len != 0 <==> s < Wrap(|c.codes|) && c.codes[s].len != 0
  {
  }

  /** With 2^32 + 1 codes the uint32 length is 1, so symbol 1 has no code although the
      table holds one for it. */
  lemma CodeOfHugeTable()
    ensures CodeOf(Code(seq(U32 + 1, _ => BitCode(1, 1))), 1) == BitCode(0, 0)
  {
    assert Wrap(U32 + 1) == 1;
  }

  // ---------------------------------------------------------------------------
  // CodeBuilder

  /** A SplitFunc: the symbols a chunk of input bytes stands for. */
  type Split = seq<byte> -> seq<u32>

  /** The symbols CodeBuilder.Write and Encoder.Write see for data: split's result, or
      each byte as a symbol when there is no split function. */
  function Symbols(split: Option<Split>, data: seq<byte>): seq<u32>
  {
    if split.Some? then split.value(data) else Widen(data)
  }

  function Widen(data: seq<byte>): (r: seq<u32>)
    ensures |r| == |data| && forall i :: 0 <= i < |data| ==> r[i] == data[i]
  {
    seq(|data|, i requires 0 <= i < |data| => data[i] as u32)
  }

  lemma WidenAppend(a: seq<byte>, b: seq<byte>)
    ensures Widen(a + b) == Widen(a) + Widen(b)
  {
    assert forall i :: 0 <= i < |a + b| ==> Widen(a + b)[i] == (Widen(a) + Widen(b))[i];
  }

  /** growFreqs(n): compares n with uint32(len(freqs)), which wraps, and appends the
      missing zero slots. */
  function Grown(freqs: seq<nat>, n: u32): (r: seq<nat>)
    ensures |r| > n && |r| >= |freqs| && r[..|freqs|] == freqs
    ensures forall k :: |freqs| <= k < |r| ==> r[k] == 0
  {
    if Wrap(|freqs|) <= n then freqs + seq(n - Wrap(|freqs|) + 1, _ => 0) else freqs
  }

  /** One symbol counted: the table grown to hold s, then freqs[s]++. */
  function Bump(freqs: seq<nat>, s: u32): seq<nat>
  {
    var g := Grown(freqs, s);
    g[s := g[s] + 1]
  }

  /** The frequency table after counting syms, in order, starting from freqs. */
  function Tally(freqs: seq<nat>, syms: seq<u32>): seq<nat>
  {
    if syms == [] then freqs else Bump(Tally(freqs, syms[..|syms| - 1]), syms[|syms| - 1])
  }

  /** How many times k occurs in syms. */
  function Occurrences(syms: seq<u32>, k: int): nat
  {
    if syms == [] then 0
    else Occurrences(syms[..|syms| - 1], k) + (if syms[|syms| - 1] == k then 1 else 0)
  }

  class CodeBuilder {
    const split: Option<Split>
    var freqs: seq<nat>

    /** NewCodeBuilder */
    constructor (split: Option<Split>)
      ensures this.split == split && freqs == []
    {
      this.split := split;
      freqs := [];
    }

    /** growFreqs */
    method GrowFreqs(n: u32)
      modifies this`freqs
      ensures freqs == Grown(old(freqs), n)
    {
      var ulen := Wrap(|freqs|);
      if ulen <= n {
        var g := n - ulen + 1;
        ghost var f0 := freqs;
        for k := 0 to g
          invariant freqs == f0 + seq(k, _ => 0)
        {
          freqs := freqs + [0];
        }
      }
    }

    /** Write: counts every symbol of data; always returns len(data) and no error. */
    method Write(data: seq<byte>) returns (n: int, e: Option<Error>)
      modifies this`freqs
      ensures n == |data| && e == None
      ensures freqs == Tally(old(freqs), Symbols(split, data))
    {
      if split.Some? {
        var syms := split.value(data);
        for i := 0 to |syms|
          invariant freqs == Tally(old(freqs), syms[..i])
        {
          var s := syms[i];
          TallyStep(old(freqs), syms, i);
          GrowFreqs(s);
          freqs := freqs[s := freqs[s] + 1];
        }
        assert syms[..|syms|] == syms;
      } else {
        ghost var syms := Widen(data);
        for i := 0 to |data|
          invariant freqs == Tally(old(freqs), syms[..i])
        {
          var b := data[i];
          TallyStep(old(freqs), syms, i);
          GrowFreqs(b as u32);
          freqs := freqs[b := freqs[b] + 1];
        }
        assert syms[..|data|] == syms;
        assert Symbols(split, data) == syms;
      }
      return |data|, None;
    }

    /** Code: NewCode of the counted frequencies. They are never negative, so the only
        possible error is too many of them. */
    method Code(generate: Generator) returns (r: Result<Code>)
      ensures r == NewCode(freqs, generate)
      ensures r.Err? ==> r == Err(TooManyFrequencies) && |freqs| > Pow2(MaxCodeLen)
    {
      r := NewCode(freqs, generate);
    }
  }

  // ---------------------------------------------------------------------------
  // Tally

  /** After counting syms every symbol seen has a slot, slots that were already there
      have grown by the symbol's number of occurrences, and new slots hold exactly that
      number. */
  lemma {:induction false} TallyCounts(freqs: seq<nat>, syms: seq<u32>)
    ensures |Tally(freqs, syms)| >= |freqs|
    ensures forall i :: 0 <= i < |syms| ==> syms[i] < |Tally(freqs, syms)|
    ensures forall k :: 0 <= k < |Tally(freqs, syms)| ==>
      Tally(freqs, syms)[k] == (if k < |freqs| then freqs[k] else 0) + Occurrences(syms, k)
  {
    if syms != [] {
      var m := |syms| - 1;
      var init, s := syms[..m], syms[m];
      TallyCounts(freqs, init);
      assert syms == init + [s];
      var t := Tally(freqs, init);
      var g := Grown(t, s);
      forall k | 0 <= k < |g|
        ensures g[k] == (if k < |freqs| then freqs[k] else 0) + Occurrences(init, k)
      {
        if k < |t| {
          assert g[k] == g[..|t|][k];
        } else {
          OccurrencesAbove(init, k);
        }
      }
    }
  }

  lemma TallyStep(freqs: seq<nat>, syms: seq<u32>, i: nat)
    requires i < |syms|
    ensures Tally(freqs, syms[..i + 1]) == Bump(Tally(freqs, syms[..i]), syms[i])
  {
    assert syms[..i + 1][..i] == syms[..i];
  }

  /** A value above every element does not occur. */
  lemma {:induction false} OccurrencesAbove(syms: seq<u32>, k: int)
    requires forall i :: 0 <= i < |syms| ==> syms[i] < k
    ensures Occurrences(syms, k) == 0
  {
    if syms != [] {
      OccurrencesAbove(syms[..|syms| - 1], k);
    }
  }

  /** While the table is shorter than 2^32 and no symbol is 2^32 - 1, the table grows
      no further than the largest symbol seen needs. */
  lemma {:induction false} TallyLength(freqs: seq<nat>, syms: seq<u32>)
    requires |freqs| < U32
    requires forall i :: 0 <= i < |syms| ==> syms[i] < U32 - 1
    ensures |Tally(freqs, syms)| < U32
    ensures |Tally(freqs, syms)| == |freqs| ||
      exists i :: 0 <= i < |syms| && |Tally(freqs, syms)| == syms[i] + 1
  {
    if syms != [] {
      var m := |syms| - 1;
      var init := syms[..m];
      TallyLength(freqs, init);
      var t := Tally(freqs, init);
      var s := syms[m];
      assert Wrap(|t|) == |t|;
      assert |Tally(freqs, syms)| == |Grown(t, s)|;
      assert |Grown(t, s)| == if |t| <= s then s + 1 else |t|;
      if !(|Tally(freqs, syms)| == |t|) {
        assert |Tally(freqs, syms)| == syms[m] + 1;
      } else if exists i :: 0 <= i < |init| && |t| == init[i] + 1 {
        var i :| 0 <= i < |init| && |t| == init[i] + 1;
        assert syms[i] == init[i];
      }
    }
  }
}
