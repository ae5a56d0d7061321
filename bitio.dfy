/** The bit writer of bitio.go: values of up to 32 bits are packed least significant
    bit first into a pending buffer, and whole little-endian 32-bit words, then the
    zero-padded tail, are handed to the underlying writer. The first write error is
    kept and every later write is skipped. */
module BitIO {
  import opened HuffmanTypes
  import opened Bits

  /** An error value returned by the underlying writer. */
  datatype WriteError = WriteError(code: int)

  /** The underlying io.Writer, as far as the bit writer can observe it: given
      everything handed to it so far and the next buffer, the error its Write returns
      (None for nil). A bytes.Buffer is `(_, _) => None`. */
  type Sink = (seq<byte>, seq<byte>) -> Option<WriteError>

  /** buf[0..4) of WriteBits: the low 32 bits of x, least significant byte first. */
  function LowBytes(x: nat): (r: seq<byte>)
    ensures |r| == 4
  {
    [x % 256, Shr(x, 8) % 256, Shr(x, 16) % 256, Shr(x, 24) % 256]
  }

  /** buf[:i] of flush for n pending bits x: one byte per started group of 8 bits. */
  function FlushBytes(x: nat, n: nat): seq<byte>
    decreases n
  {
    if n == 0 then [] else [x % 256] + FlushBytes(Shr(x, 8), if n > 8 then n - 8 else 0)
  }

  /** The number of zero bits flush adds to n pending bits to end on a byte boundary. */
  function PadBits(n: nat): nat
  {
    8 * ((n + 7) / 8) - n
  }

  /** The low byte of y, then the bits above it. */
  lemma {:induction false} ByteThenRest(y: nat, m: nat)
    ensures BitsOf(y, 8 + m) == BitsOf(y % 256, 8) + BitsOf(Shr(y, 8), m)
  {
    BitsOfSplit(y, 8, m);
    assert Pow2(8) == 256;
    BitsOfMod(y, 8);
  }

  lemma BytesToBits4(r: seq<byte>)
    requires |r| == 4
    ensures BytesToBits(r) == BitsOf(r[0], 8) + (BitsOf(r[1], 8) + (BitsOf(r[2], 8) + BitsOf(r[3], 8)))
  {
    var r1, r2, r3 := r[1..], r[2..], r[3..];
    assert r1[1..] == r2 && r2[1..] == r3 && r3[1..] == [];
    assert BytesToBits(r3) == BitsOf(r[3], 8) + BytesToBits([]);
    assert BitsOf(r[3], 8) + [] == BitsOf(r[3], 8);
    assert BytesToBits(r2) == BitsOf(r[2], 8) + BytesToBits(r3);
    assert BytesToBits(r1) == BitsOf(r[1], 8) + BytesToBits(r2);
  }

  /** The four bytes WriteBits emits carry exactly the low 32 pending bits, in order. */
  lemma LowBytesBits(x: nat)
    ensures BytesToBits(LowBytes(x)) == BitsOf(x, 32)
  {
    var x1, x2, x3 := Shr(x, 8), Shr(Shr(x, 8), 8), Shr(Shr(Shr(x, 8), 8), 8);
    ShrShr(x, 8, 8);
    ShrShr(x, 16, 8);
    assert x2 == Shr(x, 16) && x3 == Shr(x, 24);
    ByteThenRest(x, 24);
    ByteThenRest(x1, 16);
    ByteThenRest(x2, 8);
    assert Pow2(8) == 256;
    BitsOfMod(x3, 8);
    BytesToBits4(LowBytes(x));
  }

  /** flush emits ceil(n/8) bytes (never more than 4 for n <= 32) that carry the n
      pending bits followed by zero bits up to the byte boundary. */
  lemma {:induction false} FlushBytesBits(x: nat, n: nat)
    requires x < Pow2(n)
    ensures |FlushBytes(x, n)| == (n + 7) / 8
    ensures n <= 32 ==> |FlushBytes(x, n)| <= 4
    ensures BytesToBits(FlushBytes(x, n)) == BitsOf(x, n) + Zeros(PadBits(n))
  {
    if 0 < n <= 8 {
      FlushLastByte(x, n);
    } else if n > 8 {
      ShrBelow(x, 8, n - 8);
      FlushBytesBits(Shr(x, 8), n - 8);
      FlushNextByte(x, n);
    }
  }

  /** The last byte flush emits: 1 to 8 pending bits, zero-padded. */
  lemma FlushLastByte(x: nat, n: nat)
    requires 0 < n <= 8 && x < Pow2(n)
    ensures |FlushBytes(x, n)| == (n + 7) / 8 == 1
    ensures BytesToBits(FlushBytes(x, n)) == BitsOf(x, n) + Zeros(PadBits(n))
  {
    assert FlushBytes(x, n) == [x % 256] + FlushBytes(Shr(x, 8), 0);
    assert Pow2(8) == 256 by { Pow2Values(); }
    Pow2Monotone(n, 8);
    BitsOfMod(x, 8);
    BitsOfPadded(x, n, 8 - n);
    assert BytesToBits([x % 256]) == BitsOf(x % 256, 8) + BytesToBits([]);
  }

  /** A full byte of more than 8 pending bits, then the rest. */
  lemma FlushNextByte(x: nat, n: nat)
    requires n > 8
    requires BytesToBits(FlushBytes(Shr(x, 8), n - 8)) == BitsOf(Shr(x, 8), n - 8) + Zeros(PadBits(n - 8))
    requires |FlushBytes(Shr(x, 8), n - 8)| == (n - 8 + 7) / 8
    ensures |FlushBytes(x, n)| == (n + 7) / 8
    ensures BytesToBits(FlushBytes(x, n)) == BitsOf(x, n) + Zeros(PadBits(n))
  {
    var rest := FlushBytes(Shr(x, 8), n - 8);
    assert FlushBytes(x, n) == [x % 256] + rest;
    assert Pow2(8) == 256 by { Pow2Values(); }
    BitsOfMod(x, 8);
    BitsOfSplit(x, 8, n - 8);
    assert (n + 7) / 8 == (n - 8 + 7) / 8 + 1;
    assert PadBits(n) == PadBits(n - 8);
    assert BytesToBits([x % 256] + rest) == BitsOf(x % 256, 8) + BytesToBits(rest);
    ConcatAssoc(BitsOf(x % 256, 8), BitsOf(Shr(x, 8), n - 8), Zeros(PadBits(n)));
  }

  /** Placing b above n0 pending bits, as `bits |= uint64(b) << nbits` does. */
  lemma Accumulate(bits: nat, n0: nat, b: nat, n: nat)
    requires bits < Pow2(n0) && b < Pow2(n)
    ensures Place(bits, b, n0) < Pow2(n0 + n)
    ensures BitsOf(Place(bits, b, n0), n0 + n) == BitsOf(bits, n0) + BitsOf(b, n)
  {
    Pow2Add(n0, n);
    MulMonotone(Pow2(n0), b, Pow2(n) - 1);
    assert Pow2(n0) * (Pow2(n) - 1) == Pow2(n0) * Pow2(n) - Pow2(n0);
    assert n + n0 == n0 + n;
    BitsOfAppend(bits, n0, b, n);
  }

  /** Handing over the low word of acc and keeping the rest pending loses nothing. */
  lemma EmitWord(out0: seq<byte>, acc: nat, m: nat)
    ensures BytesToBits(out0 + LowBytes(acc)) + BitsOf(Shr(acc, 32), m)
      == BytesToBits(out0) + BitsOf(acc, 32 + m)
  {
    LowBytesAppended(out0, acc);
    BitsOfSplit(acc, 32, m);
    var A, B, C := BytesToBits(out0), BitsOf(acc, 32), BitsOf(Shr(acc, 32), m);
    ConcatAssoc(A, B, C);
  }

  lemma LowBytesAppended(out0: seq<byte>, acc: nat)
    ensures BytesToBits(out0 + LowBytes(acc)) == BytesToBits(out0) + BitsOf(acc, 32)
  {
    LowBytesBits(acc);
    BytesToBitsAppend(out0, LowBytes(acc));
  }

  /** One WriteBits call, on the abstract value: whether or not a word is handed over,
      what is handed over followed by what stays pending is the old stream with b's n
      bits appended. */
  lemma WriteBitsStep(out0: seq<byte>, bits0: nat, nbits0: nat, stream0: seq<bool>, b: nat, n: nat)
    requires bits0 < Pow2(nbits0) && b < Pow2(n)
    requires BytesToBits(out0) + BitsOf(bits0, nbits0) == stream0
    ensures nbits0 + n <= 32 ==>
      Place(bits0, b, nbits0) < Pow2(nbits0 + n) &&
      BytesToBits(out0) + BitsOf(Place(bits0, b, nbits0), nbits0 + n) == stream0 + BitsOf(b, n)
    ensures nbits0 + n > 32 ==>
      Shr(Place(bits0, b, nbits0), 32) < Pow2(nbits0 + n - 32) &&
      BytesToBits(out0 + LowBytes(Place(bits0, b, nbits0)))
        + BitsOf(Shr(Place(bits0, b, nbits0), 32), nbits0 + n - 32)
        == stream0 + BitsOf(b, n)
  {
    var acc := Place(bits0, b, nbits0);
    Accumulate(bits0, nbits0, b, n);
    ConcatAssoc(BytesToBits(out0), BitsOf(bits0, nbits0), BitsOf(b, n));
    if nbits0 + n > 32 {
      ShrBelow(acc, 32, nbits0 + n - 32);
      EmitWord(out0, acc, nbits0 + n - 32);
    }
  }

  /** One round of flush's loop. */
  lemma FlushStep(buf: seq<byte>, bits: nat, nbits: nat)
    requires 0 < nbits && bits < Pow2(nbits)
    ensures var next := if nbits > 8 then nbits - 8 else 0;
      Shr(bits, 8) < Pow2(next) &&
      (buf + [bits % 256]) + FlushBytes(Shr(bits, 8), next) == buf + FlushBytes(bits, nbits)
  {
    var next := if nbits > 8 then nbits - 8 else 0;
    var A, B, C := buf, [bits % 256], FlushBytes(Shr(bits, 8), next);
    ConcatAssoc(A, B, C);
    if nbits > 8 {
      ShrBelow(bits, 8, nbits - 8);
    } else {
      Pow2Monotone(nbits, 8);
      DivModUnique(bits, Pow2(8), 0, bits);
    }
  }

  /** What flush hands over extends the bytes by the pending bits and the padding. */
  lemma FlushEnd(out0: seq<byte>, bits0: nat, nbits0: nat)
    requires bits0 < Pow2(nbits0)
    ensures BytesToBits(out0 + FlushBytes(bits0, nbits0)) + BitsOf(0, 0)
      == (BytesToBits(out0) + BitsOf(bits0, nbits0)) + Zeros(PadBits(nbits0))
  {
    FlushBytesBits(bits0, nbits0);
    BytesToBitsAppend(out0, FlushBytes(bits0, nbits0));
    var A, B, C := BytesToBits(out0), BitsOf(bits0, nbits0), Zeros(PadBits(nbits0));
    ConcatAssoc(A, B, C);
    assert BitsOf(0, 0) == [];
  }

  /** What the bit writer keeps between calls: the kept error, every byte handed to the
      underlying writer, and the pending bits. */
  datatype WriterState = WriterState(err: Option<WriteError>, out: seq<byte>, bits: nat, nbits: nat)

  /** One WriteBits call of b in n bits on state w: nothing happens once an error is kept;
      otherwise b goes above the pending bits and, past 32 of them, the low word is handed
      to sink and its error kept. */
  function AfterBits(sink: Sink, w: WriterState, b: nat, n: nat): (r: WriterState)
    ensures w.err.Some? ==> r == w
    ensures w.err.None? ==> w.out <= r.out && |r.out| <= |w.out| + 4
    ensures w.err.None? && r.err.Some? ==>
      |r.out| == |w.out| + 4 && r.err == sink(w.out, r.out[|w.out|..])
  {
    if w.err.Some? then w
    else
      var acc := Place(w.bits, b, w.nbits);
      if w.nbits + n > 32 then
        WriterState(sink(w.out, LowBytes(acc)), w.out + LowBytes(acc), Shr(acc, 32), w.nbits + n - 32)
      else
        WriterState(None, w.out, acc, w.nbits + n)
  }

  class BitWriter {
    /** The first error the underlying writer returned. */
    var err: Option<WriteError>
    const sink: Sink
    /** Every buffer handed to the underlying writer, concatenated. */
    var out: seq<byte>
    /** Pending bits; the one written first is the least significant. */
    var bits: nat
    var nbits: nat
    /** Everything written so far, least significant bit of each value first, with the
        zero padding of each flush. */
    ghost var stream: seq<bool>

    /** nbits <= 32 and, while no error has occurred, the bytes handed to the writer
        followed by the pending bits are exactly the stream written. */
    ghost predicate Valid()
      reads this
    {
      nbits <= 32 && bits < Pow2(nbits) &&
      (err.None? ==> BytesToBits(out) + BitsOf(bits, nbits) == stream)
    }

    /** The state WriteBits and flush act on. */
    function State(): WriterState
      reads this
    {
      WriterState(err, out, bits, nbits)
    }

    /** newBitWriter */
    constructor (sink: Sink)
      ensures Valid() && this.sink == sink
      ensures err == None && out == [] && bits == 0 && nbits == 0 && stream == []
    {
      this.sink := sink;
      err := None;
      out := [];
      bits := 0;
      nbits := 0;
      stream := [];
    }

    /** write: hands buf to the underlying writer unless an error is already kept. */
    method Write(buf: seq<byte>)
      modifies this`err, this`out
      ensures old(err).Some? ==> err == old(err) && out == old(out)
      ensures old(err).None? ==> err == sink(old(out), buf) && out == old(out) + buf
    {
      if err.None? {
        err := sink(out, buf);
        out := out + buf;
      }
    }

    /** WriteBits (called writeBits by its callers): b must fit in n bits. */
    method WriteBits(b: nat, n: nat)
      requires Valid() && n <= 32 && b < Pow2(n)
      modifies this
      ensures Valid()
      ensures old(err).Some? ==> unchanged(this)
      ensures old(err).None? ==> stream == old(stream) + BitsOf(b, n)
      ensures old(err).None? && old(nbits) + n > 32 ==>
        var acc := Place(old(bits), b, old(nbits));
        out == old(out) + LowBytes(acc) && err == sink(old(out), LowBytes(acc)) &&
        bits == Shr(acc, 32) && nbits == old(nbits) + n - 32
      ensures old(err).None? && old(nbits) + n <= 32 ==>
        out == old(out) && err == None &&
        bits == Place(old(bits), b, old(nbits)) && nbits == old(nbits) + n
      ensures State() == AfterBits(sink, old(State()), b, n)
    {
      if err.Some? {
        return;
      }
      ghost var out0 := out;
      WriteBitsStep(out, bits, nbits, stream, b, n);
      stream := stream + BitsOf(b, n);
      bits := Place(bits, b, nbits);
      nbits := nbits + n;
      if nbits > 32 {
        var buf := LowBytes(bits);
        bits := Shr(bits, 32);
        nbits := nbits - 32;
        assert bits < Pow2(nbits);
        assert BytesToBits(out0 + buf) + BitsOf(bits, nbits) == stream;
        Write(buf);
      }
    }

    /** flush: hands the pending bits, zero-padded on the high side to whole bytes, to
        the writer (a possibly empty buffer), and leaves nothing pending. */
    method Flush()
      requires Valid()
      modifies this
      ensures Valid() && bits == 0 && nbits == 0
      ensures old(err).None? ==>
        out == old(out) + FlushBytes(old(bits), old(nbits)) &&
        err == sink(old(out), FlushBytes(old(bits), old(nbits))) &&
        stream == old(stream) + Zeros(PadBits(old(nbits)))
      ensures old(err).Some? ==> out == old(out) && err == old(err) && stream == old(stream)
    {
      ghost var out0, bits0, nbits0 := out, bits, nbits;
      var buf: seq<byte> := [];
      var i := 0;
      while i < 4 && nbits > 0
        invariant 0 <= i <= 4 && 0 <= nbits <= 32 - 8 * i
        invariant bits < Pow2(nbits)
        invariant buf + FlushBytes(bits, nbits) == FlushBytes(bits0, nbits0)
        invariant err == old(err) && out == out0 && stream == old(stream)
      {
        FlushStep(buf, bits, nbits);
        buf := buf + [bits % 256];
        bits := Shr(bits, 8);
        if nbits > 8 {
          nbits := nbits - 8;
        } else {
          nbits := 0;
        }
        i := i + 1;
      }
      assert nbits == 0 && bits == 0 && buf == FlushBytes(bits0, nbits0);
      FlushEnd(out0, bits0, nbits0);
      ghost var err0 := err;
      Write(buf);
      if err0.None? {
        stream := stream + Zeros(PadBits(nbits0));
      }
    }

    /** Close: flushes, then returns the kept error. */
    method Close() returns (e: Option<WriteError>)
      requires Valid()
      modifies this
      ensures Valid() && bits == 0 && nbits == 0 && e == err
      ensures old(err).None? ==>
        out == old(out) + FlushBytes(old(bits), old(nbits)) &&
        err == sink(old(out), FlushBytes(old(bits), old(nbits))) &&
        stream == old(stream) + Zeros(PadBits(old(nbits)))
      ensures old(err).Some? ==> out == old(out) && err == old(err) && stream == old(stream)
    {
      Flush();
      e := err;
    }

    /** Err: the kept error; nothing changes. */
    method Err() returns (e: Option<WriteError>)
      ensures e == err
    {
      e := err;
    }
  }

  /** Once nothing is pending, the bytes handed over are the whole stream, and the
      stream ends on a byte boundary. */
  lemma Drained(w: BitWriter)
    requires w.Valid() && w.err.None? && w.nbits == 0
    ensures BytesToBits(w.out) == w.stream && |w.stream| % 8 == 0
  {
  }
}
