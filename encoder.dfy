/** The Encoder of huffman.go: symbols are looked up in a Code and their bits handed to
    a bit writer; Close flushes the writer. */
module Encoding {
  import opened HuffmanTypes
  import opened Bits
  import opened BitIO
  import opened Codes

  /** Every code suits the bit writer: at most 32 bits, and a value that fits them. */
  predicate Writable(c: Code)
  {
    forall i :: 0 <= i < |c.codes| ==> c.codes[i].len <= 32 && c.codes[i].val < Pow2(c.codes[i].len)
  }

  /** Every symbol has a code: none would make WriteSymbol panic. */
  predicate Encodable(c: Code, syms: seq<u32>)
  {
    forall i :: 0 <= i < |syms| ==> CodeOf(c, syms[i]).len != 0
  }

  /** A writer whose Write never returns an error, such as a bytes.Buffer. */
  ghost predicate NeverFails(sink: Sink)
  {
    forall prev: seq<byte>, buf: seq<byte> :: sink(prev, buf) == None
  }

  /** The bits of syms under c: the code of each symbol in turn, least significant bit
      of its value first. */
  function Encoded(c: Code, syms: seq<u32>): seq<bool>
  {
    if syms == [] then []
    else
      var b := CodeOf(c, syms[|syms| - 1]);
      Encoded(c, syms[..|syms| - 1]) + BitsOf(b.val, b.len)
  }

  /** Encoding a concatenation encodes the parts one after the other. */
  lemma {:induction false} EncodedAppend(c: Code, a: seq<u32>, b: seq<u32>)
    ensures Encoded(c, a + b) == Encoded(c, a) + Encoded(c, b)
  {
    if b == [] {
      assert a + b == a;
    } else {
      var m := |b| - 1;
      assert (a + b)[..|a + b| - 1] == a + b[..m];
      EncodedAppend(c, a, b[..m]);
      var x := CodeOf(c, b[m]);
      ConcatAssoc(Encoded(c, a), Encoded(c, b[..m]), BitsOf(x.val, x.len));
    }
  }

  /** The length of an encoding is the total length of the codes used. */
  lemma {:induction false} EncodedLength(c: Code, syms: seq<u32>)
    ensures |Encoded(c, syms)| == TotalLength(c, syms)
  {
    if syms != [] {
      EncodedLength(c, syms[..|syms| - 1]);
    }
  }

  function TotalLength(c: Code, syms: seq<u32>): nat
  {
    if syms == [] then 0 else TotalLength(c, syms[..|syms| - 1]) + CodeOf(c, syms[|syms| - 1]).len
  }

  /** The bit writer's state after the codes of syms are written into sink from w, one
      WriteBits call per symbol. */
  function AfterSymbols(sink: Sink, c: Code, w: WriterState, syms: seq<u32>): WriterState
  {
    if syms == [] then w
    else
      var b := CodeOf(c, syms[|syms| - 1]);
      AfterBits(sink, AfterSymbols(sink, c, w, syms[..|syms| - 1]), b.val, b.len)
  }

  /** Writing a concatenation writes the parts one after the other. */
  lemma {:induction false} AfterSymbolsAppend(sink: Sink, c: Code, w: WriterState, a: seq<u32>, b: seq<u32>)
    ensures AfterSymbols(sink, c, w, a + b) == AfterSymbols(sink, c, AfterSymbols(sink, c, w, a), b)
  {
    if b == [] {
      assert a + b == a;
    } else {
      var m := |b| - 1;
      assert (a + b)[..|a + b| - 1] == a + b[..m];
      assert (a + b)[|a + b| - 1] == b[m];
      AfterSymbolsAppend(sink, c, w, a, b[..m]);
    }
  }

  /** Once an error is kept, writing symbols changes nothing. */
  lemma {:induction false} ErrorKept(sink: Sink, c: Code, w: WriterState, syms: seq<u32>)
    requires w.err.Some?
    ensures AfterSymbols(sink, c, w, syms) == w
  {
    if syms != [] {
      ErrorKept(sink, c, w, syms[..|syms| - 1]);
    }
  }

  /** The bytes already handed over stay, and an error comes from the writer: it is the
      kept one, or the result of handing some 4-byte word to sink after a prefix of
      what the symbols produced. */
  lemma {:induction false} ErrorFromSink(sink: Sink, c: Code, w: WriterState, syms: seq<u32>)
    requires w.err.None?
    ensures w.out <= AfterSymbols(sink, c, w, syms).out
    ensures var r := AfterSymbols(sink, c, w, syms);
      r.err.Some? ==> exists k :: |w.out| <= k && k + 4 <= |r.out| && r.err == sink(r.out[..k], r.out[k..k + 4])
  {
    if syms != [] {
      var m := |syms| - 1;
      var p := AfterSymbols(sink, c, w, syms[..m]);
      var b := CodeOf(c, syms[m]);
      var r := AfterBits(sink, p, b.val, b.len);
      ErrorFromSink(sink, c, w, syms[..m]);
      if r.err.Some? {
        if p.err.Some? {
          var k :| |w.out| <= k && k + 4 <= |p.out| && p.err == sink(p.out[..k], p.out[k..k + 4]);
          assert r.out[..k] == p.out[..k] && r.out[k..k + 4] == p.out[k..k + 4];
        } else {
          var k := |p.out|;
          assert r.out[..k] == p.out && r.out[k..k + 4] == r.out[|p.out|..];
        }
      }
    }
  }

  /** A writer that never fails keeps no error. */
  lemma {:induction false} NoErrorFromNeverFails(sink: Sink, c: Code, w: WriterState, syms: seq<u32>)
    requires NeverFails(sink) && w.err.None?
    ensures AfterSymbols(sink, c, w, syms).err.None?
  {
    if syms != [] {
      NoErrorFromNeverFails(sink, c, w, syms[..|syms| - 1]);
    }
  }

  class Encoder {
    const code: Code
    const bw: BitWriter
    const split: Option<Split>

    ghost predicate Valid()
      reads this, bw
    {
      bw.Valid() && Writable(code) && (split.None? ==> |code.codes| <= 256)
    }

    /** Code.NewEncoder: without a split function the code may have at most 256
        symbols, one per byte value. */
    constructor (c: Code, w: Sink, split: Option<Split>)
      requires split.None? ==> |c.codes| <= 256
      requires Writable(c)
      ensures Valid() && fresh(bw) && code == c && this.split == split
      ensures bw.sink == w && bw.err == None && bw.out == [] && bw.stream == []
    {
      code := c;
      bw := new BitWriter(w);
      this.split := split;
    }

    /** WriteSymbol: the symbol must have a code. Its bits follow everything written
        before, unless the writer has already failed. */
    method WriteSymbol(s: u32)
      requires Valid() && CodeOf(code, s).len != 0
      modifies bw
      ensures Valid()
      ensures old(bw.err).Some? ==> unchanged(bw)
      ensures old(bw.err).None? ==> bw.stream == old(bw.stream) + Encoded(code, [s])
      ensures NeverFails(bw.sink) ==> bw.err == old(bw.err)
      ensures bw.State() == AfterSymbols(bw.sink, code, old(bw.State()), [s])
    {
      var b := CodeOf(code, s);
      assert [s][..0] == [];
      assert Encoded(code, [s]) == BitsOf(b.val, b.len);
      bw.WriteBits(b.val, b.len);
    }

    /** WriteSymbols: every symbol must have a code. */
    method WriteSymbols(syms: seq<u32>)
      requires Valid() && Encodable(code, syms)
      modifies bw
      ensures Valid()
      ensures old(bw.err).Some? ==> unchanged(bw)
      ensures bw.err.None? ==> bw.stream == old(bw.stream) + Encoded(code, syms)
      ensures NeverFails(bw.sink) ==> bw.err == old(bw.err)
      ensures bw.State() == AfterSymbols(bw.sink, code, old(bw.State()), syms)
    {
      for i := 0 to |syms|
        invariant Valid()
        invariant old(bw.err).Some? ==> unchanged(bw)
        invariant bw.err.None? ==> bw.stream == old(bw.stream) + Encoded(code, syms[..i])
        invariant NeverFails(bw.sink) ==> bw.err == old(bw.err)
        invariant bw.State() == AfterSymbols(bw.sink, code, old(bw.State()), syms[..i])
      {
        WriteSymbol(syms[i]);
        AfterSymbolsAppend(bw.sink, code, old(bw.State()), syms[..i], [syms[i]]);
        assert syms[..i + 1] == syms[..i] + [syms[i]];
        if bw.err.None? {
          EncodedAppend(code, syms[..i], [syms[i]]);
          ConcatAssoc(old(bw.stream), Encoded(code, syms[..i]), Encoded(code, [syms[i]]));
        }
      }
      assert syms[..|syms|] == syms;
    }

    /** WriteBytes: only without a split function; every byte must have a code. */
    method WriteBytes(bs: seq<byte>)
      requires Valid() && split.None? && Encodable(code, Widen(bs))
      modifies bw
      ensures Valid()
      ensures old(bw.err).Some? ==> unchanged(bw)
      ensures bw.err.None? ==> bw.stream == old(bw.stream) + Encoded(code, Widen(bs))
      ensures NeverFails(bw.sink) ==> bw.err == old(bw.err)
      ensures bw.State() == AfterSymbols(bw.sink, code, old(bw.State()), Widen(bs))
    {
      ghost var syms := Widen(bs);
      for i := 0 to |bs|
        invariant Valid()
        invariant old(bw.err).Some? ==> unchanged(bw)
        invariant bw.err.None? ==> bw.stream == old(bw.stream) + Encoded(code, syms[..i])
        invariant NeverFails(bw.sink) ==> bw.err == old(bw.err)
        invariant bw.State() == AfterSymbols(bw.sink, code, old(bw.State()), syms[..i])
      {
        assert syms[i] == bs[i];
        WriteSymbol(bs[i] as u32);
        AfterSymbolsAppend(bw.sink, code, old(bw.State()), syms[..i], [syms[i]]);
        assert syms[..i + 1] == syms[..i] + [syms[i]];
        if bw.err.None? {
          EncodedAppend(code, syms[..i], [syms[i]]);
          ConcatAssoc(old(bw.stream), Encoded(code, syms[..i]), Encoded(code, [syms[i]]));
        }
      }
      assert syms[..|bs|] == syms;
    }

    /** Write: the symbols of data, by the split function or byte by byte; always
        returns len(data) and no error (errors surface at Close). */
    method Write(data: seq<byte>) returns (n: int, e: Option<WriteError>)
      requires Valid() && Encodable(code, Symbols(split, data))
      modifies bw
      ensures n == |data| && e == None
      ensures Valid()
      ensures old(bw.err).Some? ==> unchanged(bw)
      ensures bw.err.None? ==> bw.stream == old(bw.stream) + Encoded(code, Symbols(split, data))
      ensures NeverFails(bw.sink) ==> bw.err == old(bw.err)
      ensures bw.State() == AfterSymbols(bw.sink, code, old(bw.State()), Symbols(split, data))
    {
      if split.Some? {
        WriteSymbols(split.value(data));
      } else {
        WriteBytes(data);
      }
      return |data|, None;
    }

    /** Close: flushes the bit writer and returns its error. */
    method Close() returns (e: Option<WriteError>)
      requires Valid()
      modifies bw
      ensures Valid() && e == bw.err && bw.nbits == 0
      ensures old(bw.err).None? ==>
        bw.out == old(bw.out) + FlushBytes(old(bw.bits), old(bw.nbits)) &&
        bw.err == bw.sink(old(bw.out), FlushBytes(old(bw.bits), old(bw.nbits))) &&
        bw.stream == old(bw.stream) + Zeros(PadBits(old(bw.nbits)))
      ensures old(bw.err).Some? ==> bw.out == old(bw.out) && bw.err == old(bw.err)
      ensures NeverFails(bw.sink) ==> bw.err == old(bw.err)
    {
      e := bw.Close();
    }
  }

  /** With every code 8 bits long and equal to its symbol, encoding bytes reproduces
      their bits. */
  lemma {:induction false} IdentityEncoded(c: Code, bs: seq<byte>)
    requires forall i :: 0 <= i < |bs| ==> bs[i] < Wrap(|c.codes|) && c.codes[bs[i]] == BitCode(bs[i], 8)
    ensures Encoded(c, Widen(bs)) == BytesToBits(bs)
  {
    if bs != [] {
      var m := |bs| - 1;
      IdentityEncoded(c, bs[..m]);
      assert Widen(bs)[..m] == Widen(bs[..m]);
      assert bs == bs[..m] + [bs[m]];
      BytesToBitsAppend(bs[..m], [bs[m]]);
      assert BytesToBits([bs[m]]) == BitsOf(bs[m], 8) + BytesToBits([]);
    }
  }

  /** The four 8-bit codes of TestEncoder, each equal to its symbol. */
  function ExampleCode(): (c: Code)
    ensures Writable(c) && |c.codes| == 4
    ensures forall s :: 0 <= s < 4 ==> c.codes[s] == BitCode(s, 8)
  {
    Pow2Values();
    Code([BitCode(0, 8), BitCode(1, 8), BitCode(2, 8), BitCode(3, 8)])
  }

  /** A stream that ends on a byte boundary needs no padding. */
  lemma PadAligned(n: nat, p: nat, q: nat)
    requires 8 * p + n == 8 * q
    ensures PadBits(n) == 0
  {
    DivModUnique(n + 7, 8, q - p, 7);
  }

  /** Each byte of bs has a code of 8 bits equal to the byte. */
  predicate IdentityOn(c: Code, bs: seq<byte>)
  {
    forall i :: 0 <= i < |bs| ==> bs[i] < Wrap(|c.codes|) && c.codes[bs[i]] == BitCode(bs[i], 8)
  }

  lemma IdentityAppend(c: Code, a: seq<byte>, b: seq<byte>)
    requires IdentityOn(c, a) && IdentityOn(c, b)
    ensures IdentityOn(c, a + b) && Encodable(c, Widen(a)) && Encodable(c, Widen(b))
  {
    assert forall i :: 0 <= i < |a + b| ==> (a + b)[i] == if i < |a| then a[i] else b[i - |a|];
  }

  /** The two writes of TestEncoder, into a bytes.Buffer. */
  method WriteTwo(c: Code, a: seq<byte>, b: seq<byte>) returns (enc: Encoder)
    requires |c.codes| <= 256 && Writable(c) && IdentityOn(c, a) && IdentityOn(c, b)
    ensures fresh(enc) && fresh(enc.bw) && enc.Valid()
    ensures enc.bw.err == None && NeverFails(enc.bw.sink)
    ensures enc.bw.stream == BytesToBits(a + b)
  {
    var buffer: Sink := (prev: seq<byte>, buf: seq<byte>) => None;
    assert NeverFails(buffer);
    enc := new Encoder(c, buffer, None);
    IdentityAppend(c, a, b);
    assert Symbols(None, a) == Widen(a) && Symbols(None, b) == Widen(b);
    var n1, e1 := enc.Write(a);
    ghost var first := enc.bw.stream;
    assert first == Encoded(c, Widen(a));
    var n2, e2 := enc.Write(b);
    assert enc.bw.stream == first + Encoded(c, Widen(b));
    EncodedAppend(c, Widen(a), Widen(b));
    WidenAppend(a, b);
    IdentityEncoded(c, a + b);
  }

  /** The sense of TestEncoder for any two pieces of bytes: with a code that maps each
      byte to itself in 8 bits, writing the pieces into a bytes.Buffer and closing gives
      back exactly the bytes, and no error. */
  method WriteTwice(c: Code, a: seq<byte>, b: seq<byte>) returns (got: seq<byte>, e: Option<WriteError>)
    requires |c.codes| <= 256 && Writable(c) && IdentityOn(c, a) && IdentityOn(c, b)
    ensures e == None && got == a + b
  {
    var enc := WriteTwo(c, a, b);
    assert 8 * |enc.bw.out| + enc.bw.nbits == 8 * |a + b|;
    PadAligned(enc.bw.nbits, |enc.bw.out|, |a + b|);
    e := enc.Close();
    got := enc.bw.out;
    Drained(enc.bw);
    assert BytesToBits(got) == BytesToBits(a + b);
    BytesToBitsInjective(got, a + b);
  }

  /** TestEncoder: a code of four 8-bit codes equal to their symbols, bytes [1 3 2 0]
      written in two pieces into a bytes.Buffer, then Close. No error, and the buffer
      holds exactly the bytes written. */
  method EncoderExample() returns (got: seq<byte>, e: Option<WriteError>)
    ensures e == None && got == [1, 3, 2, 0]
  {
    var data: seq<byte> := [1, 3, 2, 0];
    assert data[..2] + data[2..] == data;
    got, e := WriteTwice(ExampleCode(), data[..2], data[2..]);
  }

  /** The writer state after the first k bytes of [0 1 2 3 0] under the TestEncoder code:
      8 pending bits per byte and nothing handed over. */
  lemma ExamplePrefix(sink: Sink, k: nat)
    requires k <= 4
    ensures var w := AfterSymbols(sink, ExampleCode(), WriterState(None, [], 0, 0), Widen([0, 1, 2, 3, 0])[..k]);
      w.err == None && w.out == [] && w.nbits == 8 * k
  {
    var syms := Widen([0, 1, 2, 3, 0]);
    if k > 0 {
      ExamplePrefix(sink, k - 1);
      assert syms[..k][..k - 1] == syms[..k - 1];
      assert CodeOf(ExampleCode(), syms[k - 1]).len == 8;
    }
  }

  /** Every byte of [0 1 2 3 0] has a code under the TestEncoder code. */
  lemma ExampleEncodable()
    ensures Encodable(ExampleCode(), Symbols(None, [0, 1, 2, 3, 0]))
  {
    var syms := Symbols(None, [0, 1, 2, 3, 0]);
    forall i | 0 <= i < |syms|
      ensures CodeOf(ExampleCode(), syms[i]).len != 0
    {
      assert syms[i] < 4;
    }
  }

  /** A WriteBits call that takes the pending bits past 32 hands one 4-byte word to the
      writer and keeps the writer's answer. */
  lemma WordHandedOver(sink: Sink, w: WriterState, b: nat, n: nat)
    requires w.err.None? && w.nbits + n > 32
    ensures var r := AfterBits(sink, w, b, n);
      |r.out| == |w.out| + 4 && r.out[..|w.out|] == w.out && r.err == sink(w.out, r.out[|w.out|..])
  {
  }

  /** The fifth byte of [0 1 2 3 0] hands the first word, 4 bytes, to the writer, and the
      writer's answer is the error kept. */
  lemma ExampleHandsOverWord(sink: Sink)
    ensures var w := AfterSymbols(sink, ExampleCode(), WriterState(None, [], 0, 0), Widen([0, 1, 2, 3, 0]));
      |w.out| == 4 && w.err == sink([], w.out)
  {
    var c, w0, syms := ExampleCode(), WriterState(None, [], 0, 0), Widen([0, 1, 2, 3, 0]);
    ExamplePrefix(sink, 4);
    var p := AfterSymbols(sink, c, w0, syms[..4]);
    var b := CodeOf(c, syms[4]);
    assert syms[..|syms| - 1] == syms[..4];
    assert AfterSymbols(sink, c, w0, syms) == AfterBits(sink, p, b.val, b.len);
    assert b.len == 8;
    WordHandedOver(sink, p, b.val, b.len);
  }

  /** A writer that fails whenever it is handed a whole 4-byte word. */
  function FailsOnWord(prev: seq<byte>, buf: seq<byte>): Option<WriteError>
  {
    if |buf| == 4 then Some(WriteError(1)) else None
  }

  /** Errors surface at Close: with a writer that fails on a 4-byte buffer, writing
      [0 1 2 3 0] under the TestEncoder code returns len(data) and no error, because the
      fifth byte makes the bit writer hand over its first word; Close then returns the
      writer's error. */
  method FailingWriterExample() returns (n: int, werr: Option<WriteError>, e: Option<WriteError>)
    ensures n == 5 && werr == None && e == Some(WriteError(1))
  {
    var c := ExampleCode();
    var enc := new Encoder(c, FailsOnWord, None);
    var data: seq<byte> := [0, 1, 2, 3, 0];
    ExampleEncodable();
    assert enc.bw.State() == WriterState(None, [], 0, 0);
    n, werr := enc.Write(data);
    ExampleHandsOverWord(FailsOnWord);
    assert enc.bw.err == FailsOnWord([], enc.bw.out) == Some(WriteError(1));
    e := enc.Close();
  }
}
