/** The byte format of a Code: a magic/version byte, then the code lengths in symbol
    order, run-length encoded one byte per run piece in one of three layouts
    (bit 7 on the left):
      RRRRRRR0  length 0, repeated 1 to 128 times
      RRLLLL01  lengths 1 to 16, repeated 1 to 4 times
      RRRRLL11  lengths 17 to 20, repeated 1 to 16 times
    where the R field holds the repeat count minus one. Only lengths are stored; the
    values are rebuilt canonically on the way back in. */
module CodeFormat {
  import opened HuffmanTypes
  import opened Bits
  import opened Canonical

  /** 0b11<<6 | marshalVersion, with marshalVersion 0. */
  const Magic: byte := 0xC0

  predicate InRange(lens: seq<nat>)
  {
    forall i :: 0 <= i < |lens| ==> lens[i] <= MaxCodeLen
  }

  /** The width of the repeat field for a length. */
  function Width(L: nat): nat
  {
    if L == 0 then 7 else if L <= 16 then 2 else 4
  }

  /** The low bits below the repeat field: the layout tag and the length field. */
  function Bottom(L: nat): (b: byte)
    requires L <= MaxCodeLen
    ensures b < Pow2(8 - Width(L))
  {
    Pow2Values();
    if L == 0 then 0 else if L <= 16 then (L - 1) * 4 + 1 else (L - 17) * 4 + 3
  }

  /** byte(field << (8 - k)) | bottom: a k-bit field above the bottom bits. */
  function RepByte(field: nat, k: nat, bottom: byte): (b: byte)
    requires 1 <= k <= 7 && field < Pow2(k) && bottom < Pow2(8 - k)
    ensures b / Pow2(8 - k) == field && b % Pow2(8 - k) == bottom
  {
    RepByteFits(field, k, bottom);
    DivModUnique(field * Pow2(8 - k) + bottom, Pow2(8 - k), field, bottom);
    field * Pow2(8 - k) + bottom
  }

  /** The bytes the marshal closure `rep` appends for a run of R equal lengths: full
      pieces of 2^k while they last, then one piece for what is left, if anything. */
  function Rep(R: nat, k: nat, bottom: byte): seq<byte>
    requires 1 <= k <= 7 && bottom < Pow2(8 - k)
    decreases R
  {
    if R >= Pow2(k) then [RepByte(Pow2(k) - 1, k, bottom)] + Rep(R - Pow2(k), k, bottom)
    else if R > 0 then [RepByte(R - 1, k, bottom)]
    else []
  }

  /** The bytes for R consecutive symbols of length L. */
  function EncodeRun(L: nat, R: nat): seq<byte>
    requires L <= MaxCodeLen
  {
    Rep(R, Width(L), Bottom(L))
  }

  /** The length of the run of equal entries that starts lens. */
  function RunLen(lens: seq<nat>): (r: nat)
    requires |lens| > 0
    ensures 1 <= r <= |lens|
    ensures forall k :: 0 <= k < r ==> lens[k] == lens[0]
    ensures r == |lens| || lens[r] != lens[0]
  {
    if |lens| == 1 || lens[1] != lens[0] then 1 else 1 + RunLen(lens[1..])
  }

  /** Everything Marshal writes after the magic byte. */
  function Body(lens: seq<nat>): seq<byte>
    requires InRange(lens)
    decreases |lens|
  {
    if lens == [] then []
    else
      var r := RunLen(lens);
      EncodeRun(lens[0], r) + Body(lens[r..])
  }

  /** c.Marshal() for a Code whose lengths are lens. */
  function Marshalled(lens: seq<nat>): seq<byte>
    requires InRange(lens)
  {
    [Magic] + Body(lens)
  }

  /** The (L, R) that UnmarshalCode reads from one byte. */
  function DecodeByte(b: byte): (lr: (nat, nat))
    ensures lr.0 <= MaxCodeLen && 1 <= lr.1
  {
    if b % 2 == 0 then (0, b / 2 + 1)
    else if b % 4 == 1 then ((b / 4) % 16 + 1, b / 64 + 1)
    else ((b / 4) % 4 + 17, b / 16 + 1)
  }

  function Repeat(L: nat, R: nat): (s: seq<nat>)
    ensures |s| == R && forall k :: 0 <= k < R ==> s[k] == L
  {
    seq(R, _ => L)
  }

  /** The lengths UnmarshalCode reads from the bytes after the magic byte. */
  function Expand(data: seq<byte>): (lens: seq<nat>)
    ensures InRange(lens)
  {
    if data == [] then []
    else
      var lr := DecodeByte(data[|data| - 1]);
      Expand(data[..|data| - 1]) + Repeat(lr.0, lr.1)
  }

  /** UnmarshalCode(data): fails exactly on empty data and on a wrong first byte, and
      otherwise always succeeds, with the canonical code whose lengths the rest of the
      bytes spell out. */
  function Unmarshalled(data: seq<byte>): (r: Result<Code>)
    ensures r == Err(EmptyData) <==> |data| == 0
    ensures r == Err(BadMagic) <==> |data| > 0 && data[0] != Magic
    ensures r.Ok? ==> IsCanonical(r.value.codes) && Lengths(r.value.codes) == Expand(data[1..])
  {
    if |data| == 0 then Err(EmptyData)
    else if data[0] != Magic then Err(BadMagic)
    else
      AssignedIsCanonical(Expand(data[1..]));
      AssignedLengths(Unvalued(Expand(data[1..])));
      Ok(Code(Assigned(Unvalued(Expand(data[1..])))))
  }

  // ---------------------------------------------------------------------------
  // The methods

  /** c.Marshal(). A length above 20 makes Marshal panic. */
  method Marshal(c: Code) returns (buf: seq<byte>)
    requires LengthsInRange(c.codes)
    ensures buf == Marshalled(Lengths(c.codes))
  {
    LengthsInRangeAre(c.codes);
    buf := [Magic];
    var i := 0;
    MarshalStart(c.codes);
    while i < |c.codes|
      invariant 0 <= i <= |c.codes|
      invariant Emitted(c.codes, i, buf)
    {
      var L := c.codes[i].len;
      var j := RunEnd(c.codes, i);
      var R := j - i;
      ghost var before := buf;
      buf := AppendRun(buf, L, R);
      MarshalStep(c.codes, i, j, before, buf);
      i := j;
    }
    MarshalEnd(c.codes, buf);
  }

  /** The inner loop of Marshal: the end of the run of equal lengths that starts at i. */
  method RunEnd(codes: seq<BitCode>, i: nat) returns (j: nat)
    requires i < |codes|
    ensures i < j <= |codes|
    ensures forall m :: i <= m < j ==> codes[m].len == codes[i].len
    ensures j == |codes| || codes[j].len != codes[i].len
  {
    j := i + 1;
    while j < |codes| && codes[j].len == codes[i].len
      invariant i < j <= |codes|
      invariant forall m :: i <= m < j ==> codes[m].len == codes[i].len
    {
      j := j + 1;
    }
  }

  /** The switch of Marshal on the length of a run. */
  method AppendRun(buf: seq<byte>, L: nat, R: nat) returns (out: seq<byte>)
    requires L <= MaxCodeLen
    ensures out == buf + EncodeRun(L, R)
  {
    Pow2Values();
    if L == 0 {
      out := AppendRep(buf, R, 7, 0);
    } else if L <= 16 {
      out := AppendRep(buf, R, 2, (L - 1) * 4 + 1);
    } else {
      out := AppendRep(buf, R, 4, (L - 17) * 4 + 3);
    }
  }

  /** The closure `rep` of Marshal, appending to buf. */
  method AppendRep(buf: seq<byte>, R: nat, k: nat, bottom: byte) returns (out: seq<byte>)
    requires 1 <= k <= 7 && bottom < Pow2(8 - k)
    ensures out == buf + Rep(R, k, bottom)
  {
    var max := Pow2(k);
    out := buf;
    var r := R;
    while r >= max
      invariant out + Rep(r, k, bottom) == buf + Rep(R, k, bottom)
    {
      ghost var before := out;
      out := out + [RepByte(max - 1, k, bottom)];
      r := r - max;
      assert before + Rep(r + max, k, bottom) == out + Rep(r, k, bottom);
    }
    if r > 0 {
      out := out + [RepByte(r - 1, k, bottom)];
    }
  }

  /** UnmarshalCode(data). */
  method UnmarshalCode(data: seq<byte>) returns (r: Result<Code>)
    ensures r == Unmarshalled(data)
  {
    if |data| == 0 {
      return Err(EmptyData);
    }
    if data[0] != Magic {
      return Err(BadMagic);
    }
    var codes := ReadLengths(data[1..]);
    var arr := new BitCode[|codes|](i requires 0 <= i < |codes| => codes[i]);
    assert arr[..] == codes;
    AssignValues(arr);
    r := Ok(Code(arr[..]));
  }

  /** The loop of UnmarshalCode over the bytes after the magic byte: each byte
      appends a run of bitcodes with zero values. */
  method ReadLengths(rest: seq<byte>) returns (codes: seq<BitCode>)
    ensures codes == Unvalued(Expand(rest))
  {
    codes := [];
    for n := 0 to |rest|
      invariant codes == Unvalued(Expand(rest[..n]))
    {
      var b := rest[n];
      var L: nat, R: nat;
      if b % 2 == 0 {
        L, R := 0, b / 2 + 1;
      } else if b % 4 == 1 {
        L, R := (b / 4) % 16 + 1, b / 64 + 1;
      } else {
        L, R := (b / 4) % 4 + 17, b / 16 + 1;
      }
      assert (L, R) == DecodeByte(b);
      ghost var prefix := Expand(rest[..n]);
      ghost var lens := prefix;
      assert prefix + Repeat(L, 0) == prefix;
      for m := 0 to R
        invariant InRange(lens) && lens == prefix + Repeat(L, m)
        invariant codes == Unvalued(lens)
      {
        UnvaluedStep(prefix, lens, L, m);
        codes := codes + [BitCode(0, L)];
        lens := lens + [L];
      }
      ExpandStep(rest, n);
    }
    assert rest[..|rest|] == rest;
  }

  // ---------------------------------------------------------------------------
  // Lemmas

  lemma RepByteFits(field: nat, k: nat, bottom: nat)
    requires 1 <= k <= 7 && field < Pow2(k) && bottom < Pow2(8 - k)
    ensures field * Pow2(8 - k) + bottom < 256
  {
    Pow2Add(k, 8 - k);
    Pow2Values();
    MulMonotone(Pow2(8 - k), field, Pow2(k) - 1);
    assert Pow2(8 - k) * (Pow2(k) - 1) == Pow2(8 - k) * Pow2(k) - Pow2(8 - k);
  }

  lemma LengthsInRangeAre(codes: seq<BitCode>)
    requires LengthsInRange(codes)
    ensures InRange(Lengths(codes))
  {
  }

  lemma InRangeDrop(lens: seq<nat>, n: nat)
    requires InRange(lens) && n <= |lens|
    ensures InRange(lens[n..])
  {
    forall k | 0 <= k < |lens[n..]|
      ensures lens[n..][k] <= MaxCodeLen
    {
      assert lens[n..][k] == lens[n + k];
    }
  }

  /** What Marshal has written once it reaches symbol i: the magic byte and the runs
      before i, so that the runs from i on complete the marshalled form. */
  predicate Emitted(codes: seq<BitCode>, i: nat, buf: seq<byte>)
  {
    LengthsInRange(codes) && i <= |codes| &&
    InRange(Lengths(codes)) && InRange(Lengths(codes)[i..]) &&
    buf + Body(Lengths(codes)[i..]) == Marshalled(Lengths(codes))
  }

  lemma MarshalStart(codes: seq<BitCode>)
    requires LengthsInRange(codes)
    ensures Emitted(codes, 0, [Magic])
  {
    var lens := Lengths(codes);
    LengthsInRangeAre(codes);
    assert lens[0..] == lens;
  }

  /** The run Marshal finds at i, ending at j, is the next piece of the body. */
  lemma MarshalStep(codes: seq<BitCode>, i: nat, j: nat, before: seq<byte>, buf: seq<byte>)
    requires Emitted(codes, i, before) && i < j <= |codes|
    requires forall m :: i <= m < j ==> codes[m].len == codes[i].len
    requires j == |codes| || codes[j].len != codes[i].len
    requires buf == before + EncodeRun(codes[i].len, j - i)
    ensures Emitted(codes, j, buf)
  {
    var lens := Lengths(codes);
    InRangeDrop(lens, j);
    var s := lens[i..];
    RunIs(s, j - i);
    assert s[j - i..] == lens[j..];
    assert Body(s) == EncodeRun(codes[i].len, j - i) + Body(lens[j..]);
    ConcatAssoc(before, EncodeRun(codes[i].len, j - i), Body(lens[j..]));
  }

  lemma MarshalEnd(codes: seq<BitCode>, buf: seq<byte>)
    requires Emitted(codes, |codes|, buf)
    ensures buf == Marshalled(Lengths(codes))
  {
    assert Lengths(codes)[|codes|..] == [];
    assert buf + [] == buf;
  }

  /** RunLen is pinned down by its ensures. */
  lemma {:induction false} RunIs(lens: seq<nat>, r: nat)
    requires 1 <= r <= |lens|
    requires forall k :: 0 <= k < r ==> lens[k] == lens[0]
    requires r == |lens| || lens[r] != lens[0]
    ensures RunLen(lens) == r
  {
    if r > 1 {
      RunIs(lens[1..], r - 1);
    }
  }

  /** Each byte Marshal writes for length L decodes back to L and its repeat count. */
  lemma DecodeRepByte(L: nat, field: nat)
    requires L <= MaxCodeLen && field < Pow2(Width(L))
    ensures DecodeByte(RepByte(field, Width(L), Bottom(L))) == (L, field + 1)
  {
    Pow2Values();
    var b := RepByte(field, Width(L), Bottom(L));
    if L == 0 {
      assert b == field * 2;
      DecodeZeroRun(field);
    } else if L <= 16 {
      assert b == field * 64 + (L - 1) * 4 + 1;
      DecodeShortRun(L, field);
    } else {
      assert b == field * 16 + (L - 17) * 4 + 3;
      DecodeLongRun(L, field);
    }
  }

  lemma DecodeZeroRun(field: nat)
    requires field < 128
    ensures DecodeByte(field * 2) == (0, field + 1)
  {
    DivModUnique(field * 2, 2, field, 0);
  }

  lemma DecodeShortRun(L: nat, field: nat)
    requires 1 <= L <= 16 && field < 4
    ensures DecodeByte(field * 64 + (L - 1) * 4 + 1) == (L, field + 1)
  {
    var b := field * 64 + (L - 1) * 4 + 1;
    DivModUnique(b, 2, field * 32 + (L - 1) * 2, 1);
    DivModUnique(b, 4, field * 16 + (L - 1), 1);
    DivModUnique(field * 16 + (L - 1), 16, field, L - 1);
    DivModUnique(b, 64, field, (L - 1) * 4 + 1);
  }

  lemma DecodeLongRun(L: nat, field: nat)
    requires 17 <= L <= 20 && field < 16
    ensures DecodeByte(field * 16 + (L - 17) * 4 + 3) == (L, field + 1)
  {
    var b := field * 16 + (L - 17) * 4 + 3;
    DivModUnique(b, 2, field * 8 + (L - 17) * 2 + 1, 1);
    DivModUnique(b, 4, field * 4 + (L - 17), 3);
    DivModUnique(field * 4 + (L - 17), 4, field, L - 17);
    DivModUnique(b, 16, field, (L - 17) * 4 + 3);
  }

  lemma {:induction false} ExpandAppend(a: seq<byte>, b: seq<byte>)
    ensures Expand(a + b) == Expand(a) + Expand(b)
    decreases |b|
  {
    if b == [] {
      assert a + b == a;
    } else {
      var n := |b| - 1;
      assert (a + b)[..|a + b| - 1] == a + b[..n];
      assert (a + b)[|a + b| - 1] == b[n];
      ExpandAppend(a, b[..n]);
      var lr := DecodeByte(b[n]);
      assert Expand(a + b) == (Expand(a) + Expand(b[..n])) + Repeat(lr.0, lr.1);
    }
  }

  /** One more symbol of length L read by the inner loop of UnmarshalCode. */
  lemma UnvaluedStep(prefix: seq<nat>, lens: seq<nat>, L: nat, m: nat)
    requires InRange(lens) && L <= MaxCodeLen && lens == prefix + Repeat(L, m)
    ensures InRange(lens + [L]) && lens + [L] == prefix + Repeat(L, m + 1)
    ensures Unvalued(lens + [L]) == Unvalued(lens) + [BitCode(0, L)]
  {
    assert Repeat(L, m + 1) == Repeat(L, m) + [L];
  }

  /** One more byte read by the outer loop of UnmarshalCode. */
  lemma ExpandStep(data: seq<byte>, n: nat)
    requires n < |data|
    ensures Expand(data[..n + 1]) == Expand(data[..n]) + Repeat(DecodeByte(data[n]).0, DecodeByte(data[n]).1)
  {
    assert data[..n + 1][..n] == data[..n];
  }

  lemma ExpandOne(b: byte)
    ensures Expand([b]) == Repeat(DecodeByte(b).0, DecodeByte(b).1)
  {
    assert [b][..0] == [];
  }

  /** The bytes of a run decode back to the run. */
  lemma {:induction false} EncodeRunExpands(L: nat, R: nat)
    requires L <= MaxCodeLen
    ensures Expand(EncodeRun(L, R)) == Repeat(L, R)
    decreases R
  {
    var k, p := Width(L), Pow2(Width(L));
    Pow2Values();
    if R >= p {
      var b := RepByte(p - 1, k, Bottom(L));
      DecodeRepByte(L, p - 1);
      ExpandOne(b);
      EncodeRunExpands(L, R - p);
      ExpandAppend([b], EncodeRun(L, R - p));
      RepeatAdd(L, p, R - p);
    } else if R > 0 {
      DecodeRepByte(L, R - 1);
      ExpandOne(RepByte(R - 1, k, Bottom(L)));
    } else {
      assert Repeat(L, 0) == [];
    }
  }

  lemma RepeatAdd(L: nat, a: nat, b: nat)
    ensures Repeat(L, a) + Repeat(L, b) == Repeat(L, a + b)
  {
  }

  /** rep for a run of R writes R / 2^k full bytes, whose field 2^k - 1 stands for 2^k
      repeats, then one byte with field R % 2^k - 1 when that remainder is not zero. */
  lemma {:induction false} RepShape(R: nat, k: nat, bottom: byte)
    requires 1 <= k <= 7 && bottom < Pow2(8 - k)
    ensures |Rep(R, k, bottom)| == R / Pow2(k) + (if R % Pow2(k) == 0 then 0 else 1)
    ensures forall i :: 0 <= i < R / Pow2(k) ==> Rep(R, k, bottom)[i] == RepByte(Pow2(k) - 1, k, bottom)
    ensures R % Pow2(k) != 0 ==> Rep(R, k, bottom)[R / Pow2(k)] == RepByte(R % Pow2(k) - 1, k, bottom)
    decreases R
  {
    var p := Pow2(k);
    var rep := Rep(R, k, bottom);
    if R >= p {
      var rest := Rep(R - p, k, bottom);
      RepShape(R - p, k, bottom);
      DivStep(R, p);
      assert rep == [RepByte(p - 1, k, bottom)] + rest;
      forall i | 0 <= i < R / p
        ensures rep[i] == RepByte(p - 1, k, bottom)
      {
        if i > 0 {
          assert rep[i] == rest[i - 1];
        }
      }
      if R % p != 0 {
        assert rep[R / p] == rest[(R - p) / p];
      }
    } else {
      DivModUnique(R, p, 0, R);
    }
  }

  /** Taking one divisor off the dividend takes one off the quotient. */
  lemma DivStep(R: nat, p: nat)
    requires 1 <= p <= R
    ensures R / p == (R - p) / p + 1 && R % p == (R - p) % p
  {
    var q, r := (R - p) / p, (R - p) % p;
    DivModIdentity(R - p, p);
    assert R == (q + 1) * p + r;
    DivModUnique(R, p, q + 1, r);
  }

  /** Every byte Marshal writes for a run of length L decodes to L and a repeat count
      from 1 to 2^k, k being the width of the layout's repeat field. */
  lemma EncodeRunBytes(L: nat, R: nat)
    requires L <= MaxCodeLen
    ensures forall i :: 0 <= i < |EncodeRun(L, R)| ==>
      DecodeByte(EncodeRun(L, R)[i]).0 == L && 1 <= DecodeByte(EncodeRun(L, R)[i]).1 <= Pow2(Width(L))
  {
    var k, p := Width(L), Pow2(Width(L));
    RepShape(R, k, Bottom(L));
    forall i | 0 <= i < |EncodeRun(L, R)|
      ensures DecodeByte(EncodeRun(L, R)[i]).0 == L && 1 <= DecodeByte(EncodeRun(L, R)[i]).1 <= p
    {
      if i < R / p {
        DecodeRepByte(L, p - 1);
      } else {
        DecodeRepByte(L, R % p - 1);
      }
    }
  }

  /** Unmarshalling reads back exactly the lengths that were marshalled. */
  lemma {:induction false} BodyRoundTrip(lens: seq<nat>)
    requires InRange(lens)
    ensures Expand(Body(lens)) == lens
    decreases |lens|
  {
    if lens != [] {
      var r := RunLen(lens);
      EncodeRunExpands(lens[0], r);
      BodyRoundTrip(lens[r..]);
      ExpandAppend(EncodeRun(lens[0], r), Body(lens[r..]));
      RunSplit(lens);
    }
  }

  /** A sequence is its first run followed by the rest. */
  lemma RunSplit(lens: seq<nat>)
    requires |lens| > 0
    ensures lens == Repeat(lens[0], RunLen(lens)) + lens[RunLen(lens)..]
  {
    var r := RunLen(lens);
    var a := Repeat(lens[0], r) + lens[r..];
    forall i | 0 <= i < |lens|
      ensures a[i] == lens[i]
    {
      if i >= r {
        assert a[i] == lens[r..][i - r];
      }
    }
    assert |a| == |lens|;
  }

  /** Marshal then UnmarshalCode keeps every code length, whatever the values were. */
  lemma MarshalKeepsLengths(c: Code)
    requires LengthsInRange(c.codes)
    ensures Unmarshalled(Marshalled(Lengths(c.codes))).Ok?
    ensures Lengths(Unmarshalled(Marshalled(Lengths(c.codes))).value.codes) == Lengths(c.codes)
  {
    var m := Marshalled(Lengths(c.codes));
    assert m[1..] == Body(Lengths(c.codes));
    BodyRoundTrip(Lengths(c.codes));
  }

  /** A canonical code survives Marshal then UnmarshalCode unchanged; every code that
      UnmarshalCode returns is canonical, so marshalling it again reads back the same. */
  lemma MarshalRoundTrip(c: Code)
    requires IsCanonical(c.codes)
    ensures Unmarshalled(Marshalled(Lengths(c.codes))) == Ok(c)
  {
    MarshalKeepsLengths(c);
  }

  /** TestCodeMarshal for one code: the first byte is the magic byte, UnmarshalCode
      succeeds, and the result has as many codes as the original, each of the same
      length. */
  method MarshalThenUnmarshal(c: Code) returns (marsh: seq<byte>, got: Code)
    requires LengthsInRange(c.codes)
    ensures |marsh| > 0 && marsh[0] == Magic
    ensures |got.codes| == |c.codes|
    ensures forall i :: 0 <= i < |c.codes| ==> got.codes[i].len == c.codes[i].len
  {
    marsh := Marshal(c);
    var r := UnmarshalCode(marsh);
    MarshalKeepsLengths(c);
    got := r.value;
  }

  // ---------------------------------------------------------------------------
  // The expected bytes of TestCodeMarshal (bit 7 on the left).

  /** [0] gives 0b0000000_0. */
  lemma GoldenSingleZero()
    ensures Body([0]) == [0]
  {
    RunIs([0], 1);
    Pow2Values();
  }

  /** [0, 0, 0] gives 0b0000010_0. */
  lemma GoldenThreeZeros()
    ensures Body([0, 0, 0]) == [4]
  {
    RunIs([0, 0, 0], 3);
    Pow2Values();
    assert [0, 0, 0][3..] == [];
  }

  /** 130 zeros give 0b1111111_0 (128 of them) then 0b0000001_0. */
  lemma GoldenLongRun()
    ensures Body(Repeat(0, 130)) == [254, 2]
  {
    RunIs(Repeat(0, 130), 130);
    Pow2Values();
    assert Repeat(0, 130)[130..] == [];
    assert Rep(2, 7, 0) == [RepByte(1, 7, 0)];
    assert Rep(130, 7, 0) == [RepByte(127, 7, 0)] + Rep(2, 7, 0);
  }

  /** The first run of lens is written, then the rest. */
  lemma BodyStep(lens: seq<nat>, r: nat)
    requires InRange(lens) && lens != [] && RunLen(lens) == r
    ensures Body(lens) == EncodeRun(lens[0], r) + Body(lens[r..])
  {
  }

  /** A short run of a length from 1 to 16 is one byte RRLLLL01. */
  lemma ShortRun(L: nat, R: nat)
    requires 1 <= L <= 16 && 1 <= R <= 4
    ensures EncodeRun(L, R) == [(R - 1) * 64 + (L - 1) * 4 + 1]
  {
    Pow2Values();
    assert Rep(0, 2, Bottom(L)) == [];
  }

  /** [1, 2, 2, 5, 5, 5] gives 0b00_0000_01, 0b01_0001_01, 0b10_0100_01. */
  lemma GoldenShortRuns()
    ensures Body([1, 2, 2, 5, 5, 5]) == [1, 69, 145]
  {
    var s: seq<nat> := [1, 2, 2, 5, 5, 5];
    RunIs(s, 1);
    assert s[1..] == [2, 2, 5, 5, 5];
    BodyStep(s, 1);
    ShortRun(1, 1);
    TwoTwosThenFives();
  }

  lemma TwoTwosThenFives()
    ensures Body([2, 2, 5, 5, 5]) == [69, 145]
  {
    var s: seq<nat> := [2, 2, 5, 5, 5];
    RunIs(s, 2);
    assert s[2..] == [5, 5, 5];
    BodyStep(s, 2);
    ShortRun(2, 2);
    ThreeFives();
  }

  lemma ThreeFives()
    ensures Body([5, 5, 5]) == [145]
  {
    var s: seq<nat> := [5, 5, 5];
    RunIs(s, 3);
    assert s[3..] == [];
    BodyStep(s, 3);
    ShortRun(5, 3);
  }

  /** Ten 3s then an 11 give 0b11_0010_01 twice, 0b01_0010_01, then 0b00_1010_01. */
  lemma GoldenSplitRun()
    ensures Body(Repeat(3, 10) + [11]) == [201, 201, 73, 41]
  {
    var s: seq<nat> := Repeat(3, 10) + [11];
    Pow2Values();
    RunIs(s, 10);
    RunIs(s[10..], 1);
    assert s[10..] == [11] && [11][1..] == [];
    assert Rep(2, 2, 9) == [RepByte(1, 2, 9)];
    assert Rep(6, 2, 9) == [RepByte(3, 2, 9)] + Rep(2, 2, 9);
    assert Rep(10, 2, 9) == [RepByte(3, 2, 9)] + Rep(6, 2, 9);
    assert Body(s[10..]) == [41];
  }

  /** [20, 20, 17] gives 0b0001_11_11, 0b0000_00_11. */
  lemma GoldenLongLengths()
    ensures Body([20, 20, 17]) == [31, 3]
  {
    var s: seq<nat> := [20, 20, 17];
    Pow2Values();
    RunIs(s, 2);
    RunIs(s[2..], 1);
    assert s[2..] == [17] && [17][1..] == [];
    assert Body(s[2..]) == [3];
  }
}
