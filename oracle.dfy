/** The bit writer test of bitio_test.go: the oracle `bitstring`, which renders a list
    of (value, width) pairs the way the written bytes should print, and testBitWriter,
    which writes the pairs, closes, and prints the bytes. The theorem is that the two
    printouts agree for every list of values that fit their widths. */
module BitOracle {
  import opened HuffmanTypes
  import opened Bits
  import opened BitIO

  function Digit(b: bool): char
  {
    if b then '1' else '0'
  }

  /** fmt.Sprintf("%0<w>b", v) for v < 2^w: w binary digits, most significant first. */
  function Binary(v: nat, w: nat): (s: string)
    ensures |s| == w
  {
    if w == 0 then "" else Binary(v / 2, w - 1) + [Digit(v % 2 == 1)]
  }

  /** An LSB-first bit string printed most significant bit first. */
  function Msb(bits: seq<bool>): (s: string)
    ensures |s| == |bits|
  {
    if bits == [] then "" else Msb(bits[1..]) + [Digit(bits[0])]
  }

  /** s[len(s)-n:] */
  function Rightmost(s: string, n: nat): string
    requires n <= |s|
  {
    s[|s| - n..]
  }

  /** slices.Reverse */
  function Reverse<T>(s: seq<T>): (r: seq<T>)
    ensures |r| == |s|
  {
    if s == [] then [] else [s[|s| - 1]] + Reverse(s[..|s| - 1])
  }

  /** strings.Join(ss, "") */
  function Concat(ss: seq<string>): string
  {
    if ss == [] then "" else ss[0] + Concat(ss[1..])
  }

  /** strings.Join(ss, ":") */
  function JoinColon(ss: seq<string>): string
  {
    if ss == [] then "" else if |ss| == 1 then ss[0] else ss[0] + ":" + JoinColon(ss[1..])
  }

  /** The loop of bitstring that cuts 8 digits at a time off the right end, then pads
      what is left with zeros on the left. */
  function Chop(s: string): seq<string>
    decreases |s|
  {
    if |s| >= 8 then [s[|s| - 8..]] + Chop(s[..|s| - 8])
    else if |s| > 0 then [seq(8 - |s|, _ => '0') + s]
    else []
  }

  /** bitstring(bs, ns): everything written, most significant bit first, cut into
      groups of 8 digits from the right. */
  function Bitstring(bs: seq<nat>, ns: seq<nat>): (s: string)
    requires |bs| == |ns| && forall i :: 0 <= i < |ns| ==> ns[i] <= 32
    ensures s == JoinColon(Chop(Msb(Written(bs, ns))))
  {
    JoinedPieces(bs, ns);
    var ss := seq(|bs|, i requires 0 <= i < |bs| => Rightmost(Binary(bs[i], 32), ns[i]));
    JoinColon(Chop(Concat(Reverse(ss))))
  }

  /** How testBitWriter prints the bytes it got: %08b each, separated by ':'. */
  function Rendered(got: seq<byte>): string
  {
    JoinColon(seq(|got|, j requires 0 <= j < |got| => Binary(got[j], 8)))
  }

  /** Everything written: the bits of each value, least significant first, in order. */
  function Written(bs: seq<nat>, ns: seq<nat>): seq<bool>
    requires |bs| == |ns|
  {
    if bs == [] then [] else Written(bs[..|bs| - 1], ns[..|ns| - 1]) + BitsOf(bs[|bs| - 1], ns[|ns| - 1])
  }

  // ---------------------------------------------------------------------------

  lemma {:induction false} MsbAppend(a: seq<bool>, b: seq<bool>)
    ensures Msb(a + b) == Msb(b) + Msb(a)
  {
    if a == [] {
      assert a + b == b;
    } else {
      assert (a + b)[0] == a[0];
      assert (a + b)[1..] == a[1..] + b;
      MsbAppend(a[1..], b);
    }
  }

  lemma {:induction false} BinaryIsMsb(v: nat, w: nat)
    ensures Binary(v, w) == Msb(BitsOf(v, w))
  {
    if w > 0 {
      BinaryIsMsb(v / 2, w - 1);
      assert BitsOf(v, w)[1..] == BitsOf(v / 2, w - 1);
    }
  }

  lemma {:induction false} MsbZeros(p: nat)
    ensures Msb(Zeros(p)) == seq(p, _ => '0')
  {
    if p > 0 {
      assert Zeros(p)[1..] == Zeros(p - 1);
      MsbZeros(p - 1);
    }
  }

  /** The rightmost n digits of %032b are the n-bit rendering. */
  lemma RightmostBinary(b: nat, n: nat)
    requires n <= 32
    ensures Rightmost(Binary(b, 32), n) == Binary(b, n)
  {
    BinaryIsMsb(b, 32);
    BinaryIsMsb(b, n);
    BitsOfSplit(b, n, 32 - n);
    MsbAppend(BitsOf(b, n), BitsOf(Shr(b, n), 32 - n));
  }

  /** Joining the reversed pieces prints the whole written stream most significant
      bit first. */
  lemma {:induction false} JoinedPieces(bs: seq<nat>, ns: seq<nat>)
    requires |bs| == |ns| && forall i :: 0 <= i < |ns| ==> ns[i] <= 32
    ensures Concat(Reverse(seq(|bs|, i requires 0 <= i < |bs| => Rightmost(Binary(bs[i], 32), ns[i]))))
      == Msb(Written(bs, ns))
  {
    var ss := seq(|bs|, i requires 0 <= i < |bs| => Rightmost(Binary(bs[i], 32), ns[i]));
    if bs != [] {
      var k := |bs| - 1;
      var bs', ns' := bs[..k], ns[..k];
      var ss' := seq(|bs'|, i requires 0 <= i < |bs'| => Rightmost(Binary(bs'[i], 32), ns'[i]));
      assert ss[..k] == ss';
      JoinedPieces(bs', ns');
      RightmostBinary(bs[k], ns[k]);
      BinaryIsMsb(bs[k], ns[k]);
      var r := Reverse(ss);
      assert r == [ss[k]] + Reverse(ss');
      assert r[0] == ss[k] && r[1..] == Reverse(ss');
      MsbAppend(Written(bs', ns'), BitsOf(bs[k], ns[k]));
    }
  }

  /** Cutting the printout 8 digits at a time from the right gives the bytes, when the
      bytes hold the stream followed by fewer than 8 zero bits. */
  lemma {:induction false} ChopMsb(t: seq<bool>, got: seq<byte>, p: nat)
    requires p < 8 && BytesToBits(got) == t + Zeros(p)
    ensures Chop(Msb(t)) == seq(|got|, j requires 0 <= j < |got| => Binary(got[j], 8))
    decreases |got|
  {
    var want := seq(|got|, j requires 0 <= j < |got| => Binary(got[j], 8));
    if got == [] {
      assert t == [];
    } else {
      var all := BytesToBits(got);
      assert all == BitsOf(got[0], 8) + BytesToBits(got[1..]);
      assert all[..8] == BitsOf(got[0], 8);
      BinaryIsMsb(got[0], 8);
      var s := Msb(t);
      if |t| >= 8 {
        assert t[..8] == BitsOf(got[0], 8) by {
          assert all[..8] == (t + Zeros(p))[..8];
        }
        assert BytesToBits(got[1..]) == t[8..] + Zeros(p) by {
          assert all[8..] == (t + Zeros(p))[8..];
        }
        assert t == t[..8] + t[8..];
        MsbAppend(t[..8], t[8..]);
        assert s[|s| - 8..] == Binary(got[0], 8);
        assert s[..|s| - 8] == Msb(t[8..]);
        ChopMsb(t[8..], got[1..], p);
        assert want == [Binary(got[0], 8)] + seq(|got[1..]|, j requires 0 <= j < |got[1..]| => Binary(got[1..][j], 8));
      } else {
        assert |got| == 1;
        assert t + Zeros(p) == BitsOf(got[0], 8);
        MsbAppend(t, Zeros(p));
        MsbZeros(p);
        assert |t| > 0;
      }
    }
  }

  /** The oracle of bitio_test.go agrees with the printed bytes whenever those bytes
      hold the written stream followed by the padding of one final flush. */
  lemma OracleAgrees(bs: seq<nat>, ns: seq<nat>, got: seq<byte>, p: nat)
    requires |bs| == |ns| && forall i :: 0 <= i < |ns| ==> ns[i] <= 32
    requires p < 8 && BytesToBits(got) == Written(bs, ns) + Zeros(p)
    ensures Rendered(got) == Bitstring(bs, ns)
  {
    JoinedPieces(bs, ns);
    ChopMsb(Written(bs, ns), got, p);
  }

  /** testBitWriter: write each value with its width into a bit writer over a
      bytes.Buffer, close it, and print the bytes. No error occurs and the printout is
      exactly the oracle's. */
  method TestBitWriter(bs: seq<nat>, ns: seq<nat>) returns (got: seq<byte>, e: Option<WriteError>)
    requires |bs| == |ns|
    requires forall i :: 0 <= i < |bs| ==> ns[i] <= 32 && bs[i] < Pow2(ns[i])
    ensures e == None
    ensures Rendered(got) == Bitstring(bs, ns)
  {
    var bw := new BitWriter((prev: seq<byte>, buf: seq<byte>) => None);
    for i := 0 to |bs|
      invariant bw.Valid() && bw.err == None
      invariant bw.sink == (prev: seq<byte>, buf: seq<byte>) => None
      invariant bw.stream == Written(bs[..i], ns[..i])
    {
      assert bs[..i + 1][..i] == bs[..i] && ns[..i + 1][..i] == ns[..i];
      bw.WriteBits(bs[i], ns[i]);
    }
    assert bs[..|bs|] == bs && ns[..|ns|] == ns;
    ghost var pad := PadBits(bw.nbits);
    e := bw.Close();
    got := bw.out;
    assert BytesToBits(got) + BitsOf(0, 0) == Written(bs, ns) + Zeros(pad);
    OracleAgrees(bs, ns, got, pad);
  }
}
