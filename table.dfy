/** The decode table of huffman.go: 256 actions indexed by a byte of input, filled by
    buildTable from the codes of length at most 8. Both the table as the source builds it
    and the table the comment at huffman.go:309-316 describes are modelled. */
module DecodeTable {
  import opened HuffmanTypes
  import opened Bits
  import opened Canonical

  /** An action whose table pointer is nil: the symbol and how many bits it takes. */
  datatype Action = Action(sym: u32, len: u32)

  const Size: nat := 256

  /** A new table: every action zero. */
  function EmptyTable(): (t: seq<Action>)
    ensures |t| == Size && forall k :: 0 <= k < Size ==> t[k] == Action(0, 0)
  {
    seq(Size, _ => Action(0, 0))
  }

  /** add(val, len, sym) for len <= 8, as written: the 2^(8-len) slots from val on. */
  predicate CanAdd(val: nat, len: nat)
  {
    len <= 8 && val + Pow2(8 - len) <= Size
  }

  function Added(t: seq<Action>, val: nat, len: u32, sym: u32): (r: seq<Action>)
    requires |t| == Size && CanAdd(val, len)
    ensures |r| == Size
    ensures forall k :: 0 <= k < Size ==> r[k] == if val <= k < val + Pow2(8 - len) then Action(sym, len) else t[k]
  {
    seq(Size, k requires 0 <= k < Size => if val <= k < val + Pow2(8 - len) then Action(sym, len) else t[k])
  }

  predicate Addable(codes: seq<BitCode>)
  {
    forall s :: 0 <= s < |codes| ==> CanAdd(codes[s].val, codes[s].len)
  }

  /** buildTable as written: add for every symbol in order, used or not, with the symbol
      index converted to a uint32 Symbol. */
  function Built(codes: seq<BitCode>): (t: seq<Action>)
    requires Addable(codes)
    ensures |t| == Size
  {
    if codes == [] then EmptyTable()
    else
      var c := codes[|codes| - 1];
      Added(Built(codes[..|codes| - 1]), c.val, c.len, Wrap(|codes| - 1))
  }

  /** table.add: the len > 8 case panics and is excluded. */
  method Add(t: array<Action>, val: u32, len: u32, sym: u32)
    requires t.Length == Size && CanAdd(val, len)
    modifies t
    ensures t[..] == Added(old(t[..]), val, len, sym)
  {
    ghost var t0 := t[..];
    var n := Pow2(8 - len);
    for i := 0 to n
      invariant forall k :: 0 <= k < Size ==> t[k] == if val <= k < val + i then Action(sym, len) else t0[k]
    {
      t[val + i] := Action(sym, len);
    }
    assert forall k :: 0 <= k < Size ==> t[k] == Added(t0, val, len, sym)[k];
  }

  /** buildTable */
  method BuildTable(codes: seq<BitCode>) returns (t: array<Action>)
    requires Addable(codes)
    ensures fresh(t) && t[..] == Built(codes)
  {
    t := new Action[Size](_ => Action(0, 0));
    assert t[..] == EmptyTable();
    for s := 0 to |codes|
      invariant t.Length == Size && t[..] == Built(codes[..s])
    {
      assert codes[..s + 1][..s] == codes[..s];
      Add(t, codes[s].val, codes[s].len, Wrap(s));
    }
    assert codes[..|codes|] == codes;
  }

  // ---------------------------------------------------------------------------
  // The table as written

  /** A symbol with no code (length 0, so value 0) is added too: it fills the whole
      table. When the last symbol is unused, every action names it. */
  lemma UnusedLastSymbolFillsAll(codes: seq<BitCode>)
    requires Addable(codes) && codes != [] && codes[|codes| - 1].len == 0
    ensures forall k :: 0 <= k < Size ==> Built(codes)[k] == Action(Wrap(|codes| - 1), 0)
  {
    var c := codes[|codes| - 1];
    assert CanAdd(c.val, c.len);
    assert Pow2(8) == 256 by { Pow2Values(); }
  }

  /** The RFC 1951 example with a fourth, unused symbol: B=0, A=10, C=110, D=111 and no
      code for symbol 4. Every action of the built table is symbol 4 with length 0. */
  lemma UnusedSymbolExample()
    ensures Addable([BitCode(2, 2), BitCode(0, 1), BitCode(6, 3), BitCode(7, 3), BitCode(0, 0)])
    ensures forall k :: 0 <= k < Size ==>
      Built([BitCode(2, 2), BitCode(0, 1), BitCode(6, 3), BitCode(7, 3), BitCode(0, 0)])[k] == Action(4, 0)
  {
    Pow2Values();
    UnusedLastSymbolFillsAll([BitCode(2, 2), BitCode(0, 1), BitCode(6, 3), BitCode(7, 3), BitCode(0, 0)]);
  }

  /** The RFC 1951 example, A=10, B=0, C=110, D=111, built as written: the byte
      0b0000_0111, which starts with B's code 0, decodes as D; 0b1100_1000, which starts
      with C's code 110, decodes as nothing. */
  lemma UnshiftedExample()
    ensures Addable([BitCode(2, 2), BitCode(0, 1), BitCode(6, 3), BitCode(7, 3)])
    ensures var t := Built([BitCode(2, 2), BitCode(0, 1), BitCode(6, 3), BitCode(7, 3)]);
      t[7] == Action(3, 3) && t[200] == Action(0, 0)
  {
    Pow2Values();
    var codes := [BitCode(2, 2), BitCode(0, 1), BitCode(6, 3), BitCode(7, 3)];
    assert codes[..3] == [BitCode(2, 2), BitCode(0, 1), BitCode(6, 3)];
    assert codes[..3][..2] == [BitCode(2, 2), BitCode(0, 1)];
    assert codes[..3][..2][..1] == [BitCode(2, 2)];
    assert codes[..3][..2][..1][..0] == [];
    assert Built(codes[..3][..2][..1][..0]) == EmptyTable();
    var t1 := Built(codes[..3][..2][..1]);
    assert t1[7] == Action(0, 2) && t1[200] == Action(0, 0);
    var t2 := Built(codes[..3][..2]);
    assert t2[7] == Action(1, 1) && t2[200] == Action(0, 0);
    var t3 := Built(codes[..3]);
    assert t3[7] == Action(2, 3) && t3[200] == Action(0, 0);
  }

  // ---------------------------------------------------------------------------
  // The table the comment at huffman.go:309-316 describes: the decoder consumes len bits
  // of the index byte, so a code's slots are the bytes that begin with it

  /** The slots of a code of len <= 8 bits: the bytes whose first len bits, most
      significant first, are the code. */
  predicate InBlock(k: nat, val: nat, len: nat)
    requires len <= 8
  {
    0 < len && Shr(k, 8 - len) == val
  }

  predicate Fits(codes: seq<BitCode>)
  {
    forall s :: 0 <= s < |codes| ==> codes[s].len <= 8 && (codes[s].len != 0 ==> codes[s].val < Pow2(codes[s].len))
  }

  /** add with the slot index shifted, and nothing for an unused symbol. */
  function IntendedAdded(t: seq<Action>, val: nat, len: u32, sym: u32): (r: seq<Action>)
    requires |t| == Size && len <= 8
    ensures |r| == Size
    ensures forall k :: 0 <= k < Size ==> r[k] == if InBlock(k, val, len) then Action(sym, len) else t[k]
  {
    seq(Size, k requires 0 <= k < Size => if InBlock(k, val, len) then Action(sym, len) else t[k])
  }

  /** buildTable with the shifted add. */
  function IntendedBuilt(codes: seq<BitCode>): (t: seq<Action>)
    requires Fits(codes)
    ensures |t| == Size
  {
    if codes == [] then EmptyTable()
    else
      var c := codes[|codes| - 1];
      IntendedAdded(IntendedBuilt(codes[..|codes| - 1]), c.val, c.len, Wrap(|codes| - 1))
  }

  /** The block of a code holds exactly 2^(8-len) slots, from val << (8 - len). */
  lemma BlockIsRange(k: nat, val: nat, len: nat)
    requires 0 < len <= 8 && val < Pow2(len)
    ensures InBlock(k, val, len) <==> val * Pow2(8 - len) <= k < val * Pow2(8 - len) + Pow2(8 - len)
  {
    var p := Pow2(8 - len);
    if val * p <= k < val * p + p {
      DivModUnique(k, p, val, k - val * p);
    }
    if InBlock(k, val, len) {
      DivModIdentity(k, p);
    }
  }

  /** Two slots' worth of code: if k is in the blocks of codes a and b with a no longer
      than b, then a is a prefix of b. */
  lemma SharedSlot(k: nat, a: BitCode, b: BitCode)
    requires a.len <= b.len <= 8 && InBlock(k, a.val, a.len) && InBlock(k, b.val, b.len)
    ensures IsPrefix(a, b)
  {
    ShrShr(k, 8 - b.len, b.len - a.len);
    assert 8 - b.len + (b.len - a.len) == 8 - a.len;
  }

  /** For a prefix code, every slot of a used symbol's block decodes to that symbol. */
  lemma {:induction false} IntendedTableCorrect(codes: seq<BitCode>)
    requires Fits(codes) && PrefixFree(codes)
    ensures forall s, k :: 0 <= s < |codes| && 0 <= k < Size && InBlock(k, codes[s].val, codes[s].len) ==>
      IntendedBuilt(codes)[k] == Action(Wrap(s), codes[s].len)
  {
    if codes != [] {
      var m := |codes| - 1;
      var init := codes[..m];
      assert PrefixFree(init) by {
        forall i, j | 0 <= i < |init| && 0 <= j < |init| && i != j
          ensures !IsPrefix(init[i], init[j])
        {
          assert init[i] == codes[i] && init[j] == codes[j];
        }
      }
      IntendedTableCorrect(init);
      forall s, k | 0 <= s < |codes| && 0 <= k < Size && InBlock(k, codes[s].val, codes[s].len)
        ensures IntendedBuilt(codes)[k] == Action(Wrap(s), codes[s].len)
      {
        if s < m && InBlock(k, codes[m].val, codes[m].len) {
          if codes[s].len <= codes[m].len {
            SharedSlot(k, codes[s], codes[m]);
          } else {
            SharedSlot(k, codes[m], codes[s]);
          }
          assert false;
        } else if s < m {
          assert init[s] == codes[s];
        }
      }
    }
  }

  /** Slots in no used symbol's block keep the zero action. */
  lemma {:induction false} IntendedTableRest(codes: seq<BitCode>, k: nat)
    requires Fits(codes) && k < Size
    requires forall s :: 0 <= s < |codes| ==> !InBlock(k, codes[s].val, codes[s].len)
    ensures IntendedBuilt(codes)[k] == Action(0, 0)
  {
    if codes != [] {
      var m := |codes| - 1;
      assert forall s :: 0 <= s < m ==> codes[..m][s] == codes[s];
      IntendedTableRest(codes[..m], k);
    }
  }

  /** The canonical code of any lengths of at most 8 bits obeying the Kraft inequality
      fits the table, and its table decodes every slot of a used symbol's block to it. */
  lemma CanonicalTable(codes: seq<BitCode>)
    requires Kraft(codes)
    requires forall s :: 0 <= s < |codes| ==> codes[s].len <= 8
    ensures Fits(Assigned(codes))
    ensures forall s, k :: 0 <= s < |codes| && 0 <= k < Size && InBlock(k, Assigned(codes)[s].val, codes[s].len) ==>
      IntendedBuilt(Assigned(codes))[k] == Action(Wrap(s), codes[s].len)
  {
    var a := Assigned(codes);
    AssignedLengths(codes);
    forall s | 0 <= s < |a|
      ensures a[s].len <= 8 && (a[s].len != 0 ==> a[s].val < Pow2(a[s].len))
    {
      assert a[s].len == Lengths(a)[s] == Lengths(codes)[s] == codes[s].len;
      if a[s].len != 0 {
        CanonicalFits(codes, s);
      }
    }
    CanonicalPrefixFree(codes);
    IntendedTableCorrect(a);
  }

  /** On the RFC 1951 example the shifted table decodes 0b0000_0111 as B and
      0b1100_1000 as C. */
  lemma IntendedExample()
    ensures Fits([BitCode(2, 2), BitCode(0, 1), BitCode(6, 3), BitCode(7, 3)])
    ensures var t := IntendedBuilt([BitCode(2, 2), BitCode(0, 1), BitCode(6, 3), BitCode(7, 3)]);
      t[7] == Action(1, 1) && t[200] == Action(2, 3)
  {
    Pow2Values();
    var codes := [BitCode(2, 2), BitCode(0, 1), BitCode(6, 3), BitCode(7, 3)];
    RfcExample();
    var c0 := [BitCode(0, 2), BitCode(0, 1), BitCode(0, 3), BitCode(0, 3)];
    RfcKraft();
    CanonicalTable(c0);
    assert Assigned(c0) == codes;
    assert Shr(7, 7) == 0 && Shr(200, 5) == 6;
    assert InBlock(7, codes[1].val, codes[1].len) && InBlock(200, codes[2].val, codes[2].len);
    assert Wrap(1) == 1 && Wrap(2) == 2;
  }

  /** The lengths of the RFC 1951 example fill the Kraft sum exactly. */
  lemma RfcKraft()
    ensures Kraft([BitCode(0, 2), BitCode(0, 1), BitCode(0, 3), BitCode(0, 3)])
  {
    var c0 := [BitCode(0, 2), BitCode(0, 1), BitCode(0, 3), BitCode(0, 3)];
    Pow2Twenty();
    assert c0[..3] == [BitCode(0, 2), BitCode(0, 1), BitCode(0, 3)];
    assert c0[..3][..2] == [BitCode(0, 2), BitCode(0, 1)];
    assert c0[..3][..2][..1] == [BitCode(0, 2)];
    assert c0[..3][..2][..1][..0] == [];
    assert KraftSum(c0[..3][..2][..1]) == Pow2(18);
    assert KraftSum(c0[..3][..2]) == Pow2(18) + Pow2(19);
    assert KraftSum(c0[..3]) == Pow2(18) + Pow2(19) + Pow2(17);
    assert KraftSum(c0) == Pow2(18) + Pow2(19) + Pow2(17) + Pow2(17);
  }
}
