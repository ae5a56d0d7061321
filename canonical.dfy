/** Canonical code values (section 3.2.2 of RFC 1951), as assignValues computes them:
    count the codes of each length, derive the first value of each length, and hand
    out consecutive values in symbol order. The Kraft inequality on the lengths is what
    makes the result a prefix code. */
module Canonical {
  import opened HuffmanTypes
  import opened Bits

  predicate LengthsInRange(codes: seq<BitCode>)
  {
    forall i :: 0 <= i < |codes| ==> codes[i].len <= MaxCodeLen
  }

  /** The number of codes of length L. */
  function Count(codes: seq<BitCode>, L: nat): (r: nat)
    ensures r <= |codes|
  {
    if codes == [] then 0
    else Count(codes[..|codes| - 1], L) + (if codes[|codes| - 1].len == L then 1 else 0)
  }

  /** counts[L] once counting is done and counts[0] is cleared: a uint32 tally. */
  function CountsEntry(codes: seq<BitCode>, L: nat): u32
  {
    if L == 0 then 0 else Wrap(Count(codes, L))
  }

  /** The first value of length L, in uint32 arithmetic: twice the weighted count of
      the used codes shorter than L. FirstValueStep shows that the recurrence of
      assignValues computes it. */
  function FirstValue(codes: seq<BitCode>, L: nat): u32
  {
    if L == 0 then 0 else Wrap(2 * Level(codes, L - 1))
  }

  /** How many symbols before i have the same length as i. */
  function Rank(codes: seq<BitCode>, i: nat): nat
    requires i < |codes|
  {
    Count(codes[..i], codes[i].len)
  }

  /** nextVal[L] when symbol i is reached: the first value of length L plus the number
      of symbols of length L before i, in uint32 arithmetic. */
  function Next(codes: seq<BitCode>, i: nat, L: nat): u32
    requires i <= |codes|
  {
    Wrap(FirstValue(codes, L) + Count(codes[..i], L))
  }

  /** The codes after assignValues: a used code gets the first value of its length plus
      its rank, a code of length 0 is left alone. */
  function Assigned(codes: seq<BitCode>): (r: seq<BitCode>)
    ensures |r| == |codes|
  {
    seq(|codes|, i requires 0 <= i < |codes| => Reassigned(codes, i))
  }

  /** Symbol i after assignValues. */
  function Reassigned(codes: seq<BitCode>, i: nat): BitCode
    requires i < |codes|
  {
    if codes[i].len == 0 then codes[i] else codes[i].(val := Next(codes, i, codes[i].len))
  }

  /** Sum over the used codes of 2^(20 - len): the Kraft sum scaled by 2^20. */
  function KraftSum(codes: seq<BitCode>): nat
  {
    if codes == [] then 0
    else
      var c := codes[|codes| - 1];
      KraftSum(codes[..|codes| - 1]) + (if c.len == 0 || c.len > MaxCodeLen then 0 else Pow2(MaxCodeLen - c.len))
  }

  /** The Kraft inequality, which every length table of a Huffman code satisfies. */
  predicate Kraft(codes: seq<BitCode>)
  {
    LengthsInRange(codes) && KraftSum(codes) <= Pow2(MaxCodeLen)
  }

  /** The used codes of length at most L, each weighted 2^(L - len). */
  function Level(codes: seq<BitCode>, L: nat): nat
  {
    if L == 0 then 0 else 2 * Level(codes, L - 1) + Count(codes, L)
  }

  /** b's first a.len bits, most significant first, are a's: a is a prefix of b. */
  predicate IsPrefix(a: BitCode, b: BitCode)
  {
    0 < a.len <= b.len && Shr(b.val, b.len - a.len) == a.val
  }

  /** The values of the codes of length L, in symbol order. */
  function ValuesOfLength(codes: seq<BitCode>, L: nat): seq<u32>
  {
    if codes == [] then []
    else
      var c := codes[|codes| - 1];
      ValuesOfLength(codes[..|codes| - 1], L) + (if c.len == L then [c.val] else [])
  }

  predicate PrefixFree(codes: seq<BitCode>)
  {
    forall i, j :: 0 <= i < |codes| && 0 <= j < |codes| && i != j ==> !IsPrefix(codes[i], codes[j])
  }

  /** Codes whose values are the canonical ones for their lengths, every unused symbol
      having value 0: the form in which UnmarshalCode returns a Code. */
  predicate IsCanonical(codes: seq<BitCode>)
  {
    LengthsInRange(codes) && codes == Assigned(Unvalued(Lengths(codes)))
  }

  // ---------------------------------------------------------------------------
  // assignValues

  /** assignValues: the values of `codes` are replaced, in place, by the canonical ones.
      Go indexes counts by length, so every length must be at most 20. */
  method AssignValues(codes: array<BitCode>)
    requires LengthsInRange(codes[..])
    modifies codes
    ensures codes[..] == Assigned(old(codes[..]))
  {
    ghost var c0 := codes[..];
    var counts := CountLengths(codes);
    var nextVal := FirstValues(c0, counts);
    HandOutValues(codes, nextVal, c0);
  }

  /** The third loop of assignValues: each used symbol, in order, takes nextVal of its
      length, which then moves on by one. */
  method HandOutValues(codes: array<BitCode>, nextVal: array<u32>, ghost c0: seq<BitCode>)
    requires codes[..] == c0 && LengthsInRange(c0) && nextVal.Length == MaxCodeLen + 1
    requires forall L {:trigger nextVal[L]} :: 1 <= L <= MaxCodeLen ==> nextVal[L] == FirstValue(c0, L)
    modifies codes, nextVal
    ensures codes[..] == Assigned(c0)
  {
    assert c0[..0] == [];
    for i := 0 to codes.Length
      invariant forall k :: 0 <= k < i ==> codes[k] == Reassigned(c0, k)
      invariant forall k :: i <= k < codes.Length ==> codes[k] == c0[k]
      invariant forall L {:trigger nextVal[L]} :: 1 <= L <= MaxCodeLen ==> nextVal[L] == Next(c0, i, L)
    {
      var c := codes[i];
      NextStep(c0, i);
      if c.len != 0 {
        codes[i] := c.(val := nextVal[c.len]);
        nextVal[c.len] := Wrap(nextVal[c.len] as int + 1);
      }
    }
    assert codes[..] == Assigned(c0);
  }

  /** The second loop of assignValues, after counts[0] is cleared: nextVal[L] is the
      first value of length L. */
  method FirstValues(ghost codes: seq<BitCode>, counts: array<u32>) returns (nextVal: array<u32>)
    requires counts.Length == MaxCodeLen + 1
    requires forall L {:trigger counts[L]} :: 1 <= L <= MaxCodeLen ==> counts[L] == Wrap(Count(codes, L))
    modifies counts
    ensures fresh(nextVal) && nextVal.Length == MaxCodeLen + 1
    ensures forall L {:trigger nextVal[L]} :: 1 <= L <= MaxCodeLen ==> nextVal[L] == FirstValue(codes, L)
  {
    nextVal := new u32[MaxCodeLen + 1](_ => 0);
    var val: u32 := 0;
    counts[0] := 0;
    for len := 1 to MaxCodeLen + 1
      invariant forall L {:trigger counts[L]} :: 0 <= L <= MaxCodeLen ==> counts[L] == CountsEntry(codes, L)
      invariant val == FirstValue(codes, len - 1)
      invariant forall L {:trigger nextVal[L]} :: 1 <= L < len ==> nextVal[L] == FirstValue(codes, L)
    {
      FirstValueStep(codes, len);
      val := Wrap(Wrap(val as int + counts[len - 1] as int) * 2);
      nextVal[len] := val;
    }
  }

  /** The first loop of assignValues: counts[L] is the uint32 number of codes of
      length L. */
  method CountLengths(codes: array<BitCode>) returns (counts: array<u32>)
    requires LengthsInRange(codes[..])
    ensures fresh(counts) && counts.Length == MaxCodeLen + 1
    ensures forall L {:trigger counts[L]} :: 0 <= L <= MaxCodeLen ==> counts[L] == Wrap(Count(codes[..], L))
  {
    counts := new u32[MaxCodeLen + 1](_ => 0);
    assert codes[..][..0] == [];
    for i := 0 to codes.Length
      invariant forall L {:trigger counts[L]} :: 0 <= L <= MaxCodeLen ==> counts[L] == Wrap(Count(codes[..][..i], L))
    {
      CountStep(codes[..], i);
      var L := codes[i].len;
      WrapAdd(Count(codes[..][..i], L), 1);
      counts[L] := Wrap(counts[L] as int + 1);
    }
    assert codes[..][..codes.Length] == codes[..];
  }

  /** TestAssignValues: the example of section 3.2.2 of RFC 1951. */
  method AssignValuesExample() returns (got: seq<BitCode>)
    ensures got == [BitCode(2, 2), BitCode(0, 1), BitCode(6, 3), BitCode(7, 3)]
  {
    var codes := new BitCode[4];
    codes[0], codes[1], codes[2], codes[3] := BitCode(0, 2), BitCode(0, 1), BitCode(0, 3), BitCode(0, 3);
    assert codes[..] == [BitCode(0, 2), BitCode(0, 1), BitCode(0, 3), BitCode(0, 3)];
    AssignValues(codes);
    got := codes[..];
    RfcExample();
  }

  lemma RfcExample()
    ensures Assigned([BitCode(0, 2), BitCode(0, 1), BitCode(0, 3), BitCode(0, 3)])
         == [BitCode(2, 2), BitCode(0, 1), BitCode(6, 3), BitCode(7, 3)]
  {
    var a, b, c := BitCode(0, 2), BitCode(0, 1), BitCode(0, 3);
    var c0 := [a, b, c, c];
    assert c0[..3] == [a, b, c] && c0[..2] == [a, b] && c0[..1] == [a] && c0[..0] == [];
    assert [a, b, c][..2] == [a, b] && [a, b][..1] == [a] && [a][..0] == [];
    assert Count([a], 1) == 0 && Count([a], 2) == 1 && Count([a], 3) == 0;
    assert Count([a, b], 1) == 1 && Count([a, b], 2) == 1 && Count([a, b], 3) == 0;
    assert Count([a, b, c], 1) == 1 && Count([a, b, c], 2) == 1 && Count([a, b, c], 3) == 1;
    assert Count(c0, 1) == 1 && Count(c0, 2) == 1;
    assert Level(c0, 1) == 1 && Level(c0, 2) == 3;
    assert FirstValue(c0, 1) == 0;
    assert FirstValue(c0, 2) == 2;
    assert FirstValue(c0, 3) == 6;
    var r, e := Assigned(c0), [BitCode(2, 2), BitCode(0, 1), BitCode(6, 3), BitCode(7, 3)];
    assert r[0] == e[0] && r[1] == e[1] && r[2] == e[2] && r[3] == e[3];
    assert |r| == |e|;
    assert r == e;
  }

  // ---------------------------------------------------------------------------
  // Arithmetic and counting

  /** uint32 addition can be wrapped late. */
  lemma WrapAdd(x: int, y: int)
    ensures Wrap(Wrap(x) + y) == Wrap(x + y)
  {
    var q, q2, r := x / U32, (x + y) / U32, (x + y) % U32;
    assert x == q * U32 + Wrap(x);
    assert x + y == q2 * U32 + r;
    assert (q2 - q) * U32 == q2 * U32 - q * U32;
    DivModUnique(Wrap(x) + y, U32, q2 - q, r);
  }

  /** uint32 doubling can be wrapped late. */
  lemma WrapDouble(x: int)
    ensures Wrap(Wrap(x) * 2) == Wrap(2 * x)
  {
    var q, q2, r := x / U32, (2 * x) / U32, (2 * x) % U32;
    assert x == q * U32 + Wrap(x);
    assert 2 * x == q2 * U32 + r;
    assert (q2 - 2 * q) * U32 == q2 * U32 - 2 * (q * U32);
    DivModUnique(Wrap(x) * 2, U32, q2 - 2 * q, r);
  }

  lemma NextStep(codes: seq<BitCode>, i: nat)
    requires i < |codes|
    ensures forall L :: (Next(codes, i + 1, L)
      == if codes[i].len == L then Wrap(Next(codes, i, L) + 1) else Next(codes, i, L))
  {
    CountStep(codes, i);
    forall L
      ensures Next(codes, i + 1, L) == if codes[i].len == L then Wrap(Next(codes, i, L) + 1) else Next(codes, i, L)
    {
      WrapAdd(FirstValue(codes, L) + Count(codes[..i], L), 1);
    }
  }

  lemma CountStep(codes: seq<BitCode>, i: nat)
    requires i < |codes|
    ensures forall L :: Count(codes[..i + 1], L) == Count(codes[..i], L) + (if codes[i].len == L then 1 else 0)
  {
    assert codes[..i + 1][..i] == codes[..i];
  }

  /** Counts only grow along prefixes. */
  lemma {:induction false} CountPrefix(codes: seq<BitCode>, i: nat, j: nat, L: nat)
    requires i <= j <= |codes|
    ensures Count(codes[..j], L) == Count(codes[..i], L) + Count(codes[i..j], L)
    decreases j
  {
    if i == j {
      assert codes[i..j] == [];
    } else {
      CountPrefix(codes, i, j - 1, L);
      CountStep(codes, j - 1);
      assert codes[i..j][..j - 1 - i] == codes[i..j - 1];
    }
  }

  /** A used symbol's rank is below the number of symbols of its length. */
  lemma RankBelowCount(codes: seq<BitCode>, i: nat)
    requires i < |codes|
    ensures Rank(codes, i) < Count(codes, codes[i].len)
  {
    CountStep(codes, i);
    CountPrefix(codes, i + 1, |codes|, codes[i].len);
    assert codes[..|codes|] == codes;
  }

  /** Later symbols of the same length have larger ranks, by the count between them. */
  lemma RankStep(codes: seq<BitCode>, i: nat, j: nat)
    requires i < j < |codes| && codes[i].len == codes[j].len
    ensures Rank(codes, j) == Rank(codes, i) + Count(codes[i..j], codes[i].len)
    ensures Count(codes[i..j], codes[i].len) >= 1
  {
    CountPrefix(codes, i, j, codes[i].len);
    var s := codes[i..j];
    assert s == [codes[i]] + codes[i + 1..j];
    CountPrefix(s, 1, |s|, codes[i].len);
    assert s[..|s|] == s;
    assert s[..1] == [codes[i]] && s[1..] == codes[i + 1..j];
    assert [codes[i]][..0] == [];
  }

  // ---------------------------------------------------------------------------
  // Kraft sums and the levels

  lemma {:induction false} LevelAppend(codes: seq<BitCode>, x: BitCode, L: nat)
    ensures Level(codes + [x], L) == Level(codes, L) + (if 1 <= x.len <= L then Pow2(L - x.len) else 0)
  {
    if L > 0 {
      LevelAppend(codes, x, L - 1);
      assert (codes + [x])[..|codes|] == codes;
      if 1 <= x.len < L {
        assert Pow2(L - x.len) == 2 * Pow2(L - 1 - x.len);
      }
    }
  }

  /** The level at length 20 is the Kraft sum. */
  lemma {:induction false} LevelIsKraftSum(codes: seq<BitCode>)
    ensures Level(codes, MaxCodeLen) == KraftSum(codes)
  {
    if codes != [] {
      var n := |codes| - 1;
      LevelIsKraftSum(codes[..n]);
      assert codes == codes[..n] + [codes[n]];
      LevelAppend(codes[..n], codes[n], MaxCodeLen);
    } else {
      LevelEmpty(MaxCodeLen);
    }
  }

  lemma {:induction false} LevelEmpty(L: nat)
    ensures Level([], L) == 0
  {
    if L > 0 {
      LevelEmpty(L - 1);
    }
  }

  /** Each level at least doubles the one before it. */
  lemma {:induction false} LevelGrow(codes: seq<BitCode>, l: nat, m: nat)
    requires l <= m
    ensures Level(codes, m) >= Pow2(m - l) * Level(codes, l)
  {
    if l < m {
      LevelGrow(codes, l, m - 1);
      var p, k, prev := Pow2(m - 1 - l), Level(codes, l), Level(codes, m - 1);
      assert Level(codes, m) >= 2 * prev;
      assert Pow2(m - l) == 2 * p;
      MulDouble(p, k);
    }
  }

  lemma MulDouble(p: nat, k: nat)
    ensures (2 * p) * k == 2 * (p * k)
  {
  }

  /** Under the Kraft inequality, level L is at most 2^L. */
  lemma LevelBound(codes: seq<BitCode>, L: nat)
    requires Kraft(codes) && L <= MaxCodeLen
    ensures Level(codes, L) <= Pow2(L)
  {
    LevelGrow(codes, L, MaxCodeLen);
    LevelIsKraftSum(codes);
    Pow2Add(MaxCodeLen - L, L);
    MulCancel(Pow2(MaxCodeLen - L), Level(codes, L), Pow2(L));
  }

  lemma Pow2Small(L: nat)
    requires L <= MaxCodeLen
    ensures Pow2(L) <= 0x10_0000 < U32
  {
    Pow2Monotone(L, MaxCodeLen);
    Pow2Twenty();
  }

  /** Under the Kraft inequality nothing wraps: the first value of length L is twice
      level L - 1. */
  lemma FirstValueExact(codes: seq<BitCode>, L: nat)
    requires Kraft(codes) && 1 <= L <= MaxCodeLen
    ensures FirstValue(codes, L) == 2 * Level(codes, L - 1)
  {
    LevelBound(codes, L - 1);
    Pow2Small(L);
    assert Pow2(L) == 2 * Pow2(L - 1);
  }

  /** The recurrence of assignValues, `val = (val + counts[len-1]) << 1` in uint32
      arithmetic with counts[0] == 0, yields the first value of each length. */
  lemma FirstValueStep(codes: seq<BitCode>, L: nat)
    requires L >= 1
    ensures FirstValue(codes, L) == Wrap(Wrap(FirstValue(codes, L - 1) + CountsEntry(codes, L - 1)) * 2)
  {
    if L >= 2 {
      var A, B := 2 * Level(codes, L - 2), Count(codes, L - 1);
      WrapAdd(A, Wrap(B));
      WrapAdd(B, A);
      WrapDouble(A + B);
      LevelUnfold(codes, L - 1);
    }
  }

  /** Under the Kraft inequality, a used code's value is twice the previous level plus
      its rank, and stays below the level of its length. */
  lemma AssignedValue(codes: seq<BitCode>, i: nat)
    requires Kraft(codes) && i < |codes| && codes[i].len != 0
    ensures Assigned(codes)[i].val == 2 * Level(codes, codes[i].len - 1) + Rank(codes, i)
    ensures Assigned(codes)[i].val < Level(codes, codes[i].len)
  {
    var L: nat := codes[i].len;
    var v := FirstValue(codes, L) + Rank(codes, i);
    FirstValueExact(codes, L);
    RankBelowCount(codes, i);
    LevelBound(codes, L);
    Pow2Small(L);
    LevelUnfold(codes, L);
    AssignedAt(codes, i);
  }

  lemma LevelUnfold(codes: seq<BitCode>, L: nat)
    requires L >= 1
    ensures Level(codes, L) == 2 * Level(codes, L - 1) + Count(codes, L)
  {
  }

  lemma AssignedAt(codes: seq<BitCode>, i: nat)
    requires i < |codes| && codes[i].len != 0
    requires FirstValue(codes, codes[i].len) + Rank(codes, i) < U32
    ensures Assigned(codes)[i].val == FirstValue(codes, codes[i].len) + Rank(codes, i)
  {
  }

  // ---------------------------------------------------------------------------
  // What assignValues promises

  /** assignValues changes values only: every length is kept. */
  lemma AssignedLengths(codes: seq<BitCode>)
    ensures Lengths(Assigned(codes)) == Lengths(codes)
  {
  }

  /** Assigning values to bare lengths gives a canonical code, so assigning them a
      second time changes nothing. */
  lemma AssignedIsCanonical(lens: seq<nat>)
    requires forall i :: 0 <= i < |lens| ==> lens[i] <= MaxCodeLen
    ensures IsCanonical(Assigned(Unvalued(lens)))
    ensures Assigned(Assigned(Unvalued(lens))) == Assigned(Unvalued(lens))
  {
    var b := Unvalued(lens);
    var a := Assigned(b);
    AssignedLengths(b);
    forall i | 0 <= i < |a|
      ensures Assigned(a)[i] == a[i]
    {
      if a[i].len != 0 {
        NextSameLengths(a, b, i, a[i].len);
      }
    }
  }

  /** nextVal sees only the lengths. */
  lemma NextSameLengths(a: seq<BitCode>, b: seq<BitCode>, i: nat, L: nat)
    requires Lengths(a) == Lengths(b) && i <= |a| && L >= 1
    ensures Next(a, i, L) == Next(b, i, L)
  {
    CountSameLengths(a, b, i, L);
    LevelSameLengths(a, b, L - 1);
  }

  /** Count sees only the lengths. */
  lemma {:induction false} CountSameLengths(a: seq<BitCode>, b: seq<BitCode>, n: nat, L: nat)
    requires Lengths(a) == Lengths(b) && n <= |a|
    ensures Count(a[..n], L) == Count(b[..n], L)
  {
    if n > 0 {
      CountSameLengths(a, b, n - 1, L);
      assert a[..n][..n - 1] == a[..n - 1] && b[..n][..n - 1] == b[..n - 1];
      assert a[n - 1].len == Lengths(a)[n - 1] == b[n - 1].len;
    }
  }

  /** Level sees only the lengths. */
  lemma {:induction false} LevelSameLengths(a: seq<BitCode>, b: seq<BitCode>, L: nat)
    requires Lengths(a) == Lengths(b)
    ensures Level(a, L) == Level(b, L)
  {
    if L > 0 {
      LevelSameLengths(a, b, L - 1);
      CountSameLengths(a, b, |a|, L);
      assert a[..|a|] == a && b[..|b|] == b;
    }
  }

  /** Symbols of the same length get values in symbol order, each one more than the
      last: the later one exceeds the earlier by the number of such symbols from the
      earlier one up to the later (uint32 arithmetic). */
  lemma ConsecutiveValues(codes: seq<BitCode>, i: nat, j: nat)
    requires i < j < |codes| && codes[i].len == codes[j].len != 0
    ensures Assigned(codes)[j].val == Wrap(Assigned(codes)[i].val + Count(codes[i..j], codes[i].len))
  {
    var L: nat := codes[i].len;
    RankStep(codes, i, j);
    WrapAdd(FirstValue(codes, L) + Rank(codes, i), Count(codes[i..j], L));
  }

  /** The next symbol of the same length gets the next value. */
  lemma NextValue(codes: seq<BitCode>, i: nat, j: nat)
    requires i < j < |codes| && codes[i].len == codes[j].len != 0
    requires forall k :: i < k < j ==> codes[k].len != codes[i].len
    ensures Assigned(codes)[j].val == Wrap(Assigned(codes)[i].val + 1)
  {
    ConsecutiveValues(codes, i, j);
    var s := codes[i..j];
    CountPrefix(s, 1, |s|, codes[i].len);
    assert s[..|s|] == s;
    assert s[..1] == [codes[i]] && [codes[i]][..0] == [];
    NoneOfLength(s[1..], codes[i].len);
  }

  lemma {:induction false} NoneOfLength(s: seq<BitCode>, L: nat)
    requires forall k :: 0 <= k < |s| ==> s[k].len != L
    ensures Count(s, L) == 0
  {
    if s != [] {
      NoneOfLength(s[..|s| - 1], L);
    }
  }

  /** The geometric series of values: Wrap(f + 0), Wrap(f + 1), ..., Wrap(f + n - 1). */
  function Run(f: nat, n: nat): (r: seq<int>)
    ensures |r| == n
  {
    seq(n, k requires 0 <= k => Wrap(f + k))
  }

  /** Among the first j symbols, the values of the codes of length L, in symbol
      order, are the first value of L, then one more, and so on (uint32 arithmetic). */
  lemma ValuesInOrder(codes: seq<BitCode>, L: nat, j: nat)
    requires 1 <= L && j <= |codes|
    ensures ValuesOfLength(Assigned(codes)[..j], L) == Run(FirstValue(codes, L), Count(codes[..j], L))
  {
    AssignedCountsUp(codes, L);
    ValuesInOrderOf(codes, Assigned(codes), FirstValue(codes, L), L, j);
  }

  /** The induction behind ValuesInOrder, over any codes a whose lengths are those of
      codes and whose values of length L count up from f. */
  lemma {:induction false} ValuesInOrderOf(codes: seq<BitCode>, a: seq<BitCode>, f: nat, L: nat, j: nat)
    requires j <= |codes| && j <= |a|
    requires forall k :: 0 <= k < j ==> (a[k].len == L <==> codes[k].len == L)
    requires forall k :: 0 <= k < j && codes[k].len == L ==> a[k].val == Wrap(f + Count(codes[..k], L))
    ensures ValuesOfLength(a[..j], L) == Run(f, Count(codes[..j], L))
  {
    if j == 0 {
      assert a[..0] == [] && codes[..0] == [];
    } else {
      ValuesInOrderOf(codes, a, f, L, j - 1);
      CountStep(codes, j - 1);
      ValuesStep(a, j, L);
      if codes[j - 1].len == L {
        RunStep(f, Count(codes[..j - 1], L));
      }
    }
  }

  lemma ValuesStep(a: seq<BitCode>, j: nat, L: nat)
    requires 0 < j <= |a|
    ensures a[j - 1].len == L ==> ValuesOfLength(a[..j], L) == ValuesOfLength(a[..j - 1], L) + [a[j - 1].val]
    ensures a[j - 1].len != L ==> ValuesOfLength(a[..j], L) == ValuesOfLength(a[..j - 1], L)
  {
    assert a[..j][..j - 1] == a[..j - 1];
    var v := ValuesOfLength(a[..j - 1], L);
    assert v + [] == v;
  }

  /** The symbols of length L keep it and get the first value of L plus their rank. */
  lemma AssignedCountsUp(codes: seq<BitCode>, L: nat)
    requires 1 <= L
    ensures forall k :: 0 <= k < |codes| ==> (Assigned(codes)[k].len == L <==> codes[k].len == L)
    ensures forall k :: 0 <= k < |codes| && codes[k].len == L ==>
      Assigned(codes)[k].val == Wrap(FirstValue(codes, L) + Count(codes[..k], L))
  {
  }

  lemma RunStep(f: nat, n: nat)
    ensures Run(f, n + 1) == Run(f, n) + [Wrap(f + n)]
  {
  }

  lemma NoWrap(f: nat, n: nat)
    requires f + n <= U32
    ensures Run(f, n) == seq(n, k requires 0 <= k => f + k)
  {
    var s1, s2 := Run(f, n), seq(n, k requires 0 <= k => f + k);
    forall k | 0 <= k < n
      ensures s1[k] == s2[k]
    {
      assert s1[k] == Wrap(f + k);
      assert f + k < U32;
    }
  }

  /** The codes of each length L get the values first(L), first(L) + 1, ... in symbol
      order, one per symbol of that length; under the Kraft inequality none of these
      wraps around. */
  lemma ValuesOfEachLength(codes: seq<BitCode>, L: nat)
    requires 1 <= L
    ensures ValuesOfLength(Assigned(codes), L) == Run(FirstValue(codes, L), Count(codes, L))
    ensures Kraft(codes) && L <= MaxCodeLen ==>
      ValuesOfLength(Assigned(codes), L) == seq(Count(codes, L), k requires 0 <= k => FirstValue(codes, L) + k)
  {
    ValuesInOrder(codes, L, |codes|);
    assert Assigned(codes)[..|codes|] == Assigned(codes) && codes[..|codes|] == codes;
    if Kraft(codes) && L <= MaxCodeLen {
      FirstValueExact(codes, L);
      LevelBound(codes, L);
      Pow2Small(L);
      LevelUnfold(codes, L);
      var f, n := FirstValue(codes, L), Count(codes, L);
      assert f + n <= Level(codes, L);
      NoWrap(f, n);
    }
  }

  /** Under the Kraft inequality each value fits in its length. */
  lemma CanonicalFits(codes: seq<BitCode>, i: nat)
    requires Kraft(codes) && i < |codes| && codes[i].len != 0
    ensures Assigned(codes)[i].val < Pow2(codes[i].len)
  {
    AssignedValue(codes, i);
    LevelBound(codes, codes[i].len);
  }

  lemma NotPrefix(codes: seq<BitCode>, i: nat, j: nat)
    requires Kraft(codes) && i < |codes| && j < |codes| && i != j
    ensures !IsPrefix(Assigned(codes)[i], Assigned(codes)[j])
  {
    var a := Assigned(codes);
    if 0 < codes[i].len <= codes[j].len {
      AssignedValue(codes, i);
      AssignedValue(codes, j);
      Separate(codes, i, j, a[i].val, a[j].val);
    }
  }

  /** The arithmetic core of prefix-freeness: a canonical value of length lj, cut down
      to li <= lj bits, differs from every other canonical value of length li. */
  lemma Separate(codes: seq<BitCode>, i: nat, j: nat, vi: nat, vj: nat)
    requires Kraft(codes) && i < |codes| && j < |codes| && i != j
    requires 0 < codes[i].len <= codes[j].len
    requires vi == 2 * Level(codes, codes[i].len - 1) + Rank(codes, i) && vi < Level(codes, codes[i].len)
    requires vj == 2 * Level(codes, codes[j].len - 1) + Rank(codes, j)
    ensures Shr(vj, codes[j].len - codes[i].len) != vi
  {
    var li: nat, lj: nat := codes[i].len, codes[j].len;
    if li == lj {
      if i < j {
        RankStep(codes, i, j);
      } else {
        RankStep(codes, j, i);
      }
      ShrZero(vj);
    } else {
      ShiftAbove(codes, li, lj, vj);
    }
  }

  lemma ShrZero(x: nat)
    ensures Shr(x, 0) == x
  {
  }

  /** A value at or above the first value of a longer length lj, cut down to li bits,
      is still at least level li: above every value of length li. */
  lemma ShiftAbove(codes: seq<BitCode>, li: nat, lj: nat, v: nat)
    requires li < lj && v >= 2 * Level(codes, lj - 1)
    ensures Shr(v, lj - li) >= Level(codes, li)
  {
    LevelGrow(codes, li, lj - 1);
    var p, k := Pow2(lj - 1 - li), Level(codes, li);
    assert Pow2(lj - li) == 2 * p;
    MulDouble(p, k);
    DivAtLeast(v, Pow2(lj - li), k);
  }

  /** Under the Kraft inequality the canonical code is a prefix code: no used code's
      bits, most significant first, begin another's. */
  lemma CanonicalPrefixFree(codes: seq<BitCode>)
    requires Kraft(codes)
    ensures PrefixFree(Assigned(codes))
  {
    forall i, j | 0 <= i < |codes| && 0 <= j < |codes| && i != j
      ensures !IsPrefix(Assigned(codes)[i], Assigned(codes)[j])
    {
      NotPrefix(codes, i, j);
    }
  }
}
