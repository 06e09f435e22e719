// The set of characters a font needs, kept as a bitmap, written out as a list of ranges and read
// back in.
module GlyphRanges {

  const CODEPOINTS := 0x10000
  const WORDS := 2048

  // --- Bits in words ---------------------------------------------------------------

  function Mask(n: nat): bv32 {
    (1 as bv32) << ((n % 32) as bv6)
  }

  function WithBit(w: bv32, n: nat): bv32 {
    w | Mask(n)
  }

  predicate Bit(words: seq<bv32>, n: nat)
    requires n / 32 < |words|
  {
    words[n / 32] & Mask(n) != 0
  }

  lemma MasksDiffer(a: bv6, b: bv6)
    requires a < 32 && b < 32
    ensures a != b ==> ((1 as bv32) << a) & ((1 as bv32) << b) == 0
    ensures (1 as bv32) << a != 0
  {
  }

  lemma OrElsewhere(w: bv32, x: bv32, y: bv32)
    ensures x & y == 0 ==> (w | x) & y == w & y
    ensures (w | x) & x == x
  {
  }

  lemma AmountsDiffer(m: nat, n: nat)
    ensures (m % 32) as bv6 < 32 && ((m % 32) as bv6 == (n % 32) as bv6 <==> m % 32 == n % 32)
  {
    assert ((m % 32) as bv6) as int == m % 32;
    assert ((n % 32) as bv6) as int == n % 32;
  }

  // Setting one bit sets that bit and no other.
  lemma SetOneBit(words: seq<bv32>, m: nat, n: nat)
    requires m / 32 < |words| && n / 32 < |words|
    ensures Bit(words[m / 32 := WithBit(words[m / 32], m)], n) <==> m == n || Bit(words, n)
  {
    AmountsDiffer(m, n);
    AmountsDiffer(n, m);
    MasksDiffer((m % 32) as bv6, (n % 32) as bv6);
    OrElsewhere(words[m / 32], Mask(m), Mask(n));
  }

  // --- Ranges of a set -------------------------------------------------------------

  // The last element of the run that n is in.
  function RunEnd(bits: seq<bool>, n: nat): (e: nat)
    requires n < |bits| && bits[n]
    ensures n <= e < |bits| && (forall k :: n <= k <= e ==> bits[k])
    ensures e + 1 < |bits| ==> !bits[e + 1]
    decreases |bits| - n
  {
    if n + 1 < |bits| && bits[n + 1] then RunEnd(bits, n + 1) else n
  }

  // Two numbers for every run from n on, and a zero at the end.
  function Ranges(bits: seq<bool>, n: nat): seq<int>
    requires n <= |bits|
    decreases |bits| - n
  {
    if n == |bits| then [0]
    else if bits[n] then
      var e := RunEnd(bits, n);
      [n, e] + Ranges(bits, e + 1)
    else Ranges(bits, n + 1)
  }

  // A list of ranges from position i on covers a number.
  predicate Covers(rs: seq<int>, x: int)
    decreases |rs|
  {
    |rs| >= 2 && (rs[0] <= x <= rs[1] || Covers(rs[2..], x))
  }

  // Pairs in order with gaps between them, none below the limit, and a final zero.
  predicate Ordered(rs: seq<int>, limit: int)
    decreases |rs|
  {
    if |rs| < 2 then rs == [0]
    else limit <= rs[0] <= rs[1] && Ordered(rs[2..], rs[1] + 2)
  }

  // The list covers exactly the set, in order, with no two ranges overlapping or touching.
  lemma {:induction false} RangesAreExact(bits: seq<bool>, n: nat)
    requires n <= |bits|
    ensures Ordered(Ranges(bits, n), n)
    ensures forall x :: n <= x < |bits| ==> (Covers(Ranges(bits, n), x) <==> bits[x])
    ensures forall x :: x < n || |bits| <= x ==> !Covers(Ranges(bits, n), x)
    decreases |bits| - n
  {
    if n < |bits| {
      if bits[n] {
        var e := RunEnd(bits, n);
        RangesAreExact(bits, e + 1);
        var rest := Ranges(bits, e + 1);
        assert ([n, e] + rest)[2..] == rest;
        if e + 1 < |bits| {
          assert Ranges(bits, e + 1) == Ranges(bits, e + 2);
          RangesAreExact(bits, e + 2);
        } else {
          assert rest == [0];
        }
      } else {
        RangesAreExact(bits, n + 1);
        Loosen(Ranges(bits, n + 1), n + 1, n);
      }
    }
  }

  lemma Loosen(rs: seq<int>, limit: int, lower: int)
    requires Ordered(rs, limit) && lower <= limit
    ensures Ordered(rs, lower)
  {
  }

  // And it is the only such list: ordered lists that cover the same numbers are equal.
  lemma {:induction false} OrderedCoverIsUnique(a: seq<int>, b: seq<int>, limit: int)
    requires Ordered(a, limit) && Ordered(b, limit)
    requires forall x :: Covers(a, x) <==> Covers(b, x)
    ensures a == b
    decreases |a|
  {
    if |a| < 2 {
      if |b| >= 2 {
        assert Covers(b, b[0]);
      }
    } else {
      assert Covers(a, a[0]) && Covers(a, a[1]);
      assert |b| >= 2;
      assert Covers(b, b[0]) && Covers(b, b[1]);
      NothingBelow(a[2..], a[1] + 2);
      NothingBelow(b[2..], b[1] + 2);
      NothingBelow(a, a[0]);
      NothingBelow(b, b[0]);
      assert a[0] == b[0];
      assert !Covers(a, a[1] + 1) && !Covers(b, b[1] + 1);
      assert !Covers(b, a[1] + 1) && !Covers(a, b[1] + 1);
      assert a[1] == b[1];
      forall x ensures Covers(a[2..], x) <==> Covers(b[2..], x) {
        assert Covers(a, x) <==> Covers(b, x);
      }
      OrderedCoverIsUnique(a[2..], b[2..], a[1] + 2);
      assert a == [a[0], a[1]] + a[2..] && b == [b[0], b[1]] + b[2..];
    }
  }

  lemma {:induction false} NothingBelow(rs: seq<int>, limit: int)
    requires Ordered(rs, limit)
    ensures forall x :: x < limit ==> !Covers(rs, x)
    decreases |rs|
  {
    if |rs| >= 2 {
      NothingBelow(rs[2..], rs[1] + 2);
    }
  }

  // --- Reading ranges back ---------------------------------------------------------

  datatype Outcome = Set(bits: seq<bool>) | Endless

  function WithRange(bits: seq<bool>, lo: int, hi: int): seq<bool> {
    seq(|bits|, k requires 0 <= k < |bits| => bits[k] || lo <= k <= hi)
  }

  // A list that ends: a zero where a range would begin.
  predicate Closed(rs: seq<int>)
    decreases |rs|
  {
    |rs| > 0 && (rs[0] == 0 || (|rs| >= 2 && Closed(rs[2..])))
  }

  // One step of the loop's counter, which has sixteen bits and wraps around, and n steps.
  function Next(c: int): (d: int)
    ensures 0 <= d < CODEPOINTS
  {
    (c + 1) % CODEPOINTS
  }

  function Counter(lo: int, n: nat): int {
    if n == 0 then lo else Next(Counter(lo, n - 1))
  }

  lemma {:induction false} CounterReaches(lo: int, n: nat)
    requires 0 <= lo && lo + n < CODEPOINTS
    ensures Counter(lo, n) == lo + n
  {
    if n > 0 {
      CounterReaches(lo, n - 1);
    }
  }

  // The loop's condition holds turn after turn, for ever.
  ghost predicate NeverEnds(lo: int, hi: int) {
    forall n: nat :: Counter(lo, n) <= hi
  }

  lemma NeverEndsIff(lo: int, hi: int)
    requires 0 <= lo < CODEPOINTS
    ensures NeverEnds(lo, hi) <==> CODEPOINTS - 1 <= hi
  {
    CounterReaches(lo, CODEPOINTS - 1 - lo);
    if CODEPOINTS - 1 <= hi {
      forall n: nat ensures Counter(lo, n) <= hi {
      }
    }
  }

  // Adding the ranges one by one, up to a range whose loop never ends.
  ghost function Added(bits: seq<bool>, rs: seq<int>): Outcome
    requires Closed(rs)
    decreases |rs|
  {
    if rs[0] == 0 then Set(bits)
    else if NeverEnds(rs[0], rs[1]) then Endless
    else Added(WithRange(bits, rs[0], rs[1]), rs[2..])
  }

  lemma {:induction false} OrderedIsClosed(rs: seq<int>, limit: int)
    requires Ordered(rs, limit)
    ensures Closed(rs)
    decreases |rs|
  {
    if |rs| >= 2 {
      OrderedIsClosed(rs[2..], rs[1] + 2);
    }
  }

  // Positive ordered ranges that stop short of the largest number are added in full.
  lemma {:induction false} AddedCovers(bits: seq<bool>, rs: seq<int>, limit: int)
    requires Ordered(rs, limit) && 1 <= limit && Closed(rs) && |bits| == CODEPOINTS
    requires forall x :: Covers(rs, x) ==> x < CODEPOINTS
    ensures if Covers(rs, CODEPOINTS - 1) then Added(bits, rs) == Endless
            else Added(bits, rs).Set? && |Added(bits, rs).bits| == CODEPOINTS
                 && forall k :: 0 <= k < CODEPOINTS ==> (Added(bits, rs).bits[k] <==> bits[k] || Covers(rs, k))
    decreases |rs|
  {
    if |rs| >= 2 {
      assert Covers(rs, rs[1]);
      NeverEndsIff(rs[0], rs[1]);
      if rs[1] < CODEPOINTS - 1 {
        forall x | Covers(rs[2..], x) ensures x < CODEPOINTS {
          assert Covers(rs, x);
        }
        AddedCovers(WithRange(bits, rs[0], rs[1]), rs[2..], rs[1] + 2);
      }
    }
  }

  function Cleared(): (bits: seq<bool>)
    ensures |bits| == CODEPOINTS && forall k :: 0 <= k < CODEPOINTS ==> !bits[k]
  {
    seq(CODEPOINTS, k => false)
  }

  // Building ranges and adding them to a cleared builder gives the same set exactly when it holds
  // neither zero nor the largest number: zero in front ends the list before it starts, and the
  // largest number at the end never lets the reader finish.
  lemma RoundTripIff(bits: seq<bool>)
    requires |bits| == CODEPOINTS
    ensures Closed(Ranges(bits, 0))
    ensures Added(Cleared(), Ranges(bits, 0)) == Set(bits) <==> !bits[0] && !bits[CODEPOINTS - 1]
    ensures bits[0] ==> Added(Cleared(), Ranges(bits, 0)) == Set(Cleared())
    ensures !bits[0] && bits[CODEPOINTS - 1] ==> Added(Cleared(), Ranges(bits, 0)) == Endless
  {
    var rs := Ranges(bits, 0);
    RangesAreExact(bits, 0);
    OrderedIsClosed(rs, 0);
    if bits[0] {
      assert rs[0] == 0;
      assert Cleared()[0] != bits[0];
    } else {
      assert rs == Ranges(bits, 1);
      RangesAreExact(bits, 1);
      AddedCovers(Cleared(), rs, 1);
      var r := Added(Cleared(), rs);
      if !bits[CODEPOINTS - 1] {
        assert r.bits == bits by {
          forall k | 0 <= k < CODEPOINTS ensures r.bits[k] == bits[k] {
            assert Covers(rs, k) <==> bits[k];
          }
        }
      }
    }
  }

  // --- The builder -------------------------------------------------------------------

  type char16 = x: int | 0 <= x < CODEPOINTS

  function BitsOf(words: seq<bv32>): (bits: seq<bool>)
    requires |words| == WORDS
    ensures |bits| == CODEPOINTS && forall n :: 0 <= n < CODEPOINTS ==> bits[n] == Bit(words, n)
  {
    seq(CODEPOINTS, n requires 0 <= n < CODEPOINTS => Bit(words, n))
  }

  lemma NoBits(words: seq<bv32>)
    requires |words| == WORDS && forall k :: 0 <= k < WORDS ==> words[k] == 0
    ensures BitsOf(words) == Cleared()
  {
    hide Mask;
    forall n | 0 <= n < CODEPOINTS ensures !BitsOf(words)[n] {
      NothingAnd(Mask(n));
    }
  }

  lemma NothingAnd(m: bv32)
    ensures 0 & m == 0
  {
  }

  lemma BitsAfterSet(words: seq<bv32>, m: char16)
    requires |words| == WORDS
    ensures BitsOf(words[m / 32 := WithBit(words[m / 32], m)]) == BitsOf(words)[m := true]
  {
    hide Bit, WithBit;
    var words' := words[m / 32 := WithBit(words[m / 32], m)];
    forall k | 0 <= k < CODEPOINTS ensures BitsOf(words')[k] == BitsOf(words)[m := true][k] {
      SetOneBit(words, m, k);
    }
  }

  class Builder {
    const usedChars: array<bv32>

    constructor ()
      ensures Valid() && fresh(usedChars) && Bits() == Cleared()
    {
      usedChars := new bv32[WORDS](i => 0);
      new;
      NoBits(usedChars[..]);
    }

    ghost predicate Valid() {
      usedChars.Length == WORDS
    }

    // The set the words stand for.
    ghost function Bits(): (bits: seq<bool>)
      requires Valid()
      reads usedChars
      ensures |bits| == CODEPOINTS
    {
      BitsOf(usedChars[..])
    }

    method GetBit(n: char16) returns (r: bool)
      requires Valid()
      ensures r == Bits()[n]
    {
      var off, mask := n / 32, Mask(n);
      r := usedChars[off] & mask != 0;
    }

    method SetBit(n: char16)
      requires Valid()
      modifies usedChars
      ensures Bits() == old(Bits())[n := true]
    {
      BitsAfterSet(usedChars[..], n);
      hide WithBit, BitsOf;
      ghost var words := usedChars[..];
      var off := n / 32;
      usedChars[off] := WithBit(usedChars[off], n);
      assert usedChars[..] == words[off := WithBit(words[off], n)];
    }

    // False stands for never coming back: the inner loop would turn for ever.
    method AddRanges(ranges: seq<char16>) returns (ends: bool)
      requires Valid() && Closed(ranges)
      modifies usedChars
      ensures ends <==> Added(old(Bits()), ranges).Set?
      ensures ends ==> Added(old(Bits()), ranges) == Set(Bits())
    {
      var i := 0;
      assert ranges[0..] == ranges;
      while ranges[i] != 0
        invariant 0 <= i < |ranges| && Closed(ranges[i..])
        invariant Added(old(Bits()), ranges) == Added(Bits(), ranges[i..])
        decreases |ranges| - i
      {
        assert ranges[i..][2..] == ranges[i + 2..];
        NeverEndsIff(ranges[i], ranges[i + 1]);
        if ranges[i + 1] == CODEPOINTS - 1 {
          return false;
        }
        ghost var bits := Bits();
        var c: char16 := ranges[i];
        assert Bits() == WithRange(bits, ranges[i], c - 1);
        while c <= ranges[i + 1]
          invariant ranges[i] <= c && (c <= ranges[i + 1] + 1 || c == ranges[i])
          invariant Bits() == WithRange(bits, ranges[i], c - 1)
        {
          SetBit(c);
          c := Next(c);
        }
        assert Bits() == WithRange(bits, ranges[i], ranges[i + 1]);
        i := i + 2;
      }
      return true;
    }

    // The inner loop: n moves to the end of its run.
    method SkipRun(start: char16) returns (n: char16)
      requires Valid() && Bits()[start]
      ensures n == RunEnd(Bits(), start)
    {
      n := start;
      while n < CODEPOINTS - 1
        invariant Bits()[n] && RunEnd(Bits(), start) == RunEnd(Bits(), n)
      {
        var next := GetBit(n + 1);
        if !next {
          break;
        }
        n := n + 1;
      }
    }

    method BuildRanges(outRanges: seq<int>) returns (out: seq<int>)
      requires Valid()
      ensures out == outRanges + Ranges(Bits(), 0)
    {
      hide BitsOf, RunEnd, Ranges;
      out := outRanges;
      var n := 0;
      while n <= CODEPOINTS - 1
        invariant 0 <= n <= CODEPOINTS
        invariant out + Ranges(Bits(), n) == outRanges + Ranges(Bits(), 0)
      {
        var used := GetBit(n);
        RangesFrom(Bits(), n, out);
        if used {
          out := out + [n];
          n := SkipRun(n);
          out := out + [n];
        }
        n := n + 1;
      }
      RangesEnd(Bits());
      out := out + [0];
    }
  }

  lemma RangesFrom(bits: seq<bool>, n: nat, out: seq<int>)
    requires n < |bits|
    ensures out + Ranges(bits, n)
         == if bits[n] then out + [n] + [RunEnd(bits, n)] + Ranges(bits, RunEnd(bits, n) + 1)
            else out + Ranges(bits, n + 1)
  {
  }

  lemma RangesEnd(bits: seq<bool>)
    ensures Ranges(bits, |bits|) == [0]
  {
  }
}
