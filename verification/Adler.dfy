// The checksum of RFC 1950, computed in blocks with the modulo put off to the end of each block.
module Adler {

  type byte = x: int | 0 <= x < 256
  newtype uint32 = x: int | 0 <= x < 0x1_0000_0000

  const MODULUS := 65521
  const BLOCK := 5552

  // --- The definition: section 2.2 of RFC 1950, byte by byte ---------------------------

  datatype Sums = Sums(s1: int, s2: int)

  function Add(s: Sums, b: int): Sums {
    var s1 := (s.s1 + b) % MODULUS;
    Sums(s1, (s.s2 + s1) % MODULUS)
  }

  function AddAll(s: Sums, data: seq<byte>): Sums {
    if data == [] then s else Add(AddAll(s, data[..|data| - 1]), data[|data| - 1])
  }

  function Unpack(adler: int): Sums {
    Sums(adler % 0x10000, adler / 0x10000)
  }

  function Pack(s: Sums): int {
    s.s2 * 0x10000 + s.s1
  }

  function Adler32(adler: int, data: seq<byte>): int {
    Pack(AddAll(Unpack(adler), data))
  }

  // What the sums are worth: the bytes added up, and each byte as often as it has been summed.
  function Total(data: seq<byte>): int {
    if data == [] then 0 else Total(data[..|data| - 1]) + data[|data| - 1]
  }

  function Weighted(data: seq<byte>): int {
    if data == [] then 0 else Weighted(data[..|data| - 1]) + Total(data)
  }

  lemma ModAdd(a: int, b: int)
    ensures (a % MODULUS + b) % MODULUS == (a + b) % MODULUS
    ensures (b + a % MODULUS) % MODULUS == (a + b) % MODULUS
  {
    assert a == a / MODULUS * MODULUS + a % MODULUS;
    ModShift(a % MODULUS + b, a / MODULUS);
  }

  lemma {:induction false} ModShift(a: int, k: int)
    ensures (a + k * MODULUS) % MODULUS == a % MODULUS
    decreases if k < 0 then -k else k
  {
    if k > 0 {
      ModShift(a + MODULUS, k - 1);
    } else if k < 0 {
      ModShift(a - MODULUS, k + 1);
    }
  }

  lemma {:induction false} SumsAreTotals(s: Sums, data: seq<byte>)
    requires data != []
    ensures AddAll(s, data) == Sums((s.s1 + Total(data)) % MODULUS,
                                    (s.s2 + |data| * s.s1 + Weighted(data)) % MODULUS)
    decreases |data|
  {
    var front, b := data[..|data| - 1], data[|data| - 1];
    var x, t := s.s2 + |front| * s.s1 + Weighted(front), s.s1 + Total(data);
    OneMoreTerm(s.s2, s.s1, |front|, Weighted(front), Total(data));
    if front == [] {
      ModAdd(t, s.s2);
    } else {
      SumsAreTotals(s, front);
      ModAdd(s.s1 + Total(front), b);
      ModSum(x, t);
    }
  }

  lemma ModSum(x: int, t: int)
    ensures (x % MODULUS + t % MODULUS) % MODULUS == (x + t) % MODULUS
  {
    ModAdd(x, t % MODULUS);
    ModAdd(t, x);
  }

  lemma OneMoreTerm(a: int, s: int, n: int, w: int, t: int)
    ensures a + (n + 1) * s + (w + t) == (a + n * s + w) + (s + t)
  {
  }

  lemma {:induction false} AddAllSplits(s: Sums, a: seq<byte>, b: seq<byte>)
    ensures AddAll(s, a + b) == AddAll(AddAll(s, a), b)
    decreases |b|
  {
    if b == [] {
      assert a + b == a;
    } else {
      AddAllSplits(s, a, b[..|b| - 1]);
      assert (a + b)[..|a + b| - 1] == a + b[..|b| - 1];
    }
  }

  lemma {:induction false} SumsStaySmall(s: Sums, data: seq<byte>)
    requires 0 <= s.s1 < 0x10000 && 0 <= s.s2 < 0x10000
    ensures var t := AddAll(s, data);
            0 <= t.s1 < 0x10000 && 0 <= t.s2 < 0x10000 && (data != [] ==> t.s1 < MODULUS && t.s2 < MODULUS)
    decreases |data|
  {
    if data != [] {
      SumsStaySmall(s, data[..|data| - 1]);
    }
  }

  // A checksum can be taken in pieces.
  lemma ChecksumInPieces(adler: int, a: seq<byte>, b: seq<byte>)
    requires 0 <= adler < 0x1_0000_0000
    ensures Adler32(Adler32(adler, a), b) == Adler32(adler, a + b)
  {
    AddAllSplits(Unpack(adler), a, b);
    SumsStaySmall(Unpack(adler), a);
    var t := AddAll(Unpack(adler), a);
    assert Unpack(Pack(t)) == t;
  }

  // --- The blocked loop --------------------------------------------------------------

  // How large the sums can get after n bytes of a block, starting below 0x10000.
  function Bound1(n: nat): int {
    0xffff + 255 * n
  }

  function Bound2(n: nat): int {
    if n == 0 then 0xffff else Bound2(n - 1) + Bound1(n)
  }

  lemma {:induction false} BoundInClosedForm(n: nat)
    ensures 2 * Bound2(n) == 2 * 0xffff * (n + 1) + 255 * n * (n + 1)
  {
    if n > 0 {
      BoundInClosedForm(n - 1);
      assert 255 * n * (n + 1) == 255 * (n - 1) * n + 2 * 255 * n by {
        assert 255 * n * (n + 1) == 255 * n * (n - 1) + 255 * n * 2;
      }
    }
  }

  // 5552 bytes are not too many, even for sums that have not been reduced at first.
  lemma NoOverflow(n: nat)
    requires n <= BLOCK
    ensures Bound1(n) <= Bound2(n) < 0x1_0000_0000
  {
    BoundInClosedForm(n);
    BoundGrows(n, BLOCK);
    BoundInClosedForm(BLOCK);
    BoundGrows(0, n);
  }

  lemma {:induction false} BoundGrows(m: nat, n: nat)
    requires m <= n
    ensures Bound2(m) + (if m < n then Bound1(n) else 0) <= Bound2(n) && Bound1(n) <= Bound2(n)
    decreases n
  {
    if m < n {
      BoundGrows(m, n - 1);
    } else if m > 0 {
      BoundGrows(m - 1, m - 1);
    }
  }

  // The running sums stand for the reduced ones and are below the bounds.
  ghost predicate Stands(s1: uint32, s2: uint32, s: Sums, n: nat) {
    && s1 as int <= Bound1(n) && s2 as int <= Bound2(n)
    && s1 as int % MODULUS == s.s1 % MODULUS && s2 as int % MODULUS == s.s2 % MODULUS
  }

  method AddByte(s1: uint32, s2: uint32, b: byte, ghost s: Sums, ghost n: nat) returns (t1: uint32, t2: uint32)
    requires Stands(s1, s2, s, n) && n < BLOCK
    ensures Stands(t1, t2, Add(s, b), n + 1)
  {
    NoOverflow(n + 1);
    SumsAgree(s1 as int, s2 as int, s, b);
    t1 := s1 + b as uint32;
    t2 := s2 + t1;
  }

  lemma SumsAgree(s1: int, s2: int, s: Sums, b: byte)
    requires s1 % MODULUS == s.s1 % MODULUS && s2 % MODULUS == s.s2 % MODULUS
    ensures (s1 + b) % MODULUS == Add(s, b).s1 % MODULUS
    ensures (s2 + (s1 + b)) % MODULUS == Add(s, b).s2 % MODULUS
  {
    SameSum(s1, s.s1, b, b);
    SameSum(s2, s.s2, s1 + b, (s.s1 + b) % MODULUS);
  }

  lemma SameSum(a: int, b: int, c: int, d: int)
    requires a % MODULUS == b % MODULUS && c % MODULUS == d % MODULUS
    ensures (a + c) % MODULUS == (b + d) % MODULUS
  {
    ModAdd(a, c);
    ModAdd(c, b % MODULUS);
    ModAdd(d, b % MODULUS);
    ModAdd(b, d);
  }

  // Eight bytes written out one after the other.
  method AddEight(s1: uint32, s2: uint32, buffer: array<byte>, p: nat, ghost s: Sums, ghost n: nat)
      returns (t1: uint32, t2: uint32)
    requires p + 8 <= buffer.Length && n + 8 <= BLOCK && Stands(s1, s2, s, n)
    ensures Stands(t1, t2, AddAll(s, buffer[p..p + 8]), n + 8)
  {
    hide Stands;
    AddOnes(s, buffer[p..p + 8]);
    t1, t2 := AddByte(s1, s2, buffer[p], s, n);
    ghost var a := Add(s, buffer[p]);
    t1, t2 := AddByte(t1, t2, buffer[p + 1], a, n + 1);
    a := Add(a, buffer[p + 1]);
    t1, t2 := AddByte(t1, t2, buffer[p + 2], a, n + 2);
    a := Add(a, buffer[p + 2]);
    t1, t2 := AddByte(t1, t2, buffer[p + 3], a, n + 3);
    a := Add(a, buffer[p + 3]);
    t1, t2 := AddByte(t1, t2, buffer[p + 4], a, n + 4);
    a := Add(a, buffer[p + 4]);
    t1, t2 := AddByte(t1, t2, buffer[p + 5], a, n + 5);
    a := Add(a, buffer[p + 5]);
    t1, t2 := AddByte(t1, t2, buffer[p + 6], a, n + 6);
    a := Add(a, buffer[p + 6]);
    t1, t2 := AddByte(t1, t2, buffer[p + 7], a, n + 7);
  }

  lemma AddOnes(s: Sums, d: seq<byte>)
    requires |d| == 8
    ensures AddAll(s, d) == Add(Add(Add(Add(Add(Add(Add(Add(s, d[0]), d[1]), d[2]), d[3]), d[4]), d[5]), d[6]), d[7])
  {
    hide Add;
    AddMore(s, d, 7);
    AddMore(s, d, 6);
    AddMore(s, d, 5);
    AddMore(s, d, 4);
    AddMore(s, d, 3);
    AddMore(s, d, 2);
    AddMore(s, d, 1);
    AddMore(s, d, 0);
    assert d[..8] == d;
  }

  lemma AddMore(s: Sums, d: seq<byte>, k: nat)
    requires k < |d|
    ensures AddAll(s, d[..k + 1]) == Add(AddAll(s, d[..k]), d[k])
    ensures AddAll(s, d[..0]) == s
  {
    assert d[..k + 1][..k] == d[..k];
  }

  lemma AddNone(s: Sums)
    ensures AddAll(s, []) == s
  {
  }

  lemma AddEightMore(s: Sums, d: seq<byte>, p: nat, i: nat)
    requires p + i + 8 <= |d|
    ensures AddAll(s, d[p..p + (i + 8)]) == AddAll(AddAll(s, d[p..p + i]), d[p + i..p + i + 8])
  {
    AddAllSplits(s, d[p..p + i], d[p + i..p + i + 8]);
    assert d[p..p + i] + d[p + i..p + i + 8] == d[p..p + (i + 8)];
  }

  // One block: the sums grow unreduced, eight bytes at a time and then one at a time.
  method AddBlock(s1: uint32, s2: uint32, buffer: array<byte>, p: nat, blockLen: nat, ghost s: Sums)
      returns (t1: uint32, t2: uint32)
    requires p + blockLen <= buffer.Length && blockLen <= BLOCK && Stands(s1, s2, s, 0)
    ensures Stands(t1, t2, AddAll(s, buffer[p..p + blockLen]), blockLen)
  {
    hide Stands, Add, AddAll;
    t1, t2 := s1, s2;
    AddNone(s);
    assert buffer[p..p + 0] == [];
    var i := 0;
    while i + 7 < blockLen
      invariant 0 <= i <= blockLen
      invariant Stands(t1, t2, AddAll(s, buffer[p..p + i]), i)
    {
      ghost var a := AddAll(s, buffer[p..p + i]);
      AddEightMore(s, buffer[..], p, i);
      t1, t2 := AddEight(t1, t2, buffer, p + i, a, i);
      i := i + 8;
    }
    while i < blockLen
      invariant 0 <= i <= blockLen
      invariant Stands(t1, t2, AddAll(s, buffer[p..p + i]), i)
    {
      ghost var a := AddAll(s, buffer[p..p + i]);
      AddMore(s, buffer[p..p + blockLen], i);
      assert buffer[p..p + blockLen][..i] == buffer[p..p + i];
      assert buffer[p..p + blockLen][..i + 1] == buffer[p..p + (i + 1)];
      t1, t2 := AddByte(t1, t2, buffer[p + i], a, i);
      i := i + 1;
    }
  }

  // The checksum of a buffer of any length, from any checksum so far: no sum leaves 32 bits on the
  // way, and the result is the definition's. A first block may be empty.
  method Checksum(adler: uint32, buffer: array<byte>, len: nat) returns (r: uint32)
    requires len <= buffer.Length
    ensures r as int == Adler32(adler as int, buffer[..len])
  {
    hide Stands, AddAll, Add;
    ghost var start := Unpack(adler as int);
    var s1, s2 := adler % 0x10000, adler / 0x10000;
    StartStands(s1, s2, start, buffer[..0]);
    var blockLen := len % BLOCK;
    var left := len;
    var p := 0;
    while left > 0
      invariant 0 <= p <= len && left == len - p
      invariant blockLen == left % BLOCK || (blockLen == BLOCK && left % BLOCK == 0)
      invariant Stands(s1, s2, AddAll(start, buffer[..p]), 0)
      invariant p > 0 || len == 0 ==> Sums(s1 as int, s2 as int) == AddAll(start, buffer[..p])
      decreases left, if blockLen == 0 then 1 else 0
    {
      s1, s2 := AddReduced(s1, s2, buffer, p, blockLen, start);
      p := p + blockLen;
      left := left - blockLen;
      blockLen := BLOCK;
    }
    SumsStaySmall(start, buffer[..len]);
    r := s2 * 0x10000 + s1;
  }

  lemma StartStands(s1: uint32, s2: uint32, s: Sums, none: seq<byte>)
    requires s1 as int == s.s1 < 0x10000 && s2 as int == s.s2 < 0x10000 && none == []
    ensures AddAll(s, none) == s && Stands(s1, s2, s, 0)
  {
  }

  method AddReduced(s1: uint32, s2: uint32, buffer: array<byte>, p: nat, blockLen: nat, ghost start: Sums)
      returns (t1: uint32, t2: uint32)
    requires p + blockLen <= buffer.Length && blockLen <= BLOCK && Stands(s1, s2, AddAll(start, buffer[..p]), 0)
    requires 0 <= start.s1 < 0x10000 && 0 <= start.s2 < 0x10000
    ensures Stands(t1, t2, AddAll(start, buffer[..p + blockLen]), 0)
    ensures p + blockLen > 0 ==> Sums(t1 as int, t2 as int) == AddAll(start, buffer[..p + blockLen])
  {
    hide AddAll, Add;
    ghost var s := AddAll(start, buffer[..p]);
    t1, t2 := AddBlock(s1, s2, buffer, p, blockLen, s);
    AddAllSplits(start, buffer[..p], buffer[p..p + blockLen]);
    assert buffer[..p] + buffer[p..p + blockLen] == buffer[..p + blockLen];
    SumsStaySmall(start, buffer[..p + blockLen]);
    t1, t2 := t1 % MODULUS as uint32, t2 % MODULUS as uint32;
  }
}
