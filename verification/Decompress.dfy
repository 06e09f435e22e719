// The decompressor of embedded font data: a byte stream of literals and matches, against what
// the tokens mean, and the bounds its writes keep whatever the stream says.
module Decompress {
  import opened Common
  import opened Adler

  // Where the compressed stream is read from. Nothing marks its end but its own end token.
  type Memory = int -> byte

  datatype Token = Literal(bytes: seq<byte>) | Match(dist: int, len: nat) | Stop

  datatype Read = Read(token: Token, next: int)

  function In2(mem: Memory, x: int): int {
    mem(x) * 0x100 + mem(x + 1)
  }

  function In3(mem: Memory, x: int): int {
    mem(x) * 0x10000 + In2(mem, x + 1)
  }

  function In4(mem: Memory, x: int): int {
    mem(x) * 0x1000000 + In3(mem, x + 1)
  }

  function Bytes(mem: Memory, x: int, n: nat): (bs: seq<byte>)
    ensures |bs| == n && forall k :: 0 <= k < n ==> bs[k] == mem(x + k)
  {
    seq(n, k => mem(x + k))
  }

  // The token at a position and the position behind it. No progress means none was found.
  function Parse(mem: Memory, i: int): (r: Read)
    ensures r.token.Stop? <==> r.next == i
    ensures r.next >= i
    ensures r.token.Match? ==> 1 <= r.token.dist && 1 <= r.token.len
    ensures r.token.Literal? ==> r.token.bytes != []
  {
    var op := mem(i);
    if op >= 0x80 then Read(Match(mem(i + 1) + 1, op - 0x80 + 1), i + 2)
    else if op >= 0x40 then Read(Match(In2(mem, i) - 0x4000 + 1, mem(i + 2) + 1), i + 3)
    else if op >= 0x20 then Read(Literal(Bytes(mem, i + 1, op - 0x20 + 1)), i + 1 + (op - 0x20 + 1))
    else if op >= 0x18 then Read(Match(In3(mem, i) - 0x180000 + 1, mem(i + 3) + 1), i + 4)
    else if op >= 0x10 then Read(Match(In3(mem, i) - 0x100000 + 1, In2(mem, i + 3) + 1), i + 5)
    else if op >= 0x08 then Read(Literal(Bytes(mem, i + 2, In2(mem, i) - 0x0800 + 1)),
                                 i + 2 + (In2(mem, i) - 0x0800 + 1))
    else if op == 0x07 then Read(Literal(Bytes(mem, i + 3, In2(mem, i + 1) + 1)), i + 3 + (In2(mem, i + 1) + 1))
    else if op == 0x06 then Read(Match(In3(mem, i + 1) + 1, mem(i + 4) + 1), i + 5)
    else if op == 0x04 then Read(Match(In3(mem, i + 1) + 1, In2(mem, i + 4) + 1), i + 6)
    else Read(Stop, i)
  }

  // --- What tokens mean ------------------------------------------------------------

  // Each byte of a match is the one dist bytes before it, which may be part of the same match.
  function Repeat(out: seq<byte>, dist: int, n: nat): (r: seq<byte>)
    requires 1 <= dist <= |out|
    ensures |r| == |out| + n
    decreases n
  {
    if n == 0 then out else var r := Repeat(out, dist, n - 1); r + [r[|r| - dist]]
  }

  function Play(out: seq<byte>, t: Token): Option<seq<byte>> {
    match t
    case Literal(bytes) => Some(out + bytes)
    case Match(dist, len) => if 1 <= dist <= |out| then Some(Repeat(out, dist, len)) else None
    case Stop => None
  }

  lemma {:induction false} RepeatAt(out: seq<byte>, dist: int, n: nat, k: int)
    requires 1 <= dist <= |out| && 0 <= k < |out| + n
    ensures var r := Repeat(out, dist, n);
            if k < |out| then r[k] == out[k] else r[k] == r[k - dist]
    decreases n
  {
    if n > 0 && k < |out| + n - 1 {
      RepeatAt(out, dist, n - 1, k);
    }
  }

  // A match plays exactly when every byte it asks for is there by then, and what it plays is the only
  // continuation in which each byte is the one dist before it.
  lemma MatchPlaysIff(out: seq<byte>, dist: int, len: nat)
    requires 1 <= dist && 1 <= len
    ensures Play(out, Match(dist, len)).Some? <==> exists r :: Continues(r, out, dist, len)
    ensures forall r :: Continues(r, out, dist, len) ==> Play(out, Match(dist, len)) == Some(r)
  {
    if dist <= |out| {
      var r := Repeat(out, dist, len);
      forall k | 0 <= k < |out| + len ensures if k < |out| then r[k] == out[k] else Repeats(r, dist, k) {
        RepeatAt(out, dist, len, k);
      }
      assert r[..|out|] == out;
      assert Continues(r, out, dist, len);
    }
    forall r | Continues(r, out, dist, len) ensures Play(out, Match(dist, len)) == Some(r) {
      OnlyContinuation(r, out, dist, len);
    }
  }

  ghost predicate Continues(r: seq<byte>, out: seq<byte>, dist: int, len: nat) {
    |r| == |out| + len && r[..|out|] == out && forall k :: |out| <= k < |r| ==> Repeats(r, dist, k)
  }

  predicate Repeats(r: seq<byte>, dist: int, k: int)
    requires 0 <= k < |r|
  {
    0 <= k - dist < k && r[k] == r[k - dist]
  }

  lemma {:induction false} OnlyContinuation(r: seq<byte>, out: seq<byte>, dist: int, len: nat)
    requires Continues(r, out, dist, len) && 1 <= dist && 1 <= len
    ensures dist <= |out| && r == Repeat(out, dist, len)
    decreases len
  {
    assert Repeats(r, dist, |out|) && Repeats(r, dist, |r| - 1);
    var front := r[..|r| - 1];
    assert r == front + [r[|r| - 1]] && front[..|out|] == out;
    if len > 1 {
      forall k | |out| <= k < |front| ensures Repeats(front, dist, k) {
        assert Repeats(r, dist, k);
      }
      OnlyContinuation(front, out, dist, len - 1);
    } else {
      assert front == out && Repeat(out, dist, 0) == out;
    }
  }

  datatype Decoded = Decoded(out: seq<byte>, end: int)

  // The tokens from a position on, up to the end token, as long as they stay within olen bytes.
  function Decode(mem: Memory, i: int, out: seq<byte>, olen: int): Option<Decoded>
    decreases olen - |out|
  {
    var r := Parse(mem, i);
    if r.token.Stop? then
      if mem(i) == 0x05 && mem(i + 1) == 0xfa && |out| == olen then Some(Decoded(out, i)) else None
    else
      match Play(out, r.token)
      case None => None
      case Some(out') =>
        if |out'| > olen then None
        else
          PlayGrows(out, r.token);
          Decode(mem, r.next, out', olen)
  }

  lemma PlayGrows(out: seq<byte>, t: Token)
    requires Play(out, t).Some? && (t.Match? ==> 1 <= t.len) && (t.Literal? ==> t.bytes != [])
    ensures |Play(out, t).value| > |out|
  {
  }

  const MAGIC := 0x57bC0000

  // What a whole stream stands for, if it is in order from the magic number to the checksum.
  function Decompressed(mem: Memory): Option<seq<byte>> {
    if In4(mem, 0) != MAGIC || In4(mem, 4) != 0 then None
    else
      match Decode(mem, 16, [], In4(mem, 8))
      case None => None
      case Some(d) => if Adler32(1, d.out) == In4(mem, d.end + 2) then Some(d.out) else None
  }

  // --- The decompressor --------------------------------------------------------------

  class Decompressor {
    const output: array<byte>
    var dout: int
    var barrierOutE: int

    constructor (output: array<byte>)
      ensures this.output == output
    {
      this.output := output;
      dout, barrierOutE := 0, 0;
    }

    ghost predicate Valid()
      reads this
    {
      0 <= dout <= barrierOutE <= output.Length
    }

    // A token has been played, or the write position is past the barrier and nothing was written.
    twostate predicate Played(t: Token)
      requires old(Valid())
      reads this, output
    {
      var result := Play(old(output[..dout]), t);
      && barrierOutE == old(barrierOutE)
      && (if result.Some? && |result.value| <= barrierOutE then
            dout == |result.value| && output[..dout] == result.value && output[dout..] == old(output[..])[dout..]
          else dout > barrierOutE && output[..] == old(output[..]))
    }

    // Copies forward one byte at a time, so that a match may overlap what it writes.
    method Match(data: int, length: nat)
      requires Valid() && data < dout && 1 <= length
      modifies this`dout, output
      ensures Played(Token.Match(old(dout) - data, length))
    {
      ghost var out, dist := output[..dout], dout - data;
      if dout + length > barrierOutE {
        dout := dout + length;
        return;
      }
      if data < 0 {
        dout := barrierOutE + 1;
        return;
      }
      var from, left := data, length;
      while left > 0
        invariant 0 <= left <= length && dout == old(dout) + (length - left) && from == dout - dist
        invariant output[..dout] == Repeat(out, dist, length - left)
        invariant output[dout..] == old(output[..])[dout..]
      {
        ghost var r := Repeat(out, dist, length - left);
        assert output[from] == output[..dout][from] == r[|r| - dist];
        output[dout] := output[from];
        dout, from, left := dout + 1, from + 1, left - 1;
        assert output[..dout] == r + [r[|r| - dist]];
      }
    }

    // Data before the start of the stream is refused; no token asks for any.
    method Lit(mem: Memory, data: int, length: nat)
      requires Valid()
      modifies this`dout, output
      ensures data >= 0 ==> Played(Literal(Bytes(mem, data, length)))
      ensures data < 0 ==> dout > barrierOutE && output[..] == old(output[..])
    {
      ghost var out := output[..dout];
      if dout + length > barrierOutE {
        dout := dout + length;
        return;
      }
      if data < 0 {
        dout := barrierOutE + 1;
        return;
      }
      var k := 0;
      while k < length
        invariant 0 <= k <= length && dout == old(dout)
        invariant output[..dout + k] == out + Bytes(mem, data, k)
        invariant output[dout + k..] == old(output[..])[dout + k..]
      {
        output[dout + k] := mem(data + k);
        k := k + 1;
        assert Bytes(mem, data, k) == Bytes(mem, data, k - 1) + [mem(data + (k - 1))];
        assert output[..dout + k] == output[..dout + (k - 1)] + [output[dout + (k - 1)]];
      }
      dout := dout + length;
    }

    method DecompressToken(mem: Memory, i: int) returns (next: int)
      requires Valid() && 0 <= i
      modifies this`dout, output
      ensures var r := Parse(mem, i);
              && next == r.next
              && (if r.token.Stop? then
                    dout == old(dout) && barrierOutE == old(barrierOutE) && output[..] == old(output[..])
                  else Played(r.token))
    {
      hide Played;
      var op := mem(i);
      if op >= 0x20 {
        if op >= 0x80 {
          Match(dout - mem(i + 1) - 1, op - 0x80 + 1);
          next := i + 2;
        } else if op >= 0x40 {
          Match(dout - (In2(mem, i) - 0x4000 + 1), mem(i + 2) + 1);
          next := i + 3;
        } else {
          Lit(mem, i + 1, op - 0x20 + 1);
          next := i + 1 + (op - 0x20 + 1);
        }
      } else {
        if op >= 0x18 {
          Match(dout - (In3(mem, i) - 0x180000 + 1), mem(i + 3) + 1);
          next := i + 4;
        } else if op >= 0x10 {
          Match(dout - (In3(mem, i) - 0x100000 + 1), In2(mem, i + 3) + 1);
          next := i + 5;
        } else if op >= 0x08 {
          Lit(mem, i + 2, In2(mem, i) - 0x0800 + 1);
          next := i + 2 + (In2(mem, i) - 0x0800 + 1);
        } else if op == 0x07 {
          Lit(mem, i + 3, In2(mem, i + 1) + 1);
          next := i + 3 + (In2(mem, i + 1) + 1);
        } else if op == 0x06 {
          Match(dout - (In3(mem, i + 1) + 1), mem(i + 4) + 1);
          next := i + 5;
        } else if op == 0x04 {
          Match(dout - (In3(mem, i + 1) + 1), In2(mem, i + 4) + 1);
          next := i + 6;
        } else {
          next := i;
        }
      }
    }

    // One round of the decompressor's loop, by what it leaves to decode.
    method Advance(mem: Memory, i: int) returns (next: int)
      requires Valid() && 0 <= i
      modifies this`dout, output
      ensures next >= i && output[barrierOutE..] == old(output[barrierOutE..])
      ensures var todo := Decode(mem, i, old(output[..dout]), barrierOutE);
              if next == i then
                && dout == old(dout) && output[..] == old(output[..])
                && todo == (if mem(i) == 0x05 && mem(i + 1) == 0xfa && dout == barrierOutE
                            then Some(Decoded(output[..dout], i)) else None)
              else if dout > barrierOutE then todo == None
              else dout > old(dout) && todo == Decode(mem, next, output[..dout], barrierOutE)
    {
      hide Parse, Repeat;
      ghost var t := Parse(mem, i).token;
      next := DecompressToken(mem, i);
      if next != i {
        if Play(old(output[..dout]), t).Some? {
          PlayGrows(old(output[..dout]), t);
        }
        if dout <= barrierOutE {
          assert output[barrierOutE..] == output[dout..][barrierOutE - dout..];
          assert old(output[..])[barrierOutE..] == old(output[..])[dout..][barrierOutE - dout..];
        }
        assert old(output[..])[barrierOutE..] == old(output[barrierOutE..]);
        assert output[..][barrierOutE..] == output[barrierOutE..];
      }
    }

    // The length comes back, with exactly the decoded bytes in the output, if and only if the
    // stream is in order; otherwise zero does. Either way nothing is written past the length the
    // stream declares, and the loop ends.
    method Decompress(mem: Memory) returns (r: int)
      requires In4(mem, 8) <= output.Length
      modifies this, output
      ensures var result := Decompressed(mem);
              if result.Some? then r == In4(mem, 8) == |result.value| && output[..r] == result.value else r == 0
      ensures output[In4(mem, 8)..] == old(output[In4(mem, 8)..])
    {
      if In4(mem, 0) != MAGIC {
        return 0;
      }
      if In4(mem, 4) != 0 {
        return 0;
      }
      hide Decode, Adler32, In4;
      var olen := In4(mem, 8);
      barrierOutE := olen;
      var i := 16;
      dout := 0;
      assert output[..0] == [];
      ghost var rest := output[olen..];
      while true
        invariant barrierOutE == olen && Valid() && 16 <= i
        invariant Decode(mem, 16, [], olen) == Decode(mem, i, output[..dout], olen)
        invariant output[olen..] == rest
        decreases olen - dout
      {
        var next := Advance(mem, i);
        if next == i {
          if mem(i) == 0x05 && mem(i + 1) == 0xfa {
            if dout != olen {
              return 0;
            }
            var adler := Checksum(1, output, olen);
            if adler as int != In4(mem, i + 2) {
              return 0;
            }
            return olen;
          } else {
            return 0;
          }
        }
        if dout > olen {
          return 0;
        }
        i := next;
      }
    }
  }

  // --- What streams look like --------------------------------------------------------

  function Two(x: int): (bs: seq<byte>)
    requires 0 <= x < 0x10000
    ensures |bs| == 2
  {
    [x / 0x100, x % 0x100]
  }

  function Three(x: int): (bs: seq<byte>)
    requires 0 <= x < 0x1000000
    ensures |bs| == 3
  {
    [x / 0x10000] + Two(x % 0x10000)
  }

  function Four(x: int): (bs: seq<byte>)
    requires 0 <= x < 0x1_0000_0000
    ensures |bs| == 4
  {
    [x / 0x1000000] + Three(x % 0x1000000)
  }

  // The nine forms in which tokens are written, by the range of their first byte.
  datatype Form =
    | ShortMatch     // 0x80 to 0xff
    | NearMatch      // 0x40 to 0x7f
    | ShortLiteral   // 0x20 to 0x3f
    | FarMatch       // 0x18 to 0x1f
    | FarLongMatch   // 0x10 to 0x17
    | MidLiteral     // 0x08 to 0x0f
    | LongLiteral    // 0x07
    | WideMatch      // 0x06
    | WideLongMatch  // 0x04

  datatype Spelled = Spelled(form: Form, token: Token)

  predicate MatchFits(t: Token, dist: int, len: int) {
    t.Match? && 1 <= t.dist <= dist && 1 <= t.len <= len
  }

  predicate LiteralFits(t: Token, n: int) {
    t.Literal? && 1 <= |t.bytes| <= n
  }

  // Which tokens a form has room for.
  predicate Fits(s: Spelled) {
    match s.form
    case ShortMatch => MatchFits(s.token, 0x100, 0x80)
    case NearMatch => MatchFits(s.token, 0x4000, 0x100)
    case ShortLiteral => LiteralFits(s.token, 0x20)
    case FarMatch => MatchFits(s.token, 0x80000, 0x100)
    case FarLongMatch => MatchFits(s.token, 0x80000, 0x10000)
    case MidLiteral => LiteralFits(s.token, 0x800)
    case LongLiteral => LiteralFits(s.token, 0x10000)
    case WideMatch => MatchFits(s.token, 0x1000000, 0x100)
    case WideLongMatch => MatchFits(s.token, 0x1000000, 0x10000)
  }

  function Encode(s: Spelled): seq<byte>
    requires Fits(s)
  {
    match s.form
    case ShortMatch => [(0x80 + s.token.len - 1) as byte] + [(s.token.dist - 1) as byte]
    case NearMatch => Two(0x4000 + s.token.dist - 1) + [(s.token.len - 1) as byte]
    case ShortLiteral => [(0x20 + |s.token.bytes| - 1) as byte] + s.token.bytes
    case FarMatch => Three(0x180000 + s.token.dist - 1) + [(s.token.len - 1) as byte]
    case FarLongMatch => Three(0x100000 + s.token.dist - 1) + Two(s.token.len - 1)
    case MidLiteral => Two(0x0800 + |s.token.bytes| - 1) + s.token.bytes
    case LongLiteral => [0x07] + Two(|s.token.bytes| - 1) + s.token.bytes
    case WideMatch => [0x06] + Three(s.token.dist - 1) + [(s.token.len - 1) as byte]
    case WideLongMatch => [0x04] + Three(s.token.dist - 1) + Two(s.token.len - 1)
  }

  ghost predicate Holds(mem: Memory, i: int, bs: seq<byte>) {
    forall k :: 0 <= k < |bs| ==> mem(i + k) == bs[k]
  }

  lemma HoldsParts(mem: Memory, i: int, a: seq<byte>, b: seq<byte>)
    requires Holds(mem, i, a + b)
    ensures Holds(mem, i, a) && Holds(mem, i + |a|, b)
  {
    assert forall k :: 0 <= k < |a| ==> (a + b)[k] == a[k];
    forall k | 0 <= k < |b| ensures mem(i + |a| + k) == b[k] {
      assert (a + b)[|a| + k] == b[k];
      assert mem(i + (|a| + k)) == b[k];
    }
  }

  lemma HoldsTwo(mem: Memory, i: int, x: int)
    requires 0 <= x < 0x10000 && Holds(mem, i, Two(x))
    ensures In2(mem, i) == x && mem(i) == x / 0x100
  {
    assert mem(i + 0) == Two(x)[0] && mem(i + 1) == Two(x)[1];
  }

  lemma HoldsThree(mem: Memory, i: int, x: int)
    requires 0 <= x < 0x1000000 && Holds(mem, i, Three(x))
    ensures In3(mem, i) == x && mem(i) == x / 0x10000
  {
    HoldsParts(mem, i, [x / 0x10000], Two(x % 0x10000));
    HoldsTwo(mem, i + 1, x % 0x10000);
    HoldsOne(mem, i, x / 0x10000);
  }

  lemma HoldsFour(mem: Memory, i: int, x: int)
    requires 0 <= x < 0x1_0000_0000 && Holds(mem, i, Four(x))
    ensures In4(mem, i) == x
  {
    HoldsParts(mem, i, [x / 0x1000000], Three(x % 0x1000000));
    HoldsThree(mem, i + 1, x % 0x1000000);
    HoldsOne(mem, i, x / 0x1000000);
  }

  lemma HoldsOne(mem: Memory, i: int, b: byte)
    requires Holds(mem, i, [b])
    ensures mem(i) == b
  {
    assert mem(i + 0) == [b][0];
  }

  lemma HoldsAll(mem: Memory, i: int, bs: seq<byte>)
    requires Holds(mem, i, bs)
    ensures Bytes(mem, i, |bs|) == bs
  {
  }

  lemma PartsHold(mem: Memory, i: int, a: seq<byte>, b: seq<byte>)
    requires Holds(mem, i, a) && Holds(mem, i + |a|, b)
    ensures Holds(mem, i, a + b)
  {
    forall k | 0 <= k < |a + b| ensures mem(i + k) == (a + b)[k] {
      if k >= |a| {
        assert mem(i + |a| + (k - |a|)) == b[k - |a|];
      }
    }
  }

  lemma OneHolds(mem: Memory, i: int)
    ensures Holds(mem, i, [mem(i)])
  {
  }

  lemma TwoHolds(mem: Memory, i: int)
    ensures 0 <= In2(mem, i) < 0x10000 && Holds(mem, i, Two(In2(mem, i)))
  {
    assert Two(In2(mem, i)) == [mem(i), mem(i + 1)];
  }

  lemma ThreeHolds(mem: Memory, i: int)
    ensures 0 <= In3(mem, i) < 0x1000000 && Holds(mem, i, Three(In3(mem, i)))
  {
    TwoHolds(mem, i + 1);
    OneHolds(mem, i);
    hide Holds, Two;
    assert In3(mem, i) / 0x10000 == mem(i) && In3(mem, i) % 0x10000 == In2(mem, i + 1);
    PartsHold(mem, i, [mem(i)], Two(In2(mem, i + 1)));
  }

  lemma FourHolds(mem: Memory, i: int)
    ensures 0 <= In4(mem, i) < 0x1_0000_0000 && Holds(mem, i, Four(In4(mem, i)))
  {
    ThreeHolds(mem, i + 1);
    OneHolds(mem, i);
    hide Holds, Three, In3;
    assert In4(mem, i) / 0x1000000 == mem(i) && In4(mem, i) % 0x1000000 == In3(mem, i + 1);
    PartsHold(mem, i, [mem(i)], Three(In3(mem, i + 1)));
  }

  lemma BytesHold(mem: Memory, i: int, n: nat)
    ensures Holds(mem, i, Bytes(mem, i, n))
  {
  }

  // Reading a token in any form gives the token back and ends right behind it.
  lemma LiteralParses(mem: Memory, i: int, s: Spelled)
    requires Fits(s) && s.token.Literal? && Holds(mem, i, Encode(s))
    ensures Parse(mem, i) == Read(s.token, i + |Encode(s)|)
  {
    hide Holds, In2, In3, Two;
    var bytes := s.token.bytes;
    var n := |bytes| - 1;
    if s.form.ShortLiteral? {
      HoldsParts(mem, i, [(0x20 + n) as byte], bytes);
      HoldsOne(mem, i, (0x20 + n) as byte);
      HoldsAll(mem, i + 1, bytes);
    } else if s.form.MidLiteral? {
      HoldsParts(mem, i, Two(0x0800 + n), bytes);
      HoldsTwo(mem, i, 0x0800 + n);
      HoldsAll(mem, i + 2, bytes);
    } else {
      HoldsParts(mem, i, [0x07] + Two(n), bytes);
      HoldsParts(mem, i, [0x07], Two(n));
      HoldsOne(mem, i, 0x07);
      HoldsTwo(mem, i + 1, n);
      HoldsAll(mem, i + 3, bytes);
    }
  }

  lemma MatchParses(mem: Memory, i: int, s: Spelled)
    requires Fits(s) && s.token.Match? && Holds(mem, i, Encode(s))
    ensures Parse(mem, i) == Read(s.token, i + |Encode(s)|)
  {
    hide Holds, In2, In3, Two, Three;
    var d, n := s.token.dist - 1, s.token.len - 1;
    match s.form
    case ShortMatch =>
      HoldsParts(mem, i, [(0x80 + n) as byte], [d as byte]);
      HoldsOne(mem, i, (0x80 + n) as byte);
      HoldsOne(mem, i + 1, d as byte);
    case NearMatch =>
      HoldsParts(mem, i, Two(0x4000 + d), [n as byte]);
      HoldsTwo(mem, i, 0x4000 + d);
      HoldsOne(mem, i + 2, n as byte);
    case FarMatch =>
      HoldsParts(mem, i, Three(0x180000 + d), [n as byte]);
      HoldsThree(mem, i, 0x180000 + d);
      HoldsOne(mem, i + 3, n as byte);
    case FarLongMatch =>
      HoldsParts(mem, i, Three(0x100000 + d), Two(n));
      HoldsThree(mem, i, 0x100000 + d);
      HoldsTwo(mem, i + 3, n);
    case WideMatch =>
      HoldsParts(mem, i, [0x06] + Three(d), [n as byte]);
      HoldsParts(mem, i, [0x06], Three(d));
      HoldsOne(mem, i, 0x06);
      HoldsThree(mem, i + 1, d);
      HoldsOne(mem, i + 4, n as byte);
    case WideLongMatch =>
      HoldsParts(mem, i, [0x04] + Three(d), Two(n));
      HoldsParts(mem, i, [0x04], Three(d));
      HoldsOne(mem, i, 0x04);
      HoldsThree(mem, i + 1, d);
      HoldsTwo(mem, i + 4, n);
  }

  lemma EncodedParses(mem: Memory, i: int, s: Spelled)
    requires Fits(s) && Holds(mem, i, Encode(s))
    ensures Parse(mem, i) == Read(s.token, i + |Encode(s)|)
  {
    if s.token.Literal? {
      LiteralParses(mem, i, s);
    } else {
      MatchParses(mem, i, s);
    }
  }

  // And whatever is read stands there in one of these forms.
  lemma LiteralIsEncoded(mem: Memory, i: int) returns (s: Spelled)
    requires Parse(mem, i).token.Literal?
    ensures Fits(s) && Holds(mem, i, Encode(s)) && Parse(mem, i) == Read(s.token, i + |Encode(s)|)
  {
    if mem(i) >= 0x20 {
      s := UpperLiteral(mem, i);
    } else if mem(i) >= 0x08 {
      s := MiddleLiteral(mem, i);
    } else {
      s := LowerLiteral(mem, i);
    }
  }

  lemma UpperLiteral(mem: Memory, i: int) returns (s: Spelled)
    requires Parse(mem, i).token.Literal? && mem(i) >= 0x20
    ensures Fits(s) && Holds(mem, i, Encode(s)) && Parse(mem, i) == Read(s.token, i + |Encode(s)|)
  {
    hide Holds, In2, In3, Two;
    var t := Parse(mem, i).token;
    s := Spelled(ShortLiteral, t);
    OneHolds(mem, i);
    BytesHold(mem, i + 1, |t.bytes|);
    PartsHold(mem, i, [mem(i)], t.bytes);
  }

  lemma MiddleLiteral(mem: Memory, i: int) returns (s: Spelled)
    requires Parse(mem, i).token.Literal? && 0x08 <= mem(i) < 0x20
    ensures Fits(s) && Holds(mem, i, Encode(s)) && Parse(mem, i) == Read(s.token, i + |Encode(s)|)
  {
    assert In2(mem, i) == mem(i) * 0x100 + mem(i + 1);
    hide Holds, In2, In3, Two;
    var t := Parse(mem, i).token;
    s := Spelled(MidLiteral, t);
    TwoHolds(mem, i);
    BytesHold(mem, i + 2, |t.bytes|);
    PartsHold(mem, i, Two(In2(mem, i)), t.bytes);
  }

  lemma LowerLiteral(mem: Memory, i: int) returns (s: Spelled)
    requires Parse(mem, i).token.Literal? && mem(i) < 0x08
    ensures Fits(s) && Holds(mem, i, Encode(s)) && Parse(mem, i) == Read(s.token, i + |Encode(s)|)
  {
    hide Holds, In2, In3, Two;
    var t := Parse(mem, i).token;
    s := Spelled(LongLiteral, t);
    OneHolds(mem, i);
    TwoHolds(mem, i + 1);
    BytesHold(mem, i + 3, |t.bytes|);
    PartsHold(mem, i, [0x07], Two(In2(mem, i + 1)));
    PartsHold(mem, i, [0x07] + Two(In2(mem, i + 1)), t.bytes);
  }

  lemma MatchIsEncoded(mem: Memory, i: int) returns (s: Spelled)
    requires Parse(mem, i).token.Match?
    ensures Fits(s) && Holds(mem, i, Encode(s)) && Parse(mem, i) == Read(s.token, i + |Encode(s)|)
  {
    if mem(i) >= 0x10 {
      s := UpperMatch(mem, i);
    } else if mem(i) == 0x06 {
      s := LowerMatch(mem, i);
    } else {
      s := LowestMatch(mem, i);
    }
  }

  lemma LowerMatch(mem: Memory, i: int) returns (s: Spelled)
    requires Parse(mem, i).token.Match? && mem(i) == 0x06
    ensures Fits(s) && Holds(mem, i, Encode(s)) && Parse(mem, i) == Read(s.token, i + |Encode(s)|)
  {
    hide Holds, In2, In3, Two, Three;
    s := Spelled(WideMatch, Parse(mem, i).token);
    OneHolds(mem, i);
    ThreeHolds(mem, i + 1);
    OneHolds(mem, i + 4);
    PartsHold(mem, i, [0x06], Three(In3(mem, i + 1)));
    PartsHold(mem, i, [0x06] + Three(In3(mem, i + 1)), [mem(i + 4)]);
  }

  lemma LowestMatch(mem: Memory, i: int) returns (s: Spelled)
    requires Parse(mem, i).token.Match? && mem(i) < 0x06
    ensures Fits(s) && Holds(mem, i, Encode(s)) && Parse(mem, i) == Read(s.token, i + |Encode(s)|)
  {
    hide Holds, In2, In3, Two, Three;
    s := Spelled(WideLongMatch, Parse(mem, i).token);
    OneHolds(mem, i);
    ThreeHolds(mem, i + 1);
    TwoHolds(mem, i + 4);
    PartsHold(mem, i, [0x04], Three(In3(mem, i + 1)));
    PartsHold(mem, i, [0x04] + Three(In3(mem, i + 1)), Two(In2(mem, i + 4)));
  }

  lemma UpperMatch(mem: Memory, i: int) returns (s: Spelled)
    requires Parse(mem, i).token.Match? && mem(i) >= 0x10
    ensures Fits(s) && Holds(mem, i, Encode(s)) && Parse(mem, i) == Read(s.token, i + |Encode(s)|)
  {
    var t := Parse(mem, i).token;
    OneHolds(mem, i);
    OneHolds(mem, i + 1);
    OneHolds(mem, i + 2);
    OneHolds(mem, i + 3);
    TwoHolds(mem, i);
    ThreeHolds(mem, i);
    TwoHolds(mem, i + 1);
    TwoHolds(mem, i + 3);
    hide Holds, Two, Three;
    if mem(i) >= 0x80 {
      s := Spelled(ShortMatch, t);
      PartsHold(mem, i, [mem(i)], [mem(i + 1)]);
    } else if mem(i) >= 0x40 {
      s := Spelled(NearMatch, t);
      PartsHold(mem, i, Two(In2(mem, i)), [mem(i + 2)]);
    } else if mem(i) >= 0x18 {
      s := Spelled(FarMatch, t);
      PartsHold(mem, i, Three(In3(mem, i)), [mem(i + 3)]);
    } else {
      s := Spelled(FarLongMatch, t);
      PartsHold(mem, i, Three(In3(mem, i)), Two(In2(mem, i + 3)));
    }
  }

  lemma ParsedIsEncoded(mem: Memory, i: int) returns (s: Spelled)
    requires !Parse(mem, i).token.Stop?
    ensures Fits(s) && Holds(mem, i, Encode(s)) && Parse(mem, i) == Read(s.token, i + |Encode(s)|)
  {
    if Parse(mem, i).token.Literal? {
      s := LiteralIsEncoded(mem, i);
    } else {
      s := MatchIsEncoded(mem, i);
    }
  }

  ghost predicate AllFit(ss: seq<Spelled>) {
    forall k :: 0 <= k < |ss| ==> Fits(ss[k])
  }

  function EncodeAll(ss: seq<Spelled>): seq<byte>
    requires AllFit(ss)
  {
    if ss == [] then [] else Encode(ss[0]) + EncodeAll(ss[1..])
  }

  function PlayAll(out: seq<byte>, ss: seq<Spelled>): Option<seq<byte>>
    decreases |ss|
  {
    if ss == [] then Some(out)
    else
      match Play(out, ss[0].token)
      case None => None
      case Some(out') => PlayAll(out', ss[1..])
  }

  lemma {:induction false} PlayAllGrows(out: seq<byte>, ss: seq<Spelled>)
    requires PlayAll(out, ss).Some?
    ensures |out| <= |PlayAll(out, ss).value|
    decreases |ss|
  {
    if ss != [] {
      PlayAllGrows(Play(out, ss[0].token).value, ss[1..]);
    }
  }

  lemma {:induction false} EncodedDecodes(mem: Memory, i: int, out: seq<byte>, ss: seq<Spelled>)
    requires AllFit(ss) && Holds(mem, i, EncodeAll(ss) + [0x05, 0xfa]) && PlayAll(out, ss).Some?
    ensures var data := PlayAll(out, ss).value;
            Decode(mem, i, out, |data|) == Some(Decoded(data, i + |EncodeAll(ss)|))
    decreases |ss|
  {
    hide Holds, Parse, Encode, Repeat, Fits;
    var data := PlayAll(out, ss).value;
    if ss == [] {
      HoldsParts(mem, i, EncodeAll(ss), [0x05, 0xfa]);
      assert [0x05, 0xfa] == [0x05 as byte] + [0xfa as byte];
      HoldsParts(mem, i, [0x05], [0xfa]);
      HoldsOne(mem, i, 0x05);
      HoldsOne(mem, i + 1, 0xfa);
      EndIsNoToken(mem, i);
    } else {
      var rest := EncodeAll(ss[1..]) + [0x05, 0xfa];
      assert EncodeAll(ss) + [0x05, 0xfa] == Encode(ss[0]) + rest;
      HoldsParts(mem, i, Encode(ss[0]), rest);
      EncodedParses(mem, i, ss[0]);
      PlayAllGrows(Play(out, ss[0].token).value, ss[1..]);
      EncodedDecodes(mem, i + |Encode(ss[0])|, Play(out, ss[0].token).value, ss[1..]);
    }
  }

  // Whatever is decoded is a list of tokens, each in some form, and the end token.
  lemma {:induction false} DecodedIsEncoded(mem: Memory, i: int, out: seq<byte>, olen: int) returns (ss: seq<Spelled>)
    requires Decode(mem, i, out, olen).Some?
    ensures AllFit(ss) && Holds(mem, i, EncodeAll(ss) + [0x05, 0xfa])
    ensures PlayAll(out, ss) == Some(Decode(mem, i, out, olen).value.out)
    ensures Decode(mem, i, out, olen).value.end == i + |EncodeAll(ss)|
    ensures |Decode(mem, i, out, olen).value.out| == olen
    decreases olen - |out|
  {
    hide Holds, Parse, Encode, Repeat, Fits;
    var r := Parse(mem, i);
    if r.token.Stop? {
      ss := [];
      OneHolds(mem, i);
      OneHolds(mem, i + 1);
      PartsHold(mem, i, [0x05], [0xfa]);
      assert EncodeAll(ss) + [0x05, 0xfa] == [0x05] + [0xfa];
    } else {
      var s := ParsedIsEncoded(mem, i);
      var out' := Play(out, r.token).value;
      PlayGrows(out, r.token);
      var rest := DecodedIsEncoded(mem, r.next, out', olen);
      ss := [s] + rest;
      assert ss[1..] == rest;
      PartsHold(mem, i, Encode(s), EncodeAll(rest) + [0x05, 0xfa]);
      assert EncodeAll(ss) + [0x05, 0xfa] == Encode(s) + (EncodeAll(rest) + [0x05, 0xfa]);
    }
  }

  lemma EndIsNoToken(mem: Memory, i: int)
    requires mem(i) == 0x05
    ensures Parse(mem, i).token.Stop?
  {
  }

  // The magic number, four zero bytes, the length, four bytes nobody reads, the tokens, the end
  // token and the checksum.
  ghost function Stream(ss: seq<Spelled>, data: seq<byte>, unread: seq<byte>): seq<byte>
    requires AllFit(ss) && |data| < 0x1_0000_0000 && |unread| == 4
  {
    ChecksumFits(data);
    Four(MAGIC) + (Four(0) + (Four(|data|) + (unread + (EncodeAll(ss) + [0x05, 0xfa] + Four(Adler32(1, data))))))
  }

  lemma ChecksumFits(data: seq<byte>)
    ensures 0 <= Adler32(1, data) < 0x1_0000_0000
  {
    SumsStaySmall(Unpack(1), data);
  }

  // Decompressing the stream of a list of tokens, each in any form that fits, gives what the tokens play.
  lemma StreamDecompresses(mem: Memory, ss: seq<Spelled>, data: seq<byte>, unread: seq<byte>)
    requires AllFit(ss) && PlayAll([], ss) == Some(data) && |data| < 0x1_0000_0000 && |unread| == 4
    requires Holds(mem, 0, Stream(ss, data, unread))
    ensures Decompressed(mem) == Some(data)
  {
    hide Holds, Decode, Four, In4, Adler32, EncodeAll, PlayAll;
    ChecksumFits(data);
    var sum := Four(Adler32(1, data));
    var tokens := EncodeAll(ss) + [0x05, 0xfa];
    HoldsParts(mem, 0, Four(MAGIC), Four(0) + (Four(|data|) + (unread + (tokens + sum))));
    HoldsParts(mem, 4, Four(0), Four(|data|) + (unread + (tokens + sum)));
    HoldsParts(mem, 8, Four(|data|), unread + (tokens + sum));
    HoldsParts(mem, 12, unread, tokens + sum);
    HoldsParts(mem, 16, tokens, sum);
    HoldsFour(mem, 0, MAGIC);
    HoldsFour(mem, 4, 0);
    HoldsFour(mem, 8, |data|);
    HoldsFour(mem, 16 + |tokens|, Adler32(1, data));
    EncodedDecodes(mem, 16, [], ss);
  }

  // And only such streams decompress: everything the decompressor accepts is the stream of some
  // list of tokens that fit their forms.
  lemma DecompressedIsStream(mem: Memory) returns (ss: seq<Spelled>, unread: seq<byte>)
    requires Decompressed(mem).Some?
    ensures AllFit(ss) && PlayAll([], ss) == Decompressed(mem)
    ensures |Decompressed(mem).value| < 0x1_0000_0000 && |unread| == 4
    ensures Holds(mem, 0, Stream(ss, Decompressed(mem).value, unread))
  {
    hide Holds, Decode, Four, In4, Adler32, EncodeAll, PlayAll;
    var data := Decompressed(mem).value;
    var d := Decode(mem, 16, [], In4(mem, 8)).value;
    ss := DecodedIsEncoded(mem, 16, [], In4(mem, 8));
    unread := Bytes(mem, 12, 4);
    FourHolds(mem, 0);
    FourHolds(mem, 4);
    FourHolds(mem, 8);
    BytesHold(mem, 12, 4);
    FourHolds(mem, d.end + 2);
    ChecksumFits(data);
    var tokens, sum := EncodeAll(ss) + [0x05, 0xfa], Four(Adler32(1, data));
    PartsHold(mem, 16, tokens, sum);
    PartsHold(mem, 12, unread, tokens + sum);
    PartsHold(mem, 8, Four(|data|), unread + (tokens + sum));
    PartsHold(mem, 4, Four(0), Four(|data|) + (unread + (tokens + sum)));
    PartsHold(mem, 0, Four(MAGIC), Four(0) + (Four(|data|) + (unread + (tokens + sum))));
  }

  // And any bytes at all are played by some token list.
  function Literals(data: seq<byte>): (ss: seq<Spelled>)
    ensures AllFit(ss)
  {
    if data == [] then []
    else if |data| <= 0x10000 then [Spelled(LongLiteral, Literal(data))]
    else [Spelled(LongLiteral, Literal(data[..0x10000]))] + Literals(data[0x10000..])
  }

  lemma {:induction false} LiteralsPlay(out: seq<byte>, data: seq<byte>)
    ensures PlayAll(out, Literals(data)) == Some(out + data)
    decreases |data|
  {
    if |data| > 0x10000 {
      LiteralsPlay(out + data[..0x10000], data[0x10000..]);
      assert out + data[..0x10000] + data[0x10000..] == out + data;
    } else if data == [] {
      assert out + [] == out;
    } else {
      assert Literals(data)[1..] == [];
      assert PlayAll(out + data, []) == Some(out + data);
    }
  }
}
