/**
  The buffering, bit counting and padding of install/include/websocketpp/common/md5.hpp against
  sections 3.1, 3.2 and 3.5 of RFC 1321. The compression of one 64-octet block is an arbitrary function.
 */
module Md5 {
  import opened Wrappers

  const TWO32 := 0x1_0000_0000
  const TWO64 := 0x1_0000_0000_0000_0000

  type Word = x: nat | x < 0x1_0000_0000

  /** The four chaining registers. */
  datatype Chain = Chain(a: Word, b: Word, c: Word, d: Word)

  type Compress = (Chain, seq<byte>) -> Chain

  const START := Chain(0x67452301, 0xefcdab89, 0x98badcfe, 0x10325476)

  // ------------------------------------------------------- the specification

  /** The chaining value after all the whole blocks of `m`. */
  function Absorb(f: Compress, c: Chain, m: seq<byte>): Chain
    decreases |m|
  {
    if |m| < 64 then c else Absorb(f, f(c, m[..64]), m[64..])
  }

  /** The octets of `m` past its last whole block. */
  function Live(m: seq<byte>): (live: seq<byte>)
    ensures |live| < 64 && |live| <= |m|
    decreases |m|
  {
    if |m| < 64 then m else Live(m[64..])
  }

  /** A whole number of blocks. */
  predicate Blocks(w: seq<byte>)
    decreases |w|
  {
    w == [] || (|w| >= 64 && Blocks(w[64..]))
  }

  lemma {:induction false} AfterBlocks(f: Compress, c: Chain, a: seq<byte>, b: seq<byte>)
    requires Blocks(a)
    ensures Absorb(f, c, a + b) == Absorb(f, Absorb(f, c, a), b)
    ensures Live(a + b) == Live(b)
    decreases |a|
  {
    if a == [] {
      assert a + b == b;
    } else {
      assert (a + b)[..64] == a[..64] && (a + b)[64..] == a[64..] + b;
      AfterBlocks(f, f(c, a[..64]), a[64..], b);
    }
  }

  lemma {:induction false} BlocksExtend(a: seq<byte>, block: seq<byte>)
    requires Blocks(a) && |block| == 64
    ensures Blocks(a + block)
    decreases |a|
  {
    if a == [] {
      assert a + block == block;
    } else {
      assert (a + block)[64..] == a[64..] + block;
      BlocksExtend(a[64..], block);
    }
  }

  lemma BlockCompletes(f: Compress, w: seq<byte>, block: seq<byte>)
    requires Blocks(w) && |block| == 64
    ensures Blocks(w + block)
    ensures Absorb(f, START, w + block) == f(Absorb(f, START, w), block)
  {
    BlocksExtend(w, block);
    AfterBlocks(f, START, w, block);
    assert block[..64] == block && block[64..] == [];
  }

  // Octets of an unfinished block leave the chaining value alone.
  lemma UnfinishedBlock(f: Compress, w: seq<byte>, live: seq<byte>)
    requires Blocks(w) && |live| < 64
    ensures Absorb(f, START, w + live) == Absorb(f, START, w)
    ensures Live(w + live) == live
  {
    AfterBlocks(f, START, w, live);
  }

  lemma {:induction false} WholeAndLive(m: seq<byte>) returns (whole: seq<byte>)
    ensures m == whole + Live(m) && Blocks(whole)
    decreases |m|
  {
    if |m| < 64 {
      whole := [];
    } else {
      var rest := WholeAndLive(m[64..]);
      whole := m[..64] + rest;
      assert whole[64..] == rest;
      assert m == m[..64] + m[64..];
    }
  }

  lemma {:induction false} LiveLength(m: seq<byte>)
    ensures |Live(m)| == |m| % 64
    decreases |m|
  {
    if |m| >= 64 {
      LiveLength(m[64..]);
    }
  }

  function Zeros(n: nat): seq<byte> {
    seq(n, _ => 0)
  }

  /** A number as octets, least significant first. */
  function LittleEndian(v: nat, n: nat): (s: seq<byte>)
    ensures |s| == n
    decreases n
  {
    if n == 0 then [] else [v % 256] + LittleEndian(v / 256, n - 1)
  }

  /** How many zero octets bring a message and its 1-bit to 56 octets modulo 64. */
  function PadZeros(n: nat): nat {
    (55 - n) % 64
  }

  /** Sections 3.1 and 3.2: one 1-bit, zeros up to 448 bits modulo 512, then the bit length in 64 bits. */
  function Padded(m: seq<byte>): seq<byte> {
    m + [0x80] + Zeros(PadZeros(|m|)) + LittleEndian(8 * |m| % TWO64, 8)
  }

  /** The padding is the shortest that makes room for the length: whole blocks, at most one more. */
  lemma PaddedIsWholeBlocks(m: seq<byte>)
    ensures |Padded(m)| % 64 == 0
    ensures |m| + 9 <= |Padded(m)| < |m| + 9 + 64
    ensures Padded(m)[..|m|] == m && Padded(m)[|m|] == 0x80
    ensures forall i | |m| < i < |Padded(m)| - 8 :: Padded(m)[i] == 0
    ensures Padded(m)[|Padded(m)| - 8..] == LittleEndian(8 * |m| % TWO64, 8)
  {
    ShapeOfPadded(m);
    var n := |Padded(m)|;
    assert n == |m| + 9 + PadZeros(|m|);
    PadLength(|m|, PadZeros(|m|), n);
  }

  lemma ShapeOfPadded(m: seq<byte>)
    ensures var p := Padded(m);
            && |p| == |m| + 9 + PadZeros(|m|) && p[..|m|] == m && p[|m|] == 0x80
            && (forall i | |m| < i < |p| - 8 :: p[i] == 0)
            && p[|p| - 8..] == LittleEndian(8 * |m| % TWO64, 8)
  {
    PaddingShape(m, PadZeros(|m|), LittleEndian(8 * |m| % TWO64, 8), Padded(m));
  }

  lemma PaddingShape(m: seq<byte>, z: nat, tail: seq<byte>, p: seq<byte>)
    requires p == m + [0x80] + Zeros(z) + tail
    ensures |p| == |m| + 1 + z + |tail| && p[..|m|] == m && p[|m|] == 0x80
    ensures forall i | |m| < i < |p| - |tail| :: p[i] == 0
    ensures p[|p| - |tail|..] == tail
  {
    PaddingFront(m, z, tail);
    PaddingEnd(m, z, tail);
  }

  // Message, 1 bit, zeros and length, one after the other.
  lemma PaddingFront(m: seq<byte>, z: nat, tail: seq<byte>)
    ensures var p := m + [0x80] + Zeros(z) + tail;
            |p| == |m| + 1 + z + |tail| && p[..|m|] == m && p[|m|] == 0x80
  {
  }

  lemma PaddingEnd(m: seq<byte>, z: nat, tail: seq<byte>)
    ensures var p := m + [0x80] + Zeros(z) + tail;
            && |p| == |m| + 1 + z + |tail| && p[|m| + 1 + z..] == tail
            && forall i | |m| < i < |m| + 1 + z :: p[i] == 0
  {
    var front := m + [0x80];
    assert front + Zeros(z) + tail == front + (Zeros(z) + tail);
  }

  lemma PadLength(n: nat, z: nat, length: nat)
    requires z == (55 - n) % 64 && length == n + 9 + z
    ensures length % 64 == 0 && n + 9 <= length < n + 9 + 64
  {
    assert 55 - n == (55 - n) / 64 * 64 + z;
    assert length == 64 * (1 - (55 - n) / 64);
  }

  function DigestOctets(c: Chain): seq<byte> {
    LittleEndian(c.a, 4) + LittleEndian(c.b, 4) + LittleEndian(c.c, 4) + LittleEndian(c.d, 4)
  }

  function Digest(f: Compress, m: seq<byte>): seq<byte> {
    DigestOctets(Absorb(f, START, Padded(m)))
  }

  // ------------------------------------------------------- arithmetic of the bit count

  // Two 32-bit words with a carry add up as one 64-bit word.
  lemma BitCountAdds(low: Word, high: Word, total: nat, n: nat)
    requires high * TWO32 + low == total % TWO64
    ensures var nbits := n * 8 % TWO32;
            var low' := (low + nbits) % TWO32;
            var high' := ((high + n / 0x2000_0000) % TWO32 + if low' < nbits then 1 else 0) % TWO32;
            high' * TWO32 + low' == (total + 8 * n) % TWO64
  {
    var nbits, top := n * 8 % TWO32, n / 0x2000_0000;
    var carry := if low + nbits >= TWO32 then 1 else 0;
    LowWord(low, nbits, carry);
    var low' := low + nbits - carry * TWO32;
    HighWord(high, top, carry);
    var k := (high + top + carry) / TWO32;
    var high' := high + top + carry - k * TWO32;
    var q := total / TWO64;
    assert 8 * n == top * TWO32 + nbits;
    assert total + 8 * n == (q + k) * TWO64 + (high' * TWO32 + low');
    ModOf(q + k, high' * TWO32 + low');
  }

  lemma LowWord(low: Word, nbits: Word, carry: nat)
    requires carry == if low + nbits >= TWO32 then 1 else 0
    ensures (low + nbits) % TWO32 == low + nbits - carry * TWO32
    ensures (low + nbits) % TWO32 < nbits <==> carry == 1
  {
  }

  lemma HighWord(high: Word, top: nat, carry: nat)
    requires carry <= 1
    ensures ((high + top) % TWO32 + carry) % TWO32 == high + top + carry - (high + top + carry) / TWO32 * TWO32
  {
    var x := high + top;
    assert x == x / TWO32 * TWO32 + x % TWO32;
  }

  lemma ModOf(q: nat, r: nat)
    requires r < TWO64
    ensures (q * TWO64 + r) % TWO64 == r
  {
  }

  // The low word alone tells how far the current block is filled.
  lemma OffsetOfCount(low: Word, high: Word, n: nat)
    requires high * TWO32 + low == 8 * n % TWO64
    ensures low / 8 % 64 == n % 64
    ensures low % 8 == 0
  {
    var q := 8 * n / TWO64;
    assert 8 * n == q * TWO64 + high * TWO32 + low;
    var r := n - 64 * (q * 0x80_0000_0000_0000 + high * 0x80_0000);
    assert low == 8 * r;
    SameOffset(low, r, n, q * 0x80_0000_0000_0000 + high * 0x80_0000);
  }

  lemma SameOffset(low: int, r: int, n: int, blocks: int)
    requires low == 8 * r && n == r + 64 * blocks
    ensures low / 8 % 64 == n % 64 && low % 8 == 0
  {
    assert low / 8 == r;
  }

  // ------------------------------------------------------- the code

  class Md5State {
    const compress: Compress
    var count0: Word
    var count1: Word
    var abcd: Chain
    const buf: array<byte>

    constructor (f: Compress)
      ensures compress == f && fresh(buf) && Holds([])
    {
      compress := f;
      count0, count1, abcd := 0, 0, START;
      buf := new byte[64](_ => 0);
    }

    /** The state stands for the message `m`: chaining value, live buffer prefix and bit count. */
    ghost predicate Holds(m: seq<byte>)
      reads this, buf
    {
      && buf.Length == 64
      && count1 * TWO32 + count0 == 8 * |m| % TWO64
      && abcd == Absorb(compress, START, m)
      && buf[..|Live(m)|] == Live(m)
    }

    method CopyIn(offset: nat, data: seq<byte>)
      requires buf.Length == 64 && offset + |data| <= 64
      modifies buf
      ensures buf[..offset] == old(buf[..offset]) && buf[offset..offset + |data|] == data
    {
      forall i | 0 <= i < |data| {
        buf[offset + i] := data[i];
      }
    }

    /** Adds the bits of `n` octets to the 64-bit count. */
    method AddToCount(n: nat, ghost total: nat)
      requires count1 * TWO32 + count0 == total % TWO64
      modifies this`count0, this`count1
      ensures count1 * TWO32 + count0 == (total + 8 * n) % TWO64
    {
      BitCountAdds(count0, count1, total, n);
      var nbits := n * 8 % TWO32;
      count1 := (count1 + n / 0x2000_0000) % TWO32;
      count0 := (count0 + nbits) % TWO32;
      if count0 < nbits {
        count1 := (count1 + 1) % TWO32;
      }
    }

    /** Whole blocks straight from the input, then the rest into the buffer. */
    method AppendFromBoundary(data: seq<byte>, start: nat, ghost w: seq<byte>)
      requires buf.Length == 64 && start <= |data| && Blocks(w) && abcd == Absorb(compress, START, w)
      modifies this`abcd, buf
      ensures abcd == Absorb(compress, START, w + data[start..])
      ensures var live := Live(w + data[start..]); buf[..|live|] == live
    {
      var p := start;
      ghost var done := w;
      assert w + data[start..] == done + data[p..];
      while |data| - p >= 64
        invariant start <= p <= |data| && w + data[start..] == done + data[p..]
        invariant Blocks(done) && abcd == Absorb(compress, START, done)
      {
        ghost var block := data[p..p + 64];
        assert done + data[p..] == done + block + data[p + 64..];
        BlockCompletes(compress, done, block);
        abcd := compress(abcd, data[p..p + 64]);
        p, done := p + 64, done + block;
      }
      CopyIn(0, data[p..]);
      UnfinishedBlock(compress, done, data[p..]);
      assert buf[0..|data| - p] == data[p..];
    }

    /** Fills the current block from the input; absorbs it when it is complete. */
    method FillBlock(offset: nat, data: seq<byte>, ghost whole: seq<byte>, ghost live: seq<byte>)
      returns (copy: nat, full: bool)
      requires buf.Length == 64 && Blocks(whole) && offset == |live| < 64
      requires abcd == Absorb(compress, START, whole) && buf[..offset] == live
      modifies this`abcd, buf
      ensures copy <= |data| && full == (|live| + copy == 64)
      ensures full ==> Blocks(whole + (live + data[..copy])) && abcd == Absorb(compress, START, whole + (live + data[..copy]))
      ensures !full ==> copy == |data| && offset + copy < 64 && abcd == old(abcd) && buf[..offset + copy] == live + data
    {
      copy := if offset + |data| > 64 then 64 - offset else |data|;
      CopyIn(offset, data[..copy]);
      assert buf[..offset + copy] == live + data[..copy];
      full := offset + copy >= 64;
      if full {
        assert buf[..] == buf[..64] == live + data[..copy];
        BlockCompletes(compress, whole, live + data[..copy]);
        abcd := compress(abcd, buf[..]);
      } else {
        assert data[..copy] == data;
      }
    }

    /** md5_append: after a message `m`, the state stands for `m` followed by `data`. */
    method Append(data: seq<byte>, ghost m: seq<byte>)
      requires Holds(m)
      modifies this, buf
      ensures Holds(m + data)
    {
      var offset := count0 / 8 % 64;
      OffsetOfCount(count0, count1, |m|);
      LiveLength(m);
      if |data| == 0 {
        assert m + data == m;
        return;
      }
      AddToCount(|data|, 8 * |m|);
      AppendOctets(offset, data, m);
    }

    method AppendOctets(offset: nat, data: seq<byte>, ghost m: seq<byte>)
      requires buf.Length == 64 && abcd == Absorb(compress, START, m)
      requires offset == |Live(m)| && buf[..offset] == Live(m)
      modifies this`abcd, buf
      ensures abcd == Absorb(compress, START, m + data)
      ensures buf[..|Live(m + data)|] == Live(m + data)
    {
      ghost var whole := WholeAndLive(m);
      UnfinishedBlock(compress, whole, Live(m));
      var copy := 0;
      if offset != 0 {
        var full;
        copy, full := FillBlock(offset, data, whole, Live(m));
        if !full {
          StaysUnfinished(compress, m, whole, Live(m), data);
          return;
        }
      } else {
        assert Live(m) + data[..0] == [] && whole + [] == whole;
      }
      ghost var done := whole + (Live(m) + data[..copy]);
      assert m + data == done + data[copy..];
      AppendFromBoundary(data, copy, done);
    }

    /** The saved bit count as octets. */
    method SaveLength() returns (data: seq<byte>)
      ensures data == LittleEndian(count1 * TWO32 + count0, 8)
    {
      data := [];
      for i := 0 to 8
        invariant data == LengthOctets(count0, count1)[..i]
      {
        LengthOctet(count0, count1, i);
        data := data + [Octet(if i < 4 then count0 else count1, i % 4)];
      }
      LengthIsLittleEndian(count0, count1);
      assert data == LengthOctets(count0, count1);
    }

    method ReadDigest() returns (digest: seq<byte>)
      ensures digest == DigestOctets(abcd)
    {
      digest := [];
      for i := 0 to 16
        invariant digest == DigestOctets(abcd)[..i]
      {
        DigestOctet(abcd, i);
        var word := if i < 4 then abcd.a else if i < 8 then abcd.b else if i < 12 then abcd.c else abcd.d;
        digest := digest + [Octet(word, i % 4)];
      }
      assert digest == DigestOctets(abcd);
    }

    /** The padding up to 56 octets modulo 64, its length taken from the bit count. */
    method PadBytes(ghost m: seq<byte>) returns (pad: seq<byte>)
      requires Holds(m)
      ensures pad == [0x80] + Zeros(PadZeros(|m|))
    {
      OffsetOfCount(count0, count1, |m|);
      var padLength := (55 - count0 / 8) % 64 + 1;
      PadFromCount(count0, |m|);
      pad := ([0x80] + Zeros(63))[..padLength];
    }

    /** md5_finish: the digest of the padded message. */
    method Finish(ghost m: seq<byte>) returns (digest: seq<byte>)
      requires Holds(m)
      modifies this, buf
      ensures digest == Digest(compress, m)
    {
      AppendPadding(m);
      digest := ReadDigest();
    }

    // The length is saved before the padding is appended.
    method AppendPadding(ghost m: seq<byte>)
      requires Holds(m)
      modifies this, buf
      ensures Holds(Padded(m))
    {
      var data := SaveLength();
      assert data == LittleEndian(8 * |m| % TWO64, 8);
      var pad := PadBytes(m);
      PaddedParts(m, pad, data);
      Append(pad, m);
      Append(data, m + pad);
    }
  }

  lemma PadFromCount(low: Word, n: nat)
    requires low / 8 % 64 == n % 64
    ensures (55 - low / 8) % 64 == (55 - n) % 64
  {
  }

  lemma StaysUnfinished(f: Compress, m: seq<byte>, whole: seq<byte>, live: seq<byte>, data: seq<byte>)
    requires m == whole + live && Blocks(whole) && |live| + |data| < 64
    ensures Absorb(f, START, m + data) == Absorb(f, START, whole)
    ensures Live(m + data) == live + data
  {
    assert m + data == whole + (live + data);
    UnfinishedBlock(f, whole, live + data);
  }

  lemma PaddedParts(m: seq<byte>, pad: seq<byte>, data: seq<byte>)
    requires pad == [0x80] + Zeros(PadZeros(|m|)) && data == LittleEndian(8 * |m| % TWO64, 8)
    ensures m + pad + data == Padded(m)
  {
    assert m + pad == m + [0x80] + Zeros(PadZeros(|m|));
  }

  // (word >> (8 * k)) truncated to an octet
  function Octet(word: Word, k: nat): byte
    requires k < 4
  {
    (match k case 0 => word case 1 => word / 0x100 case 2 => word / 0x1_0000 case _ => word / 0x100_0000) % 256
  }

  function LengthOctets(low: Word, high: Word): seq<byte> {
    LittleEndian(low, 4) + LittleEndian(high, 4)
  }

  function Pow256(k: nat): (r: nat)
    ensures r > 0
  {
    if k == 0 then 1 else 256 * Pow256(k - 1)
  }

  /** The number that octets spell, least significant first. */
  function Spelled(s: seq<byte>): nat {
    if s == [] then 0 else s[0] + 256 * Spelled(s[1..])
  }

  lemma {:induction false} LittleEndianSpells(v: nat, n: nat)
    ensures Spelled(LittleEndian(v, n)) == v % Pow256(n)
    decreases n
  {
    if n > 0 {
      LittleEndianSpells(v / 256, n - 1);
      DropLowest(v, Pow256(n - 1));
    }
  }

  lemma DropLowest(v: nat, p: nat)
    requires p > 0
    ensures v % (256 * p) == v % 256 + 256 * (v / 256 % p)
  {
    var q, r := v / 256 / p, v / 256 % p;
    assert v / 256 == q * p + r;
    assert v == q * (256 * p) + (256 * r + v % 256) by {
      assert v == 256 * (v / 256) + v % 256;
    }
    assert 256 * r + v % 256 < 256 * p;
    RemainderIs(v, 256 * p, q, 256 * r + v % 256);
  }

  lemma RemainderIs(v: nat, m: nat, q: nat, r: nat)
    requires m > 0 && v == q * m + r && r < m
    ensures v % m == r
  {
    var q' := v / m;
    assert v == q' * m + v % m;
    SameQuotient(m, q, r, q', v % m);
  }

  lemma SameQuotient(m: nat, q: nat, r: nat, q': nat, r': nat)
    requires q * m + r == q' * m + r' && r < m && r' < m
    ensures r == r'
  {
    MultiplesApart(m, q, q');
    MultiplesApart(m, q', q);
  }

  lemma {:induction false} MultiplesApart(m: nat, q: nat, q': nat)
    ensures q < q' ==> q * m + m <= q' * m
    decreases q'
  {
    if q < q' {
      OneMultipleMore(m, q' - 1);
      MultiplesApart(m, q, q' - 1);
    }
  }

  lemma OneMultipleMore(m: nat, q: nat)
    ensures (q + 1) * m == q * m + m
  {
  }

  /** The registers start as the octets of section 3.3: 01 to ef upwards, then fe to 10 downwards. */
  lemma StartOctets()
    ensures DigestOctets(START)
         == [0x01, 0x23, 0x45, 0x67, 0x89, 0xab, 0xcd, 0xef, 0xfe, 0xdc, 0xba, 0x98, 0x76, 0x54, 0x32, 0x10]
  {
    WordOctets(0x67452301);
    WordOctets(0xefcdab89);
    WordOctets(0x98badcfe);
    WordOctets(0x10325476);
  }

  lemma {:induction false} LittleEndianConcat(low: nat, high: nat, k: nat, n: nat)
    requires low < Pow256(k)
    ensures LittleEndian(high * Pow256(k) + low, k + n) == LittleEndian(low, k) + LittleEndian(high, n)
    decreases k
  {
    if k > 0 {
      var p, v := Pow256(k - 1), high * Pow256(k) + low;
      LowestOctet(low, high, p, v);
      LittleEndianConcat(low / 256, high, k - 1, n);
      assert LittleEndian(v, k + n) == [v % 256] + LittleEndian(v / 256, k - 1 + n);
      assert LittleEndian(low, k) == [low % 256] + LittleEndian(low / 256, k - 1);
    }
  }

  lemma LowestOctet(low: nat, high: nat, p: nat, v: nat)
    requires low < 256 * p && v == high * (256 * p) + low
    ensures v % 256 == low % 256 && v / 256 == high * p + low / 256 && low / 256 < p
  {
    var x := high * p;
    assert v == 256 * x + low;
    TakeOut(x, low, v);
  }

  lemma TakeOut(x: nat, low: nat, v: nat)
    requires v == 256 * x + low
    ensures v % 256 == low % 256 && v / 256 == x + low / 256
  {
  }

  lemma WordOctets(word: Word)
    ensures LittleEndian(word, 4) == [Octet(word, 0), Octet(word, 1), Octet(word, 2), Octet(word, 3)]
  {
    var s1 := LittleEndian(word / 256, 3);
    var s2 := LittleEndian(word / 256 / 256, 2);
    assert s2 == [word / 256 / 256 % 256] + LittleEndian(word / 256 / 256 / 256, 1);
    assert word / 256 / 256 == word / 0x1_0000 && word / 256 / 256 / 256 == word / 0x100_0000;
  }

  lemma LengthIsLittleEndian(low: Word, high: Word)
    ensures LengthOctets(low, high) == LittleEndian(high * TWO32 + low, 8)
  {
    assert Pow256(4) == 256 * (256 * (256 * (256 * Pow256(0)))) == TWO32;
    LittleEndianConcat(low, high, 4, 4);
  }

  lemma LengthOctet(low: Word, high: Word, i: nat)
    requires i < 8
    ensures LengthOctets(low, high)[i] == Octet(if i < 4 then low else high, i % 4)
  {
    var k := if i < 4 then i else i - 4;
    assert i % 4 == k;
    WordOctet(if i < 4 then low else high, k);
    ConcatAt(LittleEndian(low, 4), LittleEndian(high, 4), i);
  }

  lemma ConcatAt(a: seq<byte>, b: seq<byte>, i: nat)
    requires i < |a| + |b|
    ensures (a + b)[i] == if i < |a| then a[i] else b[i - |a|]
  {
  }

  lemma WordOctet(word: Word, i: nat)
    requires i < 4
    ensures LittleEndian(word, 4)[i] == Octet(word, i)
  {
    WordOctets(word);
  }

  lemma DigestOctet(c: Chain, i: nat)
    requires i < 16
    ensures DigestOctets(c)[i]
         == Octet(if i < 4 then c.a else if i < 8 then c.b else if i < 12 then c.c else c.d, i % 4)
  {
    if i < 8 {
      assert DigestOctets(c)[i] == LengthOctets(c.a, c.b)[i];
      LengthOctet(c.a, c.b, i);
    } else {
      assert DigestOctets(c)[i] == LengthOctets(c.c, c.d)[i - 8];
      LengthOctet(c.c, c.d, i - 8);
    }
  }

  /** Appending chunk after chunk stands for the message they spell. */
  method AppendAll(state: Md5State, chunks: seq<seq<byte>>)
    requires state.Holds([])
    modifies state, state.buf
    ensures state.Holds(Flatten(chunks))
  {
    for i := 0 to |chunks|
      invariant state.Holds(Flatten(chunks[..i]))
    {
      state.Append(chunks[i], Flatten(chunks[..i]));
      FlattenSnoc(chunks[..i], chunks[i]);
      assert chunks[..i + 1] == chunks[..i] + [chunks[i]];
    }
    assert chunks[..|chunks|] == chunks;
  }

  /** Any split of a message gives the digest of the whole. */
  method HashChunks(f: Compress, chunks: seq<seq<byte>>) returns (digest: seq<byte>)
    ensures digest == Digest(f, Flatten(chunks))
  {
    var state := new Md5State(f);
    AppendAll(state, chunks);
    digest := state.Finish(Flatten(chunks));
  }
}
