/**
  Payload masking of install/include/websocketpp/frame.hpp: octet by octet, and a machine word at a
  time through reinterpreted buffers, for words of 4 or 8 octets on hosts of either byte order.

  Every shift in this code is by whole octets, so a machine word is given by its octets, least
  significant first; exclusive-or and or act on the octets one by one.
 */
module Masking {
  import opened Wrappers

  type octet = bv8

  /** A machine word, least significant octet first. */
  type Word = seq<octet>

  datatype Order = LittleEndian | BigEndian

  predicate WordSize(size: nat) {
    size == 4 || size == 8
  }

  function Reverse(s: seq<octet>): (r: seq<octet>)
    ensures |r| == |s|
    ensures forall i | 0 <= i < |s| :: r[i] == s[|s| - 1 - i]
  {
    seq(|s|, i requires 0 <= i < |s| => s[|s| - 1 - i])
  }

  /** A word as it lies in memory, and the word that octets of memory make up. */
  function Memory(w: Word, order: Order): (s: seq<octet>)
    ensures |s| == |w|
  {
    if order.LittleEndian? then w else Reverse(w)
  }

  function Load(s: seq<octet>, order: Order): (w: Word)
    ensures |w| == |s|
    ensures Memory(w, order) == s
  {
    if order.LittleEndian? then s else Reverse(s)
  }

  function Zeros(n: nat): seq<octet> {
    seq(n, _ => 0)
  }

  function Xor(a: Word, b: Word): (r: Word)
    requires |a| == |b|
    ensures |r| == |a|
  {
    seq(|a|, i requires 0 <= i < |a| => a[i] ^ b[i])
  }

  function Or(a: Word, b: Word): (r: Word)
    requires |a| == |b|
    ensures |r| == |a|
  {
    seq(|a|, i requires 0 <= i < |a| => a[i] | b[i])
  }

  /** w << (8 * n) and w >> (8 * n). */
  function ShiftLeft(w: Word, n: nat): (r: Word)
    requires n <= |w|
    ensures |r| == |w|
  {
    Zeros(n) + w[..|w| - n]
  }

  function ShiftRight(w: Word, n: nat): (r: Word)
    requires n <= |w|
    ensures |r| == |w|
  {
    w[n..] + Zeros(n)
  }

  /** Exclusive-or of words is exclusive-or of the memory they occupy. */
  lemma XorInMemory(a: Word, b: Word, order: Order)
    requires |a| == |b|
    ensures Memory(Xor(a, b), order) == Xor(Memory(a, order), Memory(b, order))
  {
    if order.BigEndian? {
      var l, r := Reverse(Xor(a, b)), Xor(Reverse(a), Reverse(b));
      forall i | 0 <= i < |l|
        ensures l[i] == r[i]
      {
        assert l[i] == a[|a| - 1 - i] ^ b[|a| - 1 - i];
      }
    }
  }

  // ------------------------------------------------------- keys

  function PrepareMaskingKey(key: seq<octet>, size: nat, order: Order): (w: Word)
    requires |key| == 4 && WordSize(size)
    ensures |w| == size
  {
    var low := Load(key, order) + Zeros(size - 4);
    if size == 8 then Or(ShiftLeft(low, 4), low) else low
  }

  /** The key octet for each place of the payload. */
  type KeyStream = nat -> octet

  /** Section 5.3 of RFC 6455: octet i of the payload meets octet i modulo 4 of the key. */
  function Stream(key: seq<octet>): KeyStream
    requires |key| == 4
  {
    (i: nat) => key[i % 4]
  }

  predicate Repeats(ks: KeyStream, i: nat) {
    ks(i + 4) == ks(i)
  }

  ghost predicate Periodic(ks: KeyStream) {
    forall i: nat :: Repeats(ks, i)
  }

  lemma StreamIsPeriodic(key: seq<octet>)
    requires |key| == 4
    ensures Periodic(Stream(key))
  {
  }

  /** The octets in `n` words. */
  function Words(n: nat, size: nat): nat
    requires WordSize(size)
  {
    if size == 4 then 4 * n else 8 * n
  }

  /** length / sizeof(size_t) */
  function WholeWords(length: nat, size: nat): (n: nat)
    requires WordSize(size)
    ensures Words(n, size) <= length < Words(n, size) + size
  {
    if size == 4 then length / 4 else length / 8
  }

  lemma {:induction false} Period(ks: KeyStream, x: nat, n: nat, size: nat)
    requires Periodic(ks) && WordSize(size)
    ensures ks(x + Words(n, size)) == ks(x)
    decreases n
  {
    if n > 0 {
      Period(ks, x, n - 1, size);
      var y := x + Words(n - 1, size);
      assert Repeats(ks, y) && Repeats(ks, y + 4);
    }
  }

  /** In memory the word holds the key octets for the places from `offset` on. */
  predicate KeyAt(w: Word, ks: KeyStream, offset: nat, order: Order) {
    forall i | 0 <= i < |w| :: Memory(w, order)[i] == ks(offset + i)
  }

  // Words that fill complementary octets are joined by or.
  lemma OrJoins(a: seq<octet>, b: seq<octet>)
    ensures Or(a + Zeros(|b|), Zeros(|a|) + b) == a + b
    ensures Or(Zeros(|a|) + b, a + Zeros(|b|)) == a + b
  {
  }

  /** In memory the prepared key is the masking key, once or twice, whatever the byte order. */
  lemma PreparedKeyInMemory(key: seq<octet>, size: nat, order: Order)
    requires |key| == 4 && WordSize(size)
    ensures Memory(PrepareMaskingKey(key, size, order), order) == if size == 8 then key + key else key
  {
    var k := Load(key, order);
    if size == 8 {
      OrJoins(k, k);
      assert (k + Zeros(4))[..4] == k;
      assert PrepareMaskingKey(key, size, order) == k + k;
      assert order.BigEndian? ==> Reverse(k + k) == Reverse(k) + Reverse(k);
    } else {
      assert k + Zeros(0) == k;
    }
  }

  lemma PreparedKeyStarts(key: seq<octet>, size: nat, order: Order)
    requires |key| == 4 && WordSize(size)
    ensures Periodic(Stream(key)) && KeyAt(PrepareMaskingKey(key, size, order), Stream(key), 0, order)
  {
    PreparedKeyInMemory(key, size, order);
    StreamIsPeriodic(key);
    var m := Memory(PrepareMaskingKey(key, size, order), order);
    forall i | 0 <= i < size
      ensures m[i] == Stream(key)(0 + i)
    {
      assert i % 4 == if i < 4 then i else i - 4;
    }
  }

  function CircshiftPreparedKey(k: Word, offset: nat, order: Order): (r: Word)
    requires offset < |k|
    ensures |r| == |k|
  {
    if offset == 0 then k
    else match order
      case LittleEndian => Or(ShiftRight(k, offset), ShiftLeft(k, |k| - offset))
      case BigEndian => Or(ShiftLeft(k, offset), ShiftRight(k, |k| - offset))
  }

  /** The circular shift rotates the key in memory, on either byte order. */
  lemma CircshiftRotates(k: Word, offset: nat, order: Order)
    requires offset < |k|
    ensures Memory(CircshiftPreparedKey(k, offset, order), order)
         == Memory(k, order)[offset..] + Memory(k, order)[..offset]
  {
    if offset == 0 {
      assert k[..0] == [] && Memory(k, order)[..0] == [] && Memory(k, order)[0..] == Memory(k, order);
    } else if order.LittleEndian? {
      OrJoins(k[offset..], k[..offset]);
    } else {
      var a, b := k[|k| - offset..], k[..|k| - offset];
      OrJoins(a, b);
      assert k == b + a;
      ReverseConcat(b, a);
      ReverseConcat(a, b);
      assert Reverse(k) == Reverse(a) + Reverse(b);
    }
  }

  lemma ReverseConcat(a: seq<octet>, b: seq<octet>)
    ensures Reverse(a + b) == Reverse(b) + Reverse(a)
  {
  }

  // `r` is the key for one place, rotated: it is the key for the place `length` octets later.
  lemma KeyAdvances(k: Word, r: Word, ks: KeyStream, offset: nat, length: nat, order: Order)
    requires WordSize(|k|) && Periodic(ks) && KeyAt(k, ks, offset, order)
    requires var l := length - Words(WholeWords(length, |k|), |k|);
             Memory(r, order) == Memory(k, order)[l..] + Memory(k, order)[..l]
    ensures KeyAt(r, ks, offset + length, order)
  {
    var n := WholeWords(length, |k|);
    RotationFits(Memory(k, order), ks, offset, length - Words(n, |k|), n, offset + length);
  }

  // A rotation by `l` of the key octets for one place fits the place `l` octets and some words later.
  lemma RotationFits(m: seq<octet>, ks: KeyStream, offset: nat, l: nat, n: nat, later: nat)
    requires WordSize(|m|) && l < |m| && Periodic(ks) && forall i | 0 <= i < |m| :: m[i] == ks(offset + i)
    requires later == offset + Words(n, |m|) + l
    ensures forall i | 0 <= i < |m| :: (m[l..] + m[..l])[i] == ks(later + i)
  {
    forall i | 0 <= i < |m|
      ensures (m[l..] + m[..l])[i] == ks(later + i)
    {
      if i < |m| - l {
        Period(ks, offset + (l + i), n, |m|);
      } else {
        Period(ks, offset + (l + i - |m|), n + 1, |m|);
      }
    }
  }

  // ------------------------------------------------------- masking, octet by octet

  /** The payload octets from `offset` on, each combined with its key octet. */
  function Mask(s: seq<octet>, ks: KeyStream, offset: nat): (r: seq<octet>)
    ensures |r| == |s|
  {
    seq(|s|, i requires 0 <= i < |s| => s[i] ^ ks(offset + i))
  }

  lemma XorTwice(x: octet, y: octet)
    ensures (x ^ y) ^ y == x
  {
  }

  /** Masking is its own inverse. */
  lemma MaskTwice(s: seq<octet>, ks: KeyStream, offset: nat)
    ensures Mask(Mask(s, ks, offset), ks, offset) == s
  {
    forall i | 0 <= i < |s|
      ensures Mask(Mask(s, ks, offset), ks, offset)[i] == s[i]
    {
      XorTwice(s[i], ks(offset + i));
    }
  }

  /** Section 5.3 of RFC 6455: octet i of the payload, exclusive-or octet i modulo 4 of the key. */
  lemma MaskedOctet(s: seq<octet>, key: seq<octet>, i: nat)
    requires |key| == 4 && i < |s|
    ensures |Mask(s, Stream(key), 0)| == |s| && Mask(s, Stream(key), 0)[i] == s[i] ^ key[i % 4]
  {
  }

  lemma MaskConcat(a: seq<octet>, b: seq<octet>, ks: KeyStream, offset: nat)
    ensures Mask(a + b, ks, offset) == Mask(a, ks, offset) + Mask(b, ks, offset + |a|)
  {
  }

  lemma NextIndex(x: nat)
    ensures (x % 4 + 1) % 4 == (x + 1) % 4
  {
  }

  /** byte_mask over the first `length` octets; `output` may be `input` itself. */
  method ByteMask(input: array<octet>, output: array<octet>, length: nat, key: seq<octet>, keyOffset: nat)
    requires |key| == 4 && length <= input.Length && length <= output.Length
    modifies output
    ensures output[..length] == Mask(old(input[..length]), Stream(key), keyOffset)
    ensures output[length..] == old(output[length..])
  {
    var keyIndex := keyOffset % 4;
    for i := 0 to length
      invariant keyIndex == (keyOffset + i) % 4
      invariant forall j | 0 <= j < i :: output[j] == old(input[j]) ^ Stream(key)(keyOffset + j)
      invariant forall j | i <= j < length :: input[j] == old(input[j])
      invariant output[length..] == old(output[length..])
    {
      output[i] := input[i] ^ key[keyIndex];
      NextIndex(keyOffset + i);
      keyIndex := (keyIndex + 1) % 4;
    }
  }

  // ------------------------------------------------------- masking, word by word

  /** output_word[i] = input_word[i] ^ key */
  method MaskWord(input: array<octet>, output: array<octet>, at: nat, k: Word, order: Order)
    requires at + |k| <= input.Length && at + |k| <= output.Length
    modifies output
    ensures forall j | 0 <= j < |k| :: output[at + j] == old(input[at + j]) ^ Memory(k, order)[j]
    ensures forall j | 0 <= j < output.Length && !(at <= j < at + |k|) :: output[j] == old(output[j])
  {
    var word := Load(input[at..at + |k|], order);
    XorInMemory(word, k, order);
    var masked := Memory(Xor(word, k), order);
    forall j | 0 <= j < |k| {
      output[at + j] := masked[j];
    }
  }

  /** The loop over whole words that word_mask_exact and word_mask_circ share. */
  method MaskWords(input: array<octet>, output: array<octet>, n: nat, k: Word, ghost ks: KeyStream,
                   ghost offset: nat, order: Order)
    requires WordSize(|k|) && Periodic(ks) && KeyAt(k, ks, offset, order)
    requires Words(n, |k|) <= input.Length && Words(n, |k|) <= output.Length
    modifies output
    ensures forall j | 0 <= j < Words(n, |k|) :: output[j] == old(input[j]) ^ ks(offset + j)
    ensures forall j | Words(n, |k|) <= j < output.Length :: output[j] == old(output[j])
    ensures forall j | Words(n, |k|) <= j < input.Length :: input[j] == old(input[j])
  {
    for i := 0 to n
      invariant Words(i, |k|) <= Words(n, |k|)
      invariant forall j | 0 <= j < Words(i, |k|) :: output[j] == old(input[j]) ^ ks(offset + j)
      invariant forall j | Words(i, |k|) <= j < output.Length :: output[j] == old(output[j])
      invariant forall j | Words(i, |k|) <= j < input.Length :: input[j] == old(input[j])
    {
      var at := Words(i, |k|);
      assert Words(i + 1, |k|) == at + |k| <= Words(n, |k|);
      MaskWord(input, output, at, k, order);
      forall j | at <= j < at + |k|
        ensures output[j] == old(input[j]) ^ ks(offset + j)
      {
        assert output[at + (j - at)] == old(input[at + (j - at)]) ^ Memory(k, order)[j - at];
        Period(ks, offset + (j - at), i, |k|);
      }
    }
  }

  /** word_mask_exact: whole words with the prepared key, the rest octet by octet. */
  method WordMaskExact(input: array<octet>, output: array<octet>, length: nat, key: seq<octet>, size: nat, order: Order)
    requires |key| == 4 && WordSize(size) && length <= input.Length && length <= output.Length
    modifies output
    ensures output[..length] == Mask(old(input[..length]), Stream(key), 0)
    ensures output[length..] == old(output[length..])
  {
    var preparedKey, ks := FirstKey(key, size, order);
    var n := WholeWords(length, size);
    var words := Words(n, size);
    MaskWords(input, output, n, preparedKey, ks, 0, order);
    label rest:
    MaskRest(input, output, words, length, key, ks);
    forall j | 0 <= j < length
      ensures output[j] == old(input[j]) ^ ks(0 + j)
    {
      if j < words {
        assert output[j] == old@rest(output[j]);
      } else {
        assert old@rest(input[j]) == old(input[j]);
      }
    }
    MaskedAre(old(input[..length]), output[..length], ks, 0);
  }

  method FirstKey(key: seq<octet>, size: nat, order: Order) returns (preparedKey: Word, ghost ks: KeyStream)
    requires |key| == 4 && WordSize(size)
    ensures |preparedKey| == size && ks == Stream(key) && Periodic(ks) && KeyAt(preparedKey, ks, 0, order)
  {
    preparedKey, ks := PrepareMaskingKey(key, size, order), Stream(key);
    PreparedKeyStarts(key, size, order);
  }

  /** The octets from `from` on, one by one. */
  method MaskRest(input: array<octet>, output: array<octet>, from: nat, length: nat, key: seq<octet>, ghost ks: KeyStream)
    requires |key| == 4 && ks == Stream(key) && from <= length <= input.Length && length <= output.Length
    modifies output
    ensures forall j | from <= j < length :: output[j] == old(input[j]) ^ ks(0 + j)
    ensures forall j | 0 <= j < output.Length && !(from <= j < length) :: output[j] == old(output[j])
  {
    for i := from to length
      invariant forall j | from <= j < i :: output[j] == old(input[j]) ^ ks(0 + j)
      invariant forall j | 0 <= j < output.Length && !(from <= j < i) :: output[j] == old(output[j])
      invariant forall j | i <= j < input.Length :: input[j] == old(input[j])
    {
      assert key[i % 4] == ks(0 + i);
      output[i] := input[i] ^ key[i % 4];
    }
  }

  /**
    word_mask_circ: masks the payload octets that follow the first `offset` ones, given the key for
    that place, and returns the key for the place after them.
   */
  method WordMaskCirc(input: array<octet>, output: array<octet>, length: nat, preparedKey: Word,
                      ghost ks: KeyStream, ghost offset: nat, order: Order)
    returns (nextKey: Word)
    requires length <= input.Length && length <= output.Length
    requires WordSize(|preparedKey|) && Periodic(ks) && KeyAt(preparedKey, ks, offset, order)
    modifies output
    ensures output[..length] == Mask(old(input[..length]), ks, offset)
    ensures output[length..] == old(output[length..])
    ensures |nextKey| == |preparedKey| && KeyAt(nextKey, ks, offset + length, order)
  {
    var size := |preparedKey|;
    var n := WholeWords(length, size);
    MaskWords(input, output, n, preparedKey, ks, offset, order);
    MaskPartialWord(input, output, length, n, preparedKey, ks, offset, order);
    nextKey := NextKey(preparedKey, length, ks, offset, order);
    MaskedAre(old(input[..length]), output[..length], ks, offset);
  }

  method NextKey(preparedKey: Word, length: nat, ghost ks: KeyStream, ghost offset: nat, order: Order)
    returns (nextKey: Word)
    requires WordSize(|preparedKey|) && Periodic(ks) && KeyAt(preparedKey, ks, offset, order)
    ensures |nextKey| == |preparedKey| && KeyAt(nextKey, ks, offset + length, order)
  {
    var l := length - Words(WholeWords(length, |preparedKey|), |preparedKey|);
    nextKey := CircshiftPreparedKey(preparedKey, l, order);
    CircshiftRotates(preparedKey, l, order);
    KeyAdvances(preparedKey, nextKey, ks, offset, length, order);
  }

  lemma MaskedAre(s: seq<octet>, r: seq<octet>, ks: KeyStream, offset: nat)
    requires |r| == |s| && forall j | 0 <= j < |s| :: r[j] == s[j] ^ ks(offset + j)
    ensures r == Mask(s, ks, offset)
  {
  }

  /** The octets after the last whole word take their key octets from the start of the key word. */
  method MaskPartialWord(input: array<octet>, output: array<octet>, length: nat, n: nat, preparedKey: Word,
                         ghost ks: KeyStream, ghost offset: nat, order: Order)
    requires length <= input.Length && length <= output.Length
    requires WordSize(|preparedKey|) && Words(n, |preparedKey|) <= length <= Words(n, |preparedKey|) + |preparedKey|
    requires Periodic(ks) && KeyAt(preparedKey, ks, offset, order)
    modifies output
    ensures forall j | Words(n, |preparedKey|) <= j < length :: output[j] == old(input[j]) ^ ks(offset + j)
    ensures forall j | 0 <= j < output.Length && !(Words(n, |preparedKey|) <= j < length) :: output[j] == old(output[j])
  {
    var start := Words(n, |preparedKey|);
    var byteKey := Memory(preparedKey, order);
    for i := 0 to length - start
      invariant forall j | start <= j < start + i :: output[j] == old(input[j]) ^ ks(offset + j)
      invariant forall j | 0 <= j < output.Length && !(start <= j < start + i) :: output[j] == old(output[j])
      invariant forall j | start + i <= j < input.Length :: input[j] == old(input[j])
    {
      Period(ks, offset + i, n, |preparedKey|);
      output[start + i] := input[start + i] ^ byteKey[i];
    }
  }

  // ------------------------------------------------------- a payload in many buffers

  /** Each part masked for its place in a payload of which `offset` octets came before. */
  function MaskParts(parts: seq<seq<octet>>, ks: KeyStream, offset: nat): (masked: seq<seq<octet>>)
    ensures |masked| == |parts|
  {
    if parts == [] then [] else [Mask(parts[0], ks, offset)] + MaskParts(parts[1..], ks, offset + |parts[0]|)
  }

  /** Masking part by part, each for its place, is masking the whole. */
  lemma {:induction false} PartsMakeWhole(parts: seq<seq<octet>>, ks: KeyStream, offset: nat)
    ensures Flatten(MaskParts(parts, ks, offset)) == Mask(Flatten(parts), ks, offset)
    decreases |parts|
  {
    if parts != [] {
      var masked := MaskParts(parts, ks, offset);
      assert masked[1..] == MaskParts(parts[1..], ks, offset + |parts[0]|);
      PartsMakeWhole(parts[1..], ks, offset + |parts[0]|);
      MaskConcat(parts[0], Flatten(parts[1..]), ks, offset);
    }
  }

  predicate Different(chunks: seq<array<octet>>) {
    forall i, j | 0 <= i < j < |chunks| :: chunks[i] != chunks[j]
  }

  /** Different buffers, holding the parts. */
  predicate Hold(chunks: seq<array<octet>>, parts: seq<seq<octet>>)
    reads chunks
  {
    |chunks| == |parts| && Different(chunks) && forall i | 0 <= i < |chunks| :: chunks[i][..] == parts[i]
  }

  /** What a row of buffers holds together. */
  function Payload(chunks: seq<array<octet>>): seq<octet>
    reads chunks
  {
    if chunks == [] then [] else chunks[0][..] + Payload(chunks[1..])
  }

  lemma {:induction false} PayloadOfParts(chunks: seq<array<octet>>, parts: seq<seq<octet>>)
    requires Hold(chunks, parts)
    ensures Payload(chunks) == Flatten(parts)
    decreases |chunks|
  {
    if chunks != [] {
      PayloadOfParts(chunks[1..], parts[1..]);
    }
  }

  /** Masking buffer after buffer in place, handing the key on, masks the payload they hold together. */
  method MaskStream(chunks: seq<array<octet>>, key: seq<octet>, size: nat, order: Order)
    requires |key| == 4 && WordSize(size) && Different(chunks)
    modifies chunks
    ensures Payload(chunks) == Mask(old(Payload(chunks)), Stream(key), 0)
  {
    ghost var parts := seq(|chunks|, i requires 0 <= i < |chunks| reads chunks => chunks[i][..]);
    PayloadOfParts(chunks, parts);
    var k, ks := FirstKey(key, size, order);
    MaskEach(chunks, k, ks, 0, order, parts);
    PayloadOfParts(chunks, MaskParts(parts, ks, 0));
    PartsMakeWhole(parts, ks, 0);
  }

  method MaskEach(chunks: seq<array<octet>>, preparedKey: Word, ghost ks: KeyStream, ghost offset: nat, order: Order,
                  ghost parts: seq<seq<octet>>)
    requires Hold(chunks, parts) && WordSize(|preparedKey|) && Periodic(ks) && KeyAt(preparedKey, ks, offset, order)
    modifies chunks
    ensures Hold(chunks, MaskParts(parts, ks, offset))
    decreases |chunks|
  {
    if chunks == [] {
      return;
    }
    var nextKey := MaskOne(chunks[0], preparedKey, ks, offset, order, parts[0]);
    MaskEach(chunks[1..], nextKey, ks, offset + |parts[0]|, order, parts[1..]);
  }

  /** word_mask_circ over one whole buffer in place. */
  method MaskOne(data: array<octet>, preparedKey: Word, ghost ks: KeyStream, ghost offset: nat, order: Order,
                 ghost part: seq<octet>)
    returns (nextKey: Word)
    requires WordSize(|preparedKey|) && Periodic(ks) && KeyAt(preparedKey, ks, offset, order) && data[..] == part
    modifies data
    ensures data[..] == Mask(part, ks, offset)
    ensures |nextKey| == |preparedKey| && KeyAt(nextKey, ks, offset + |part|, order)
  {
    assert data[..data.Length] == data[..];
    nextKey := WordMaskCirc(data, data, data.Length, preparedKey, ks, offset, order);
    assert data[..data.Length] == data[..];
  }
}
