/**
  The UTF-8 automaton of install/include/websocketpp/utf8_validator.hpp against the definition of
  UTF-8 in RFC 3629: the grammar of section 4 and the bit layout of section 3.

  Octets and 32-bit registers are integers: `x & 0x3f` is `x % 64`, `x << 6` is `x * 64` modulo
  2^32, and an `|` of numbers without common bits is their sum.
 */
module Utf8 {
  import opened Wrappers

  // The lookup table, 16 entries a row: byte classes first, then the transitions of each state.
  function TableRow(r: nat): (row: seq<nat>)
    requires r < 25
    ensures |row| == 16
  {
    match r
    case 0 => [0, 0, 0, 0, 0, 0, 0, 0, 0, 0, 0, 0, 0, 0, 0, 0]  // 00..0f
    case 1 => [0, 0, 0, 0, 0, 0, 0, 0, 0, 0, 0, 0, 0, 0, 0, 0]  // 10..1f
    case 2 => [0, 0, 0, 0, 0, 0, 0, 0, 0, 0, 0, 0, 0, 0, 0, 0]  // 20..2f
    case 3 => [0, 0, 0, 0, 0, 0, 0, 0, 0, 0, 0, 0, 0, 0, 0, 0]  // 30..3f
    case 4 => [0, 0, 0, 0, 0, 0, 0, 0, 0, 0, 0, 0, 0, 0, 0, 0]  // 40..4f
    case 5 => [0, 0, 0, 0, 0, 0, 0, 0, 0, 0, 0, 0, 0, 0, 0, 0]  // 50..5f
    case 6 => [0, 0, 0, 0, 0, 0, 0, 0, 0, 0, 0, 0, 0, 0, 0, 0]  // 60..6f
    case 7 => [0, 0, 0, 0, 0, 0, 0, 0, 0, 0, 0, 0, 0, 0, 0, 0]  // 70..7f
    case 8 => [1, 1, 1, 1, 1, 1, 1, 1, 1, 1, 1, 1, 1, 1, 1, 1]  // 80..8f
    case 9 => [9, 9, 9, 9, 9, 9, 9, 9, 9, 9, 9, 9, 9, 9, 9, 9]  // 90..9f
    case 10 => [7, 7, 7, 7, 7, 7, 7, 7, 7, 7, 7, 7, 7, 7, 7, 7]  // a0..af
    case 11 => [7, 7, 7, 7, 7, 7, 7, 7, 7, 7, 7, 7, 7, 7, 7, 7]  // b0..bf
    case 12 => [8, 8, 2, 2, 2, 2, 2, 2, 2, 2, 2, 2, 2, 2, 2, 2]  // c0..cf
    case 13 => [2, 2, 2, 2, 2, 2, 2, 2, 2, 2, 2, 2, 2, 2, 2, 2]  // d0..df
    case 14 => [10, 3, 3, 3, 3, 3, 3, 3, 3, 3, 3, 3, 3, 4, 3, 3]  // e0..ef
    case 15 => [11, 6, 6, 6, 5, 8, 8, 8, 8, 8, 8, 8, 8, 8, 8, 8]  // f0..ff
    case 16 => [0, 1, 2, 3, 5, 8, 7, 1, 1, 1, 4, 6, 1, 1, 1, 1]  // state 0
    case 17 => [1, 1, 1, 1, 1, 1, 1, 1, 1, 1, 1, 1, 1, 1, 1, 1]  // state 1
    case 18 => [1, 0, 1, 1, 1, 1, 1, 0, 1, 0, 1, 1, 1, 1, 1, 1]  // state 2
    case 19 => [1, 2, 1, 1, 1, 1, 1, 2, 1, 2, 1, 1, 1, 1, 1, 1]  // state 3
    case 20 => [1, 1, 1, 1, 1, 1, 1, 2, 1, 1, 1, 1, 1, 1, 1, 1]  // state 4
    case 21 => [1, 2, 1, 1, 1, 1, 1, 1, 1, 2, 1, 1, 1, 1, 1, 1]  // state 5
    case 22 => [1, 1, 1, 1, 1, 1, 1, 3, 1, 3, 1, 1, 1, 1, 1, 1]  // state 6
    case 23 => [1, 3, 1, 1, 1, 1, 1, 3, 1, 3, 1, 1, 1, 1, 1, 1]  // state 7
    case _ => [1, 3, 1, 1, 1, 1, 1, 1, 1, 1, 1, 1, 1, 1, 1, 1]  // state 8
  }

  function Utf8d(i: nat): nat
    requires i < 400
  {
    TableRow(i / 16)[i % 16]
  }

  const ACCEPT := 0
  const REJECT := 1
  const WORD := 0x1_0000_0000

  type DecoderState = s: nat | s < 9

  predicate Tail(b: byte) {
    0x80 <= b <= 0xBF
  }

  // ------------------------------------------------------- what the table says

  function ClassOf(b: byte): nat {
    if b < 0x80 then 0
    else if b <= 0x8F then 1
    else if b <= 0x9F then 9
    else if b <= 0xBF then 7
    else if b <= 0xC1 then 8
    else if b <= 0xDF then 2
    else if b == 0xE0 then 10
    else if b == 0xED then 4
    else if b <= 0xEF then 3
    else if b == 0xF0 then 11
    else if b <= 0xF3 then 6
    else if b == 0xF4 then 5
    else 8
  }

  lemma AsciiClass(b: byte)
    requires b < 0x80
    ensures Utf8d(b) == 0
  {
  }

  lemma TailClass(b: byte)
    requires Tail(b)
    ensures Utf8d(b) == if b <= 0x8F then 1 else if b <= 0x9F then 9 else 7
  {
  }

  lemma TwoByteClass(b: byte)
    requires 0xC0 <= b <= 0xDF
    ensures Utf8d(b) == if b <= 0xC1 then 8 else 2
  {
  }

  lemma ThreeByteClass(b: byte)
    requires 0xE0 <= b <= 0xEF
    ensures Utf8d(b) == if b == 0xE0 then 10 else if b == 0xED then 4 else 3
  {
  }

  lemma FourByteClass(b: byte)
    requires 0xF0 <= b
    ensures Utf8d(b) == if b == 0xF0 then 11 else if b <= 0xF3 then 6 else if b == 0xF4 then 5 else 8
  {
  }

  lemma ByteClass(b: byte)
    ensures Utf8d(b) == ClassOf(b)
  {
    if b < 0x80 {
      AsciiClass(b);
    } else if b <= 0xBF {
      TailClass(b);
    } else if b <= 0xDF {
      TwoByteClass(b);
    } else if b <= 0xEF {
      ThreeByteClass(b);
    } else {
      FourByteClass(b);
    }
  }

  lemma FirstTransition(t: nat)
    requires t < 12
    ensures Utf8d(256 + t) == [0, 1, 2, 3, 5, 8, 7, 1, 1, 1, 4, 6][t]
  {
  }

  lemma StateRow(state: DecoderState, t: nat)
    requires t < 12
    ensures (256 + state * 16 + t) / 16 == 16 + state && (256 + state * 16 + t) % 16 == t
    ensures state == REJECT ==> Utf8d(256 + state * 16 + t) == REJECT
  {
  }

  lemma LaterTransition(state: DecoderState, t: nat)
    requires state >= 2 && t < 12
    ensures Utf8d(256 + state * 16 + t) ==
            match state
            case 2 => if t == 1 || t == 7 || t == 9 then 0 else 1
            case 3 => if t == 1 || t == 7 || t == 9 then 2 else 1
            case 4 => if t == 7 then 2 else 1
            case 5 => if t == 1 || t == 9 then 2 else 1
            case 6 => if t == 7 || t == 9 then 3 else 1
            case 7 => if t == 1 || t == 7 || t == 9 then 3 else 1
            case _ => if t == 1 then 3 else 1
  {
    StateRow(state, t);
  }

  /** The transition from one state on one octet, by octet ranges. */
  function Next(state: DecoderState, b: byte): DecoderState {
    match state
    case 0 =>
      if b < 0x80 then ACCEPT
      else if 0xC2 <= b <= 0xDF then 2
      else if b == 0xE0 then 4
      else if b == 0xED then 5
      else if 0xE1 <= b <= 0xEF then 3
      else if b == 0xF0 then 6
      else if 0xF1 <= b <= 0xF3 then 7
      else if b == 0xF4 then 8
      else REJECT
    case 1 => REJECT
    case 2 => if Tail(b) then ACCEPT else REJECT
    case 3 => if Tail(b) then 2 else REJECT
    case 4 => if 0xA0 <= b <= 0xBF then 2 else REJECT
    case 5 => if 0x80 <= b <= 0x9F then 2 else REJECT
    case 6 => if 0x90 <= b <= 0xBF then 3 else REJECT
    case 7 => if Tail(b) then 3 else REJECT
    case _ => if 0x80 <= b <= 0x8F then 3 else REJECT
  }

  /** The 400 table entries encode exactly that transition function. */
  lemma TableIsNext(state: DecoderState, b: byte)
    ensures Utf8d(b) == ClassOf(b) < 12
    ensures 256 + state * 16 + Utf8d(b) < 400
    ensures Utf8d(256 + state * 16 + Utf8d(b)) == Next(state, b)
  {
    ByteClass(b);
    if state == ACCEPT {
      FirstTransition(ClassOf(b));
    } else if state == REJECT {
      StateRow(state, ClassOf(b));
    } else {
      LaterTransition(state, ClassOf(b));
    }
  }

  // (0xff >> t) & b
  function MaskLead(t: nat, b: byte): nat {
    match t
    case 0 => b
    case 1 => b % 128
    case 2 => b % 64
    case 3 => b % 32
    case 4 => b % 16
    case 5 => b % 8
    case 6 => b % 4
    case 7 => b % 2
    case _ => 0
  }

  function LeadBits(b: byte): nat {
    MaskLead(ClassOf(b), b)
  }

  datatype Decoder = Decoder(state: DecoderState, codep: nat)

  const INITIAL := Decoder(ACCEPT, 0)

  /** One octet through the decoder. */
  function Advance(d: Decoder, b: byte): Decoder {
    Decoder(Next(d.state, b), if d.state != ACCEPT then b % 64 + d.codep * 64 % WORD else LeadBits(b))
  }

  /** A run over the octets; it stops where it rejects. */
  function Feed(d: Decoder, s: seq<byte>): Decoder
    decreases |s|
  {
    if s == [] then d
    else
      var d' := Advance(d, s[0]);
      if d'.state == REJECT then d' else Feed(d', s[1..])
  }

  /** The code point register at each return to the accept state. */
  function Codes(d: Decoder, s: seq<byte>): seq<nat>
    decreases |s|
  {
    if s == [] then []
    else
      var d' := Advance(d, s[0]);
      if d'.state == REJECT then []
      else (if d'.state == ACCEPT then [d'.codep] else []) + Codes(d', s[1..])
  }

  predicate Valid(s: seq<byte>) {
    Feed(INITIAL, s).state == ACCEPT
  }

  // ------------------------------------------------------- runs compose

  /** Decoding in two chunks is decoding the whole, unless the first chunk already rejects. */
  lemma {:induction false} FeedConcat(d: Decoder, a: seq<byte>, b: seq<byte>)
    requires d.state != REJECT
    ensures Feed(d, a + b) == if Feed(d, a).state == REJECT then Feed(d, a) else Feed(Feed(d, a), b)
    ensures Feed(d, a).state != REJECT ==> Codes(d, a + b) == Codes(d, a) + Codes(Feed(d, a), b)
    decreases |a|
  {
    if a == [] {
      assert a + b == b;
    } else {
      assert (a + b)[1..] == a[1..] + b;
      if Advance(d, a[0]).state != REJECT {
        FeedConcat(Advance(d, a[0]), a[1..], b);
      }
    }
  }

  /** Rejection is final: no continuation of a rejected input is valid. */
  lemma {:induction false} RejectIsAbsorbing(d: Decoder, s: seq<byte>)
    requires d.state == REJECT
    ensures Feed(d, s).state == REJECT && Codes(d, s) == []
  {
  }

  // ------------------------------------------------------- RFC 3629

  predicate Scalar(v: nat) {
    v < 0xD800 || 0xE000 <= v <= 0x10FFFF
  }

  /** Section 3: the octets of one scalar value. */
  function Encode(v: nat): (s: seq<byte>)
    requires Scalar(v)
    ensures s != []
  {
    if v < 0x80 then [v]
    else if v < 0x800 then [0xC0 + v / 64, 0x80 + v % 64]
    else if v < 0x10000 then [0xE0 + v / 4096, 0x80 + v / 64 % 64, 0x80 + v % 64]
    else [0xF0 + v / 262144, 0x80 + v / 4096 % 64, 0x80 + v / 64 % 64, 0x80 + v % 64]
  }

  predicate Scalars(vs: seq<nat>) {
    forall i | 0 <= i < |vs| :: Scalar(vs[i])
  }

  function EncodeAll(vs: seq<nat>): seq<byte>
    requires Scalars(vs)
  {
    if vs == [] then [] else Encode(vs[0]) + EncodeAll(vs[1..])
  }

  /** Section 4: UTF8-1, UTF8-2, UTF8-3 and UTF8-4. */
  predicate IsChar(s: seq<byte>) {
    || (|s| == 1 && s[0] <= 0x7F)
    || (|s| == 2 && 0xC2 <= s[0] <= 0xDF && Tail(s[1]))
    || (|s| == 3 && s[0] == 0xE0 && 0xA0 <= s[1] <= 0xBF && Tail(s[2]))
    || (|s| == 3 && 0xE1 <= s[0] <= 0xEC && Tail(s[1]) && Tail(s[2]))
    || (|s| == 3 && s[0] == 0xED && 0x80 <= s[1] <= 0x9F && Tail(s[2]))
    || (|s| == 3 && 0xEE <= s[0] <= 0xEF && Tail(s[1]) && Tail(s[2]))
    || (|s| == 4 && s[0] == 0xF0 && 0x90 <= s[1] <= 0xBF && Tail(s[2]) && Tail(s[3]))
    || (|s| == 4 && 0xF1 <= s[0] <= 0xF3 && Tail(s[1]) && Tail(s[2]) && Tail(s[3]))
    || (|s| == 4 && s[0] == 0xF4 && 0x80 <= s[1] <= 0x8F && Tail(s[2]) && Tail(s[3]))
  }

  /** Section 4: UTF8-octets = *( UTF8-char ). */
  ghost predicate WellFormed(s: seq<byte>)
    decreases |s|
  {
    s == [] || exists n :: 1 <= n <= |s| && IsChar(s[..n]) && WellFormed(s[n..])
  }

  // ------------------------------------------------------- one character

  /** The number of octets a lead octet announces; 0 when it cannot start a character. */
  function Announced(b: byte): nat {
    if b < 0x80 then 1
    else if 0xC2 <= b <= 0xDF then 2
    else if 0xE0 <= b <= 0xEF then 3
    else if 0xF0 <= b <= 0xF4 then 4
    else 0
  }

  /** The scalar value a character's octets spell. */
  function CharValue(s: seq<byte>): nat
    requires IsChar(s)
  {
    if |s| == 1 then s[0]
    else if |s| == 2 then 64 * (s[0] as int - 0xC0) + (s[1] as int - 0x80)
    else if |s| == 3 then
      4096 * (s[0] as int - 0xE0) + 64 * (s[1] as int - 0x80) + (s[2] as int - 0x80)
    else
      262144 * (s[0] as int - 0xF0) + 4096 * (s[1] as int - 0x80) + 64 * (s[2] as int - 0x80) + (s[3] as int - 0x80)
  }

  lemma CharIsEncoding(s: seq<byte>)
    requires IsChar(s)
    ensures Scalar(CharValue(s)) && Encode(CharValue(s)) == s
  {
    if |s| == 2 {
      TwoOctets(s[0] - 0xC0, s[1] - 0x80);
    } else if |s| == 3 {
      ThreeOctetEncoding(s, CharValue(s));
    } else if |s| == 4 {
      FourOctetEncoding(s, CharValue(s));
    }
  }

  lemma ThreeOctetEncoding(s: seq<byte>, v: nat)
    requires IsChar(s) && |s| == 3 && v == CharValue(s)
    ensures 0x800 <= v < 0x10000 && Scalar(v) && Encode(v) == s
  {
    ThreeOctets(s[0] - 0xE0, s[1] - 0x80, s[2] - 0x80);
  }

  lemma FourOctetEncoding(s: seq<byte>, v: nat)
    requires IsChar(s) && |s| == 4 && v == CharValue(s)
    ensures 0x10000 <= v && Scalar(v) && Encode(v) == s
  {
    FourOctets(s[0] - 0xF0, s[1] - 0x80, s[2] - 0x80, s[3] - 0x80);
  }

  lemma TwoOctets(x: nat, y: nat)
    requires 2 <= x < 32 && y < 64
    ensures var v := 64 * x + y; 0x80 <= v < 0x800 && v / 64 == x && v % 64 == y
  {
  }

  lemma ThreeOctets(x: nat, y: nat, z: nat)
    requires x < 16 && y < 64 && z < 64 && (x == 0 ==> y >= 32)
    ensures var v := 4096 * x + 64 * y + z;
            0x800 <= v < 0x10000 && v / 4096 == x && v / 64 % 64 == y && v % 64 == z
  {
    assert (4096 * x + 64 * y + z) / 64 == 64 * x + y;
  }

  lemma FourOctets(w: nat, x: nat, y: nat, z: nat)
    requires w < 5 && x < 64 && y < 64 && z < 64 && (w == 0 ==> x >= 16) && (w == 4 ==> x < 16)
    ensures var v := 262144 * w + 4096 * x + 64 * y + z;
            && 0x10000 <= v <= 0x10FFFF && v / 262144 == w && v / 4096 % 64 == x
            && v / 64 % 64 == y && v % 64 == z
  {
    var v := 262144 * w + 4096 * x + 64 * y + z;
    assert v / 64 == 4096 * w + 64 * x + y;
    assert v / 4096 == 64 * w + x;
  }

  lemma EncodingIsChar(v: nat)
    requires Scalar(v)
    ensures IsChar(Encode(v)) && CharValue(Encode(v)) == v
  {
    if v < 0x800 {
    } else if v < 0x10000 {
      ThreeOctetChar(v, v / 4096, v / 64 % 64, v % 64);
    } else {
      FourOctetChar(v, v / 262144, v / 4096 % 64, v / 64 % 64, v % 64);
    }
  }

  lemma ThreeOctetChar(v: nat, x: nat, y: nat, z: nat)
    requires Scalar(v) && 0x800 <= v < 0x10000 && x == v / 4096 && y == v / 64 % 64 && z == v % 64
    ensures x < 16 && IsChar([0xE0 + x, 0x80 + y, 0x80 + z]) && CharValue([0xE0 + x, 0x80 + y, 0x80 + z]) == v
  {
    assert v / 64 == v / 4096 * 64 + v / 64 % 64;
    assert v == 4096 * x + 64 * y + z;
  }

  lemma FourOctetChar(v: nat, w: nat, x: nat, y: nat, z: nat)
    requires Scalar(v) && 0x10000 <= v
    requires w == v / 262144 && x == v / 4096 % 64 && y == v / 64 % 64 && z == v % 64
    ensures w <= 4 && IsChar([0xF0 + w, 0x80 + x, 0x80 + y, 0x80 + z])
    ensures CharValue([0xF0 + w, 0x80 + x, 0x80 + y, 0x80 + z]) == v
  {
    assert v / 64 == v / 4096 * 64 + v / 64 % 64;
    assert v / 4096 == v / 262144 * 64 + v / 4096 % 64;
    assert v == 262144 * w + 4096 * x + 64 * y + z;
  }

  // A continuation octet shifts six more bits into the register.
  lemma ContinuationStep(d: Decoder, s: seq<byte>)
    requires s != [] && Tail(s[0]) && d.state >= 2 && Next(d.state, s[0]) != REJECT && d.codep < 0x10000
    ensures var d' := Decoder(Next(d.state, s[0]), 64 * d.codep + (s[0] as int - 0x80));
            Feed(d, s) == Feed(d', s[1..]) && (d'.state != ACCEPT ==> Codes(d, s) == Codes(d', s[1..]))
  {
  }

  lemma LastContinuation(d: Decoder, s: seq<byte>)
    requires |s| == 1 && Tail(s[0]) && d.state == 2 && d.codep < 0x10000
    ensures var v := 64 * d.codep + (s[0] as int - 0x80);
            Feed(d, s) == Decoder(ACCEPT, v) && Codes(d, s) == [v]
  {
    var v := 64 * d.codep + (s[0] as int - 0x80);
    assert Advance(d, s[0]) == Decoder(ACCEPT, v);
    assert s[1..] == [];
    assert Codes(Decoder(ACCEPT, v), s[1..]) == [];
  }

  function LeadValue(b: byte): int {
    if b < 0x80 then b as int
    else if b < 0xE0 then b as int - 0xC0
    else if b < 0xF0 then b as int - 0xE0
    else b as int - 0xF0
  }

  lemma LeadBitsAre(b: byte)
    requires Next(ACCEPT, b) != REJECT
    ensures LeadBits(b) == LeadValue(b)
  {
  }

  lemma LeadStep(c: nat, s: seq<byte>)
    requires s != [] && Next(ACCEPT, s[0]) >= 2
    ensures var d' := Decoder(Next(ACCEPT, s[0]), LeadValue(s[0]));
            && Feed(Decoder(ACCEPT, c), s) == Feed(d', s[1..])
            && Codes(Decoder(ACCEPT, c), s) == Codes(d', s[1..])
  {
    LeadBitsAre(s[0]);
    var d, d' := Decoder(ACCEPT, c), Decoder(Next(ACCEPT, s[0]), LeadValue(s[0]));
    assert Advance(d, s[0]) == d';
  }

  /** A character fed to an accepting decoder returns it to accept with the scalar in the register. */
  lemma CharRuns(c: nat, s: seq<byte>)
    requires IsChar(s)
    ensures Feed(Decoder(ACCEPT, c), s) == Decoder(ACCEPT, CharValue(s))
    ensures Codes(Decoder(ACCEPT, c), s) == [CharValue(s)]
  {
    if |s| == 1 {
      OneOctetRuns(c, s);
    } else {
      LeadStep(c, s);
      var state := Next(ACCEPT, s[0]);
      if |s| == 2 {
        LastContinuation(Decoder(state, s[0] as int - 0xC0), s[1..]);
      } else if |s| == 3 {
        TwoContinuations(Decoder(state, s[0] as int - 0xE0), s[1..]);
      } else {
        ContinuationStep(Decoder(state, s[0] as int - 0xF0), s[1..]);
        assert s[1..][1..] == s[2..];
        TwoContinuations(Decoder(3, 64 * (s[0] as int - 0xF0) + (s[1] as int - 0x80)), s[2..]);
      }
    }
  }

  lemma OneOctetRuns(c: nat, s: seq<byte>)
    requires |s| == 1 && s[0] < 0x80
    ensures Feed(Decoder(ACCEPT, c), s) == Decoder(ACCEPT, s[0]) && Codes(Decoder(ACCEPT, c), s) == [s[0]]
  {
  }

  lemma TwoContinuations(d: Decoder, s: seq<byte>)
    requires |s| == 2 && Tail(s[0]) && Tail(s[1]) && d.codep < 0x400
    requires d.state >= 2 && Next(d.state, s[0]) == 2
    ensures var v := 4096 * d.codep + 64 * (s[0] as int - 0x80) + (s[1] as int - 0x80);
            Feed(d, s) == Decoder(ACCEPT, v) && Codes(d, s) == [v]
  {
    ContinuationStep(d, s);
    LastContinuation(Decoder(2, 64 * d.codep + (s[0] as int - 0x80)), s[1..]);
  }

  // Conversely, octets that return an accepting decoder to accept for the first time are a character.
  lemma AcceptedPrefixIsChar(c: nat, s: seq<byte>)
    requires s != [] && Feed(Decoder(ACCEPT, c), s).state == ACCEPT
    ensures var n := Announced(s[0]); 1 <= n <= |s| && IsChar(s[..n])
  {
    var d := Decoder(ACCEPT, c);
    FeedFirst(d, s);
    if s[0] >= 0x80 {
      var d1 := Advance(d, s[0]);
      assert |s| >= 2;
      FeedFirst(d1, s[1..]);
      if Announced(s[0]) >= 3 {
        var d2 := Advance(d1, s[1]);
        assert s[1..][1..] == s[2..] && |s| >= 3;
        FeedFirst(d2, s[2..]);
        if Announced(s[0]) == 4 {
          assert s[2..][1..] == s[3..] && |s| >= 4;
          FeedFirst(Advance(d2, s[2]), s[3..]);
        }
      }
    }
  }

  lemma FeedFirst(d: Decoder, s: seq<byte>)
    requires s != []
    ensures var d' := Advance(d, s[0]); Feed(d, s) == if d'.state == REJECT then d' else Feed(d', s[1..])
  {
  }

  // ------------------------------------------------------- whole strings

  lemma CharThenRest(c: nat, s: seq<byte>, n: nat)
    requires 1 <= n <= |s| && IsChar(s[..n])
    ensures var v := CharValue(s[..n]);
            && Feed(Decoder(ACCEPT, c), s) == Feed(Decoder(ACCEPT, v), s[n..])
            && Codes(Decoder(ACCEPT, c), s) == [v] + Codes(Decoder(ACCEPT, v), s[n..])
  {
    CharRuns(c, s[..n]);
    assert s == s[..n] + s[n..];
    FeedConcat(Decoder(ACCEPT, c), s[..n], s[n..]);
  }

  /** Every sequence of scalar values, encoded, is accepted, and the register passes through it in order. */
  lemma {:induction false} EncodingsAccepted(c: nat, vs: seq<nat>)
    requires Scalars(vs)
    ensures Feed(Decoder(ACCEPT, c), EncodeAll(vs)).state == ACCEPT
    ensures Codes(Decoder(ACCEPT, c), EncodeAll(vs)) == vs
    decreases |vs|
  {
    if vs != [] {
      var s, first := EncodeAll(vs), Encode(vs[0]);
      EncodingIsChar(vs[0]);
      assert s[..|first|] == first && s[|first|..] == EncodeAll(vs[1..]);
      CharThenRest(c, s, |first|);
      EncodingsAccepted(vs[0], vs[1..]);
    }
  }

  /** Whatever is accepted is the encoding of the values that passed through the register. */
  lemma {:induction false} AcceptedIsEncoding(c: nat, s: seq<byte>)
    requires Feed(Decoder(ACCEPT, c), s).state == ACCEPT
    ensures Scalars(Codes(Decoder(ACCEPT, c), s))
    ensures EncodeAll(Codes(Decoder(ACCEPT, c), s)) == s
    decreases |s|
  {
    if s != [] {
      AcceptedPrefixIsChar(c, s);
      var n := Announced(s[0]);
      var v := CharValue(s[..n]);
      CharThenRest(c, s, n);
      CharIsEncoding(s[..n]);
      AcceptedIsEncoding(v, s[n..]);
      var rest := Codes(Decoder(ACCEPT, v), s[n..]);
      assert Codes(Decoder(ACCEPT, c), s) == [v] + rest;
      EncodeFirst(v, rest);
      assert s == s[..n] + s[n..];
    }
  }

  lemma EncodeFirst(v: nat, rest: seq<nat>)
    requires Scalar(v) && Scalars(rest)
    ensures Scalars([v] + rest) && EncodeAll([v] + rest) == Encode(v) + EncodeAll(rest)
  {
    assert ([v] + rest)[1..] == rest;
  }

  lemma {:induction false} WellFormedAccepted(c: nat, s: seq<byte>)
    ensures WellFormed(s) <==> Feed(Decoder(ACCEPT, c), s).state == ACCEPT
    decreases |s|
  {
    if s != [] {
      if Feed(Decoder(ACCEPT, c), s).state == ACCEPT {
        AcceptedPrefixIsChar(c, s);
        var n := Announced(s[0]);
        CharThenRest(c, s, n);
        WellFormedAccepted(CharValue(s[..n]), s[n..]);
      }
      if WellFormed(s) {
        var n :| 1 <= n <= |s| && IsChar(s[..n]) && WellFormed(s[n..]);
        CharThenRest(c, s, n);
        WellFormedAccepted(CharValue(s[..n]), s[n..]);
      }
    }
  }

  /** Valid strings are exactly the well-formed ones, and exactly the encodings of scalar values. */
  lemma ValidIsUtf8(s: seq<byte>)
    ensures Valid(s) <==> WellFormed(s)
    ensures Valid(s) <==> exists vs :: Scalars(vs) && s == EncodeAll(vs)
    ensures forall vs | Scalars(vs) && s == EncodeAll(vs) :: Codes(INITIAL, s) == vs
  {
    WellFormedAccepted(0, s);
    if Valid(s) {
      AcceptedIsEncoding(0, s);
    }
    forall vs | Scalars(vs) && s == EncodeAll(vs)
      ensures Valid(s) && Codes(INITIAL, s) == vs
    {
      EncodingsAccepted(0, vs);
    }
  }

  /** The octet 0xff never occurs in a valid string. */
  lemma {:induction false} NoFrameEnd(d: Decoder, s: seq<byte>, i: nat)
    requires Feed(d, s).state == ACCEPT && i < |s|
    ensures s[i] != 0xFF
    decreases |s|
  {
    FeedFirst(d, s);
    if i > 0 {
      NoFrameEnd(Advance(d, s[0]), s[1..], i - 1);
    }
  }

  // ------------------------------------------------------- the code

  /** decode: one octet through the table. */
  method DecodeOctet(state: DecoderState, codep: nat, b: byte) returns (state': DecoderState, codep': nat)
    ensures Decoder(state', codep') == Advance(Decoder(state, codep), b)
  {
    TableIsNext(state, b);
    var type_ := Utf8d(b);
    codep' := if state != ACCEPT then b % 64 + codep * 64 % WORD else MaskLead(type_, b);
    state' := Utf8d(256 + state * 16 + type_);
  }

  class Validator {
    var state: DecoderState
    var codepoint: nat

    constructor ()
      ensures Registers() == INITIAL
    {
      state, codepoint := ACCEPT, 0;
    }

    ghost function Registers(): Decoder
      reads this
    {
      Decoder(state, codepoint)
    }

    method Consume(b: byte) returns (ok: bool)
      modifies this
      ensures Registers() == Advance(old(Registers()), b)
      ensures ok == (state != REJECT)
    {
      state, codepoint := DecodeOctet(state, codepoint, b);
      ok := state != REJECT;
    }

    /** Feeds the octets until they end or one is rejected. */
    method Decode(s: seq<byte>) returns (ok: bool)
      modifies this
      ensures Registers() == Feed(old(Registers()), s)
      ensures ok == (s == [] || state != REJECT)
    {
      for i := 0 to |s|
        invariant Feed(Registers(), s[i..]) == Feed(old(Registers()), s)
        invariant i > 0 ==> state != REJECT
      {
        FeedFirst(Registers(), s[i..]);
        assert s[i..][1..] == s[i + 1..];
        state, codepoint := DecodeOctet(state, codepoint, s[i]);
        if state == REJECT {
          return false;
        }
      }
      ok := true;
    }

    method Complete() returns (ok: bool)
      ensures ok == (state == ACCEPT)
    {
      ok := state == ACCEPT;
    }

    method Reset()
      modifies this
      ensures Registers() == INITIAL
    {
      state, codepoint := ACCEPT, 0;
    }
  }

  /** validate: accepts exactly the well-formed strings. */
  method Validate(s: seq<byte>) returns (ok: bool)
    ensures ok <==> Valid(s)
    ensures ok <==> WellFormed(s)
  {
    ValidIsUtf8(s);
    var v := new Validator();
    ok := v.Decode(s);
    if ok {
      ok := v.Complete();
    }
  }
}
