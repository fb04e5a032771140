/**
  The base64 codec of install/include/websocketpp/base64/base64.hpp against section 4 of RFC 4648.
  Octets are integers: `(a & 0x03) << 4` is `a % 4 * 16`, and so on.
 */
module Base64 {
  import opened Wrappers

  const UPPER := "ABCDEFGHIJKLMNOPQRSTUVWXYZ"
  const LOWER := "abcdefghijklmnopqrstuvwxyz"
  const REST := "0123456789+/"
  const BASE64_CHARS: string := UPPER + LOWER + REST

  lemma TableSize()
    ensures |UPPER| == 26 && |LOWER| == 26 && |REST| == 12 && |BASE64_CHARS| == 64
  {
  }

  /** The first place of a character at or after `from`, or the end: std::string::find. */
  function IndexFrom(table: string, c: char, from: nat): (i: nat)
    requires from <= |table|
    ensures from <= i <= |table| && forall j | from <= j < i :: table[j] != c
    ensures i < |table| ==> table[i] == c
    decreases |table| - from
  {
    if from == |table| || table[from] == c then from else IndexFrom(table, c, from + 1)
  }

  predicate IsBase64(c: char) {
    var n := c as int;
    n == 43 || 47 <= n <= 57 || 65 <= n <= 90 || 97 <= n <= 122
  }

  /** find in the table, cut to an octet: 255 when the character is not there. */
  function Find(c: char): (v: byte)
    ensures v < 64 || v == 255
  {
    TableSize();
    var i := IndexFrom(BASE64_CHARS, c, 0);
    if i == |BASE64_CHARS| then 255 else i
  }

  // ------------------------------------------------------- what the table says

  /** The character for a 6-bit value, by ranges: Table 1 of RFC 4648. */
  function CharOf(v: nat): char
    requires v < 64
  {
    if v < 26 then (65 + v) as char
    else if v < 52 then (71 + v) as char
    else if v < 62 then (v - 4) as char
    else if v == 62 then '+'
    else '/'
  }

  function ValueOf(c: char): (v: nat)
    requires IsBase64(c)
    ensures v < 64
  {
    var n := c as int;
    if 65 <= n <= 90 then n - 65
    else if 97 <= n <= 122 then n - 71
    else if 48 <= n <= 57 then n + 4
    else if n == 43 then 62
    else 63
  }

  lemma UpperIsRange(k: nat)
    requires k < 26
    ensures |UPPER| == 26 && UPPER[k] as int == 65 + k
  {
  }

  lemma LowerIsRange(k: nat)
    requires k < 26
    ensures |LOWER| == 26 && LOWER[k] as int == 97 + k
  {
  }

  lemma RestIsRange(k: nat)
    requires k < 12
    ensures |REST| == 12 && REST[k] == if k < 10 then (48 + k) as char else if k == 10 then '+' else '/'
  {
  }

  /** The table lists the characters of the ranges in order. */
  lemma TableIsRanges(v: nat)
    requires v < 64
    ensures |BASE64_CHARS| == 64 && BASE64_CHARS[v] == CharOf(v)
  {
    TableSize();
    if v < 26 {
      UpperIsRange(v);
    } else if v < 52 {
      LowerIsRange(v - 26);
    } else {
      RestIsRange(v - 52);
    }
  }

  /** Characters and values correspond one to one. */
  lemma ValueOfChar(v: nat)
    requires v < 64
    ensures IsBase64(CharOf(v)) && CharOf(v) != '=' && ValueOf(CharOf(v)) == v
  {
  }

  lemma CharOfValue(c: char)
    requires IsBase64(c)
    ensures CharOf(ValueOf(c)) == c
  {
  }

  /** Searching the table for a base64 character finds its value. */
  lemma FindIsValue(c: char)
    requires IsBase64(c)
    ensures Find(c) == ValueOf(c)
  {
    var v := ValueOf(c);
    CharOfValue(c);
    TableIsRanges(v);
    var i := IndexFrom(BASE64_CHARS, c, 0);
    TableIsRanges(i);
    ValueOfChar(i);
  }

  // ------------------------------------------------------- the specification

  /** The four 6-bit values of three octets. */
  function Sextets(a: byte, b: byte, c: byte): (r: seq<nat>)
    ensures |r| == 4 && forall i | 0 <= i < 4 :: r[i] < 64
  {
    [a / 4, a % 4 * 16 + b / 16, b % 16 * 4 + c / 64, c % 64]
  }

  function Chars(v: seq<nat>): (s: string)
    requires forall i | 0 <= i < |v| :: v[i] < 64
    ensures |s| == |v|
  {
    seq(|v|, i requires 0 <= i < |v| => CharOf(v[i]))
  }

  function Encode(x: seq<byte>): string {
    if x == [] then ""
    else if |x| == 1 then Chars(Sextets(x[0], 0, 0))[..2] + "=="
    else if |x| == 2 then Chars(Sextets(x[0], x[1], 0))[..3] + "="
    else Chars(Sextets(x[0], x[1], x[2])) + Encode(x[3..])
  }

  /** A value cut to an octet. */
  function Truncate(x: nat): byte {
    if x < 256 then x else x % 256
  }

  /** Three octets from four 6-bit values, or from fewer and 255s. */
  function Octets(v: seq<byte>): (r: seq<byte>)
    requires |v| == 4
    ensures |r| == 3
  {
    [Truncate((v[0] as int) * 4 + v[1] / 16 % 4),
     Truncate((v[1] as int) % 16 * 16 + v[2] / 4 % 16),
     Truncate((v[2] as int) % 4 * 64 + v[3])]
  }

  /** The octets that `pending` characters, fewer than four of them valid, and the input `s` stand for. */
  function DecodeFrom(pending: seq<byte>, s: string): seq<byte>
    requires |pending| < 4
    decreases |s|
  {
    if s != "" && s[0] != '=' && IsBase64(s[0]) then
      var grown := pending + [ValueOf(s[0])];
      if |grown| == 4 then Octets(grown) + DecodeFrom([], s[1..]) else DecodeFrom(grown, s[1..])
    else if pending == [] then []
    else Octets(pending + seq(4 - |pending|, _ => 255))[..|pending| - 1]
  }

  function Decode(s: string): seq<byte> {
    DecodeFrom([], s)
  }

  // ------------------------------------------------------- length and padding

  function Pads(n: nat): (r: nat)
    ensures r < 3 && (n + r) % 3 == 0
  {
    if n % 3 == 0 then 0 else 3 - n % 3
  }

  /** Four characters for every three octets begun. */
  lemma {:induction false} EncodedLength(x: seq<byte>)
    ensures |Encode(x)| == (|x| + Pads(|x|)) / 3 * 4
    ensures |Encode(x)| >= Pads(|x|)
    decreases |x|
  {
    if |x| >= 3 {
      EncodedLength(x[3..]);
    }
  }

  /** The text is base64 characters up to the padding of the last group, and `=` from there. */
  lemma {:induction false} EncodedShape(x: seq<byte>, i: nat)
    requires i < |Encode(x)|
    ensures i < |Encode(x)| - Pads(|x|) ==> IsBase64(Encode(x)[i])
    ensures i >= |Encode(x)| - Pads(|x|) ==> Encode(x)[i] == '='
    decreases |x|
  {
    if |x| == 1 {
      assert Pads(1) == 2;
      CharsThen(Sextets(x[0], 0, 0), 2, "==", i);
    } else if |x| == 2 {
      assert Pads(2) == 1;
      CharsThen(Sextets(x[0], x[1], 0), 3, "=", i);
    } else {
      var v, rest := Sextets(x[0], x[1], x[2]), Encode(x[3..]);
      assert Encode(x) == Chars(v)[..4] + rest;
      CharsThen(v, 4, rest, i);
      PadsOfRest(|x|);
      EncodedLength(x[3..]);
      if i >= 4 {
        EncodedShape(x[3..], i - 4);
      }
    }
  }

  // Some characters of the alphabet, and what follows them.
  lemma CharsThen(v: seq<nat>, n: nat, rest: string, i: nat)
    requires |v| == 4 && n <= 4 && (forall k | 0 <= k < 4 :: v[k] < 64) && i < n + |rest|
    ensures var s := Chars(v)[..n] + rest;
            |s| == n + |rest| && if i < n then IsBase64(s[i]) else s[i] == rest[i - n]
  {
    if i < n {
      ValueOfChar(v[i]);
    }
  }

  lemma PadsOfRest(n: nat)
    requires n >= 3
    ensures Pads(n - 3) == Pads(n)
  {
  }

  // ------------------------------------------------------- round trip

  // Characters of the table are read into the pending values one after another.
  lemma ReadChar(pending: seq<byte>, v: nat, rest: string)
    requires |pending| < 4 && v < 64
    ensures DecodeFrom(pending, [CharOf(v)] + rest)
         == if |pending| == 3 then Octets(pending + [v]) + DecodeFrom([], rest) else DecodeFrom(pending + [v], rest)
  {
    ValueOfChar(v);
    var s := [CharOf(v)] + rest;
    assert s[1..] == rest;
  }

  lemma ReadTwo(v: seq<nat>, rest: string)
    requires |v| >= 2 && v[0] < 64 && v[1] < 64
    ensures DecodeFrom([], [CharOf(v[0]), CharOf(v[1])] + rest) == DecodeFrom([v[0], v[1]], rest)
  {
    ReadChar([], v[0], [CharOf(v[1])] + rest);
    ReadChar([v[0]], v[1], rest);
    assert [CharOf(v[0])] + ([CharOf(v[1])] + rest) == [CharOf(v[0]), CharOf(v[1])] + rest;
    assert [] + [v[0]] == [v[0]] && [v[0]] + [v[1]] == [v[0], v[1]];
  }

  lemma ReadThree(v: seq<nat>, rest: string)
    requires |v| >= 3 && v[0] < 64 && v[1] < 64 && v[2] < 64
    ensures DecodeFrom([], [CharOf(v[0]), CharOf(v[1]), CharOf(v[2])] + rest)
         == DecodeFrom([v[0], v[1], v[2]], rest)
  {
    ReadTwo(v, [CharOf(v[2])] + rest);
    ReadChar([v[0], v[1]], v[2], rest);
    assert [CharOf(v[0]), CharOf(v[1])] + ([CharOf(v[2])] + rest)
        == [CharOf(v[0]), CharOf(v[1]), CharOf(v[2])] + rest;
    assert [v[0], v[1]] + [v[2]] == [v[0], v[1], v[2]];
  }

  lemma ReadFour(v: seq<nat>, rest: string)
    requires |v| == 4 && forall i | 0 <= i < 4 :: v[i] < 64
    ensures DecodeFrom([], Chars(v) + rest) == Octets([v[0], v[1], v[2], v[3]]) + DecodeFrom([], rest)
  {
    ReadThree(v, [CharOf(v[3])] + rest);
    ReadChar([v[0], v[1], v[2]], v[3], rest);
    assert [CharOf(v[0]), CharOf(v[1]), CharOf(v[2])] + ([CharOf(v[3])] + rest) == Chars(v) + rest;
    assert [v[0], v[1], v[2]] + [v[3]] == [v[0], v[1], v[2], v[3]];
  }

  lemma OctetsInvert(a: byte, b: byte, c: byte)
    ensures var v := Sextets(a, b, c);
            && Octets([v[0], v[1], v[2], v[3]]) == [a, b, c]
            && Octets([v[0], v[1], v[2], 255])[..2] == [a, b]
            && Octets([v[0], v[1], 255, 255])[..1] == [a]
  {
    Regrouped(a / 4, a % 4, b / 16, b % 16, c / 64, c % 64);
  }

  // The bits of three octets, cut at the borders of octets and of sextets.
  lemma Regrouped(a1: nat, a2: nat, b1: nat, b2: nat, c1: nat, c2: nat)
    requires a1 < 64 && a2 < 4 && b1 < 16 && b2 < 16 && c1 < 4 && c2 < 64
    ensures Octets([a1, 16 * a2 + b1, 4 * b2 + c1, c2]) == [4 * a1 + a2, 16 * b1 + b2, 64 * c1 + c2]
    ensures Octets([a1, 16 * a2 + b1, 4 * b2 + c1, 255])[..2] == [4 * a1 + a2, 16 * b1 + b2]
    ensures Octets([a1, 16 * a2 + b1, 255, 255])[..1] == [4 * a1 + a2]
  {
    assert (16 * a2 + b1) / 16 == a2 && (16 * a2 + b1) % 16 == b1;
    assert (4 * b2 + c1) / 4 == b2 && (4 * b2 + c1) % 4 == c1;
  }

  /** Every octet string survives encoding and decoding. */
  lemma {:induction false} RoundTrip(x: seq<byte>)
    ensures Decode(Encode(x)) == x
    decreases |x|
  {
    if |x| == 1 {
      var v := Sextets(x[0], 0, 0);
      ReadTwo(v, "==");
      assert Encode(x) == [CharOf(v[0]), CharOf(v[1])] + "==";
      assert [v[0], v[1]] + seq(2, _ => 255) == [v[0], v[1], 255, 255];
      OctetsInvert(x[0], 0, 0);
    } else if |x| == 2 {
      var v := Sextets(x[0], x[1], 0);
      ReadThree(v, "=");
      assert Encode(x) == [CharOf(v[0]), CharOf(v[1]), CharOf(v[2])] + "=";
      assert [v[0], v[1], v[2]] + seq(1, _ => 255) == [v[0], v[1], v[2], 255];
      OctetsInvert(x[0], x[1], 0);
    } else if |x| >= 3 {
      ReadFour(Sextets(x[0], x[1], x[2]), Encode(x[3..]));
      OctetsInvert(x[0], x[1], x[2]);
      RoundTrip(x[3..]);
    }
  }

  // ------------------------------------------------------- RFC 4648

  /** The character in each place of the table: A to Z, a to z, 0 to 9, plus and slash, as in table 1 of section 4. */
  lemma Alphabet(v: nat)
    requires v < 64
    ensures |BASE64_CHARS| == 64
    ensures v < 26 ==> BASE64_CHARS[v] as int == 'A' as int + v
    ensures 26 <= v < 52 ==> BASE64_CHARS[v] as int == 'a' as int + (v - 26)
    ensures 52 <= v < 62 ==> BASE64_CHARS[v] as int == '0' as int + (v - 52)
    ensures v == 62 ==> BASE64_CHARS[v] == '+'
    ensures v == 63 ==> BASE64_CHARS[v] == '/'
  {
    TableIsRanges(v);
  }

  /** The four values spell the 24 bits of the three octets, most significant first. */
  lemma SextetsSpell(a: byte, b: byte, c: byte)
    ensures var v := Sextets(a, b, c);
            262144 * v[0] + 4096 * v[1] + 64 * v[2] + v[3] == 65536 * a + 256 * b + c
  {
    assert a == 4 * (a / 4) + a % 4 && b == 16 * (b / 16) + b % 16 && c == 64 * (c / 64) + c % 64;
  }

  /** Every full group is its four characters of the alphabet, wherever it stands. */
  lemma GroupCharacters(g: seq<byte>, rest: seq<byte>, k: nat)
    requires |g| == 3 && k < 4
    ensures |Encode(g + rest)| >= 4 && Encode(g + rest)[k] == CharOf(Sextets(g[0], g[1], g[2])[k])
  {
    EncodeGroup(g, rest);
  }

  /** A last group of one or two octets is the characters that have bits of theirs, and padding. */
  lemma TailCharacters(a: byte, b: byte)
    ensures var v := Sextets(a, 0, 0); Encode([a]) == [CharOf(v[0]), CharOf(v[1]), '=', '=']
    ensures var v := Sextets(a, b, 0); Encode([a, b]) == [CharOf(v[0]), CharOf(v[1]), CharOf(v[2]), '=']
  {
  }

  /** The vectors of section 10 for "f", "fo" and "foo". */
  lemma Vectors(f: byte, o: byte)
    requires f == 0x66 && o == 0x6f
    ensures Encode([f]) == "Zg==" && Encode([f, o]) == "Zm8=" && Encode([f, o, o]) == "Zm9v"
  {
    VectorValues(f, o, Sextets(f, 0, 0), Sextets(f, o, 0), Sextets(f, o, o));
    TailCharacters(f, o);
    WholeGroup([f, o, o]);
  }

  lemma VectorValues(f: byte, o: byte, v1: seq<nat>, v2: seq<nat>, v3: seq<nat>)
    requires f == 0x66 && o == 0x6f
    requires v1 == Sextets(f, 0, 0) && v2 == Sextets(f, o, 0) && v3 == Sextets(f, o, o)
    ensures CharOf(v1[0]) == CharOf(v2[0]) == CharOf(v3[0]) == 'Z'
    ensures CharOf(v1[1]) == 'g' && CharOf(v2[1]) == CharOf(v3[1]) == 'm'
    ensures CharOf(v2[2]) == '8' && CharOf(v3[2]) == '9' && CharOf(v3[3]) == 'v'
  {
    assert f / 4 == 25 && f % 4 * 16 == 32 && o / 16 == 6 && o % 16 * 4 == 60 && o / 64 == 1 && o % 64 == 47;
  }

  lemma WholeGroup(g: seq<byte>)
    requires |g| == 3
    ensures var v := Sextets(g[0], g[1], g[2]); Encode(g) == [CharOf(v[0]), CharOf(v[1]), CharOf(v[2]), CharOf(v[3])]
  {
    EncodeGroup(g, []);
    assert g + [] == g;
  }

  /** Decoding stops at the first character outside the alphabet, whatever follows. */
  lemma {:induction false} DecodeStops(pending: seq<byte>, a: string, stop: char, rest: string)
    requires |pending| < 4 && (stop == '=' || !IsBase64(stop))
    ensures DecodeFrom(pending, a + [stop] + rest) == DecodeFrom(pending, a)
    decreases |a|
  {
    var s := a + [stop] + rest;
    if a == "" {
      assert s[0] == stop;
    } else {
      assert s[0] == a[0] && s[1..] == a[1..] + [stop] + rest;
      if a[0] != '=' && IsBase64(a[0]) {
        var grown := pending + [ValueOf(a[0])];
        DecodeStops(if |grown| == 4 then [] else grown, a[1..], stop, rest);
      }
    }
  }

  // ------------------------------------------------------- the code

  lemma EncodeGroup(g: seq<byte>, rest: seq<byte>)
    requires |g| == 3
    ensures Encode(g + rest) == Chars(Sextets(g[0], g[1], g[2])) + Encode(rest)
  {
    assert (g + rest)[3..] == rest;
  }

  /** Appends the first `n` of four characters. */
  method AppendChars(ret: string, v: seq<nat>, n: nat) returns (r: string)
    requires |v| == 4 && n <= 4 && forall i | 0 <= i < 4 :: v[i] < 64
    ensures r == ret + Chars(v)[..n]
  {
    r := ret;
    for k := 0 to n
      invariant r == ret + Chars(v)[..k]
    {
      TableIsRanges(v[k]);
      r := r + [BASE64_CHARS[v[k]]];
    }
  }

  /** The padded last group of one or two octets. */
  method AppendTail(ret: string, charArray3: array<byte>, i: nat) returns (r: string)
    requires charArray3.Length == 3 && 0 < i < 3
    modifies charArray3
    ensures r == ret + Encode(old(charArray3[..i]))
  {
    for j := i to 3
      invariant forall k | 0 <= k < i :: charArray3[k] == old(charArray3[k])
      invariant forall k | i <= k < j :: charArray3[k] == 0
    {
      charArray3[j] := 0;
    }
    var v := Sextets(charArray3[0], charArray3[1], charArray3[2]);
    r := AppendChars(ret, v, i + 1);
    var k := i;
    while k < 3
      invariant i <= k <= 3
      invariant r == ret + (Chars(v)[..i + 1] + "=="[..k - i])
    {
      r := r + "=";
      k := k + 1;
    }
  }

  /** A full group: its four characters, and what is left to encode after it. */
  method AppendGroup(ret: string, charArray3: array<byte>, ghost rest: seq<byte>) returns (r: string)
    requires charArray3.Length == 3
    ensures r + Encode(rest) == ret + Encode(charArray3[..] + rest)
  {
    var v := Sextets(charArray3[0], charArray3[1], charArray3[2]);
    EncodeGroup(charArray3[..], rest);
    r := AppendChars(ret, v, 4);
    assert Chars(v)[..4] == Chars(v);
    assert ret + Chars(v) + Encode(rest) == ret + (Chars(v) + Encode(rest));
  }

  lemma TakeOne(pending: seq<byte>, input: seq<byte>, p: nat)
    requires p < |input|
    ensures pending + input[p..] == pending + [input[p]] + input[p + 1..]
  {
  }

  /** base64_encode: gathers three octets at a time. */
  method Base64Encode(input: seq<byte>) returns (ret: string)
    ensures ret == Encode(input)
  {
    ret := "";
    var i := 0;
    var charArray3 := new byte[3](_ => 0);
    ghost var pending, left := [], input;
    for p := 0 to |input|
      invariant i < 3 && charArray3[..i] == pending && left == pending + input[p..]
      invariant ret + Encode(left) == Encode(input)
    {
      charArray3[i] := input[p];
      TakeOne(pending, input, p);
      pending := pending + [input[p]];
      i := i + 1;
      if i == 3 {
        assert charArray3[..3] == charArray3[..] == pending;
        ret := AppendGroup(ret, charArray3, input[p + 1..]);
        i, pending, left := 0, [], input[p + 1..];
      }
    }
    assert left == pending;
    if i > 0 {
      ret := AppendTail(ret, charArray3, i);
    }
  }

  /** base64_decode: stops at the first character that is not base64, and completes a short group with 255s. */
  method Base64Decode(input: string) returns (ret: seq<byte>)
    ensures ret == Decode(input)
  {
    ret := [];
    var pos := 0;
    var charArray4: seq<byte> := [];
    while pos < |input| && input[pos] != '=' && IsBase64(input[pos])
      invariant pos <= |input| && |charArray4| < 4
      invariant ret + DecodeFrom(charArray4, input[pos..]) == Decode(input)
      decreases |input| - pos
    {
      assert input[pos..][1..] == input[pos + 1..];
      FindIsValue(input[pos]);
      charArray4 := charArray4 + [Find(input[pos])];
      pos := pos + 1;
      if |charArray4| == 4 {
        ret := ret + Octets(charArray4);
        charArray4 := [];
      }
    }
    if charArray4 != [] {
      var charArray3 := Octets(charArray4 + seq(4 - |charArray4|, _ => 255));
      ret := ret + charArray3[..|charArray4| - 1];
    }
  }
}
