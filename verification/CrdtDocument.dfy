/**
  The CRDT document class and its Logoot positions (include/common/crdt/crdt_document.h:81-249).
  Random draws and the clock are parameters; `int` positions are assumed not to overflow.
 */
module CrdtDocument {
  import opened CrdtOrder
  import opened Crdt
  import opened CrdtReplicas

  // ------------------------------------------------------- Logoot positions

  // C++ division truncates toward zero.
  function Half(x: int): int {
    if x >= 0 then x / 2 else -(-x / 2)
  }

  lemma HalfTruncates(x: int)
    ensures x >= 0 ==> x - 1 <= 2 * Half(x) <= x
    ensures x <= 0 ==> x <= 2 * Half(x) <= x + 1
  {
  }

  function CommonPrefix(a: Position, b: Position): (n: nat)
    ensures n <= |a| && n <= |b| && a[..n] == b[..n]
    ensures n < |a| && n < |b| ==> a[n] != b[n]
  {
    if a == [] || b == [] || a[0] != b[0] then 0
    else
      var n := CommonPrefix(a[1..], b[1..]);
      assert a[..n + 1] == [a[0]] + a[1..][..n] && b[..n + 1] == [b[0]] + b[1..][..n];
      n + 1
  }

  /** The range of the random draw the branch asks for; branches that do not draw accept anything. */
  predicate InRange(p1: Position, p2: Position, draw: int) {
    if p1 == [] then p2 == [] ==> 1 <= draw <= 100
    else if p2 == [] then 1 <= draw <= 10
    else
      var n := CommonPrefix(p1, p2);
      if n == |p1| then true
      else if n == |p2| then 1 <= draw <= 10
      else if p1[n] + 1 < p2[n] then 1 <= draw <= p2[n] - p1[n] - 1
      else 1 <= draw <= 10
  }

  /** Two equal non-empty positions send the code past the end of a vector. */
  predicate Readable(p1: Position, p2: Position) {
    p1 != p2 || p1 == []
  }

  function GenerateLogootPosition(p1: Position, p2: Position, draw: int): Position
    requires Readable(p1, p2)
  {
    if p1 == [] then
      if p2 == [] then [draw] else [Half(p2[0])]
    else if p2 == [] then [p1[0] + draw]
    else
      var n := CommonPrefix(p1, p2);
      if n == |p1| then p1 + [Half(p2[n])]
      else if n == |p2| then p2 + [draw]
      else if p1[n] + 1 < p2[n] then p1[..n] + [p1[n] + draw]
      else p1 + [draw]
  }

  /** Room to the left of `p2`: the component after its prefix `p1` can be halved and stay below it. */
  predicate Room(p1: Position, p2: Position) {
    p2 == [] || p1 == p2 ||
    var n := CommonPrefix(p1, p2);
    n < |p1| || p2[n] >= 1 || (p2[n] == 0 && |p2| > n + 1)
  }

  /** Strictly between its neighbours; an empty neighbour is no bound. */
  predicate Between(p1: Position, p: Position, p2: Position) {
    (p1 != [] ==> Before(p1, p)) && (p2 != [] ==> Before(p, p2))
  }

  lemma {:induction false} CompareAtDifference(a: Position, b: Position)
    ensures var n := CommonPrefix(a, b);
            Compare(a, b) ==
            if n < |a| && n < |b| then (if a[n] < b[n] then -1 else 1)
            else if |a| < |b| then -1 else if |a| > |b| then 1 else 0
    decreases |a|
  {
    if a != [] && b != [] && a[0] == b[0] {
      CompareAtDifference(a[1..], b[1..]);
    }
  }

  // Comparing past a shared prefix.
  lemma {:induction false} ComparePast(p: Position, a: Position, b: Position)
    ensures Compare(p + a, p + b) == Compare(a, b)
    decreases |p|
  {
    if p == [] {
      assert p + a == a && p + b == b;
    } else {
      assert (p + a)[1..] == p[1..] + a && (p + b)[1..] == p[1..] + b;
      ComparePast(p[1..], a, b);
    }
  }

  /**
    Between strictly ordered neighbours the generated position lies strictly between them exactly
    when there is room left of the right one.
   */
  lemma LogootBetweenExactly(p1: Position, p2: Position, draw: int)
    requires InRange(p1, p2, draw)
    requires p1 == [] || p2 == [] || Before(p1, p2)
    requires Readable(p1, p2)
    ensures Between(p1, GenerateLogootPosition(p1, p2, draw), p2) <==> Room(p1, p2)
  {
    if p1 == [] && p2 != [] {
      HalfBelow(p2);
    } else if p2 == [] {
      assert p1 != [] ==> Compare(p1, [p1[0] + draw]) < 0;
    } else if CommonPrefix(p1, p2) == |p1| {
      LogootBelowExtension(p1, p2, draw);
    } else {
      CompareAtDifference(p1, p2);
      LogootAtDifference(p1, p2, draw);
    }
  }

  lemma HalfBelow(q: Position)
    requires q != []
    ensures Compare([Half(q[0])], q) < 0 <==> q[0] >= 1 || (q[0] == 0 && |q| > 1)
  {
    assert [Half(q[0])][1..] == [];
  }

  // The left neighbour is a prefix of the right one.
  lemma LogootBelowExtension(p1: Position, p2: Position, draw: int)
    requires p1 != [] && p1 != p2 && CommonPrefix(p1, p2) == |p1|
    ensures Between(p1, GenerateLogootPosition(p1, p2, draw), p2) <==> Room(p1, p2)
  {
    var n := |p1|;
    assert p1[..n] == p1 && p2[..n] == p1;
    assert p2 == p1 + p2[n..] && p1 == p1 + [] && n < |p2|;
    ComparePast(p1, [], [Half(p2[n])]);
    ComparePast(p1, [Half(p2[n])], p2[n..]);
    HalfBelow(p2[n..]);
  }

  // The neighbours differ somewhere: the new position goes into the gap, or below the left one.
  lemma LogootAtDifference(p1: Position, p2: Position, draw: int)
    requires p1 != [] && p2 != [] && InRange(p1, p2, draw)
    requires var n := CommonPrefix(p1, p2); n < |p1| && n < |p2| && p1[n] < p2[n]
    ensures Between(p1, GenerateLogootPosition(p1, p2, draw), p2) && Room(p1, p2)
  {
    var n := CommonPrefix(p1, p2);
    var p, a, b := p1[..n], p1[n..], p2[n..];
    SplitAt(p1, n, draw);
    SplitAt(p2, n, draw);
    assert p2[..n] == p;
    if p1[n] + 1 < p2[n] {
      InTheGap(p, a, p1[n] + draw, b);
    } else {
      BelowTheLeft(p, a, draw, b);
    }
  }

  lemma SplitAt(q: Position, n: nat, x: int)
    requires n <= |q|
    ensures q == q[..n] + q[n..] && q + [x] == q[..n] + (q[n..] + [x])
  {
  }

  lemma InTheGap(p: Position, a: Position, x: int, b: Position)
    requires a != [] && b != [] && a[0] < x < b[0]
    ensures Before(p + a, p + [x]) && Before(p + [x], p + b)
  {
    ComparePast(p, a, [x]);
    ComparePast(p, [x], b);
  }

  lemma BelowTheLeft(p: Position, a: Position, x: int, b: Position)
    requires a != [] && b != [] && a[0] < b[0]
    ensures Before(p + a, p + (a + [x])) && Before(p + (a + [x]), p + b)
  {
    ComparePast(p, a + [x], b);
    ComparePast(p, a, a + [x]);
    ComparePast(a, [], [x]);
    assert a + [] == a;
  }

  /** Whether the branch taken for these neighbours uses the draw. */
  predicate Draws(p1: Position, p2: Position) {
    if p1 == [] then p2 == [] else p2 == [] || CommonPrefix(p1, p2) < |p1|
  }

  /**
    What a generated position is made of: one component at an end of the document, one more than what
    the neighbours share in a gap or before a longer neighbour, one more than the left one has where
    there is no gap. Where a draw is used different draws give different positions.
   */
  lemma LogootShape(p1: Position, p2: Position, draw: int, draw': int)
    requires Readable(p1, p2)
    ensures var r, n := GenerateLogootPosition(p1, p2, draw), CommonPrefix(p1, p2);
            && (p1 == [] || p2 == [] ==> |r| == 1)
            && (p1 != [] && p2 == [] ==> r[0] - p1[0] == draw)
            && (p1 != [] && p2 != [] && n < |p1| && n < |p2| && p1[n] + 1 < p2[n] ==> |r| == n + 1 && r[..n] == p1[..n] == p2[..n])
            && (p1 != [] && n == |p1| < |p2| ==> |r| == n + 1 && r[..n] == p1)
            && (p1 != [] && p2 != [] && n < |p1| && n < |p2| && p1[n] + 1 >= p2[n] ==> |r| == |p1| + 1 && r[..|p1|] == p1)
    ensures Draws(p1, p2) && draw != draw' ==> GenerateLogootPosition(p1, p2, draw) != GenerateLogootPosition(p1, p2, draw')
    ensures !Draws(p1, p2) ==> GenerateLogootPosition(p1, p2, draw) == GenerateLogootPosition(p1, p2, draw')
  {
    var r, r' := GenerateLogootPosition(p1, p2, draw), GenerateLogootPosition(p1, p2, draw');
    if Draws(p1, p2) && draw != draw' {
      assert r[|r| - 1] != r'[|r'| - 1];
    }
  }

  // ------------------------------------------------------- local inserts

  predicate Legal(chars: seq<CrdtChar>, index: nat) {
    chars == [] ==> index == 0
  }

  /** Indices past the end mean the end. */
  function Place(chars: seq<CrdtChar>, index: nat): (i: nat)
    ensures i <= |chars|
  {
    if index < |chars| then index else |chars|
  }

  function LeftOf(chars: seq<CrdtChar>, index: nat): Position {
    var i := Place(chars, index);
    if i == 0 then [] else chars[i - 1].position
  }

  function RightOf(chars: seq<CrdtChar>, index: nat): Position {
    var i := Place(chars, index);
    if i == |chars| then [] else chars[i].position
  }

  lemma IncreasingIsStrict(chars: seq<CrdtChar>)
    requires Increasing(chars)
    ensures Strict(chars)
  {
  }

  // Every character left of the place has a smaller position, every other one a greater.
  lemma SideOf(chars: seq<CrdtChar>, i: nat, ch: CrdtChar, j: nat)
    requires Strict(chars) && i <= |chars| && j < |chars|
    requires i > 0 ==> Before(chars[i - 1].position, ch.position)
    requires i < |chars| ==> Before(ch.position, chars[i].position)
    ensures j < i ==> Before(chars[j].position, ch.position) && CompareTo(chars[j], ch) < 0
    ensures j >= i ==> Before(ch.position, chars[j].position) && CompareTo(chars[j], ch) > 0
  {
    if j < i {
      assert j < i - 1 ==> CompareTo(chars[j], chars[i - 1]) < 0;
      CompareFlips(chars[i - 1].position, chars[i - 1].position);
      CompareTransitive(chars[j].position, chars[i - 1].position, ch.position);
    } else {
      assert j > i ==> CompareTo(chars[i], chars[j]) < 0;
      CompareFlips(chars[i].position, chars[i].position);
      CompareTransitive(ch.position, chars[i].position, chars[j].position);
      CompareFlips(ch.position, chars[j].position);
    }
  }

  // Nothing but the right place is left for a position strictly between its neighbours.
  lemma LandsBetween(chars: seq<CrdtChar>, i: nat, ch: CrdtChar)
    requires Strict(chars) && i <= |chars|
    requires i > 0 ==> Before(chars[i - 1].position, ch.position)
    requires i < |chars| ==> Before(ch.position, chars[i].position)
    ensures LowerIndex(chars, ch) == i
    ensures Strict(InsertSorted(chars, ch)) && (Increasing(chars) ==> Increasing(InsertSorted(chars, ch)))
  {
    forall j | 0 <= j < |chars|
      ensures CompareTo(chars[j], ch) != 0 && (CompareTo(chars[j], ch) < 0 <==> j < i)
      ensures chars[j].position != ch.position
    {
      SideOf(chars, i, ch, j);
      CompareFlips(ch.position, ch.position);
    }
    KeepsBoth(chars, ch);
  }

  lemma KeepsBoth(chars: seq<CrdtChar>, ch: CrdtChar)
    requires Strict(chars)
    requires forall j | 0 <= j < |chars| :: CompareTo(chars[j], ch) != 0 && chars[j].position != ch.position
    ensures Strict(InsertSorted(chars, ch)) && (Increasing(chars) ==> Increasing(InsertSorted(chars, ch)))
  {
    forall c | c in chars
      ensures CompareTo(c, ch) != 0
    {
      var j :| 0 <= j < |chars| && chars[j] == c;
    }
    InsertKeepsStrict(chars, ch);
    if Increasing(chars) {
      InsertKeepsIncreasing(chars, ch);
    }
  }

  /** The inserted character's position is the one generated for the index. */
  predicate GeneratedFor(chars: seq<CrdtChar>, index: nat, ch: CrdtChar, draw: int) {
    var p1, p2 := LeftOf(chars, index), RightOf(chars, index);
    Readable(p1, p2) && InRange(p1, p2, draw) && ch.position == GenerateLogootPosition(p1, p2, draw)
  }

  // Neighbours of a strict list that do not share a position are strictly ordered by it.
  lemma NeighboursOrdered(chars: seq<CrdtChar>, index: nat)
    requires Strict(chars) && Readable(LeftOf(chars, index), RightOf(chars, index))
    requires forall c | c in chars :: c.position != []
    ensures var p1, p2 := LeftOf(chars, index), RightOf(chars, index);
            p1 == [] || p2 == [] || Before(p1, p2)
  {
    var i := Place(chars, index);
    if 0 < i < |chars| {
      assert CompareTo(chars[i - 1], chars[i]) < 0;
      CompareFlips(chars[i - 1].position, chars[i].position);
    }
  }

  // With every position non-empty, "between the neighbours" means the two comparisons.
  lemma NeighboursBound(chars: seq<CrdtChar>, index: nat, ch: CrdtChar, draw: int)
    requires Strict(chars) && GeneratedFor(chars, index, ch, draw)
    requires forall c | c in chars :: c.position != []
    ensures var i := Place(chars, index);
            Room(LeftOf(chars, index), RightOf(chars, index)) <==>
              && (i > 0 ==> Before(chars[i - 1].position, ch.position))
              && (i < |chars| ==> Before(ch.position, chars[i].position))
  {
    var i := Place(chars, index);
    assert i > 0 ==> chars[i - 1] in chars;
    assert i < |chars| ==> chars[i] in chars;
    NeighboursOrdered(chars, index);
    LogootBetweenExactly(LeftOf(chars, index), RightOf(chars, index), draw);
  }

  /**
    With room left of the right neighbour, a local insert lands at its index and keeps the list
    strictly ordered, also where other characters share a position; where none do, none will.
   */
  lemma LocalInsertLands(chars: seq<CrdtChar>, index: nat, ch: CrdtChar, draw: int)
    requires Strict(chars) && GeneratedFor(chars, index, ch, draw)
    requires forall c | c in chars :: c.position != []
    requires Room(LeftOf(chars, index), RightOf(chars, index))
    ensures Place(chars, index) == if index < |chars| then index else |chars|
    ensures var i := Place(chars, index);
            && InsertSorted(chars, ch) == chars[..i] + [ch] + chars[i..]
            && Text(InsertSorted(chars, ch)) == Text(chars)[..i] + [ch.value] + Text(chars)[i..]
            && Strict(InsertSorted(chars, ch)) && (Increasing(chars) ==> Increasing(InsertSorted(chars, ch)))
  {
    NeighboursBound(chars, index, ch, draw);
    LandsBetween(chars, Place(chars, index), ch);
    TextOfInsert(chars, Place(chars, index), ch);
  }

  lemma TextOfInsert(chars: seq<CrdtChar>, i: nat, ch: CrdtChar)
    requires i <= |chars|
    ensures Text(chars[..i] + [ch] + chars[i..]) == Text(chars)[..i] + [ch.value] + Text(chars)[i..]
  {
  }

  // Without room the new position is the right neighbour's own, or lies past it.
  lemma NoRoomMeansNotBefore(p1: Position, p2: Position, draw: int)
    requires Readable(p1, p2) && InRange(p1, p2, draw) && !Room(p1, p2)
    requires p1 == [] || Before(p1, p2)
    ensures p2 != [] && Compare(GenerateLogootPosition(p1, p2, draw), p2) >= 0
  {
    var n := CommonPrefix(p1, p2);
    if p1 == [] {
      HalfBelow(p2);
    } else {
      assert n == |p1| && p2 == p1 + p2[n..] && p2[n..] != [];
      HalfBelow(p2[n..]);
      ComparePast(p1, [Half(p2[n])], p2[n..]);
    }
  }

  /**
    Without room the character goes past its index, unless the right neighbour has the very position
    and comes no earlier by timestamp and author; and then the positions increase no longer.
   */
  lemma LocalInsertNeedsRoom(chars: seq<CrdtChar>, index: nat, ch: CrdtChar, draw: int)
    requires Strict(chars) && GeneratedFor(chars, index, ch, draw)
    requires forall c | c in chars :: c.position != []
    requires !Room(LeftOf(chars, index), RightOf(chars, index))
    ensures var i := Place(chars, index);
            && i < |chars|
            && (LowerIndex(chars, ch) > i
                || (chars[i].position == ch.position && ch.timestamp <= chars[i].timestamp
                    && !Increasing(InsertSorted(chars, ch))))
    ensures (forall c | c in chars && c.position == ch.position :: c.timestamp < ch.timestamp) ==>
              LowerIndex(chars, ch) > Place(chars, index)
  {
    var i := Place(chars, index);
    NeighboursOrdered(chars, index);
    NoRoomMeansNotBefore(LeftOf(chars, index), RightOf(chars, index), draw);
    var right := chars[i];
    assert right in chars;
    CompareFlips(ch.position, right.position);
    if LowerIndex(chars, ch) <= i {
      NotPassed(chars, i, ch);
      SharedBreaksOrder(chars, i, ch);
    }
  }

  // The place is not passed, so the right neighbour does not come before the character.
  lemma NotPassed(chars: seq<CrdtChar>, i: nat, ch: CrdtChar)
    requires Strict(chars) && i < |chars| && LowerIndex(chars, ch) <= i
    ensures CompareTo(chars[i], ch) >= 0
  {
    if CompareTo(chars[i], ch) < 0 {
      BelowLowerIndex(chars, ch, i);
    }
  }

  lemma SharedBreaksOrder(chars: seq<CrdtChar>, i: nat, ch: CrdtChar)
    requires i < |chars| && chars[i].position == ch.position
    ensures !Increasing(InsertSorted(chars, ch))
  {
    var s, k := InsertSorted(chars, ch), LowerIndex(chars, ch);
    var j := if i < k then i else i + 1;
    assert s[k] == ch && s[j] == chars[i] && j != k;
    CompareFlips(ch.position, ch.position);
    var lo, hi := if j < k then j else k, if j < k then k else j;
    assert !Before(s[lo].position, s[hi].position);
  }

  // ------------------------------------------------------- typing at the front

  /** The first position of a document after `k` inserts at its front; that branch draws nothing. */
  function AfterFront(first: Position, k: nat): (p: Position)
    requires first != []
    ensures p != []
  {
    if k == 0 then first else GenerateLogootPosition([], AfterFront(first, k - 1), 0)
  }

  /** How many inserts a first component leaves room for: its length in binary. */
  function FrontInserts(d: int): nat
    decreases if d < 1 then 0 else d
  {
    if d < 1 then 0 else 1 + FrontInserts(d / 2)
  }

  function Pow2(n: nat): nat {
    if n == 0 then 1 else 2 * Pow2(n - 1)
  }

  lemma {:induction false} BinaryLength(d: int)
    requires d >= 1
    ensures FrontInserts(d) >= 1 && Pow2(FrontInserts(d) - 1) <= d < Pow2(FrontInserts(d))
    decreases d
  {
    if d >= 2 {
      BinaryLength(d / 2);
    }
  }

  lemma {:induction false} FrontComponent(first: Position, k: nat)
    requires first != [] && first[0] >= 1
    ensures AfterFront(first, k)[0] >= 0
    ensures k > 0 ==> |AfterFront(first, k)| == 1
    ensures FrontInserts(AfterFront(first, k)[0])
         == if k < FrontInserts(first[0]) then FrontInserts(first[0]) - k else 0
  {
    if k > 0 {
      FrontComponent(first, k - 1);
    }
  }

  /**
    Typing at the front of a document whose first component is d leaves room for exactly as many
    inserts as d has binary digits; a drawn first position has at most seven.
   */
  lemma FrontRunsOut(first: Position, k: nat)
    requires first != [] && first[0] >= 1
    ensures Room([], AfterFront(first, k)) <==> k < FrontInserts(first[0])
    ensures Pow2(FrontInserts(first[0]) - 1) <= first[0] < Pow2(FrontInserts(first[0]))
    ensures first[0] <= 100 ==> FrontInserts(first[0]) <= 7
  {
    FrontComponent(first, k);
    BinaryLength(first[0]);
    if FrontInserts(first[0]) > 7 {
      Pow2Grows(7, FrontInserts(first[0]) - 1);
    }
  }

  lemma {:induction false} Pow2Grows(m: nat, n: nat)
    requires m <= n
    ensures Pow2(m) <= Pow2(n)
  {
    if m < n {
      Pow2Grows(m, n - 1);
    }
  }

  // ------------------------------------------------------- the class

  class CrdtDocument {
    const authorId: string
    var chars: seq<CrdtChar>

    constructor (author: string)
      ensures authorId == author && chars == [] && Valid()
    {
      authorId := author;
      chars := [];
    }

    predicate Valid()
      reads this
    {
      Sorted(chars)
    }

    /** std::lower_bound: the binary search for the place of a character. */
    method LowerBound(ch: CrdtChar) returns (first: nat)
      requires Valid()
      ensures first == LowerIndex(chars, ch)
    {
      var count := |chars|;
      first := 0;
      while count > 0
        invariant first + count <= |chars|
        invariant first <= LowerIndex(chars, ch) <= first + count
      {
        var step := count / 2;
        var middle := first + step;
        if CompareTo(chars[middle], ch) < 0 {
          BelowLowerIndex(chars, ch, middle);
          first := middle + 1;
          count := count - step - 1;
        } else {
          count := step;
        }
      }
    }

    method InsertChar(ch: CrdtChar)
      requires Valid()
      modifies this
      ensures Valid() && chars == InsertSorted(old(chars), ch)
    {
      var at := LowerBound(ch);
      InsertKeepsSorted(chars, ch);
      chars := chars[..at] + [ch] + chars[at..];
    }

    /** Inserts a character at an index; `draw` is the random number and `now` the clock. */
    method LocalInsert(value: char, index: nat, draw: int, now: int) returns (ch: CrdtChar)
      requires Valid() && Legal(chars, index)
      requires Readable(LeftOf(chars, index), RightOf(chars, index))
      modifies this
      ensures Valid() && chars == InsertSorted(old(chars), ch)
      ensures ch == CrdtChar(value, authorId, old(GenerateLogootPosition(LeftOf(chars, index), RightOf(chars, index), draw)), now)
    {
      var position;
      if |chars| == 0 && index == 0 {
        position := GenerateLogootPosition([], [], draw);
      } else if index == 0 {
        position := GenerateLogootPosition([], chars[0].position, draw);
      } else if index >= |chars| {
        position := GenerateLogootPosition(chars[|chars| - 1].position, [], draw);
      } else {
        position := GenerateLogootPosition(chars[index - 1].position, chars[index].position, draw);
      }
      ch := CrdtChar(value, authorId, position, now);
      InsertChar(ch);
    }

    method RemoteInsert(ch: CrdtChar)
      requires Valid()
      modifies this
      ensures Valid() && chars == Receive(old(chars), Insert(ch))
    {
      InsertChar(ch);
    }

    method LocalDelete(index: nat)
      requires Valid()
      modifies this
      ensures Valid()
      ensures chars == if index < |old(chars)| then old(chars)[..index] + old(chars)[index + 1..] else old(chars)
    {
      if index < |chars| {
        chars := chars[..index] + chars[index + 1..];
      }
    }

    method RemoteDelete(position: Position)
      requires Valid()
      modifies this
      ensures Valid() && chars == Receive(old(chars), Delete(position))
    {
      var it := 0;
      while it < |chars| && chars[it].position != position
        invariant it <= IndexOf(chars, position)
      {
        it := it + 1;
      }
      if it < |chars| {
        chars := chars[..it] + chars[it + 1..];
      }
    }

    method GetText() returns (text: string)
      ensures text == Text(chars)
    {
      text := "";
      for i := 0 to |chars|
        invariant text == Text(chars[..i])
      {
        text := text + [chars[i].value];
      }
      assert chars[..|chars|] == chars;
    }

    /** A replica fed with a log ends in the state the log determines. */
    method ReceiveAll(log: seq<Event>)
      requires chars == []
      modifies this
      ensures Valid() && chars == Run(log)
    {
      for i := 0 to |log|
        invariant Valid() && chars == Run(log[..i])
      {
        assert log[..i + 1][..i] == log[..i];
        match log[i] {
          case Insert(ch) => RemoteInsert(ch);
          case Delete(position) => RemoteDelete(position);
        }
      }
      assert log[..|log|] == log;
    }
  }

  // In a sorted list everything up to a character below `ch` is below it.
  lemma BelowLowerIndex(chars: seq<CrdtChar>, ch: CrdtChar, middle: nat)
    requires (Sorted(chars) || Strict(chars)) && middle < |chars| && CompareTo(chars[middle], ch) < 0
    ensures middle < LowerIndex(chars, ch)
  {
    var r := LowerIndex(chars, ch);
    if r <= middle {
      Transitive(chars[r], chars[middle], ch);
    }
  }
}
