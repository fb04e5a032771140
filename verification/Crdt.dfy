/**
  The position-ordered character list of include/common/crdt/crdt_document.h: what one remote edit
  makes of it.
 */
module Crdt {
  import opened CrdtOrder

  datatype Event = Insert(ch: CrdtChar) | Delete(position: Position)

  predicate Sorted(chars: seq<CrdtChar>) {
    forall i, j | 0 <= i < j < |chars| :: CompareTo(chars[i], chars[j]) <= 0
  }

  /** Positions strictly increase. */
  predicate Increasing(chars: seq<CrdtChar>) {
    forall i, j | 0 <= i < j < |chars| :: Before(chars[i].position, chars[j].position)
  }

  /** The first place whose character does not compare below `ch`. */
  function LowerIndex(chars: seq<CrdtChar>, ch: CrdtChar): (r: nat)
    ensures r <= |chars|
    ensures forall i | 0 <= i < r :: CompareTo(chars[i], ch) < 0
    ensures r < |chars| ==> CompareTo(chars[r], ch) >= 0
  {
    if chars == [] || CompareTo(chars[0], ch) >= 0 then 0 else 1 + LowerIndex(chars[1..], ch)
  }

  function InsertSorted(chars: seq<CrdtChar>, ch: CrdtChar): seq<CrdtChar> {
    var i := LowerIndex(chars, ch);
    chars[..i] + [ch] + chars[i..]
  }

  /** The index of the first character at a position, or the length of the list. */
  function IndexOf(chars: seq<CrdtChar>, position: Position): (r: nat)
    ensures r <= |chars|
    ensures forall i | 0 <= i < r :: chars[i].position != position
    ensures r < |chars| ==> chars[r].position == position
  {
    if chars == [] || chars[0].position == position then 0 else 1 + IndexOf(chars[1..], position)
  }

  function RemoveAt(chars: seq<CrdtChar>, position: Position): seq<CrdtChar> {
    var i := IndexOf(chars, position);
    if i < |chars| then chars[..i] + chars[i + 1..] else chars
  }

  function Receive(chars: seq<CrdtChar>, event: Event): seq<CrdtChar> {
    match event
    case Insert(ch) => InsertSorted(chars, ch)
    case Delete(position) => RemoveAt(chars, position)
  }

  /** The list after a log of events, oldest first, received by an empty replica. */
  function Run(log: seq<Event>): seq<CrdtChar> {
    if log == [] then [] else Receive(Run(log[..|log| - 1]), log[|log| - 1])
  }

  function Text(chars: seq<CrdtChar>): (s: string)
    ensures |s| == |chars|
  {
    seq(|chars|, i requires 0 <= i < |chars| => chars[i].value)
  }

  // ------------------------------------------------------- order is kept

  lemma InsertKeepsSorted(chars: seq<CrdtChar>, ch: CrdtChar)
    requires Sorted(chars)
    ensures Sorted(InsertSorted(chars, ch))
  {
    var k := LowerIndex(chars, ch);
    forall i | k <= i < |chars|
      ensures CompareTo(ch, chars[i]) <= 0
    {
      TotalOrder(chars[k], ch);
      if i > k {
        Transitive(ch, chars[k], chars[i]);
      }
    }
  }

  // Characters at a place of their own go where their position belongs.
  lemma InsertKeepsIncreasing(chars: seq<CrdtChar>, ch: CrdtChar)
    requires Increasing(chars)
    requires forall i | 0 <= i < |chars| :: chars[i].position != ch.position
    ensures Increasing(InsertSorted(chars, ch))
  {
    var k := LowerIndex(chars, ch);
    forall i | 0 <= i < |chars|
      ensures i < k ==> Before(chars[i].position, ch.position)
      ensures i >= k ==> Before(ch.position, chars[i].position)
    {
      CompareFlips(chars[i].position, ch.position);
      if i >= k {
        CompareFlips(chars[k].position, ch.position);
        if i > k {
          CompareTransitive(ch.position, chars[k].position, chars[i].position);
        }
      }
    }
  }

  // Taking one element out leaves exactly the elements at the other places.
  lemma RemoveKeeps(chars: seq<CrdtChar>, k: nat, c: CrdtChar)
    requires k < |chars|
    ensures c in chars[..k] + chars[k + 1..] <==> exists i | 0 <= i < |chars| :: i != k && chars[i] == c
  {
    if i :| 0 <= i < |chars| && i != k && chars[i] == c {
      if i < k {
        assert c == chars[..k][i];
      } else {
        assert c == chars[k + 1..][i - k - 1];
      }
    }
  }
}
