/** Characters of the CRDT document and their order (include/common/crdt/crdt_document.h:24-76). */
module CrdtOrder {
  type Position = seq<int>

  datatype CrdtChar = CrdtChar(value: char, author: string, position: Position, timestamp: int)

  /** Element by element; a proper prefix comes first. */
  function Compare(a: seq<int>, b: seq<int>): (r: int)
    ensures -1 <= r <= 1
    decreases |a|
  {
    if a == [] then (if b == [] then 0 else -1)
    else if b == [] then 1
    else if a[0] < b[0] then -1
    else if a[0] > b[0] then 1
    else Compare(a[1..], b[1..])
  }

  function CharCodes(s: string): seq<int> {
    seq(|s|, i requires 0 <= i < |s| => s[i] as int)
  }

  /** Position first, then timestamp, then author. */
  function CompareTo(a: CrdtChar, b: CrdtChar): int {
    var byPosition := Compare(a.position, b.position);
    if byPosition != 0 then byPosition
    else if a.timestamp < b.timestamp then -1
    else if a.timestamp > b.timestamp then 1
    else Compare(CharCodes(a.author), CharCodes(b.author))
  }

  predicate Before(a: Position, b: Position) {
    Compare(a, b) < 0
  }

  // ------------------------------------------------------- a strict total order

  lemma {:induction false} CompareFlips(a: seq<int>, b: seq<int>)
    ensures Compare(a, b) == -Compare(b, a)
    ensures Compare(a, b) == 0 <==> a == b
    decreases |a|
  {
    if a != [] && b != [] {
      CompareFlips(a[1..], b[1..]);
      assert a == [a[0]] + a[1..] && b == [b[0]] + b[1..];
    }
  }

  lemma {:induction false} CompareTransitive(a: seq<int>, b: seq<int>, c: seq<int>)
    requires Compare(a, b) <= 0 && Compare(b, c) <= 0
    ensures Compare(a, c) <= 0
    ensures Compare(a, b) < 0 || Compare(b, c) < 0 ==> Compare(a, c) < 0
    decreases |a|
  {
    if a != [] && b != [] && c != [] && a[0] == b[0] == c[0] {
      CompareTransitive(a[1..], b[1..], c[1..]);
    }
  }

  lemma CodesInjective(s: string, t: string)
    requires CharCodes(s) == CharCodes(t)
    ensures s == t
  {
    assert |s| == |CharCodes(s)| == |CharCodes(t)| == |t|;
    forall i | 0 <= i < |s|
      ensures s[i] == t[i]
    {
      assert CharCodes(s)[i] == CharCodes(t)[i];
    }
  }

  /** Any two characters compare one way; they tie only when position, timestamp and author agree. */
  lemma TotalOrder(a: CrdtChar, b: CrdtChar)
    ensures (CompareTo(a, b) < 0) == (CompareTo(b, a) > 0)
    ensures CompareTo(a, b) == 0
       <==> a.position == b.position && a.timestamp == b.timestamp && a.author == b.author
  {
    CompareFlips(a.position, b.position);
    CompareFlips(CharCodes(a.author), CharCodes(b.author));
    if CharCodes(a.author) == CharCodes(b.author) {
      CodesInjective(a.author, b.author);
    }
  }

  lemma Transitive(a: CrdtChar, b: CrdtChar, c: CrdtChar)
    requires CompareTo(a, b) <= 0 && CompareTo(b, c) <= 0
    ensures CompareTo(a, c) <= 0
    ensures CompareTo(a, b) < 0 || CompareTo(b, c) < 0 ==> CompareTo(a, c) < 0
  {
    CompareTransitive(a.position, b.position, c.position);
    CompareFlips(a.position, b.position);
    CompareFlips(b.position, c.position);
    CompareFlips(a.position, c.position);
    if a.position == b.position == c.position && a.timestamp == b.timestamp == c.timestamp {
      CompareTransitive(CharCodes(a.author), CharCodes(b.author), CharCodes(c.author));
    }
  }

  /**
    At one position the earlier character comes first; at one time the author whose name has the
    smaller code where the two first differ, or is the beginning of the other.
   */
  lemma TiesBroken(a: CrdtChar, b: CrdtChar, k: nat)
    requires a.position == b.position
    ensures a.timestamp < b.timestamp ==> CompareTo(a, b) < 0
    ensures a.timestamp == b.timestamp && k <= |a.author| && k <= |b.author| && a.author[..k] == b.author[..k] ==>
              && (k < |a.author| && k < |b.author| && a.author[k] < b.author[k] ==> CompareTo(a, b) < 0)
              && (k == |a.author| < |b.author| ==> CompareTo(a, b) < 0)
  {
    CompareFlips(a.position, b.position);
    if k <= |a.author| && k <= |b.author| && a.author[..k] == b.author[..k] {
      var x, y := CharCodes(a.author), CharCodes(b.author);
      forall i | 0 <= i < k
        ensures x[i] == y[i]
      {
        assert a.author[..k][i] == b.author[..k][i];
      }
      DecidedAt(x, y, k);
    }
  }

  /** Sequences that agree up to a place are compared there. */
  lemma {:induction false} DecidedAt(a: seq<int>, b: seq<int>, k: nat)
    requires k <= |a| && k <= |b| && forall i | 0 <= i < k :: a[i] == b[i]
    ensures k < |a| && k < |b| && a[k] < b[k] ==> Compare(a, b) == -1
    ensures k == |a| < |b| ==> Compare(a, b) == -1
    decreases k
  {
    if k > 0 {
      DecidedAt(a[1..], b[1..], k - 1);
    }
  }

  /** The comparison loop computes the order. */
  method ComparePositions(a: Position, b: Position) returns (r: int)
    ensures r == Compare(a, b)
  {
    var minSize := if |a| < |b| then |a| else |b|;
    for i := 0 to minSize
      invariant Compare(a, b) == Compare(a[i..], b[i..])
    {
      if a[i] < b[i] {
        return -1;
      }
      if a[i] > b[i] {
        return 1;
      }
    }
    r := if |a| < |b| then -1 else if |a| > |b| then 1 else 0;
  }
}
