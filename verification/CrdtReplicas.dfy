/**
  Replicas that receive remote edits (include/common/crdt/crdt_document.h:126-148). Inserts may share a
  position: halving the first component is deterministic, so two sites that insert at one place
  generate one position. Characters then differ by timestamp or author only, and a delete takes the
  first of a position.
 */
module CrdtReplicas {
  import opened CrdtOrder
  import opened Crdt

  /** Characters strictly increase in the full order. */
  predicate Strict(chars: seq<CrdtChar>) {
    forall i, j | 0 <= i < j < |chars| :: CompareTo(chars[i], chars[j]) < 0
  }

  /** No character ties with the one an event inserts. */
  predicate Fresh(chars: seq<CrdtChar>, e: Event) {
    e.Insert? ==> forall c | c in chars :: CompareTo(c, e.ch) != 0
  }

  lemma StrictDistinct(chars: seq<CrdtChar>, i: nat, j: nat)
    requires Strict(chars) && i < |chars| && j < |chars| && chars[i] == chars[j]
    ensures i == j
  {
    TotalOrder(chars[i], chars[j]);
  }

  /** A strict list is determined by the characters in it. */
  lemma {:induction false} SameCharsSameList(a: seq<CrdtChar>, b: seq<CrdtChar>)
    requires Strict(a) && Strict(b) && forall c :: c in a <==> c in b
    ensures a == b
    decreases |a|
  {
    assert b != [] ==> b[0] in b;
    if a != [] {
      assert a[0] in a;
      FirstsAgree(a, b);
      forall c
        ensures c in a[1..] <==> c in b[1..]
      {
        RestMembers(a, c);
        RestMembers(b, c);
      }
      SameCharsSameList(a[1..], b[1..]);
      assert a == [a[0]] + a[1..] && b == [b[0]] + b[1..];
    }
  }

  lemma FirstsAgree(a: seq<CrdtChar>, b: seq<CrdtChar>)
    requires Strict(a) && Strict(b) && a != [] && b != [] && a[0] in b && b[0] in a
    ensures a[0] == b[0]
  {
    var i :| 0 <= i < |b| && b[i] == a[0];
    var j :| 0 <= j < |a| && a[j] == b[0];
    if i > 0 && j > 0 {
      TotalOrder(a[0], b[0]);
    }
  }

  lemma RestMembers(a: seq<CrdtChar>, c: CrdtChar)
    requires Strict(a) && a != []
    ensures c in a[1..] <==> c in a && c != a[0]
  {
    if c in a[1..] {
      var i :| 0 <= i < |a[1..]| && a[1..][i] == c;
      assert a[i + 1] == c;
      TotalOrder(a[0], c);
    }
  }

  // ------------------------------------------------------- one event

  lemma InsertMembers(chars: seq<CrdtChar>, ch: CrdtChar, c: CrdtChar)
    ensures c in InsertSorted(chars, ch) <==> c in chars || c == ch
  {
    var k := LowerIndex(chars, ch);
    assert chars == chars[..k] + chars[k..];
  }

  lemma InsertKeepsStrict(chars: seq<CrdtChar>, ch: CrdtChar)
    requires Strict(chars) && Fresh(chars, Insert(ch))
    ensures Strict(InsertSorted(chars, ch))
  {
    var k := LowerIndex(chars, ch);
    forall i | 0 <= i < |chars|
      ensures i < k ==> CompareTo(chars[i], ch) < 0
      ensures i >= k ==> CompareTo(ch, chars[i]) < 0
    {
      assert chars[i] in chars;
      TotalOrder(ch, chars[i]);
      if i > k {
        assert chars[k] in chars;
        TotalOrder(ch, chars[k]);
        Transitive(ch, chars[k], chars[i]);
      }
    }
  }

  lemma RemoveKeepsStrict(chars: seq<CrdtChar>, position: Position)
    requires Strict(chars)
    ensures Strict(RemoveAt(chars, position))
  {
  }

  /** The first character at a position. */
  predicate FirstAt(chars: seq<CrdtChar>, position: Position, x: CrdtChar) {
    x in chars && x.position == position
    && forall c | c in chars && c.position == position :: CompareTo(x, c) <= 0
  }

  lemma FirstAtOne(chars: seq<CrdtChar>, position: Position, x: CrdtChar, y: CrdtChar)
    requires Strict(chars) && FirstAt(chars, position, x) && FirstAt(chars, position, y)
    ensures x == y
  {
    TotalOrder(x, y);
    var i :| 0 <= i < |chars| && chars[i] == x;
    var j :| 0 <= j < |chars| && chars[j] == y;
  }

  lemma IndexOfIsFirst(chars: seq<CrdtChar>, position: Position)
    requires Strict(chars)
    ensures var k := IndexOf(chars, position);
            if k < |chars| then FirstAt(chars, position, chars[k])
            else forall c | c in chars :: c.position != position
  {
    var k := IndexOf(chars, position);
    if k < |chars| {
      forall c | c in chars && c.position == position
        ensures CompareTo(chars[k], c) <= 0
      {
        var i :| 0 <= i < |chars| && chars[i] == c;
        TotalOrder(c, c);
      }
    }
  }

  // A delete takes the first character at its position, and no other.
  lemma RemoveMembersOf(chars: seq<CrdtChar>, position: Position, c: CrdtChar)
    requires Strict(chars)
    ensures c in RemoveAt(chars, position) <==> c in chars && !FirstAt(chars, position, c)
  {
    var k := IndexOf(chars, position);
    IndexOfIsFirst(chars, position);
    if k < |chars| {
      RemoveKeeps(chars, k, c);
      if c in RemoveAt(chars, position) {
        var i :| 0 <= i < |chars| && i != k && chars[i] == c;
        if FirstAt(chars, position, c) {
          FirstAtOne(chars, position, c, chars[k]);
          StrictDistinct(chars, i, k);
        }
      }
    }
  }

  // ------------------------------------------------------- two events in either order

  /** The events may be received in either order. */
  predicate Independent(e: Event, f: Event) {
    match (e, f)
    case (Insert(a), Insert(b)) => CompareTo(a, b) != 0
    case (Insert(c), Delete(p)) => c.position != p
    case (Delete(p), Insert(c)) => c.position != p
    case (Delete(_), Delete(_)) => true
  }

  lemma ReceiveKeepsStrict(chars: seq<CrdtChar>, e: Event)
    requires Strict(chars) && Fresh(chars, e)
    ensures Strict(Receive(chars, e))
  {
    match e
    case Insert(ch) => InsertKeepsStrict(chars, ch);
    case Delete(p) => RemoveKeepsStrict(chars, p);
  }

  lemma StaysFresh(chars: seq<CrdtChar>, e: Event, f: Event)
    requires Strict(chars) && Fresh(chars, f) && Independent(e, f)
    ensures Fresh(Receive(chars, e), f)
  {
    if f.Insert? {
      forall c | c in Receive(chars, e)
        ensures CompareTo(c, f.ch) != 0
      {
        if e.Insert? {
          InsertMembers(chars, e.ch, c);
        } else {
          RemoveMembersOf(chars, e.position, c);
        }
      }
    }
  }

  lemma InsertsCommute(chars: seq<CrdtChar>, a: CrdtChar, b: CrdtChar)
    requires Strict(chars) && Fresh(chars, Insert(a)) && Fresh(chars, Insert(b)) && CompareTo(a, b) != 0
    ensures InsertSorted(InsertSorted(chars, a), b) == InsertSorted(InsertSorted(chars, b), a)
  {
    TotalOrder(a, b);
    TotalOrder(b, a);
    StaysFresh(chars, Insert(a), Insert(b));
    StaysFresh(chars, Insert(b), Insert(a));
    InsertKeepsStrict(chars, a);
    InsertKeepsStrict(chars, b);
    InsertKeepsStrict(InsertSorted(chars, a), b);
    InsertKeepsStrict(InsertSorted(chars, b), a);
    forall c
      ensures c in InsertSorted(InsertSorted(chars, a), b) <==> c in InsertSorted(InsertSorted(chars, b), a)
    {
      InsertMembers(chars, a, c);
      InsertMembers(chars, b, c);
      InsertMembers(InsertSorted(chars, a), b, c);
      InsertMembers(InsertSorted(chars, b), a, c);
    }
    SameCharsSameList(InsertSorted(InsertSorted(chars, a), b), InsertSorted(InsertSorted(chars, b), a));
  }

  // A character elsewhere does not change which one is first at a position.
  lemma FirstAtUnmoved(chars: seq<CrdtChar>, other: seq<CrdtChar>, position: Position, x: CrdtChar)
    requires forall c: CrdtChar | c.position == position :: c in chars <==> c in other
    ensures FirstAt(chars, position, x) <==> FirstAt(other, position, x)
  {
  }

  lemma InsertAndDeleteCommute(chars: seq<CrdtChar>, ch: CrdtChar, p: Position)
    requires Strict(chars) && Fresh(chars, Insert(ch)) && ch.position != p
    ensures RemoveAt(InsertSorted(chars, ch), p) == InsertSorted(RemoveAt(chars, p), ch)
  {
    var inserted, removed := InsertSorted(chars, ch), RemoveAt(chars, p);
    InsertKeepsStrict(chars, ch);
    RemoveKeepsStrict(chars, p);
    RemoveKeepsStrict(inserted, p);
    StaysFresh(chars, Delete(p), Insert(ch));
    InsertKeepsStrict(removed, ch);
    forall c
      ensures c in inserted <==> c in chars || c == ch
    {
      InsertMembers(chars, ch, c);
    }
    forall c
      ensures c in RemoveAt(inserted, p) <==> c in InsertSorted(removed, ch)
    {
      RemoveMembersOf(inserted, p, c);
      RemoveMembersOf(chars, p, c);
      InsertMembers(removed, ch, c);
      FirstAtUnmoved(chars, inserted, p, c);
    }
    SameCharsSameList(RemoveAt(inserted, p), InsertSorted(removed, ch));
  }

  lemma TwoDeletes(chars: seq<CrdtChar>, p: Position, q: Position)
    requires Strict(chars) && p != q
    ensures Strict(RemoveAt(RemoveAt(chars, p), q))
    ensures forall c :: c in RemoveAt(RemoveAt(chars, p), q)
                   <==> c in chars && !FirstAt(chars, p, c) && !FirstAt(chars, q, c)
  {
    var a := RemoveAt(chars, p);
    RemoveKeepsStrict(chars, p);
    RemoveKeepsStrict(a, q);
    forall c
      ensures c in a <==> c in chars && !FirstAt(chars, p, c)
    {
      RemoveMembersOf(chars, p, c);
    }
    forall c
      ensures c in RemoveAt(a, q) <==> c in chars && !FirstAt(chars, p, c) && !FirstAt(chars, q, c)
    {
      RemoveMembersOf(a, q, c);
      FirstAtUnmoved(chars, a, q, c);
    }
  }

  lemma DeletesCommute(chars: seq<CrdtChar>, p: Position, q: Position)
    requires Strict(chars)
    ensures RemoveAt(RemoveAt(chars, p), q) == RemoveAt(RemoveAt(chars, q), p)
  {
    if p != q {
      TwoDeletes(chars, p, q);
      TwoDeletes(chars, q, p);
      SameCharsSameList(RemoveAt(RemoveAt(chars, p), q), RemoveAt(RemoveAt(chars, q), p));
    }
  }

  lemma EventsCommute(chars: seq<CrdtChar>, e: Event, f: Event)
    requires Strict(chars) && Fresh(chars, e) && Fresh(chars, f) && Independent(e, f)
    ensures Receive(Receive(chars, e), f) == Receive(Receive(chars, f), e)
  {
    match (e, f) {
      case (Insert(a), Insert(b)) => InsertsCommute(chars, a, b);
      case (Insert(c), Delete(p)) => InsertAndDeleteCommute(chars, c, p);
      case (Delete(p), Insert(c)) => InsertAndDeleteCommute(chars, c, p);
      case (Delete(p), Delete(q)) => DeletesCommute(chars, p, q);
    }
  }

  // ------------------------------------------------------- convergence

  /** No position is deleted before something is inserted there. */
  predicate DeletesFollow(log: seq<Event>) {
    forall i, j | 0 <= i < j < |log| && log[j].Insert? :: log[i] != Delete(log[j].ch.position)
  }

  /** No two inserts tie in position, timestamp and author; positions alone may be shared. */
  predicate DistinctKeys(log: seq<Event>) {
    forall i, j | 0 <= i < j < |log| && log[i].Insert? && log[j].Insert? :: CompareTo(log[i].ch, log[j].ch) != 0
  }

  lemma {:induction false} RunIsStrict(log: seq<Event>)
    requires DistinctKeys(log)
    ensures Strict(Run(log)) && forall c | c in Run(log) :: Insert(c) in log
    decreases |log|
  {
    if log != [] {
      var front, last := log[..|log| - 1], log[|log| - 1];
      RunIsStrict(front);
      FreshNext(front, last);
      ReceiveKeepsStrict(Run(front), last);
      forall c | c in Run(log)
        ensures Insert(c) in log
      {
        if last.Insert? {
          InsertMembers(Run(front), last.ch, c);
          assert last in log;
        } else {
          RemoveMembersOf(Run(front), last.position, c);
        }
        assert Insert(c) in front ==> Insert(c) in log;
      }
    }
  }

  // What a log inserted does not tie with an event that may follow it.
  lemma FreshNext(log: seq<Event>, e: Event)
    requires DistinctKeys(log + [e]) && forall c | c in Run(log) :: Insert(c) in log
    ensures Fresh(Run(log), e)
  {
    if e.Insert? {
      forall c | c in Run(log)
        ensures CompareTo(c, e.ch) != 0
      {
        var i :| 0 <= i < |log| && log[i] == Insert(c);
        assert (log + [e])[i] == Insert(c) && (log + [e])[|log|] == e;
      }
    }
  }

  function Without(log: seq<Event>, i: nat): seq<Event>
    requires i < |log|
  {
    log[..i] + log[i + 1..]
  }

  lemma WithoutKeeps(log: seq<Event>, i: nat)
    requires i < |log|
    ensures DistinctKeys(log) ==> DistinctKeys(Without(log, i)) && DistinctKeys(Without(log, i) + [log[i]])
    ensures DeletesFollow(log) ==> DeletesFollow(Without(log, i))
    ensures multiset(Without(log, i)) == multiset(log) - multiset{log[i]}
  {
    var rest := Without(log, i);
    assert log == log[..i] + [log[i]] + log[i + 1..];
    assert forall k | 0 <= k < |rest| :: rest[k] == log[if k < i then k else k + 1];
    if DistinctKeys(log) {
      forall k | 0 <= k < |rest| && rest[k].Insert? && log[i].Insert?
        ensures CompareTo(rest[k].ch, log[i].ch) != 0
      {
        TotalOrder(rest[k].ch, log[i].ch);
      }
    }
  }

  /** An event independent of all later ones might as well come last. */
  lemma {:induction false} MoveLast(log: seq<Event>, i: nat)
    requires DistinctKeys(log) && i < |log|
    requires forall j | i < j < |log| :: Independent(log[i], log[j])
    ensures Run(log) == Receive(Run(Without(log, i)), log[i])
    decreases |log|
  {
    var front, last, e := log[..|log| - 1], log[|log| - 1], log[i];
    if i == |log| - 1 {
      assert Without(log, i) == front;
    } else {
      FrontKeeps(log, i);
      MoveLast(front, i);
      SwapLast(Without(front, i), e, last);
    }
  }

  lemma FrontKeeps(log: seq<Event>, i: nat)
    requires DistinctKeys(log) && i < |log| - 1
    ensures var front, last := log[..|log| - 1], log[|log| - 1];
            && DistinctKeys(front) && front[i] == log[i] && (forall j | i < j < |front| :: front[j] == log[j])
            && Without(log, i) == Without(front, i) + [last]
            && DistinctKeys(Without(front, i) + [log[i]]) && DistinctKeys(Without(front, i) + [last])
  {
    var front, last := log[..|log| - 1], log[|log| - 1];
    assert DistinctKeys(front);
    WithoutKeeps(front, i);
    WithoutKeeps(log, i);
    assert Without(log, i) == Without(front, i) + [last];
  }

  lemma SwapLast(log: seq<Event>, e: Event, f: Event)
    requires DistinctKeys(log + [e]) && DistinctKeys(log + [f]) && Independent(e, f)
    ensures Receive(Receive(Run(log), e), f) == Receive(Run(log + [f]), e)
  {
    assert (log + [f])[..|log|] == log;
    assert DistinctKeys(log) by {
      assert forall k | 0 <= k < |log| :: (log + [e])[k] == log[k];
    }
    RunIsStrict(log);
    FreshNext(log, e);
    FreshNext(log, f);
    EventsCommute(Run(log), e, f);
  }

  /**
    Replicas that receive the same events in any two orders, each delete after the inserts at its
    position, hold the same text, whether or not inserts share positions.
   */
  lemma {:induction false} TiedReplicasConverge(a: seq<Event>, b: seq<Event>)
    requires multiset(a) == multiset(b)
    requires DistinctKeys(a) && DistinctKeys(b) && DeletesFollow(a) && DeletesFollow(b)
    ensures Run(a) == Run(b) && Text(Run(a)) == Text(Run(b))
    decreases |a|
  {
    if a == [] {
      assert |multiset(b)| == |b|;
    } else {
      var n := |a| - 1;
      var e := a[n];
      assert e in multiset(a);
      var i :| 0 <= i < |b| && b[i] == e;
      LaterIsIndependent(a, b, i);
      WithoutKeeps(a, n);
      WithoutKeeps(b, i);
      assert Without(a, n) == a[..n];
      TiedReplicasConverge(Without(a, n), Without(b, i));
      MoveLast(b, i);
    }
  }

  lemma LaterIsIndependent(a: seq<Event>, b: seq<Event>, i: nat)
    requires multiset(a) == multiset(b) && a != [] && i < |b| && b[i] == a[|a| - 1]
    requires DistinctKeys(b) && DeletesFollow(a) && DeletesFollow(b)
    ensures forall j | i < j < |b| :: Independent(b[i], b[j])
  {
    forall j | i < j < |b|
      ensures Independent(b[i], b[j])
    {
      assert b[j] in multiset(a);
      var k :| 0 <= k < |a| && a[k] == b[j];
    }
  }

  // ------------------------------------------------------- what a replica holds

  /**
    How many characters at the position of `c`, but before it, a log leaves: an insert of one adds
    to them, a delete of the position takes one away while there are any.
   */
  function BelowCount(log: seq<Event>, c: CrdtChar): nat
    decreases |log|
  {
    if log == [] then 0
    else
      BelowAfter(BelowCount(log[..|log| - 1], c), log[|log| - 1], c)
  }

  function BelowAfter(n: nat, e: Event, c: CrdtChar): nat {
    match e
    case Insert(ch) => if ch.position == c.position && CompareTo(ch, c) < 0 then n + 1 else n
    case Delete(p) => if p == c.position && n > 0 then n - 1 else n
  }

  /** The character was inserted, and every later delete of its position found another before it. */
  predicate Survives(log: seq<Event>, c: CrdtChar)
    decreases |log|
  {
    log != [] &&
    var front := log[..|log| - 1];
    match log[|log| - 1]
    case Insert(ch) => ch == c || Survives(front, c)
    case Delete(p) => Survives(front, c) && (p == c.position ==> BelowCount(front, c) > 0)
  }

  ghost function HeldBelow(chars: seq<CrdtChar>, c: CrdtChar): set<CrdtChar> {
    set x | x in chars && x.position == c.position && CompareTo(x, c) < 0
  }

  // The first character at a position has none below it, and nothing else has.
  lemma FirstHasNoneBelow(chars: seq<CrdtChar>, c: CrdtChar)
    requires c in chars
    ensures FirstAt(chars, c.position, c) <==> HeldBelow(chars, c) == {}
  {
    forall x | x in chars && x.position == c.position
      ensures CompareTo(c, x) <= 0 <==> x !in HeldBelow(chars, c)
    {
      TotalOrder(x, c);
      TotalOrder(c, x);
    }
    if HeldBelow(chars, c) == {} {
      forall x | x in chars && x.position == c.position
        ensures CompareTo(c, x) <= 0
      {
        assert x !in HeldBelow(chars, c);
      }
    } else {
      var x :| x in HeldBelow(chars, c);
    }
  }

  lemma InsertBelow(chars: seq<CrdtChar>, ch: CrdtChar, c: CrdtChar)
    requires Fresh(chars, Insert(ch))
    ensures |HeldBelow(InsertSorted(chars, ch), c)|
         == |HeldBelow(chars, c)| + if ch.position == c.position && CompareTo(ch, c) < 0 then 1 else 0
  {
    TotalOrder(ch, ch);
    forall x
      ensures x in InsertSorted(chars, ch) <==> x in chars || x == ch
    {
      InsertMembers(chars, ch, x);
    }
    var added := if ch.position == c.position && CompareTo(ch, c) < 0 then {ch} else {};
    assert HeldBelow(InsertSorted(chars, ch), c) == HeldBelow(chars, c) + added;
  }

  lemma DeleteBelow(chars: seq<CrdtChar>, p: Position, c: CrdtChar)
    requires Strict(chars)
    ensures var n := |HeldBelow(chars, c)|;
            |HeldBelow(RemoveAt(chars, p), c)| == if p == c.position && n > 0 then n - 1 else n
  {
    var k, held := IndexOf(chars, p), HeldBelow(chars, c);
    IndexOfIsFirst(chars, p);
    forall x
      ensures x in RemoveAt(chars, p) <==> x in chars && !FirstAt(chars, p, x)
    {
      RemoveMembersOf(chars, p, x);
    }
    if p == c.position && held != {} {
      var y :| y in held;
      var x := chars[k];
      Transitive(x, y, c);
      assert x in held;
      forall z | z in held && FirstAt(chars, p, z)
        ensures z == x
      {
        FirstAtOne(chars, p, z, x);
      }
      assert HeldBelow(RemoveAt(chars, p), c) == held - {x};
    } else {
      assert HeldBelow(RemoveAt(chars, p), c) == held;
    }
  }

  /**
    A replica holds exactly the surviving characters, strictly ordered, whatever the order of the
    log; below each place stand as many as the count says.
   */
  lemma {:induction false} ReplicaHoldsSurvivors(log: seq<Event>, c: CrdtChar)
    requires DistinctKeys(log)
    ensures Strict(Run(log))
    ensures c in Run(log) <==> Survives(log, c)
    ensures |HeldBelow(Run(log), c)| == BelowCount(log, c)
    decreases |log|
  {
    RunIsStrict(log);
    if log != [] {
      var front, last := log[..|log| - 1], log[|log| - 1];
      assert log == front + [last];
      ReplicaHoldsSurvivors(front, c);
      RunIsStrict(front);
      FreshNext(front, last);
      HeldAfterEvent(Run(front), last, c);
    }
  }

  // What one event does to a character and to those below it.
  lemma HeldAfterEvent(chars: seq<CrdtChar>, e: Event, c: CrdtChar)
    requires Strict(chars) && Fresh(chars, e)
    ensures c in Receive(chars, e)
       <==> if e.Insert? then c == e.ch || c in chars
            else c in chars && (e.position == c.position ==> |HeldBelow(chars, c)| > 0)
    ensures |HeldBelow(Receive(chars, e), c)| == BelowAfter(|HeldBelow(chars, c)|, e, c)
  {
    match e {
      case Insert(ch) =>
        InsertBelow(chars, ch, c);
        InsertMembers(chars, ch, c);
      case Delete(p) =>
        DeleteBelow(chars, p, c);
        RemoveMembersOf(chars, p, c);
        if c in chars {
          FirstHasNoneBelow(chars, c);
        }
    }
  }

  lemma HoldsExactly(log: seq<Event>)
    requires DistinctKeys(log)
    ensures Strict(Run(log)) && forall c :: c in Run(log) <==> Survives(log, c)
  {
    RunIsStrict(log);
    forall c
      ensures c in Run(log) <==> Survives(log, c)
    {
      ReplicaHoldsSurvivors(log, c);
    }
  }

  ghost predicate SameSurvivors(a: seq<Event>, b: seq<Event>) {
    forall c :: Survives(a, c) <==> Survives(b, c)
  }

  /** Two replicas hold one list exactly when the same characters survive in their logs. */
  lemma ReplicasAgreeExactly(a: seq<Event>, b: seq<Event>)
    requires DistinctKeys(a) && DistinctKeys(b)
    ensures Run(a) == Run(b) <==> SameSurvivors(a, b)
  {
    HoldsExactly(a);
    HoldsExactly(b);
    if SameSurvivors(a, b) {
      SameMembers(Run(a), Run(b), a, b);
    } else {
      var c :| Survives(a, c) != Survives(b, c);
      assert c in Run(a) <==> c !in Run(b);
    }
  }

  lemma SameMembers(r: seq<CrdtChar>, r': seq<CrdtChar>, a: seq<Event>, b: seq<Event>)
    requires Strict(r) && Strict(r') && SameSurvivors(a, b)
    requires (forall c :: c in r <==> Survives(a, c)) && (forall c :: c in r' <==> Survives(b, c))
    ensures r == r'
  {
    forall c
      ensures c in r <==> c in r'
    {
      assert Survives(a, c) <==> Survives(b, c);
    }
    SameCharsSameList(r, r');
  }

  predicate NotDeletedAfter(log: seq<Event>, i: nat, position: Position) {
    forall j | i < j < |log| :: log[j] != Delete(position)
  }

  /** A character with its position to itself survives exactly if no delete of the position follows its insert. */
  lemma {:induction false} AloneSurvives(log: seq<Event>, c: CrdtChar)
    requires forall i | 0 <= i < |log| && log[i].Insert? :: log[i].ch == c || log[i].ch.position != c.position
    ensures BelowCount(log, c) == 0
    ensures Survives(log, c)
       <==> exists i :: 0 <= i < |log| && log[i] == Insert(c) && NotDeletedAfter(log, i, c.position)
    decreases |log|
  {
    if log != [] {
      var n := |log| - 1;
      var front, last := log[..n], log[n];
      TotalOrder(c, c);
      AloneSurvives(front, c);
      if last == Insert(c) {
        assert NotDeletedAfter(log, n, c.position);
      } else {
        LaterFate(log, c);
      }
    }
  }

  // An event other than its insert spares a character exactly if it does not delete its position.
  lemma LaterFate(log: seq<Event>, c: CrdtChar)
    requires log != [] && log[|log| - 1] != Insert(c)
    ensures var front, last := log[..|log| - 1], log[|log| - 1];
            (exists i :: 0 <= i < |log| && log[i] == Insert(c) && NotDeletedAfter(log, i, c.position))
            <==> last != Delete(c.position)
                 && exists i :: 0 <= i < |front| && front[i] == Insert(c) && NotDeletedAfter(front, i, c.position)
  {
    var n := |log| - 1;
    var front := log[..n];
    if i :| 0 <= i < |log| && log[i] == Insert(c) && NotDeletedAfter(log, i, c.position) {
      assert front[i] == Insert(c) && NotDeletedAfter(front, i, c.position);
      assert log[n] != Delete(c.position);
    }
    if log[n] != Delete(c.position) {
      if i :| 0 <= i < |front| && front[i] == Insert(c) && NotDeletedAfter(front, i, c.position) {
        assert log[i] == Insert(c) && NotDeletedAfter(log, i, c.position);
      }
    }
  }

  // ------------------------------------------------------- convergence, exactly

  ghost function Inserted(log: seq<Event>): set<CrdtChar> {
    set e | e in log && e.Insert? :: e.ch
  }

  ghost function At(s: set<CrdtChar>, p: Position): set<CrdtChar> {
    set x | x in s && x.position == p
  }

  ghost function Below(s: set<CrdtChar>, c: CrdtChar): set<CrdtChar> {
    set x | x in s && x.position == c.position && CompareTo(x, c) < 0
  }

  lemma OneMoreAt(s: set<CrdtChar>, ch: CrdtChar, p: Position)
    requires ch !in s
    ensures |At(s + {ch}, p)| == |At(s, p)| + if ch.position == p then 1 else 0
  {
    assert At(s + {ch}, p) == if ch.position == p then At(s, p) + {ch} else At(s, p);
  }

  lemma OneMoreBelow(s: set<CrdtChar>, ch: CrdtChar, c: CrdtChar)
    requires ch !in s
    ensures |Below(s + {ch}, c)| == |Below(s, c)| + if ch.position == c.position && CompareTo(ch, c) < 0 then 1 else 0
  {
    var counts := ch.position == c.position && CompareTo(ch, c) < 0;
    assert Below(s + {ch}, c) == if counts then Below(s, c) + {ch} else Below(s, c);
  }

  ghost function InsertedAt(log: seq<Event>, p: Position): set<CrdtChar> {
    At(Inserted(log), p)
  }

  ghost function InsertedBelow(log: seq<Event>, c: CrdtChar): set<CrdtChar> {
    Below(Inserted(log), c)
  }

  function DeleteCount(log: seq<Event>, p: Position): nat {
    multiset(log)[Delete(p)]
  }

  function Minus(m: nat, n: nat): nat {
    if n < m then m - n else 0
  }

  lemma InsertedNext(front: seq<Event>, ch: CrdtChar)
    requires Insert(ch) !in front
    ensures ch !in Inserted(front) && Inserted(front + [Insert(ch)]) == Inserted(front) + {ch}
  {
    assert forall e :: e in front + [Insert(ch)] <==> e in front || e == Insert(ch);
    assert forall e | e in front && e.Insert? :: e == Insert(e.ch);
  }

  // What the last event of a log adds to the counts.
  lemma LastInserted(front: seq<Event>, ch: CrdtChar, p: Position, c: CrdtChar)
    requires Insert(ch) !in front
    ensures |InsertedAt(front + [Insert(ch)], p)| == |InsertedAt(front, p)| + if ch.position == p then 1 else 0
    ensures |InsertedBelow(front + [Insert(ch)], c)|
         == |InsertedBelow(front, c)| + if ch.position == c.position && CompareTo(ch, c) < 0 then 1 else 0
  {
    InsertedNext(front, ch);
    OneMoreAt(Inserted(front), ch, p);
    OneMoreBelow(Inserted(front), ch, c);
  }

  lemma LastDeleted(front: seq<Event>, q: Position, p: Position, c: CrdtChar)
    ensures InsertedAt(front + [Delete(q)], p) == InsertedAt(front, p)
    ensures InsertedBelow(front + [Delete(q)], c) == InsertedBelow(front, c)
  {
    assert forall e :: e in front + [Delete(q)] <==> e in front || e == Delete(q);
    assert Inserted(front + [Delete(q)]) == Inserted(front);
  }

  lemma LastEvent(log: seq<Event>, p: Position)
    requires log != [] && DistinctKeys(log) && DeletesFollow(log)
    ensures var front, last := log[..|log| - 1], log[|log| - 1];
            && log == front + [last] && DistinctKeys(front) && DeletesFollow(front)
            && DeleteCount(log, p) == DeleteCount(front, p) + (if last == Delete(p) then 1 else 0)
            && (last.Insert? ==> last !in front)
            && (last.Insert? && last.ch.position == p ==> DeleteCount(front, p) == 0)
  {
    var front, last := log[..|log| - 1], log[|log| - 1];
    assert log == front + [last];
    if last.Insert? {
      NoSecondInsert(front, last);
      if last.ch.position == p {
        assert Delete(p) !in front;
      }
    }
  }

  lemma NoSecondInsert(front: seq<Event>, last: Event)
    requires DistinctKeys(front + [last]) && last.Insert?
    ensures last !in front
  {
    if last in front {
      var i :| 0 <= i < |front| && front[i] == last;
      assert (front + [last])[i] == last && (front + [last])[|front|] == last;
      TotalOrder(last.ch, last.ch);
    }
  }

  /** When deletes follow their inserts, they take the first characters of a position and no others. */
  lemma {:induction false} SurvivesByRank(log: seq<Event>, c: CrdtChar)
    requires DistinctKeys(log) && DeletesFollow(log)
    ensures BelowCount(log, c) == Minus(|InsertedBelow(log, c)|, DeleteCount(log, c.position))
    ensures Survives(log, c) <==> Insert(c) in log && DeleteCount(log, c.position) <= |InsertedBelow(log, c)|
    decreases |log|
  {
    if log != [] {
      var front, last := log[..|log| - 1], log[|log| - 1];
      LastEvent(log, c.position);
      SurvivesByRank(front, c);
      if last.Insert? {
        LastInserted(front, last.ch, c.position, c);
      } else {
        LastDeleted(front, last.position, c.position, c);
      }
      assert Insert(c) in log <==> Insert(c) in front || last == Insert(c);
    }
  }

  ghost function HeldAt(chars: seq<CrdtChar>, p: Position): set<CrdtChar> {
    set x | x in chars && x.position == p
  }

  lemma DeleteAt(chars: seq<CrdtChar>, q: Position, p: Position)
    requires Strict(chars)
    ensures |HeldAt(RemoveAt(chars, q), p)| == Minus(|HeldAt(chars, p)|, if p == q then 1 else 0)
  {
    var k, held := IndexOf(chars, q), HeldAt(chars, p);
    IndexOfIsFirst(chars, q);
    forall x
      ensures x in RemoveAt(chars, q) <==> x in chars && !FirstAt(chars, q, x)
    {
      RemoveMembersOf(chars, q, x);
    }
    if p == q && k < |chars| {
      forall z | z in held && FirstAt(chars, q, z)
        ensures z == chars[k]
      {
        FirstAtOne(chars, q, z, chars[k]);
      }
      assert chars[k] in held && HeldAt(RemoveAt(chars, q), p) == held - {chars[k]};
    } else {
      assert p == q ==> held == {};
      assert HeldAt(RemoveAt(chars, q), p) == held;
    }
  }

  lemma InsertAt(chars: seq<CrdtChar>, ch: CrdtChar, p: Position)
    requires Fresh(chars, Insert(ch))
    ensures |HeldAt(InsertSorted(chars, ch), p)| == |HeldAt(chars, p)| + if ch.position == p then 1 else 0
  {
    TotalOrder(ch, ch);
    forall x
      ensures x in InsertSorted(chars, ch) <==> x in chars || x == ch
    {
      InsertMembers(chars, ch, x);
    }
    var added := if ch.position == p then {ch} else {};
    assert HeldAt(InsertSorted(chars, ch), p) == HeldAt(chars, p) + added;
  }

  lemma {:induction false} HeldCount(log: seq<Event>, p: Position)
    requires DistinctKeys(log) && DeletesFollow(log)
    ensures |HeldAt(Run(log), p)| == Minus(|InsertedAt(log, p)|, DeleteCount(log, p))
    decreases |log|
  {
    if log != [] {
      var front, last := log[..|log| - 1], log[|log| - 1];
      LastEvent(log, p);
      HeldCount(front, p);
      RunIsStrict(front);
      FreshNext(front, last);
      HeldAfter(front, last, p);
    }
  }

  lemma HeldAfter(front: seq<Event>, last: Event, p: Position)
    requires Strict(Run(front)) && Fresh(Run(front), last)
    requires last.Insert? ==> last !in front
    ensures |HeldAt(Run(front + [last]), p)|
         == if last.Insert? then |HeldAt(Run(front), p)| + (if last.ch.position == p then 1 else 0)
            else Minus(|HeldAt(Run(front), p)|, if last.position == p then 1 else 0)
    ensures |InsertedAt(front + [last], p)|
         == |InsertedAt(front, p)| + if last.Insert? && last.ch.position == p then 1 else 0
  {
    assert (front + [last])[..|front|] == front;
    var c := CrdtChar('a', "", p, 0);
    match last {
      case Insert(ch) =>
        InsertAt(Run(front), ch, p);
        LastInserted(front, ch, p, c);
      case Delete(q) =>
        DeleteAt(Run(front), q, p);
        LastDeleted(front, q, p, c);
    }
  }

  /** How many characters deletes took from a position: no more than were inserted there. */
  ghost function Taken(log: seq<Event>, p: Position): nat {
    if DeleteCount(log, p) < |InsertedAt(log, p)| then DeleteCount(log, p) else |InsertedAt(log, p)|
  }

  /**
    Replicas that receive the same inserts, in any orders in which deletes follow the inserts at their
    position, hold the same text if and only if at every position they deleted equally many of the
    characters inserted there.
   */
  lemma ReplicasConvergeExactly(a: seq<Event>, b: seq<Event>)
    requires DistinctKeys(a) && DistinctKeys(b) && DeletesFollow(a) && DeletesFollow(b)
    requires forall c :: Insert(c) in a <==> Insert(c) in b
    ensures Run(a) == Run(b) <==> forall p :: Taken(a, p) == Taken(b, p)
  {
    forall p
      ensures InsertedAt(a, p) == InsertedAt(b, p)
    {
      SameInserts(a, b, p);
    }
    if Run(a) == Run(b) {
      forall p
        ensures Taken(a, p) == Taken(b, p)
      {
        HeldCount(a, p);
        HeldCount(b, p);
      }
    }
    if forall p :: Taken(a, p) == Taken(b, p) {
      forall c
        ensures Survives(a, c) <==> Survives(b, c)
      {
        SameFate(a, b, c);
      }
      assert SameSurvivors(a, b);
      ReplicasAgreeExactly(a, b);
    }
  }

  lemma SameInserts(a: seq<Event>, b: seq<Event>, p: Position)
    requires forall c :: Insert(c) in a <==> Insert(c) in b
    ensures InsertedAt(a, p) == InsertedAt(b, p)
    ensures forall c :: InsertedBelow(a, c) == InsertedBelow(b, c)
  {
    forall e: Event | e.Insert?
      ensures e in a <==> e in b
    {
      assert e == Insert(e.ch);
    }
    assert Inserted(a) == Inserted(b);
  }

  lemma SameFate(a: seq<Event>, b: seq<Event>, c: CrdtChar)
    requires DistinctKeys(a) && DistinctKeys(b) && DeletesFollow(a) && DeletesFollow(b)
    requires forall c :: Insert(c) in a <==> Insert(c) in b
    requires Taken(a, c.position) == Taken(b, c.position)
    ensures Survives(a, c) <==> Survives(b, c)
  {
    SurvivesByRank(a, c);
    SurvivesByRank(b, c);
    SameInserts(a, b, c.position);
    if Insert(c) in a {
      RankWithin(a, c);
    }
  }

  lemma RankWithin(log: seq<Event>, c: CrdtChar)
    requires Insert(c) in log
    ensures |InsertedBelow(log, c)| < |InsertedAt(log, c.position)|
  {
    TotalOrder(c, c);
    assert c in Inserted(log);
    var below, at := InsertedBelow(log, c), InsertedAt(log, c.position);
    assert c in at && c !in below;
    forall x | x in below
      ensures x in at - {c}
    {
    }
    Within(below, at - {c});
  }

  lemma {:induction false} Within(a: set<CrdtChar>, b: set<CrdtChar>)
    requires a <= b
    ensures |a| <= |b|
    decreases |a|
  {
    if a != {} {
      var x :| x in a;
      Within(a - {x}, b - {x});
    }
  }

  /** A delete that overtakes its insert makes replicas differ. */
  lemma OvertakingDeleteDiverges(c: CrdtChar)
    ensures Run([Insert(c), Delete(c.position)]) != Run([Delete(c.position), Insert(c)])
  {
    var a, b := [Insert(c), Delete(c.position)], [Delete(c.position), Insert(c)];
    AloneSurvives(a, c);
    AloneSurvives(b, c);
    ReplicaHoldsSurvivors(a, c);
    ReplicaHoldsSurvivors(b, c);
    assert b[1] == Insert(c) && a[1] == Delete(c.position);
  }
}
