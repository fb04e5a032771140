/**
  Two sites that edited one document concurrently and then fold each other's log through
  the transform function (the queue transformation that src/common/ot/history.h:129-137 describes).
 */
module OperationLogs {
  import opened Wrappers
  import opened Operations

  function ApplyAll(log: seq<Edit>, d: string): Option<string> {
    if log == [] then Some(d)
    else
      var next := Apply(log[0], d);
      if next.None? then None else ApplyAll(log[1..], next.value)
  }

  /** An operation transformed past every operation of a queue, oldest first. */
  function TransformThrough(e: Edit, queue: seq<Edit>): Edit
    decreases |queue|
  {
    if queue == [] then e else TransformThrough(Transform(e, queue[0]), queue[1..])
  }

  /** The queue as it reads once `e` has been executed before it. */
  function QueuePast(queue: seq<Edit>, e: Edit): (r: seq<Edit>)
    ensures |r| == |queue|
    decreases |queue|
  {
    if queue == [] then []
    else [Transform(queue[0], e)] + QueuePast(queue[1..], Transform(e, queue[0]))
  }

  /** A site that executed `mine` folds `theirs` into operations it can execute next. */
  function FoldLog(mine: seq<Edit>, theirs: seq<Edit>): (r: seq<Edit>)
    ensures |r| == |theirs|
    decreases |theirs|
  {
    if theirs == [] then []
    else [TransformThrough(theirs[0], mine)] + FoldLog(QueuePast(mine, theirs[0]), theirs[1..])
  }

  // ------------------------------------------------------- convergence of documents

  /** Every pair that meets while `e` passes the queue is compatible. */
  predicate CompatibleWithQueue(e: Edit, queue: seq<Edit>)
    decreases |queue|
  {
    queue != [] ==>
      && Compatible(e, queue[0])
      && CompatibleWithQueue(Transform(e, queue[0]), queue[1..])
  }

  /** Every pair that meets while the two logs pass each other is compatible. */
  predicate CompatibleLogs(mine: seq<Edit>, theirs: seq<Edit>)
    decreases |theirs|
  {
    theirs != [] ==>
      && CompatibleWithQueue(theirs[0], mine)
      && CompatibleLogs(QueuePast(mine, theirs[0]), theirs[1..])
  }

  // One operation against one log: the two ways round the strip agree.
  lemma {:induction false} OperationPastQueue(d: string, e: Edit, queue: seq<Edit>)
    requires Applicable(e, d) && ApplyAll(queue, d).Some? && CompatibleWithQueue(e, queue)
    ensures Applicable(TransformThrough(e, queue), ApplyAll(queue, d).value)
    ensures ApplyAll(QueuePast(queue, e), Apply(e, d).value)
         == Apply(TransformThrough(e, queue), ApplyAll(queue, d).value)
    decreases |queue|
  {
    if queue != [] {
      TP1(d, e, queue[0]);
      OperationPastQueue(Apply(queue[0], d).value, Transform(e, queue[0]), queue[1..]);
    }
  }

  // Folding `mine` past `[e] + rest` is folding it past `e` and then past `rest`.
  lemma {:induction false} FoldPastCons(mine: seq<Edit>, theirs: seq<Edit>)
    requires theirs != []
    ensures FoldLog(theirs, mine) == FoldLog(theirs[1..], QueuePast(mine, theirs[0]))
    decreases |mine|
  {
    if mine != [] {
      var e, f := theirs[0], mine[0];
      FoldPastCons(mine[1..], QueuePast(theirs, f));
      assert QueuePast(theirs, f)[1..] == QueuePast(theirs[1..], Transform(f, e));
      assert QueuePast(mine, e)[1..] == QueuePast(mine[1..], Transform(e, f));
    }
  }

  /**
    Two sites start from `d`, execute `mine` and `theirs`, and fold the other's log. When every
    pair met on the way is compatible, every folded operation applies and the documents agree.
   */
  lemma {:induction false} LogsConverge(d: string, mine: seq<Edit>, theirs: seq<Edit>)
    requires ApplyAll(mine, d).Some? && ApplyAll(theirs, d).Some? && CompatibleLogs(mine, theirs)
    ensures ApplyAll(FoldLog(mine, theirs), ApplyAll(mine, d).value).Some?
    ensures ApplyAll(FoldLog(mine, theirs), ApplyAll(mine, d).value)
         == ApplyAll(FoldLog(theirs, mine), ApplyAll(theirs, d).value)
    decreases |theirs|
  {
    if theirs == [] {
      FoldPastNothing(mine);
    } else {
      OperationPastQueue(d, theirs[0], mine);
      LogsConverge(Apply(theirs[0], d).value, QueuePast(mine, theirs[0]), theirs[1..]);
      FoldPastCons(mine, theirs);
    }
  }

  lemma {:induction false} FoldPastNothing(mine: seq<Edit>)
    ensures FoldLog([], mine) == mine
  {
    if mine != [] {
      FoldPastNothing(mine[1..]);
    }
  }

  // ------------------------------------------------------- delete-only logs

  predicate DeletesOnly(log: seq<Edit>) {
    forall i | 0 <= i < |log| :: log[i].Delete?
  }

  lemma {:induction false} QueueOfDeletes(e: Edit, queue: seq<Edit>)
    requires e.Delete? && DeletesOnly(queue)
    ensures CompatibleWithQueue(e, queue)
    ensures DeletesOnly(QueuePast(queue, e)) && TransformThrough(e, queue).Delete?
    decreases |queue|
  {
    if queue != [] {
      TransformedSpan(e, queue[0]);
      TransformedSpan(queue[0], e);
      QueueOfDeletes(Transform(e, queue[0]), queue[1..]);
    }
  }

  lemma {:induction false} LogsOfDeletes(mine: seq<Edit>, theirs: seq<Edit>)
    requires DeletesOnly(mine) && DeletesOnly(theirs)
    ensures CompatibleLogs(mine, theirs) && DeletesOnly(FoldLog(mine, theirs))
    decreases |theirs|
  {
    if theirs != [] {
      QueueOfDeletes(theirs[0], mine);
      LogsOfDeletes(QueuePast(mine, theirs[0]), theirs[1..]);
    }
  }

  /** Delete-only logs of any lengths converge, and every transformed delete is applicable. */
  lemma DeleteLogsConverge(d: string, mine: seq<Edit>, theirs: seq<Edit>)
    requires DeletesOnly(mine) && DeletesOnly(theirs)
    requires ApplyAll(mine, d).Some? && ApplyAll(theirs, d).Some?
    ensures ApplyAll(FoldLog(mine, theirs), ApplyAll(mine, d).value).Some?
    ensures ApplyAll(mine + FoldLog(mine, theirs), d) == ApplyAll(theirs + FoldLog(theirs, mine), d)
  {
    LogsOfDeletes(mine, theirs);
    LogsConverge(d, mine, theirs);
    ApplyAllConcat(mine, FoldLog(mine, theirs), d);
    ApplyAllConcat(theirs, FoldLog(theirs, mine), d);
  }

  lemma {:induction false} ApplyAllConcat(a: seq<Edit>, b: seq<Edit>, d: string)
    requires ApplyAll(a, d).Some?
    ensures ApplyAll(a + b, d) == ApplyAll(b, ApplyAll(a, d).value)
    decreases |a|
  {
    if a == [] {
      assert a + b == b;
    } else {
      assert (a + b)[1..] == a[1..] + b;
      ApplyAllConcat(a[1..], b, Apply(a[0], d).value);
    }
  }

  // ------------------------------------------------------- TP2

  predicate SameSpan(a: Edit, b: Edit) {
    a.Delete? && b.Delete? && a.pos == b.pos && a.len == b.len
  }

  /** The same insertion, or deletions of the same range. */
  predicate SamePlace(a: Edit, b: Edit) {
    if a.Insert? then a == b else SameSpan(a, b)
  }

  /** An insertion moves past a deletion as its position survives it. */
  lemma InsertSurvives(c: Edit, a: Edit)
    requires c.Insert? && a.Delete?
    ensures Transform(c, a) == Insert(Survive(a, c.pos), c.text)
  {
  }

  /** TP2 past deletions: any third edit may pass two concurrent deletions in either order. */
  lemma TP2(a: Edit, b: Edit, c: Edit)
    requires a.Delete? && b.Delete?
    ensures SamePlace(Transform(Transform(c, a), Transform(b, a)),
                      Transform(Transform(c, b), Transform(a, b)))
  {
    if c.Insert? {
      InsertTP2(a, b, c);
    } else {
      DeleteTP2(a, b, c);
    }
  }

  lemma InsertTP2(a: Edit, b: Edit, c: Edit)
    requires a.Delete? && b.Delete? && c.Insert?
    ensures Transform(Transform(c, a), Transform(b, a)) == Transform(Transform(c, b), Transform(a, b))
  {
    SurviveDiamond(a, b, c.pos);
    InsertPastTwo(c, a, Transform(b, a));
    InsertPastTwo(c, b, Transform(a, b));
  }

  lemma InsertPastTwo(c: Edit, a: Edit, b: Edit)
    requires a.Delete? && b.Delete? && c.Insert?
    ensures Transform(Transform(c, a), b) == Insert(Survive(b, Survive(a, c.pos)), c.text)
  {
    InsertSurvives(c, a);
    InsertSurvives(Transform(c, a), b);
  }

  lemma DeleteTP2(a: Edit, b: Edit, c: Edit)
    requires a.Delete? && b.Delete? && c.Delete?
    ensures SameSpan(Transform(Transform(c, a), Transform(b, a)),
                     Transform(Transform(c, b), Transform(a, b)))
  {
    var ab, ba := Transform(a, b), Transform(b, a);
    TransformedSpan(b, a);
    TransformedSpan(a, b);
    PastTwo(c, a, ba);
    PastTwo(c, b, ab);
    SameEnds(a, b, c, ab, ba);
  }

  // ------------------------------------------------------- TP2 with insertions among the two

  /** Past two concurrent insertions any third edit comes out the same, tied or not. */
  lemma InsertionsTP2(a: Edit, b: Edit, c: Edit)
    requires a.Insert? && b.Insert?
    ensures Transform(Transform(c, a), Transform(b, a)) == Transform(Transform(c, b), Transform(a, b))
  {
  }

  /**
    Where an insertion `a` and a deletion `b` send a third edit to two places. The one makes room
    before the other takes its range away, so it matters for edits at or past the start of the range
    when the insertion lies in it, and for edits in the range when it lies at its end; a deletion also
    notices an insertion at the start of the range that it reaches across.
   */
  predicate OrderMatters(a: Edit, b: Edit, c: Edit)
    requires a.Insert? && b.Delete?
  {
    var p, q, end := a.pos, b.pos, b.pos + b.len;
    || (q < p < end && (q <= c.pos || (c.Delete? && c.len > 0 && end < c.pos + c.len)))
    || (q < p == end && q <= c.pos < p)
    || (p == q && c.Delete? && c.pos < q < c.pos + c.len <= end)
  }

  /** TP2 past an insertion and a deletion, exactly. */
  lemma MixedTP2(a: Edit, b: Edit, c: Edit)
    requires a.Insert? && b.Delete?
    ensures SamePlace(Transform(Transform(c, a), Transform(b, a)), Transform(Transform(c, b), Transform(a, b)))
       <==> a.text == "" || !OrderMatters(a, b, c)
  {
    if c.Insert? {
      InsertMixedTP2(a, b, c);
    } else {
      DeleteMixedTP2(a, b, c);
    }
  }

  lemma InsertMixedTP2(a: Edit, b: Edit, c: Edit)
    requires a.Insert? && b.Delete? && c.Insert?
    ensures Transform(Transform(c, a), Transform(b, a)) == Transform(Transform(c, b), Transform(a, b))
       <==> a.text == "" || !OrderMatters(a, b, c)
  {
  }

  // How an insertion of `k` characters at `p` moves the ends of a range.
  function StartPast(p: nat, k: nat, start: nat): nat {
    if p <= start then start + k else start
  }

  function EndPast(p: nat, k: nat, start: nat, end: nat): nat {
    if p <= start || p < end then end + k else end
  }

  predicate Spans(e: Edit, start: nat, end: nat) {
    e.Delete? && e.pos == start && e.pos + e.len == end
  }

  lemma PastInsertThenDelete(c: Edit, a: Edit, b: Edit)
    requires c.Delete? && a.Insert? && b.Delete?
    ensures Spans(Transform(Transform(c, a), b),
                  Survive(b, StartPast(a.pos, |a.text|, c.pos)),
                  Survive(b, EndPast(a.pos, |a.text|, c.pos, c.pos + c.len)))
  {
    TransformedSpan(Transform(c, a), b);
  }

  lemma PastDeleteThenInsert(c: Edit, b: Edit, a: Edit)
    requires c.Delete? && a.Insert? && b.Delete?
    ensures Spans(Transform(Transform(c, b), a),
                  StartPast(a.pos, |a.text|, Survive(b, c.pos)),
                  EndPast(a.pos, |a.text|, Survive(b, c.pos), Survive(b, c.pos + c.len)))
  {
    TransformedSpan(c, b);
  }

  lemma DeleteMixedTP2(a: Edit, b: Edit, c: Edit)
    requires a.Insert? && b.Delete? && c.Delete?
    ensures SameSpan(Transform(Transform(c, a), Transform(b, a)), Transform(Transform(c, b), Transform(a, b)))
       <==> a.text == "" || !OrderMatters(a, b, c)
  {
    var a', b' := Transform(a, b), Transform(b, a);
    PastInsertThenDelete(c, a, b');
    PastDeleteThenInsert(c, b, a');
    MixedEnds(a.pos, |a.text|, b, a'.pos, b', c.pos, c.pos + c.len);
    SpansAgree(Transform(Transform(c, a), b'), Transform(Transform(c, b), a'),
               Survive(b', StartPast(a.pos, |a.text|, c.pos)),
               Survive(b', EndPast(a.pos, |a.text|, c.pos, c.pos + c.len)),
               StartPast(a'.pos, |a.text|, Survive(b, c.pos)),
               EndPast(a'.pos, |a.text|, Survive(b, c.pos), Survive(b, c.pos + c.len)));
  }

  lemma SpansAgree(r: Edit, r': Edit, start: nat, end: nat, start': nat, end': nat)
    requires Spans(r, start, end) && Spans(r', start', end')
    ensures SameSpan(r, r') <==> start == start' && end == end'
  {
  }

  // The two ends of a range, sent past both in either order.
  lemma MixedEnds(p: nat, k: nat, b: Edit, p': nat, b': Edit, x: nat, y: nat)
    requires b.Delete? && b'.Delete? && x <= y
    requires b'.pos == StartPast(p, k, b.pos) && b'.pos + b'.len == EndPast(p, k, b.pos, b.pos + b.len)
    requires p' == Survive(b, p)
    ensures Survive(b', StartPast(p, k, x)) == StartPast(p', k, Survive(b, x))
            && Survive(b', EndPast(p, k, x, y)) == EndPast(p', k, Survive(b, x), Survive(b, y))
       <==> k == 0
            || !(|| (b.pos < p < b.pos + b.len && (b.pos <= x || (x < y && b.pos + b.len < y)))
                 || (b.pos < p == b.pos + b.len && b.pos <= x < p)
                 || (p == b.pos && x < b.pos < y <= b.pos + b.len))
  {
    if p <= b.pos {
      assert p' == p;
    } else if p < b.pos + b.len {
      assert p' == b.pos;
    } else {
      assert p' == p - b.len;
    }
  }

  /** The smallest case: an insertion in the middle of a deletion, and a third one at its end. */
  lemma MixedTP2Fails()
    ensures var a, b, c := Insert(1, "x"), Delete(0, 2, ""), Insert(2, "y");
            && Transform(Transform(c, a), Transform(b, a)) == Insert(0, "y")
            && Transform(Transform(c, b), Transform(a, b)) == Insert(1, "y")
  {
  }

  lemma SameEnds(a: Edit, b: Edit, c: Edit, ab: Edit, ba: Edit)
    requires a.Delete? && b.Delete? && c.Delete? && ab == Transform(a, b) && ba == Transform(b, a)
    ensures ab.Delete? && ba.Delete?
    ensures Survive(ba, Survive(a, c.pos)) == Survive(ab, Survive(b, c.pos))
    ensures Survive(ba, Survive(a, c.pos + c.len)) == Survive(ab, Survive(b, c.pos + c.len))
  {
    TransformedSpan(a, b);
    TransformedSpan(b, a);
    SameEnd(a, b, c.pos, ab, ba);
    SameEnd(a, b, c.pos + c.len, ab, ba);
  }

  lemma SameEnd(a: Edit, b: Edit, x: nat, ab: Edit, ba: Edit)
    requires a.Delete? && b.Delete? && ab.Delete? && ba.Delete? && ab == Transform(a, b) && ba == Transform(b, a)
    ensures Survive(ba, Survive(a, x)) == Survive(ab, Survive(b, x))
  {
    SurviveDiamond(a, b, x);
  }

  lemma PastTwo(c: Edit, a: Edit, b: Edit)
    requires a.Delete? && b.Delete? && c.Delete?
    ensures var r := Transform(Transform(c, a), b);
            && r.Delete? && r.pos == Survive(b, Survive(a, c.pos))
            && r.pos + r.len == Survive(b, Survive(a, c.pos + c.len))
  {
    TransformedSpan(c, a);
    TransformedSpan(Transform(c, a), b);
  }

  // Both orders of two deletions move every position to one place.
  lemma SurviveDiamond(a: Edit, b: Edit, x: nat)
    requires a.Delete? && b.Delete?
    ensures Transform(a, b).Delete? && Transform(b, a).Delete?
    ensures Survive(Transform(b, a), Survive(a, x)) == Survive(Transform(a, b), Survive(b, x))
  {
    TransformedSpan(b, a);
    TransformedSpan(a, b);
  }

  function SurviveAll(log: seq<Edit>, x: nat): nat
    requires DeletesOnly(log)
  {
    if log == [] then x else SurviveAll(log[1..], Survive(log[0], x))
  }

  lemma {:induction false} SurvivePastQueue(e: Edit, queue: seq<Edit>, x: nat)
    requires e.Delete? && DeletesOnly(queue)
    ensures DeletesOnly(QueuePast(queue, e)) && TransformThrough(e, queue).Delete?
    ensures SurviveAll(QueuePast(queue, e), Survive(e, x))
         == Survive(TransformThrough(e, queue), SurviveAll(queue, x))
    decreases |queue|
  {
    QueueOfDeletes(e, queue);
    if queue != [] {
      SurviveDiamond(e, queue[0], x);
      SurvivePastQueue(Transform(e, queue[0]), queue[1..], Survive(queue[0], x));
      assert QueuePast(queue, e)[1..] == QueuePast(queue[1..], Transform(e, queue[0]));
    }
  }

  lemma {:induction false} SurviveBothWays(mine: seq<Edit>, theirs: seq<Edit>, x: nat)
    requires DeletesOnly(mine) && DeletesOnly(theirs)
    ensures DeletesOnly(FoldLog(mine, theirs)) && DeletesOnly(FoldLog(theirs, mine))
    ensures SurviveAll(FoldLog(mine, theirs), SurviveAll(mine, x))
         == SurviveAll(FoldLog(theirs, mine), SurviveAll(theirs, x))
    decreases |theirs|
  {
    LogsOfDeletes(mine, theirs);
    LogsOfDeletes(theirs, mine);
    if theirs == [] {
      FoldPastNothing(mine);
    } else {
      QueueOfDeletes(theirs[0], mine);
      SurvivePastQueue(theirs[0], mine, x);
      SurviveBothWays(QueuePast(mine, theirs[0]), theirs[1..], Survive(theirs[0], x));
      FoldPastCons(mine, theirs);
    }
  }

  lemma {:induction false} ThroughDeletes(c: Edit, queue: seq<Edit>)
    requires c.Delete? && DeletesOnly(queue)
    ensures var r := TransformThrough(c, queue);
            && r.Delete? && r.pos == SurviveAll(queue, c.pos)
            && r.pos + r.len == SurviveAll(queue, c.pos + c.len)
    decreases |queue|
  {
    if queue != [] {
      TransformedSpan(c, queue[0]);
      ThroughDeletes(Transform(c, queue[0]), queue[1..]);
    }
  }

  lemma {:induction false} ThroughConcat(c: Edit, p: seq<Edit>, q: seq<Edit>)
    ensures TransformThrough(c, p + q) == TransformThrough(TransformThrough(c, p), q)
    decreases |p|
  {
    if p == [] {
      assert p + q == q;
    } else {
      assert (p + q)[1..] == p[1..] + q;
      ThroughConcat(Transform(c, p[0]), p[1..], q);
    }
  }

  lemma ThroughTwoLogs(c: Edit, p: seq<Edit>, q: seq<Edit>)
    requires c.Delete? && DeletesOnly(p) && DeletesOnly(q)
    ensures var r := TransformThrough(c, p + q);
            && r.Delete? && r.pos == SurviveAll(q, SurviveAll(p, c.pos))
            && r.pos + r.len == SurviveAll(q, SurviveAll(p, c.pos + c.len))
  {
    ThroughConcat(c, p, q);
    ThroughDeletes(c, p);
    ThroughDeletes(TransformThrough(c, p), q);
  }

  lemma {:induction false} InsertThroughDeletes(c: Edit, queue: seq<Edit>)
    requires c.Insert? && DeletesOnly(queue)
    ensures TransformThrough(c, queue) == Insert(SurviveAll(queue, c.pos), c.text)
    decreases |queue|
  {
    if queue != [] {
      InsertSurvives(c, queue[0]);
      InsertThroughDeletes(Transform(c, queue[0]), queue[1..]);
    }
  }

  lemma InsertThroughTwoLogs(c: Edit, p: seq<Edit>, q: seq<Edit>)
    requires c.Insert? && DeletesOnly(p) && DeletesOnly(q)
    ensures TransformThrough(c, p + q) == Insert(SurviveAll(q, SurviveAll(p, c.pos)), c.text)
  {
    ThroughConcat(c, p, q);
    InsertThroughDeletes(c, p);
    InsertThroughDeletes(TransformThrough(c, p), q);
  }

  /**
    TP2 lifted to logs: a third site's edit, insertion or deletion, comes out the same whichever of
    two concurrent delete-only logs, of any lengths, it is transformed past first.
   */
  lemma ThirdSiteAgrees(c: Edit, mine: seq<Edit>, theirs: seq<Edit>)
    requires DeletesOnly(mine) && DeletesOnly(theirs)
    ensures SamePlace(TransformThrough(c, mine + FoldLog(mine, theirs)),
                      TransformThrough(c, theirs + FoldLog(theirs, mine)))
  {
    LogsOfDeletes(mine, theirs);
    LogsOfDeletes(theirs, mine);
    SurviveBothWays(mine, theirs, c.pos);
    if c.Insert? {
      InsertThroughTwoLogs(c, mine, FoldLog(mine, theirs));
      InsertThroughTwoLogs(c, theirs, FoldLog(theirs, mine));
    } else {
      ThroughTwoLogs(c, mine, FoldLog(mine, theirs));
      ThroughTwoLogs(c, theirs, FoldLog(theirs, mine));
      SurviveBothWays(mine, theirs, c.pos + c.len);
    }
  }

  // ------------------------------------------------------- recorded text

  /** The recorded text of a deletion, when there is any, is the text it removes. */
  predicate Recorded(e: Edit, d: string) {
    e.Delete? ==> Applicable(e, d) && (e.deleted == "" || e.deleted == d[e.pos..e.pos + e.len])
  }

  /**
    Transforming keeps recorded text right, except exactly when an insertion strictly inside the
    deletion widens it: then the wider deletion keeps the old, shorter record.
   */
  lemma TransformKeepsRecord(d: string, e: Edit, other: Edit)
    requires e.Delete? && Recorded(e, d) && Applicable(other, d)
    ensures Recorded(Transform(e, other), Apply(other, d).value)
       <==> !(StrictlyInside(other, e) && other.text != "" && e.deleted != "")
  {
    TransformedApplies(d, other, e);
    if other.Insert? {
      RecordPastInsert(d, e, other);
    } else {
      RecordPastDelete(d, e, other);
    }
  }

  lemma RecordPastInsert(d: string, e: Edit, other: Edit)
    requires e.Delete? && Recorded(e, d) && Applicable(other, d) && other.Insert?
    requires Applicable(Transform(e, other), Apply(other, d).value)
    ensures Recorded(Transform(e, other), Apply(other, d).value)
       <==> !(StrictlyInside(other, e) && other.text != "" && e.deleted != "")
  {
    var d' := Apply(other, d).value;
    if other.pos <= e.pos || e.pos + e.len <= other.pos {
      SliceBeside(d, other.pos, 0, other.text, e.pos, e.pos + e.len);
    } else if other.text == "" {
      assert d' == d;
    }
  }

  // What a slice of the document becomes when [q, q + n) is cut out of its middle.
  lemma SliceAroundCut(d: string, q: nat, n: nat, lo: nat, hi: nat)
    requires lo <= q && q + n <= hi <= |d|
    ensures Splice(d, q, n, "")[lo..hi - n] == d[lo..q] + d[q + n..hi]
  {
    assert Splice(d, q, n, "") == d[..q] + d[q + n..];
    assert d[..q] == d[..lo] + d[lo..q];
    assert d[q + n..] == d[q + n..hi] + d[hi..];
  }

  lemma RecordPastDelete(d: string, e: Edit, other: Edit)
    requires e.Delete? && Recorded(e, d) && Applicable(other, d) && other.Delete?
    ensures Recorded(Transform(e, other), Apply(other, d).value)
  {
    TransformedApplies(d, other, e);
    var start, end, q, n := e.pos, e.pos + e.len, other.pos, other.len;
    if e.deleted == "" {
      NothingRecorded(e, other);
    } else if q + n <= start {
      RecordMovesLeft(d, e, other);
    } else if q <= start && end <= q + n {
      assert Transform(e, other) == Delete(q, 0, "");
    } else if end <= q {
      RecordStays(d, e, other);
    } else if q <= start {
      RecordLosesHead(d, e, other);
    } else if end <= q + n {
      RecordLosesTail(d, e, other);
    } else {
      RecordLosesMiddle(d, e, other);
    }
  }

  lemma NothingRecorded(e: Edit, other: Edit)
    requires e.Delete? && e.deleted == "" && other.Delete?
    ensures Transform(e, other).Delete? && Transform(e, other).deleted == ""
  {
  }

  predicate ExactlyRecorded(e: Edit, d: string) {
    e.Delete? && Applicable(e, d) && e.deleted == d[e.pos..e.pos + e.len]
  }

  lemma RecordMovesLeft(d: string, e: Edit, other: Edit)
    requires ExactlyRecorded(e, d) && other.Delete? && Applicable(other, d) && other.pos + other.len <= e.pos
    ensures ExactlyRecorded(Transform(e, other), Splice(d, other.pos, other.len, ""))
  {
    assert Transform(e, other) == Delete(e.pos - other.len, e.len, e.deleted);
    SliceBeside(d, other.pos, other.len, "", e.pos, e.pos + e.len);
  }

  lemma RecordStays(d: string, e: Edit, other: Edit)
    requires ExactlyRecorded(e, d) && other.Delete? && Applicable(other, d)
    requires e.pos + e.len <= other.pos && e.pos < other.pos
    ensures ExactlyRecorded(Transform(e, other), Splice(d, other.pos, other.len, ""))
  {
    assert Transform(e, other) == e;
    SliceBeside(d, other.pos, other.len, "", e.pos, e.pos + e.len);
  }

  lemma RecordLosesHead(d: string, e: Edit, other: Edit)
    requires ExactlyRecorded(e, d) && other.Delete? && Applicable(other, d)
    requires other.pos <= e.pos < other.pos + other.len < e.pos + e.len
    ensures ExactlyRecorded(Transform(e, other), Splice(d, other.pos, other.len, ""))
  {
    var cut, end := other.pos + other.len, e.pos + e.len;
    SliceBeside(d, other.pos, other.len, "", cut, end);
    SliceOfSlice(d, e.pos, e.len, cut, cut);
    HeadCut(e, other);
  }

  lemma HeadCut(e: Edit, other: Edit)
    requires e.Delete? && other.Delete? && |e.deleted| == e.len
    requires other.pos <= e.pos < other.pos + other.len < e.pos + e.len
    ensures var cut := other.pos + other.len;
            Transform(e, other) == Delete(other.pos, e.pos + e.len - cut, e.deleted[cut - e.pos..])
  {
  }

  lemma RecordLosesTail(d: string, e: Edit, other: Edit)
    requires ExactlyRecorded(e, d) && other.Delete? && Applicable(other, d)
    requires e.pos < other.pos < e.pos + e.len <= other.pos + other.len
    ensures ExactlyRecorded(Transform(e, other), Splice(d, other.pos, other.len, ""))
  {
    var q := other.pos;
    SliceBeside(d, q, other.len, "", e.pos, q);
    SliceOfSlice(d, e.pos, e.len, q, q);
    assert Transform(e, other) == Delete(e.pos, q - e.pos, e.deleted[..q - e.pos]);
  }

  lemma RecordLosesMiddle(d: string, e: Edit, other: Edit)
    requires ExactlyRecorded(e, d) && other.Delete? && Applicable(other, d)
    requires e.pos < other.pos && other.pos + other.len < e.pos + e.len
    ensures ExactlyRecorded(Transform(e, other), Splice(d, other.pos, other.len, ""))
  {
    var q, n := other.pos, other.len;
    MiddleCut(e, other);
    SliceAroundCut(d, q, n, e.pos, e.pos + e.len);
    SliceOfSlice(d, e.pos, e.len, q, q + n);
  }

  lemma MiddleCut(e: Edit, other: Edit)
    requires e.Delete? && other.Delete? && |e.deleted| == e.len
    requires e.pos < other.pos && other.pos + other.len < e.pos + e.len
    ensures Transform(e, other)
         == Delete(e.pos, e.len - other.len, e.deleted[..other.pos - e.pos] + e.deleted[other.pos + other.len - e.pos..])
  {
  }

  lemma SliceOfSlice(d: string, p: nat, m: nat, lo: nat, hi: nat)
    requires p <= lo <= hi <= p + m <= |d|
    ensures d[p..p + m][..lo - p] == d[p..lo] && d[p..p + m][hi - p..] == d[hi..p + m]
  {
  }

  /** The insertion-tie case the transform leaves open: both sites keep their own insert left. */
  lemma TiedInsertsDiverge()
    ensures !Converge("", Insert(0, "a"), Insert(0, "b"))
  {
    TP1("", Insert(0, "a"), Insert(0, "b"));
    assert "a" + "b" != "b" + "a" by { assert ("a" + "b")[0] != ("b" + "a")[0]; }
  }
}
