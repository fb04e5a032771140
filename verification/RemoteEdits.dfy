/**
  Remote edits and the history (src/common/ot/undo_redo_manager.cpp:119-147): where they may lie for
  every entry to keep its meaning, although the code transforms all entries against the one
  operation without re-basing it.
 */
module RemoteEdits {
  import opened Wrappers
  import opened Operations
  import opened History

  /** Everything the edit touches lies at or left of position `bound`. */
  predicate EndsBy(e: Edit, bound: nat) {
    match e
    case Insert(p, _) => p <= bound
    case Delete(p, n, _) => p + n <= bound
  }

  predicate LeftOf(e: Edit, log: seq<Operation>) {
    forall i | 0 <= i < |log| :: EndsBy(e, log[i].edit.pos)
  }

  // ------------------------------------------------------- the rewritten stacks

  // A transformed entry depends only on the range of the other edit, not on its recorded text.
  lemma TransformIgnoresRecord(stack: seq<Operation>, r: Operation, r': Operation)
    requires r.edit.Insert? ==> r'.edit == r.edit
    requires r.edit.Delete? ==> r'.edit.Delete? && r'.edit.pos == r.edit.pos && r'.edit.len == r.edit.len
    ensures TransformStack(stack, r) == TransformStack(stack, r')
  {
  }

  lemma RemoteOf(s: State, op: Operation)
    requires Applicable(op.edit, s.document)
    ensures AfterRemote(s, op)
         == State(Apply(op.edit, s.document).value, TransformStack(s.undo, op), TransformStack(s.redo, op))
  {
    var r := op.(edit := Filled(op.edit, s.document), source := Remote);
    TransformIgnoresRecord(s.undo, op, r);
    TransformIgnoresRecord(s.redo, op, r);
  }

  lemma StackEnds(stack: seq<Operation>, r: Operation)
    requires stack != []
    ensures Front(TransformStack(stack, r)) == TransformStack(Front(stack), r)
    ensures Last(TransformStack(stack, r)) == TransformOperation(Last(stack), r)
  {
  }

  lemma StackSnoc(stack: seq<Operation>, op: Operation, r: Operation)
    ensures TransformStack(stack + [op], r) == TransformStack(stack, r) + [TransformOperation(op, r)]
  {
  }

  // ------------------------------------------------------- one entry

  // An edit right of a remote one still applies after it, shifted, with the same effect.
  lemma ShiftedEdit(e: Edit, r: Edit, d: string)
    requires Exact(e, d) && EndsBy(r, e.pos)
    ensures Applicable(r, d) && Applicable(r, Apply(e, d).value)
    ensures Exact(Transform(e, r), Apply(r, d).value)
    ensures Apply(Transform(e, r), Apply(r, d).value) == Apply(r, Apply(e, d).value)
  {
    var (q, n, u) := if r.Insert? then (r.pos, 0, r.text) else (r.pos, r.len, "");
    var (m, t) := if e.Insert? then (0, e.text) else (e.len, "");
    SplicesCommute(d, q, n, u, e.pos, m, t);
    SliceBeside(d, q, n, u, e.pos, e.pos + m);
  }

  /** Where what the edit touches ends in the document before it, and in the document after it. */
  function EndBefore(e: Edit): nat {
    if e.Insert? then e.pos else e.pos + e.len
  }

  function EndAfter(e: Edit): nat {
    if e.Insert? then e.pos + |e.text| else e.pos
  }

  /** An edit right of `e`, said for the document before `e`, or for the document after it. */
  function CarryBack(b: Edit, e: Edit): Edit
    requires EndAfter(e) <= b.pos
  {
    b.(pos := b.pos - EndAfter(e) + EndBefore(e))
  }

  function CarryAhead(b: Edit, e: Edit): Edit
    requires EndBefore(e) <= b.pos
  {
    b.(pos := b.pos - EndBefore(e) + EndAfter(e))
  }

  /** The guards under which the transform leaves `e` as it is. */
  predicate Spares(r: Edit, e: Edit) {
    EndBefore(e) <= r.pos && (r.Insert? || r.len == 0 ==> e.pos < r.pos)
  }

  lemma SparedIsUntouched(e: Edit, r: Edit)
    requires Spares(r, e) && (e.Delete? ==> |e.deleted| == e.len)
    ensures Transform(e, r) == e
  {
  }

  // An edit left of a remote one still applies after it, as it is, with the same effect.
  lemma EditLeftOfRemote(e: Edit, b: Edit, d: string)
    requires Exact(e, d) && EndBefore(e) <= b.pos
    requires Applicable(b, d) || Applicable(CarryAhead(b, e), Apply(e, d).value)
    ensures Applicable(b, d) && Applicable(CarryAhead(b, e), Apply(e, d).value)
    ensures Exact(e, Apply(b, d).value)
    ensures Apply(e, Apply(b, d).value) == Apply(CarryAhead(b, e), Apply(e, d).value)
  {
    var (q, n, u) := if b.Insert? then (b.pos, 0, b.text) else (b.pos, b.len, "");
    var (m, t) := if e.Insert? then (0, e.text) else (e.len, "");
    SplicesCommute(d, e.pos, m, t, q, n, u);
    SliceBeside(d, q, n, u, e.pos, e.pos + m);
  }

  // ------------------------------------------------------- whole stacks

  /** The edits differ at most in their position. */
  predicate SameBut(r: Edit, b: Edit) {
    match (r, b)
    case (Insert(_, t), Insert(_, u)) => t == u
    case (Delete(_, m, _), Delete(_, n, _)) => m == n
    case _ => false
  }

  /** The entry lies wholly right of the remote edit; `b` is that edit said for the entry's place. */
  predicate RightOfBoth(r: Edit, b: Edit, e: Edit) {
    EndsBy(r, e.pos) && EndsBy(b, e.pos)
  }

  /** The remote edit said for the document before the entry, or after it. */
  function Back(r: Edit, b: Edit, e: Edit): Edit
    requires RightOfBoth(r, b, e) || EndAfter(e) <= b.pos
  {
    if RightOfBoth(r, b, e) then b else CarryBack(b, e)
  }

  function Ahead(r: Edit, b: Edit, e: Edit): Edit
    requires RightOfBoth(r, b, e) || EndBefore(e) <= b.pos
  {
    if RightOfBoth(r, b, e) then b else CarryAhead(b, e)
  }

  /**
    Each entry, newest first, lies wholly right or wholly left of the remote edit: `r` as it arrived,
    which is what the code compares with, and `b`, the same edit carried back to the entry.
   */
  predicate Clear(r: Edit, b: Edit, log: seq<Operation>)
    decreases |log|
  {
    log != [] ==>
      var e := Last(log).edit;
      && (RightOfBoth(r, b, e) || (Spares(r, e) && EndAfter(e) <= b.pos))
      && Clear(r, Back(r, b, e), Front(log))
  }

  /** The remote edit said for the document that the log starts from. */
  function Carried(r: Edit, b: Edit, log: seq<Operation>): Edit
    requires Clear(r, b, log)
    decreases |log|
  {
    if log == [] then b else Carried(r, Back(r, b, Last(log).edit), Front(log))
  }

  /** The same for entries yet to be redone, oldest first, with the edit carried ahead. */
  predicate ClearAhead(r: Edit, b: Edit, log: seq<Operation>)
    decreases |log|
  {
    log != [] ==>
      var e := log[0].edit;
      && (RightOfBoth(r, b, e) || (Spares(r, e) && EndBefore(e) <= b.pos))
      && ClearAhead(r, Ahead(r, b, e), log[1..])
  }

  lemma SameShift(e: Edit, r: Edit, b: Edit)
    requires SameBut(r, b) && EndsBy(r, e.pos) && EndsBy(b, e.pos)
    requires e.Delete? ==> |e.deleted| == e.len
    ensures Transform(e, r) == Transform(e, b)
  {
  }

  // One entry and the remote edit, right or left of it: before and after the entry they commute.
  lemma Square(d: string, e: Edit, r: Edit, b: Edit)
    requires Exact(e, d) && SameBut(r, b)
    requires RightOfBoth(r, b, e) || (Spares(r, e) && EndBefore(e) <= b.pos)
    requires Applicable(b, d) || Applicable(Ahead(r, b, e), Apply(e, d).value)
    ensures SameBut(r, Ahead(r, b, e)) && Applicable(b, d) && Applicable(Ahead(r, b, e), Apply(e, d).value)
    ensures Exact(Transform(e, r), Apply(b, d).value)
    ensures Apply(Transform(e, r), Apply(b, d).value) == Apply(Ahead(r, b, e), Apply(e, d).value)
  {
    if RightOfBoth(r, b, e) {
      SameShift(e, r, b);
      ShiftedEdit(e, b, d);
    } else {
      SparedIsUntouched(e, r);
      EditLeftOfRemote(e, b, d);
    }
  }

  lemma BackAndAhead(r: Edit, b: Edit, e: Edit)
    requires SameBut(r, b) && (RightOfBoth(r, b, e) || (Spares(r, e) && EndAfter(e) <= b.pos))
    ensures SameBut(r, Back(r, b, e))
    ensures RightOfBoth(r, Back(r, b, e), e) || (Spares(r, e) && EndBefore(e) <= Back(r, b, e).pos)
    ensures Ahead(r, Back(r, b, e), e) == b
  {
  }

  // The last entry of a log and the remote edit that follows it.
  lemma LastSquare(d: string, log: seq<Operation>, r: Edit, b: Edit)
    requires log != [] && Replay(d, log).Some? && SameBut(r, b) && Clear(r, b, log)
    requires Applicable(b, Replay(d, log).value)
    ensures Replay(d, Front(log)).Some?
    ensures var e, m := Last(log).edit, Replay(d, Front(log)).value;
            var b0 := Back(r, b, e);
            && SameBut(r, b0) && Applicable(b0, m) && Exact(Transform(e, r), Apply(b0, m).value)
            && Apply(Transform(e, r), Apply(b0, m).value) == Apply(b, Replay(d, log).value)
  {
    ReplayLast(d, log);
    var e := Last(log).edit;
    BackAndAhead(r, b, e);
    Square(Replay(d, Front(log)).value, e, r, Back(r, b, e));
  }

  /**
    A log rewritten entry by entry against the one remote edit replays, from the document the
    carried edit gives, to the remote edit applied to its old result.
   */
  lemma {:induction false} ClearReplays(d: string, log: seq<Operation>, r: Operation, b: Edit)
    requires Replay(d, log).Some? && SameBut(r.edit, b) && Clear(r.edit, b, log)
    requires Applicable(b, Replay(d, log).value)
    ensures Applicable(Carried(r.edit, b, log), d)
    ensures Replay(Apply(Carried(r.edit, b, log), d).value, TransformStack(log, r)) == Apply(b, Replay(d, log).value)
    decreases |log|
  {
    if log != [] {
      LastSquare(d, log, r.edit, b);
      ClearReplays(d, Front(log), r, Back(r.edit, b, Last(log).edit));
      StackEnds(log, r);
      var stack := TransformStack(log, r);
      ReplaySnoc(Apply(Carried(r.edit, b, log), d).value, Front(stack), Last(stack));
      assert stack == Front(stack) + [Last(stack)];
    }
  }

  lemma {:induction false} ClearAheadReplays(d: string, log: seq<Operation>, r: Operation, b: Edit)
    requires Replay(d, log).Some? && SameBut(r.edit, b) && ClearAhead(r.edit, b, log) && Applicable(b, d)
    ensures Replay(Apply(b, d).value, TransformStack(log, r)).Some?
    decreases |log|
  {
    if log != [] {
      var e := log[0].edit;
      Square(d, e, r.edit, b);
      ClearAheadReplays(Apply(e, d).value, log[1..], r, Ahead(r.edit, b, e));
      assert TransformStack(log, r)[1..] == TransformStack(log[1..], r);
    }
  }

  /** A remote edit clear of the whole history keeps it explained; its carried form moves the base. */
  lemma ClearRemoteIsAllowed(base: string, s: State, op: Operation, max: nat)
    requires Consistent(base, s, max) && Applicable(op.edit, s.document)
    requires Clear(op.edit, op.edit, s.undo) && ClearAhead(op.edit, op.edit, Reverse(s.redo))
    ensures Allowed(s, RemoteApply(op))
    ensures Apply(Carried(op.edit, op.edit, s.undo), base) == Some(BaseAfter(base, s, RemoteApply(op), max))
  {
    RemoteOf(s, op);
    ClearReplays(base, s.undo, op, op.edit);
    ClearAheadReplays(s.document, Reverse(s.redo), op, op.edit);
    TransformReversed(s.redo, op);
    var s' := AfterRemote(s, op);
    UnwindInvertsReplay(s'.document, s'.undo, Apply(Carried(op.edit, op.edit, s.undo), base).value);
  }

  lemma {:induction false} TransformReversed(stack: seq<Operation>, r: Operation)
    ensures Reverse(TransformStack(stack, r)) == TransformStack(Reverse(stack), r)
    decreases |stack|
  {
    if stack != [] {
      TransformReversed(Front(stack), r);
      assert Front(TransformStack(stack, r)) == TransformStack(Front(stack), r);
    }
  }

  // ------------------------------------------------------- left of everything, right of everything

  lemma {:induction false} LeftIsClear(r: Edit, log: seq<Operation>)
    requires LeftOf(r, log)
    ensures Clear(r, r, log) && Carried(r, r, log) == r && ClearAhead(r, r, log)
    decreases |log|
  {
    if log != [] {
      LeftIsClear(r, Front(log));
      LeftIsClearAhead(r, log);
    }
  }

  lemma {:induction false} LeftIsClearAhead(r: Edit, log: seq<Operation>)
    requires LeftOf(r, log)
    ensures ClearAhead(r, r, log)
    decreases |log|
  {
    if log != [] {
      LeftIsClearAhead(r, log[1..]);
    }
  }

  lemma {:induction false} LeftOfReversed(e: Edit, stack: seq<Operation>)
    ensures LeftOf(e, stack) ==> LeftOf(e, Reverse(stack))
    decreases |stack|
  {
    if stack != [] {
      LeftOfReversed(e, Front(stack));
    }
  }

  /** A remote edit at or left of everything recorded is allowed, and is itself what moves the base. */
  lemma LeftRemoteIsAllowed(base: string, s: State, op: Operation, max: nat)
    requires Consistent(base, s, max) && Applicable(op.edit, s.document)
    requires LeftOf(op.edit, s.undo) && LeftOf(op.edit, s.redo)
    ensures Allowed(s, RemoteApply(op))
    ensures Apply(op.edit, base) == Some(BaseAfter(base, s, RemoteApply(op), max))
  {
    LeftIsClear(op.edit, s.undo);
    LeftOfReversed(op.edit, s.redo);
    LeftIsClearAhead(op.edit, Reverse(s.redo));
    ClearRemoteIsAllowed(base, s, op, max);
  }

  /** The remote edit, carried back from entry to entry, stays at or right of everything recorded. */
  predicate RightOf(r: Edit, b: Edit, log: seq<Operation>)
    decreases |log|
  {
    log != [] ==>
      var e := Last(log).edit;
      Spares(r, e) && EndAfter(e) <= b.pos && RightOf(r, CarryBack(b, e), Front(log))
  }

  predicate RightOfAhead(r: Edit, b: Edit, log: seq<Operation>)
    decreases |log|
  {
    log != [] ==>
      var e := log[0].edit;
      Spares(r, e) && EndBefore(e) <= b.pos && RightOfAhead(r, CarryAhead(b, e), log[1..])
  }

  /** The position counted back through all of the log. */
  function FarBack(r: Edit, b: Edit, log: seq<Operation>): Edit
    requires RightOf(r, b, log)
    decreases |log|
  {
    if log == [] then b else FarBack(r, CarryBack(b, Last(log).edit), Front(log))
  }

  lemma {:induction false} RightIsClear(r: Edit, b: Edit, log: seq<Operation>)
    requires RightOf(r, b, log) && SameBut(r, b)
    ensures Clear(r, b, log) && Carried(r, b, log) == FarBack(r, b, log)
    ensures forall i | 0 <= i < |log| :: Spares(r, log[i].edit)
    decreases |log|
  {
    if log != [] {
      RightIsClear(r, CarryBack(b, Last(log).edit), Front(log));
      assert forall i | 0 <= i < |log| - 1 :: log[i] == Front(log)[i];
    }
  }

  lemma {:induction false} RightIsClearAhead(r: Edit, b: Edit, log: seq<Operation>)
    requires RightOfAhead(r, b, log) && SameBut(r, b)
    ensures ClearAhead(r, b, log)
    ensures forall i | 0 <= i < |log| :: Spares(r, log[i].edit)
    decreases |log|
  {
    if log != [] {
      RightIsClearAhead(r, CarryAhead(b, log[0].edit), log[1..]);
      assert forall i | 1 <= i < |log| :: log[i] == log[1..][i - 1];
    }
  }

  lemma {:induction false} RecordsAreWhole(d: string, log: seq<Operation>)
    requires Replay(d, log).Some?
    ensures forall i | 0 <= i < |log| && log[i].edit.Delete? :: |log[i].edit.deleted| == log[i].edit.len
    decreases |log|
  {
    if log != [] {
      RecordsAreWhole(Apply(log[0].edit, d).value, log[1..]);
      assert forall i | 1 <= i < |log| :: log[i] == log[1..][i - 1];
    }
  }

  lemma SparedStackStays(d: string, log: seq<Operation>, r: Operation)
    requires Replay(d, log).Some? && forall i | 0 <= i < |log| :: Spares(r.edit, log[i].edit)
    ensures forall i | 0 <= i < |log| :: TransformStack(log, r)[i].edit == log[i].edit
  {
    RecordsAreWhole(d, log);
    forall i | 0 <= i < |log|
      ensures TransformStack(log, r)[i].edit == log[i].edit
    {
      SparedIsUntouched(log[i].edit, r.edit);
    }
  }

  /**
    A remote edit at or right of everything recorded, its position counted back entry by entry, is
    allowed too: it leaves every undo entry as it was and moves the base by its counted-back form.
   */
  lemma RightRemoteIsAllowed(base: string, s: State, op: Operation, max: nat)
    requires Consistent(base, s, max) && Applicable(op.edit, s.document)
    requires RightOf(op.edit, op.edit, s.undo) && RightOfAhead(op.edit, op.edit, Reverse(s.redo))
    ensures Allowed(s, RemoteApply(op))
    ensures Apply(FarBack(op.edit, op.edit, s.undo), base) == Some(BaseAfter(base, s, RemoteApply(op), max))
    ensures forall i | 0 <= i < |s.undo| :: AfterRemote(s, op).undo[i].edit == s.undo[i].edit
  {
    RightIsClear(op.edit, op.edit, s.undo);
    RightIsClearAhead(op.edit, op.edit, Reverse(s.redo));
    ClearRemoteIsAllowed(base, s, op, max);
    SparedStackStays(base, s.undo, op);
    RemoteOf(s, op);
  }

  /**
    With a single recorded deletion and nothing to redo the condition is in closed form: only a
    non-empty insertion strictly inside the deleted range leaves nothing to explain the document.
   */
  lemma DeletionBrokenExactly(base: string, s: State, op: Operation, max: nat)
    requires Consistent(base, s, max) && Applicable(op.edit, s.document)
    requires |s.undo| == 1 && s.undo[0].edit.Delete? && s.redo == []
    ensures Allowed(s, RemoteApply(op)) <==> !(StrictlyInside(op.edit, s.undo[0].edit) && op.edit.text != "")
  {
    var e, r := s.undo[0].edit, op.edit;
    RecordsAreWhole(base, s.undo);
    assert Apply(e, base) == Some(s.document);
    OneEntry(s, op);
    if r.Delete? {
      TransformedSpan(e, r);
      DeletionRecordsWhole(e, r);
    }
  }

  /** The recorded text of an insertion at `p` still stands where the transform looks for it. */
  predicate TextStands(p: nat, t: string, d: string, r: Edit)
    requires Applicable(r, d) && p + |t| <= |d|
  {
    match r
    case Insert(q, u) => p < q < p + |t| ==> t[q - p..] <= u + t[q - p..]
    case Delete(q, n, _) =>
      if p <= q < p + |t| then t[q - p..] <= d[q + n..]
      else if q < p < q + n then t <= d[q + n..]
      else true
  }

  /**
    With a single recorded insertion the condition is on texts: a remote insertion strictly inside,
    k characters in, must leave the rest of the text standing after those k characters, and a remote
    deletion that reaches into it must be followed by what it took away.
   */
  lemma InsertionBrokenExactly(base: string, s: State, op: Operation, max: nat)
    requires Consistent(base, s, max) && Applicable(op.edit, s.document)
    requires |s.undo| == 1 && s.undo[0].edit.Insert? && s.redo == []
    ensures s.undo[0].edit.pos + |s.undo[0].edit.text| <= |s.document|
    ensures Allowed(s, RemoteApply(op)) <==> TextStands(s.undo[0].edit.pos, s.undo[0].edit.text, s.document, op.edit)
  {
    var e := s.undo[0].edit;
    ReplayLast(base, s.undo);
    assert Front(s.undo) == [] && Last(s.undo).edit == e && Replay(base, []) == Some(base);
    BeforeInsert(e.pos, e.text, base, s.document);
    OneEntry(s, op);
    StandsExactly(e.pos, e.text, s.document, op.edit);
  }

  // With one undo entry and nothing to redo, being explained is taking that entry back.
  lemma OneEntry(s: State, op: Operation)
    requires Applicable(op.edit, s.document) && |s.undo| == 1 && s.redo == []
    ensures Allowed(s, RemoteApply(op))
       <==> Before(Transform(s.undo[0].edit, op.edit), Apply(op.edit, s.document).value).Some?
  {
    RemoteOf(s, op);
    var s' := AfterRemote(s, op);
    var e' := Transform(s.undo[0].edit, op.edit);
    assert s'.undo == [TransformOperation(s.undo[0], op)] && Front(s'.undo) == [] && Last(s'.undo).edit == e';
    assert s'.redo == [] && Reverse(s'.redo) == [] && Replay(s'.document, []) == Some(s'.document);
    var before := Before(e', s'.document);
    assert before.Some? ==> Unwind(before.value, Front(s'.undo)) == before;
    assert Unwind(s'.document, s'.undo) == before;
  }

  lemma StandsExactly(p: nat, t: string, d: string, r: Edit)
    requires Applicable(r, d) && p + |t| <= |d| && d[p..p + |t|] == t
    ensures Before(Transform(Insert(p, t), r), Apply(r, d).value).Some? <==> TextStands(p, t, d, r)
  {
    if r.Insert? {
      var d' := Splice(d, r.pos, 0, r.text);
      assert Apply(r, d) == Some(d');
      InsertLeavesText(p, t, d, r, d');
    } else {
      var d' := Splice(d, r.pos, r.len, "");
      assert Apply(r, d) == Some(d');
      DeleteLeavesText(p, t, d, r, d');
    }
  }

  lemma InsertLeavesText(p: nat, t: string, d: string, r: Edit, d': string)
    requires r.Insert? && Applicable(r, d) && p + |t| <= |d| && d[p..p + |t|] == t
    requires d' == Splice(d, r.pos, 0, r.text)
    ensures Before(Transform(Insert(p, t), r), d').Some? <==> TextStands(p, t, d, r)
  {
    if r.pos <= p || p + |t| <= r.pos {
      assert TextStands(p, t, d, r);
      InsertBeside(p, t, d, r.pos, r.text, d', Transform(Insert(p, t), r));
    } else {
      assert Transform(Insert(p, t), r) == Insert(p, t);
      StandsPastInsert(p, t, d, r.pos, r.text);
    }
  }

  lemma InsertBeside(p: nat, t: string, d: string, q: nat, u: string, d': string, e': Edit)
    requires p + |t| <= |d| && d[p..p + |t|] == t && q <= |d| && d' == Splice(d, q, 0, u)
    requires (q <= p && e' == Insert(p + |u|, t)) || (p + |t| <= q && e' == Insert(p, t))
    ensures Before(e', d').Some?
  {
    SliceBeside(d, q, 0, u, p, p + |t|);
  }

  lemma DeleteLeavesText(p: nat, t: string, d: string, r: Edit, d': string)
    requires r.Delete? && Applicable(r, d) && p + |t| <= |d| && d[p..p + |t|] == t
    requires d' == Splice(d, r.pos, r.len, "")
    ensures Before(Transform(Insert(p, t), r), d').Some? <==> TextStands(p, t, d, r)
  {
    var q, n := r.pos, r.len;
    if p <= q < p + |t| {
      assert Transform(Insert(p, t), r) == Insert(p, t);
      StandsPastDelete(p, t, d, q, n);
    } else if q < p < q + n {
      assert Transform(Insert(p, t), r) == Insert(q, t);
      CutInFront(d, q, n, t);
    } else {
      assert TextStands(p, t, d, r);
      DeleteBeside(p, t, d, q, n, d', Transform(Insert(p, t), r));
    }
  }

  lemma DeleteBeside(p: nat, t: string, d: string, q: nat, n: nat, d': string, e': Edit)
    requires p + |t| <= |d| && d[p..p + |t|] == t && q + n <= |d| && d' == Splice(d, q, n, "")
    requires (q + n <= p && e' == Insert(p - n, t)) || (p + |t| <= q && e' == Insert(p, t))
    ensures Before(e', d').Some?
  {
    SliceBeside(d, q, n, "", p, p + |t|);
  }

  lemma StandsPastInsert(p: nat, t: string, d: string, q: nat, u: string)
    requires p + |t| <= |d| && d[p..p + |t|] == t && p < q < p + |t|
    ensures Splice(d, q, 0, u)[p..p + |t|] == t <==> t[q - p..] <= u + t[q - p..]
  {
    var k, a, c := q - p, d[..p], d[p + |t|..];
    assert d == a + t + c && t == t[..k] + t[k..];
    assert d[..q] == a + t[..k] && d[q..] == t[k..] + c;
    var b := u + t[k..];
    assert Splice(d, q, 0, u) == a + t[..k] + b + c;
    PrefixStands(a, t, k, b, c, Splice(d, q, 0, u));
  }

  lemma StandsPastDelete(p: nat, t: string, d: string, q: nat, n: nat)
    requires p + |t| <= |d| && d[p..p + |t|] == t && p <= q < p + |t| && q + n <= |d|
    ensures var d' := Splice(d, q, n, "");
            p + |t| <= |d'| && d'[p..p + |t|] == t <==> t[q - p..] <= d[q + n..]
  {
    var k, a, b := q - p, d[..p], d[q + n..];
    assert d[..q] == a + t[..k];
    assert Splice(d, q, n, "") == a + t[..k] + b + "";
    PrefixStands(a, t, k, b, "", Splice(d, q, n, ""));
  }

  lemma CutInFront(d: string, q: nat, n: nat, t: string)
    requires q + n <= |d|
    ensures var d' := Splice(d, q, n, "");
            q + |t| <= |d'| && d'[q..q + |t|] == t <==> t <= d[q + n..]
  {
    assert Splice(d, q, n, "") == d[..q] + t[..0] + d[q + n..] + "" && t[0..] == t;
    PrefixStands(d[..q], t, 0, d[q + n..], "", Splice(d, q, n, ""));
  }

  // After the first `k` characters of the text, the rest of it stands exactly if it is what follows.
  lemma PrefixStands(a: string, t: string, k: nat, b: string, c: string, d: string)
    requires k <= |t| && (c == "" || |t| - k <= |b|) && d == a + t[..k] + b + c
    ensures (|a| + |t| <= |d| && d[|a|..|a| + |t|] == t) <==> t[k..] <= b
  {
    assert d[|a| + k..] == b + c;
    if t[k..] <= b {
      assert d[|a|..|a| + |t|] == t[..k] + t[k..];
    }
    if |a| + |t| <= |d| && d[|a|..|a| + |t|] == t {
      assert t[k..] == d[|a| + k..|a| + |t|] == (b + c)[..|t| - k];
    }
  }

  lemma DeletionRecordsWhole(e: Edit, r: Edit)
    requires e.Delete? && r.Delete? && |e.deleted| == e.len
    ensures Transform(e, r).Delete? && |Transform(e, r).deleted| == Transform(e, r).len
  {
  }

  /** An insertion right of a recorded one is allowed although it is not left of the history. */
  lemma AppendIsAllowed(op: Operation)
    requires op.edit == Insert(3, "Z")
    ensures var s := State("abc", [Operation(Insert(0, "abc"), Local, 0, None)], []);
            !LeftOf(op.edit, s.undo) && Allowed(s, RemoteApply(op))
  {
    var entry := Operation(Insert(0, "abc"), Local, 0, None);
    var s := State("abc", [entry], []);
    assert Splice("", 0, 0, "abc") == "abc" && [entry][1..] == [] && Front([entry]) == [];
    assert Reverse(s.redo) == [] && Replay("abc", []) == Some("abc");
    assert Consistent("", s, 1);
    RightRemoteIsAllowed("", s, op, 1);
  }

  // ------------------------------------------------------- remote edits and undo

  lemma InvertibleShifted(e: Edit, r: Edit)
    requires EndsBy(r, e.pos) && e.Delete?
    ensures Transform(e, r).Delete? && Transform(e, r).len == e.len
  {
  }

  lemma UndoneShifted(op: Operation, redo: seq<Operation>, r: Operation)
    requires EndsBy(r.edit, op.edit.pos)
    ensures Undone(TransformOperation(op, r)) == TransformStack(Undone(op), r)
    ensures TransformStack(redo + Undone(op), r) == TransformStack(redo, r) + Undone(TransformOperation(op, r))
  {
    if op.edit.Delete? {
      InvertibleShifted(op.edit, r.edit);
    }
  }

  // The log up to its last entry, rewritten, and the remote edit there.
  lemma LeftReplays(d: string, log: seq<Operation>, r: Operation)
    requires Replay(d, log).Some? && LeftOf(r.edit, log) && Applicable(r.edit, Replay(d, log).value)
    ensures Applicable(r.edit, d)
    ensures Replay(Apply(r.edit, d).value, TransformStack(log, r)) == Apply(r.edit, Replay(d, log).value)
  {
    LeftIsClear(r.edit, log);
    ClearReplays(d, log, r, r.edit);
  }

  /** A remote edit left of the history and an undo commute: same document, same stacks, same outcome. */
  lemma RemoteCommutesWithUndo(base: string, s: State, op: Operation)
    requires Replay(base, s.undo) == Some(s.document) && s.undo != []
    requires LeftOf(op.edit, s.undo) && Applicable(op.edit, s.document)
    ensures Applicable(op.edit, AfterUndo(s).0.document)
    ensures AfterUndo(AfterRemote(s, op)).0 == AfterRemote(AfterUndo(s).0, op)
    ensures AfterUndo(AfterRemote(s, op)).1.Threw? <==> AfterUndo(s).1.Threw?
  {
    var e, undone := Last(s.undo), AfterUndo(s).0;
    UndoReaches(base, s);
    ReplayLast(base, s.undo);
    ShiftedEdit(e.edit, op.edit, undone.document);
    RemoteOf(s, op);
    RemoteOf(undone, op);
    UndoneShifted(e, s.redo, op);
    StackEnds(s.undo, op);
    UndoShifted(base, s, op);
  }

  lemma UndoShifted(base: string, s: State, op: Operation)
    requires Replay(base, s.undo) == Some(s.document) && s.undo != []
    requires LeftOf(op.edit, s.undo) && Applicable(op.edit, s.document)
    ensures Replay(base, Front(s.undo)).Some? && Applicable(op.edit, Replay(base, Front(s.undo)).value)
    ensures var shifted := State(Apply(op.edit, s.document).value, TransformStack(s.undo, op), TransformStack(s.redo, op));
            var last := TransformOperation(Last(s.undo), op);
            && AfterUndo(shifted).0
               == State(Apply(op.edit, Replay(base, Front(s.undo)).value).value, TransformStack(Front(s.undo), op),
                        TransformStack(s.redo, op) + Undone(last))
            && (AfterUndo(shifted).1.Threw? <==> !Invertible(last))
  {
    var shifted := State(Apply(op.edit, s.document).value, TransformStack(s.undo, op), TransformStack(s.redo, op));
    LeftReplays(base, s.undo, op);
    StackEnds(s.undo, op);
    UndoReaches(Apply(op.edit, base).value, shifted);
    ReplayLast(base, s.undo);
    ShiftedEdit(Last(s.undo).edit, op.edit, Replay(base, Front(s.undo)).value);
    LeftReplays(base, Front(s.undo), op);
  }

  /** Likewise for a redo. */
  lemma RemoteCommutesWithRedo(s: State, op: Operation)
    requires Replay(s.document, Reverse(s.redo)).Some? && s.redo != []
    requires LeftOf(op.edit, s.redo) && Applicable(op.edit, s.document)
    ensures Applicable(op.edit, AfterRedo(s).0.document)
    ensures AfterRedo(AfterRemote(s, op)).0 == AfterRemote(AfterRedo(s).0, op)
  {
    var e := Last(s.redo);
    ShiftedEdit(e.edit, op.edit, s.document);
    var redone := AfterRedo(s).0;
    RemoteOf(s, op);
    RemoteOf(redone, op);
    StackSnoc(s.undo, e, op);
    StackEnds(s.redo, op);
  }

  /** And for any number of redos; past the last entry a redo changes nothing. */
  lemma {:induction false} RemoteCommutesWithRedos(s: State, op: Operation, k: nat)
    requires Replay(s.document, Reverse(s.redo)).Some? && LeftOf(op.edit, s.redo) && Applicable(op.edit, s.document)
    ensures Applicable(op.edit, RedoTimes(s, k).document)
    ensures RedoTimes(AfterRemote(s, op), k) == AfterRemote(RedoTimes(s, k), op)
    decreases k
  {
    if k > 0 {
      if s.redo == [] {
        RemoteOf(s, op);
      } else {
        RemoteCommutesWithRedo(s, op);
        assert Reverse(s.redo)[1..] == Reverse(Front(s.redo));
      }
      RemoteCommutesWithRedos(AfterRedo(s).0, op, k - 1);
    }
  }

  /** Remote-then-undo-everything is undo-everything-then-remote, for stacks of any length. */
  lemma {:induction false} RemoteCommutesWithUndos(base: string, s: State, op: Operation, k: nat)
    requires Replay(base, s.undo) == Some(s.document) && k <= |s.undo|
    requires LeftOf(op.edit, s.undo) && Applicable(op.edit, s.document)
    ensures Applicable(op.edit, UndoTimes(s, k).document)
    ensures UndoTimes(AfterRemote(s, op), k) == AfterRemote(UndoTimes(s, k), op)
  {
    if k > 0 {
      RemoteCommutesWithUndos(base, s, op, k - 1);
      UndoneState(base, s, k - 1);
      OneMoreUndo(base, UndoTimes(s, k - 1), op, UndoTimes(AfterRemote(s, op), k - 1), UndoTimes(s, k), s.undo, k - 1);
    }
  }

  lemma OneMoreUndo(base: string, mid: State, op: Operation, mid': State, next: State, stack: seq<Operation>, k: nat)
    requires k < |stack| && mid.undo == stack[..|stack| - k] && Replay(base, mid.undo) == Some(mid.document)
    requires LeftOf(op.edit, stack) && Applicable(op.edit, mid.document)
    requires mid' == AfterRemote(mid, op) && next == AfterUndo(mid).0
    ensures Applicable(op.edit, next.document) && AfterUndo(mid').0 == AfterRemote(next, op)
  {
    assert LeftOf(op.edit, mid.undo);
    RemoteCommutesWithUndo(base, mid, op);
  }

  /** The remote edit as it reads after the last `k` entries are undone. */
  function CarriedPast(r: Edit, b: Edit, log: seq<Operation>, k: nat): Edit
    requires Clear(r, b, log) && k <= |log|
    decreases k
  {
    if k == 0 then b
    else CarriedPast(r, Back(r, b, Last(log).edit), Front(log), k - 1)
  }

  lemma {:induction false} CarriedInTwo(r: Edit, b: Edit, log: seq<Operation>, k: nat)
    requires Clear(r, b, log) && SameBut(r, b) && k <= |log|
    ensures var b' := CarriedPast(r, b, log, k);
            && SameBut(r, b') && Clear(r, b', log[..|log| - k])
            && Carried(r, b', log[..|log| - k]) == Carried(r, b, log)
    decreases k
  {
    if k == 0 {
      assert log[..|log|] == log;
    } else {
      assert Front(log)[..|log| - k] == log[..|log| - k];
      BackAndAhead(r, b, Last(log).edit);
      CarriedInTwo(r, Back(r, b, Last(log).edit), Front(log), k - 1);
    }
  }

  /** The base that a remote edit clear of the history leaves. */
  function MovedBase(base: string, log: seq<Operation>, r: Edit): string
    requires Clear(r, r, log) && Applicable(Carried(r, r, log), base)
  {
    Apply(Carried(r, r, log), base).value
  }

  lemma RemoteReplays(base: string, s: State, op: Operation)
    requires Replay(base, s.undo) == Some(s.document)
    requires Applicable(op.edit, s.document) && Clear(op.edit, op.edit, s.undo)
    ensures Applicable(Carried(op.edit, op.edit, s.undo), base)
    ensures AfterRemote(s, op).undo == TransformStack(s.undo, op)
    ensures Replay(MovedBase(base, s.undo, op.edit), AfterRemote(s, op).undo) == Some(AfterRemote(s, op).document)
  {
    RemoteOf(s, op);
    ClearReplays(base, s.undo, op, op.edit);
  }

  // A prefix of the rewritten log replays to the carried edit on what the prefix of the old log gave.
  lemma PrefixReplays(base: string, log: seq<Operation>, op: Operation, k: nat)
    requires Replay(base, log).Some? && k <= |log| && Clear(op.edit, op.edit, log)
    requires Applicable(op.edit, Replay(base, log).value) && Applicable(Carried(op.edit, op.edit, log), base)
    ensures Replay(base, log[..|log| - k]).Some?
    ensures Replay(MovedBase(base, log, op.edit), TransformStack(log, op)[..|log| - k])
         == Apply(CarriedPast(op.edit, op.edit, log, k), Replay(base, log[..|log| - k]).value)
  {
    var prefix, b := log[..|log| - k], CarriedPast(op.edit, op.edit, log, k);
    assert TransformStack(log, op)[..|log| - k] == TransformStack(prefix, op);
    CarriedInTwo(op.edit, op.edit, log, k);
    CarriedApplies(base, log, op, op.edit, k);
    ClearReplays(base, prefix, op, b);
  }

  /**
    Undoing any number of entries after a remote edit clear of them takes back those entries only:
    what is left is the remote edit, carried back, on the document the undos alone would reach.
   */
  lemma UndosKeepRemote(base: string, s: State, op: Operation, k: nat)
    requires Replay(base, s.undo) == Some(s.document) && k <= |s.undo|
    requires Applicable(op.edit, s.document) && Clear(op.edit, op.edit, s.undo)
    ensures var b := CarriedPast(op.edit, op.edit, s.undo, k);
            Some(UndoTimes(AfterRemote(s, op), k).document) == Apply(b, UndoTimes(s, k).document)
  {
    RemoteReplays(base, s, op);
    UndosKeepMoved(base, s, op, MovedBase(base, s.undo, op.edit), AfterRemote(s, op), k);
  }

  lemma UndosKeepMoved(base: string, s: State, op: Operation, base': string, s': State, k: nat)
    requires Replay(base, s.undo) == Some(s.document) && k <= |s.undo| && Clear(op.edit, op.edit, s.undo)
    requires Applicable(op.edit, s.document) && Applicable(Carried(op.edit, op.edit, s.undo), base)
    requires base' == MovedBase(base, s.undo, op.edit)
    requires s'.undo == TransformStack(s.undo, op) && Replay(base', s'.undo) == Some(s'.document)
    ensures Some(UndoTimes(s', k).document)
         == Apply(CarriedPast(op.edit, op.edit, s.undo, k), UndoTimes(s, k).document)
  {
    PrefixReplays(base, s.undo, op, k);
    UndoneDocument(base, s, k);
    UndoneDocument(base', s', k);
  }

  lemma UndoneDocument(base: string, s: State, k: nat)
    requires Replay(base, s.undo) == Some(s.document) && k <= |s.undo|
    ensures Replay(base, s.undo[..|s.undo| - k]) == Some(UndoTimes(s, k).document)
  {
    UndoneState(base, s, k);
  }

  // The carried edit applies wherever the undone log ends.
  lemma {:induction false} CarriedApplies(d: string, log: seq<Operation>, r: Operation, b: Edit, k: nat)
    requires Replay(d, log).Some? && SameBut(r.edit, b) && Clear(r.edit, b, log) && k <= |log|
    requires Applicable(b, Replay(d, log).value)
    ensures Replay(d, log[..|log| - k]).Some?
    ensures Applicable(CarriedPast(r.edit, b, log, k), Replay(d, log[..|log| - k]).value)
    decreases k
  {
    if k == 0 {
      assert log[..|log|] == log;
    } else {
      LastSquare(d, log, r.edit, b);
      assert Front(log)[..|log| - k] == log[..|log| - k];
      CarriedApplies(d, Front(log), r, Back(r.edit, b, Last(log).edit), k - 1);
    }
  }
}
