/**
  The values behind src/common/ot/undo_redo_manager.cpp and src/common/ot/document_manager.cpp:
  one document with its undo and redo stacks, and what each public operation makes of them.
 */
module History {
  import opened Wrappers
  import opened Operations

  datatype Source = Local | Remote | LocalUndo | LocalRedo | System

  /** An operation object: its edit and the bookkeeping fields of the base class. */
  datatype Operation = Operation(edit: Edit, source: Source, id: int, related: Option<int>)

  // clone() copies the edit only: source, id and related id revert to their defaults.
  function Clone(op: Operation): Operation {
    Operation(op.edit, Local, 0, None)
  }

  // A copy keeps the bookkeeping fields; the deletion-past-deletion branches build a new object.
  function TransformOperation(op: Operation, other: Operation): Operation {
    var edit := Transform(op.edit, other.edit);
    if op.edit.Delete? && other.edit.Delete? then Operation(edit, Local, 0, None) else op.(edit := edit)
  }

  datatype State = State(document: string, undo: seq<Operation>, redo: seq<Operation>)

  datatype Outcome = Done(op: Operation) | Refused | Threw

  function Last<T>(s: seq<T>): T
    requires s != []
  {
    s[|s| - 1]
  }

  function Front<T>(s: seq<T>): seq<T>
    requires s != []
  {
    s[..|s| - 1]
  }

  function Newest<T>(s: seq<T>, n: nat): seq<T> {
    if |s| <= n then s else s[|s| - n..]
  }

  // ------------------------------------------------------- operations on the state

  /** Only operations that are not themselves undos or redos enter the history. */
  predicate UserEdit(op: Operation) {
    op.source != LocalUndo && op.source != LocalRedo
  }

  /** What applyLocalOperation hands on: source and id set, and recorded text filled in. */
  function Prepared(op: Operation, freshId: int, d: string): Operation {
    var source := if UserEdit(op) then Local else op.source;
    var id := if op.id == 0 then freshId else op.id;
    Operation(if Applicable(op.edit, d) then Filled(op.edit, d) else op.edit, source, id, op.related)
  }

  function AfterLocal(s: State, op: Operation, max: nat): State {
    if !Applicable(op.edit, s.document) then s
    else
      var d' := Apply(op.edit, s.document).value;
      if !UserEdit(op) then s.(document := d')
      else
        var entry := Operation(Filled(op.edit, s.document), Local, 0, None);
        State(d', Newest(s.undo + [entry], max), [])
  }

  /** The entry leaves the undo stack before its inverse is built, so it is lost when that throws. */
  function AfterUndo(s: State): (State, Outcome) {
    if s.undo == [] then (s, Refused)
    else
      var op := Last(s.undo);
      match Inverse(op.edit)
      case None => (s.(undo := Front(s.undo)), Threw)
      case Some(inverse) =>
        match Apply(inverse, s.document)
        case None => (s, Refused)
        case Some(d') =>
          (State(d', Front(s.undo), s.redo + [op]), Done(Operation(inverse, LocalUndo, 0, Some(op.id))))
  }

  function AfterRedo(s: State): (State, Outcome) {
    if s.redo == [] then (s, Refused)
    else
      var op := Last(s.redo);
      match Apply(op.edit, s.document)
      case None => (s, Refused)
      case Some(d') =>
        (State(d', s.undo + [op], Front(s.redo)),
         Done(Operation(Filled(op.edit, s.document), LocalRedo, 0, Some(op.id))))
  }

  function TransformStack(stack: seq<Operation>, op: Operation): seq<Operation> {
    seq(|stack|, i requires 0 <= i < |stack| => TransformOperation(stack[i], op))
  }

  // Every entry is transformed against the one remote operation; the operation is not re-based
  // from entry to entry.
  function AfterRemote(s: State, op: Operation): State {
    match Apply(op.edit, s.document)
    case None => s
    case Some(d') =>
      var remote := op.(edit := Filled(op.edit, s.document), source := Remote);
      State(d', TransformStack(s.undo, remote), TransformStack(s.redo, remote))
  }

  // ------------------------------------------------------- the replay invariant

  /** The edit applies to `d` and, if it deletes, records exactly the text it removes there. */
  predicate Exact(e: Edit, d: string) {
    Applicable(e, d) && (e.Delete? ==> e.deleted == d[e.pos..e.pos + e.len])
  }

  /** The document reached by executing the entries oldest first, if each is exact where it runs. */
  function Replay(d: string, log: seq<Operation>): Option<string>
    decreases |log|
  {
    if log == [] then Some(d)
    else if !Exact(log[0].edit, d) then None
    else Replay(Apply(log[0].edit, d).value, log[1..])
  }

  function Reverse<T>(s: seq<T>): (r: seq<T>)
    ensures |r| == |s|
  {
    if s == [] then [] else [Last(s)] + Reverse(Front(s))
  }

  /** The entries are as clone() left them. */
  predicate Plain(stack: seq<Operation>) {
    forall i | 0 <= i < |stack| :: stack[i].source == Local && stack[i].id == 0 && stack[i].related == None
  }

  /**
    The document is the undo stack replayed from `base`, and the redo stack is replayable from
    its top. Between them the stacks hold at most `max` entries.
   */
  ghost predicate Consistent(base: string, s: State, max: nat) {
    && Replay(base, s.undo) == Some(s.document)
    && Replay(s.document, Reverse(s.redo)).Some?
    && |s.undo| + |s.redo| <= max
    && Plain(s.undo) && Plain(s.redo)
  }

  lemma {:induction false} ReplayConcat(d: string, a: seq<Operation>, b: seq<Operation>)
    ensures Replay(d, a + b) == (match Replay(d, a) case None => None case Some(m) => Replay(m, b))
    decreases |a|
  {
    if a == [] {
      assert a + b == b;
    } else {
      assert (a + b)[1..] == a[1..] + b;
      if Exact(a[0].edit, d) {
        ReplayConcat(Apply(a[0].edit, d).value, a[1..], b);
      }
    }
  }

  // Replaying up to the last entry, and then that entry.
  lemma ReplayLast(d: string, log: seq<Operation>)
    requires log != [] && Replay(d, log).Some?
    ensures Replay(d, Front(log)).Some?
    ensures var m := Replay(d, Front(log)).value;
            Exact(Last(log).edit, m) && Apply(Last(log).edit, m) == Replay(d, log)
  {
    assert log == Front(log) + [Last(log)];
    ReplayConcat(d, Front(log), [Last(log)]);
  }

  lemma ReplaySnoc(d: string, log: seq<Operation>, op: Operation)
    requires Replay(d, log).Some? && Exact(op.edit, Replay(d, log).value)
    ensures Replay(d, log + [op]) == Apply(op.edit, Replay(d, log).value)
  {
    ReplayConcat(d, log, [op]);
  }

  /** Undoing an exact edit gives back the document it was applied to, ready to be redone. */
  lemma InverseRestores(e: Edit, d: string)
    requires Exact(e, d)
    ensures Inverse(e).None? <==> e.Delete? && e.len == 0
    ensures Inverse(e).Some? ==>
              Apply(e, d).Some? && Exact(Inverse(e).value, Apply(e, d).value)
              && Apply(Inverse(e).value, Apply(e, d).value) == Some(d)
  {
    var d' := Apply(e, d).value;
    match e {
      case Insert(p, t) => BeforeInsert(p, t, d, d');
      case Delete(p, n, t) => BeforeDelete(p, t, d, d');
    }
  }

  /** The document that an edit ending in `d` was exact for: its text must stand there, its record be as long as it deletes. */
  function Before(e: Edit, d: string): Option<string> {
    match e
    case Insert(p, t) =>
      if p + |t| <= |d| && d[p..p + |t|] == t then Some(Splice(d, p, |t|, "")) else None
    case Delete(p, n, t) =>
      if p <= |d| && |t| == n then Some(Splice(d, p, 0, t)) else None
  }

  lemma BeforeExactly(e: Edit, x: string, d: string)
    ensures Before(e, d) == Some(x) <==> Exact(e, x) && Apply(e, x) == Some(d)
  {
    match e {
      case Insert(p, t) => BeforeInsert(p, t, x, d);
      case Delete(p, n, t) => BeforeDelete(p, t, x, d);
    }
  }

  lemma BeforeInsert(p: nat, t: string, x: string, d: string)
    ensures p + |t| <= |d| && d[p..p + |t|] == t && Splice(d, p, |t|, "") == x
       <==> p <= |x| && Splice(x, p, 0, t) == d
  {
    if p + |t| <= |d| && d[p..p + |t|] == t && Splice(d, p, |t|, "") == x {
      assert d == d[..p] + t + d[p + |t|..];
      assert x == d[..p] + d[p + |t|..];
    }
    if p <= |x| && Splice(x, p, 0, t) == d {
      assert d[p..p + |t|] == t;
      assert x == x[..p] + x[p..];
    }
  }

  lemma BeforeDelete(p: nat, t: string, x: string, d: string)
    ensures p <= |d| && Splice(d, p, 0, t) == x
       <==> p + |t| <= |x| && t == x[p..p + |t|] && Splice(x, p, |t|, "") == d
  {
    BeforeInsert(p, t, d, x);
  }

  /** The entries taken back newest first, as far as they can be. */
  function Unwind(d: string, log: seq<Operation>): Option<string>
    decreases |log|
  {
    if log == [] then Some(d)
    else
      var before := Before(Last(log).edit, d);
      if before.None? then None else Unwind(before.value, Front(log))
  }

  /** Taking entries back undoes their replay, and nothing else does: a state has one base at most. */
  lemma {:induction false} UnwindInvertsReplay(d: string, log: seq<Operation>, base: string)
    ensures Unwind(d, log) == Some(base) <==> Replay(base, log) == Some(d)
    decreases |log|
  {
    if log != [] {
      var e := Last(log).edit;
      if Replay(base, log) == Some(d) {
        ReplayLast(base, log);
        var m := Replay(base, Front(log)).value;
        BeforeExactly(e, m, d);
        UnwindInvertsReplay(m, Front(log), base);
      }
      if Unwind(d, log) == Some(base) {
        var m := Before(e, d).value;
        BeforeExactly(e, m, d);
        UnwindInvertsReplay(m, Front(log), base);
        ReplaySnoc(base, Front(log), Last(log));
        assert log == Front(log) + [Last(log)];
      }
    }
  }

  /** The undo entries can be taken back one by one, and the redo entries carried out one by one. */
  predicate Explained(s: State) {
    Unwind(s.document, s.undo).Some? && Replay(s.document, Reverse(s.redo)).Some?
  }

  /** A state is consistent with some base exactly when it is explained; the base is what unwinding reaches. */
  lemma ConsistentBase(base: string, s: State, max: nat)
    requires |s.undo| + |s.redo| <= max && Plain(s.undo) && Plain(s.redo)
    ensures Consistent(base, s, max) <==> Explained(s) && Unwind(s.document, s.undo) == Some(base)
  {
    UnwindInvertsReplay(s.document, s.undo, base);
  }

  // ------------------------------------------------------- one step

  datatype Event = LocalApply(op: Operation) | Undo | Redo | RemoteApply(op: Operation) | SetContent(text: string)

  function Step(s: State, event: Event, max: nat): State {
    match event
    case LocalApply(op) => AfterLocal(s, op, max)
    case Undo => AfterUndo(s).0
    case Redo => AfterRedo(s).0
    case RemoteApply(op) => AfterRemote(s, op)
    case SetContent(text) => State(text, [], [])
  }

  /**
    What a caller has to respect: recorded text is absent or correct, local operations are not
    dressed up as undos or redos, and a remote edit leaves a history that explains the document.
   */
  predicate Allowed(s: State, event: Event) {
    match event
    case LocalApply(op) =>
      && UserEdit(op)
      && (Applicable(op.edit, s.document) && op.edit.Delete? ==>
            op.edit.deleted == "" || op.edit.deleted == s.document[op.edit.pos..op.edit.pos + op.edit.len])
    case RemoteApply(op) => Explained(AfterRemote(s, op))
    case _ => true
  }

  /** The base follows a remote edit and a reset; otherwise it moves only when the stack is trimmed. */
  function BaseAfter(base: string, s: State, event: Event, max: nat): string {
    match event
    case LocalApply(op) =>
      if Applicable(op.edit, s.document) && UserEdit(op) && |s.undo| == max then
        if max == 0 then Apply(op.edit, s.document).value
        else Apply(s.undo[0].edit, base).GetOr(base)
      else base
    case RemoteApply(op) =>
      Unwind(AfterRemote(s, op).document, AfterRemote(s, op).undo).GetOr(base)
    case SetContent(text) => text
    case _ => base
  }

  lemma ReverseSnoc<T>(s: seq<T>, x: T)
    ensures Reverse(s + [x]) == [x] + Reverse(s)
  {
    assert Front(s + [x]) == s;
  }

  lemma LocalKeepsConsistent(base: string, s: State, op: Operation, max: nat)
    requires Consistent(base, s, max) && Allowed(s, LocalApply(op))
    ensures Consistent(BaseAfter(base, s, LocalApply(op), max), AfterLocal(s, op, max), max)
  {
    if Applicable(op.edit, s.document) {
      var entry := Operation(Filled(op.edit, s.document), Local, 0, None);
      var whole := s.undo + [entry];
      ReplaySnoc(base, s.undo, entry);
      if |s.undo| == max {
        assert Newest(whole, max) == whole[1..];
        if max > 0 {
          assert whole[0] == s.undo[0];
        }
      }
    }
  }

  lemma UndoKeepsConsistent(base: string, s: State, max: nat)
    requires Consistent(base, s, max)
    ensures Consistent(base, AfterUndo(s).0, max)
    ensures AfterUndo(s).1.Refused? <==> s.undo == []
    ensures AfterUndo(s).1.Threw? <==> s.undo != [] && Last(s.undo).edit.Delete? && Last(s.undo).edit.len == 0
    ensures s.undo != [] ==> Replay(base, Front(s.undo)) == Some(AfterUndo(s).0.document)
  {
    if s.undo != [] {
      var op := Last(s.undo);
      ReplayLast(base, s.undo);
      var before := Replay(base, Front(s.undo)).value;
      InverseRestores(op.edit, before);
      if Inverse(op.edit).Some? {
        ReverseSnoc(s.redo, op);
        assert ([op] + Reverse(s.redo))[1..] == Reverse(s.redo);
      } else {
        assert before == s.document;
      }
    }
  }

  lemma RedoKeepsConsistent(base: string, s: State, max: nat)
    requires Consistent(base, s, max)
    ensures Consistent(base, AfterRedo(s).0, max)
    ensures AfterRedo(s).1.Done? <==> s.redo != []
  {
    if s.redo != [] {
      var op := Last(s.redo);
      assert Reverse(s.redo)[1..] == Reverse(Front(s.redo));
      ReplaySnoc(base, s.undo, op);
    }
  }

  // ------------------------------------------------------- undo and redo are inverse

  function UndoTimes(s: State, k: nat): State {
    if k == 0 then s else AfterUndo(UndoTimes(s, k - 1)).0
  }

  function RedoTimes(s: State, k: nat): State
    decreases k
  {
    if k == 0 then s else RedoTimes(AfterRedo(s).0, k - 1)
  }

  predicate Invertible(op: Operation) {
    op.edit.Delete? ==> op.edit.len > 0
  }

  /** What an undo puts on the redo stack; a deletion of length zero is lost. */
  function Undone(op: Operation): seq<Operation> {
    if Invertible(op) then [op] else []
  }

  lemma UndoReaches(base: string, s: State)
    requires s.undo != [] && Replay(base, s.undo) == Some(s.document)
    ensures Replay(base, Front(s.undo)).Some?
    ensures var before := Replay(base, Front(s.undo)).value;
            && AfterUndo(s).0 == State(before, Front(s.undo), s.redo + Undone(Last(s.undo)))
            && Apply(Last(s.undo).edit, before) == Some(s.document)
    ensures AfterUndo(s).1.Threw? <==> !Invertible(Last(s.undo))
  {
    ReplayLast(base, s.undo);
    var op, before := Last(s.undo), Replay(base, Front(s.undo)).value;
    InverseRestores(op.edit, before);
    if !Invertible(op) {
      assert before == s.document && s.redo + [] == s.redo;
    }
  }

  lemma RedoAfterUndo(base: string, s: State)
    requires s.undo != [] && Invertible(Last(s.undo)) && Replay(base, s.undo) == Some(s.document)
    ensures AfterRedo(AfterUndo(s).0).0 == s
  {
    UndoReaches(base, s);
    var op, before := Last(s.undo), Replay(base, Front(s.undo)).value;
    RedoOf(State(before, Front(s.undo), s.redo + [op]), op, s.document, s.redo);
    assert Front(s.undo) + [op] == s.undo;
  }

  lemma RedoOf(s: State, op: Operation, d: string, rest: seq<Operation>)
    requires s.redo == rest + [op] && Apply(op.edit, s.document) == Some(d)
    ensures AfterRedo(s).0 == State(d, s.undo + [op], rest)
  {
    assert Front(s.redo) == rest;
  }

  predicate AllInvertible(log: seq<Operation>) {
    forall i | 0 <= i < |log| :: Invertible(log[i])
  }

  lemma TailInvertible(log: seq<Operation>, i: nat)
    requires i < |log| && AllInvertible(log[i..])
    ensures AllInvertible(log[i + 1..]) && Invertible(log[i])
  {
    assert log[i] == log[i..][0] && log[i + 1..] == log[i..][1..];
  }

  /** k undos land on the replay of the remaining prefix, and queue the undone entries for redo. */
  lemma {:induction false} UndoneState(base: string, s: State, k: nat)
    requires Replay(base, s.undo) == Some(s.document) && k <= |s.undo|
    ensures UndoTimes(s, k).undo == s.undo[..|s.undo| - k]
    ensures Replay(base, s.undo[..|s.undo| - k]) == Some(UndoTimes(s, k).document)
    ensures AllInvertible(s.undo[|s.undo| - k..]) ==>
              UndoTimes(s, k).redo == s.redo + Reverse(s.undo[|s.undo| - k..])
  {
    if k == 0 {
      assert s.undo[..|s.undo|] == s.undo && s.redo + [] == s.redo;
    } else {
      UndoneState(base, s, k - 1);
      var i := |s.undo| - k;
      UndoEntry(base, s.undo, i, UndoTimes(s, k - 1));
      if AllInvertible(s.undo[i..]) {
        TailInvertible(s.undo, i);
        RedoGrows(s.undo, i, s.redo, UndoTimes(s, k - 1).redo);
      }
    }
  }

  // With everything after entry `i` undone, one undo takes that entry back as well.
  lemma UndoEntry(base: string, stack: seq<Operation>, i: nat, mid: State)
    requires i < |stack| && Replay(base, mid.undo) == Some(mid.document) && mid.undo == stack[..i + 1]
    ensures var next := AfterUndo(mid).0;
            && next.undo == stack[..i] && Replay(base, stack[..i]) == Some(next.document)
            && next.redo == mid.redo + Undone(stack[i])
  {
    assert Front(mid.undo) == stack[..i] && Last(mid.undo) == stack[i];
    UndoReaches(base, mid);
  }

  lemma RedoGrows(stack: seq<Operation>, i: nat, redo: seq<Operation>, mid: seq<Operation>)
    requires i < |stack| && mid == redo + Reverse(stack[i + 1..])
    ensures mid + [stack[i]] == redo + Reverse(stack[i..])
  {
    ReverseTail(stack, i);
    assert redo + Reverse(stack[i + 1..]) + [stack[i]] == redo + (Reverse(stack[i + 1..]) + [stack[i]]);
  }

  // A redo takes back the last of k undos.
  lemma RedoTakesBack(base: string, s: State, k: nat)
    requires Replay(base, s.undo) == Some(s.document) && 0 < k <= |s.undo| && Invertible(s.undo[|s.undo| - k])
    ensures AfterRedo(UndoTimes(s, k)).0 == UndoTimes(s, k - 1)
  {
    UndoneState(base, s, k - 1);
    var mid := UndoTimes(s, k - 1);
    assert Last(mid.undo) == s.undo[|s.undo| - k];
    RedoAfterUndo(base, mid);
  }

  /** k redos after k undos restore the document and both stacks. */
  lemma {:induction false} UndosThenRedos(base: string, s: State, k: nat)
    requires Replay(base, s.undo) == Some(s.document) && k <= |s.undo|
    requires AllInvertible(s.undo[|s.undo| - k..])
    ensures RedoTimes(UndoTimes(s, k), k) == s
  {
    if k > 0 {
      TailInvertible(s.undo, |s.undo| - k);
      RedoTakesBack(base, s, k);
      UndosThenRedos(base, s, k - 1);
    }
  }

  lemma ReverseTail<T>(s: seq<T>, i: nat)
    requires i < |s|
    ensures Reverse(s[i..]) == Reverse(s[i + 1..]) + [s[i]]
  {
    assert s[i..] == [s[i]] + s[i + 1..];
    ReverseCons(s[i], s[i + 1..]);
  }

  lemma {:induction false} ReverseCons<T>(x: T, s: seq<T>)
    ensures Reverse([x] + s) == Reverse(s) + [x]
    decreases |s|
  {
    if s != [] {
      assert Front([x] + s) == [x] + Front(s);
      ReverseCons(x, Front(s));
    } else {
      assert [x] + s == [x];
    }
  }

  // ------------------------------------------------------- remote edits

  lemma PlainTransformed(stack: seq<Operation>, r: Operation)
    requires Plain(stack)
    ensures Plain(TransformStack(stack, r))
  {
  }

  lemma RemoteStaysPlain(s: State, op: Operation, max: nat)
    requires |s.undo| + |s.redo| <= max && Plain(s.undo) && Plain(s.redo)
    ensures var s' := AfterRemote(s, op); |s'.undo| + |s'.redo| <= max && Plain(s'.undo) && Plain(s'.redo)
  {
    if Applicable(op.edit, s.document) {
      var r := op.(edit := Filled(op.edit, s.document), source := Remote);
      PlainTransformed(s.undo, r);
      PlainTransformed(s.redo, r);
    }
  }

  /**
    Some base explains the state after a remote edit if and only if its rewritten entries can be
    taken back and carried out one by one, which can be computed before the edit is applied.
   */
  lemma RemoteConsistentExactly(base: string, s: State, op: Operation, max: nat)
    requires Consistent(base, s, max)
    ensures (exists base' :: Consistent(base', AfterRemote(s, op), max)) <==> Explained(AfterRemote(s, op))
    ensures forall base' | Consistent(base', AfterRemote(s, op), max) :: base' == BaseAfter(base, s, RemoteApply(op), max)
  {
    var s' := AfterRemote(s, op);
    RemoteStaysPlain(s, op, max);
    forall base'
      ensures Consistent(base', s', max) <==> Explained(s') && Unwind(s'.document, s'.undo) == Some(base')
    {
      ConsistentBase(base', s', max);
    }
    if Explained(s') {
      assert Consistent(Unwind(s'.document, s'.undo).value, s', max);
    }
  }

  lemma RemoteKeepsConsistent(base: string, s: State, op: Operation, max: nat)
    requires Consistent(base, s, max) && Allowed(s, RemoteApply(op))
    ensures Consistent(BaseAfter(base, s, RemoteApply(op), max), AfterRemote(s, op), max)
  {
    RemoteConsistentExactly(base, s, op, max);
  }

  // ------------------------------------------------------- whole runs

  function Run(s: State, events: seq<Event>, max: nat): State
    decreases |events|
  {
    if events == [] then s else Run(Step(s, events[0], max), events[1..], max)
  }

  function BaseOfRun(base: string, s: State, events: seq<Event>, max: nat): string
    decreases |events|
  {
    if events == [] then base
    else BaseOfRun(BaseAfter(base, s, events[0], max), Step(s, events[0], max), events[1..], max)
  }

  predicate AllowedRun(s: State, events: seq<Event>, max: nat)
    decreases |events|
  {
    events != [] ==> Allowed(s, events[0]) && AllowedRun(Step(s, events[0], max), events[1..], max)
  }

  lemma StepKeepsConsistent(base: string, s: State, event: Event, max: nat)
    requires Consistent(base, s, max) && Allowed(s, event)
    ensures Consistent(BaseAfter(base, s, event, max), Step(s, event, max), max)
  {
    match event
    case LocalApply(op) => LocalKeepsConsistent(base, s, op, max);
    case Undo => UndoKeepsConsistent(base, s, max);
    case Redo => RedoKeepsConsistent(base, s, max);
    case RemoteApply(op) => RemoteKeepsConsistent(base, s, op, max);
    case SetContent(text) =>
  }

  /** Safety over whole runs: the replay invariant and the history bound hold after every run. */
  lemma {:induction false} RunKeepsConsistent(base: string, s: State, events: seq<Event>, max: nat)
    requires Consistent(base, s, max) && AllowedRun(s, events, max)
    ensures Consistent(BaseOfRun(base, s, events, max), Run(s, events, max), max)
    decreases |events|
  {
    if events != [] {
      StepKeepsConsistent(base, s, events[0], max);
      RunKeepsConsistent(BaseAfter(base, s, events[0], max), Step(s, events[0], max), events[1..], max);
    }
  }

  /** Between trims, resets and remote edits the base stays put. */
  lemma BaseMovesOnlyOnTrim(base: string, s: State, event: Event, max: nat)
    requires Consistent(base, s, max)
    requires event.LocalApply? || event.Undo? || event.Redo?
    requires BaseAfter(base, s, event, max) != base
    ensures event.LocalApply? && |s.undo| == max
    ensures max > 0 ==>
              && Step(s, event, max).undo[..max - 1] == s.undo[1..]
              && Apply(s.undo[0].edit, base) == Some(BaseAfter(base, s, event, max))
  {
    if max > 0 {
      var whole := s.undo + [Operation(Filled(event.op.edit, s.document), Local, 0, None)];
      assert Newest(whole, max) == whole[1..];
      assert Step(s, event, max).undo == whole[1..];
      assert whole[1..][..max - 1] == s.undo[1..];
    }
  }

  /** No reset, no remote edit, and no local edit while the stack is full. */
  predicate KeepsEntries(s: State, events: seq<Event>, max: nat)
    decreases |events|
  {
    events != [] ==>
      && !events[0].SetContent? && !events[0].RemoteApply?
      && (events[0].LocalApply? ==> |s.undo| < max)
      && KeepsEntries(Step(s, events[0], max), events[1..], max)
  }

  /** Over every such run the document stays the replay of the undo stack from the base it started with. */
  lemma {:induction false} BaseStaysPut(base: string, s: State, events: seq<Event>, max: nat)
    requires Consistent(base, s, max) && AllowedRun(s, events, max) && KeepsEntries(s, events, max)
    ensures BaseOfRun(base, s, events, max) == base && Consistent(base, Run(s, events, max), max)
    decreases |events|
  {
    if events != [] {
      StepKeepsConsistent(base, s, events[0], max);
      BaseStaysPut(base, Step(s, events[0], max), events[1..], max);
    }
  }

  /** A history with room for every event of a run loses no entry. */
  lemma {:induction false} RoomKeepsEntries(base: string, s: State, events: seq<Event>, max: nat)
    requires Consistent(base, s, max) && AllowedRun(s, events, max)
    requires forall i | 0 <= i < |events| :: !events[i].SetContent? && !events[i].RemoteApply?
    requires |s.undo| + |s.redo| + |events| <= max
    ensures KeepsEntries(s, events, max)
    decreases |events|
  {
    if events != [] {
      StepKeepsConsistent(base, s, events[0], max);
      var s' := Step(s, events[0], max);
      assert |s'.undo| + |s'.redo| <= |s.undo| + |s.redo| + 1;
      RoomKeepsEntries(BaseAfter(base, s, events[0], max), s', events[1..], max);
    }
  }

  /** With room for history, a local edit keeps the invariant exactly when its record is absent or right. */
  lemma LocalConsistentExactly(base: string, s: State, op: Operation, max: nat)
    requires Consistent(base, s, max) && max > 0 && Applicable(op.edit, s.document)
    requires UserEdit(op)
    ensures Consistent(BaseAfter(base, s, LocalApply(op), max), AfterLocal(s, op, max), max)
       <==> Allowed(s, LocalApply(op))
  {
    if Allowed(s, LocalApply(op)) {
      LocalKeepsConsistent(base, s, op, max);
    } else {
      var s', base' := AfterLocal(s, op, max), BaseAfter(base, s, LocalApply(op), max);
      var whole := s.undo + [Operation(op.edit, Local, 0, None)];
      assert s'.undo == if |s.undo| == max then whole[1..] else whole;
      assert Front(s'.undo) == if |s.undo| == max then s.undo[1..] else s.undo;
      assert Replay(base', Front(s'.undo)) == Some(s.document);
      if Replay(base', s'.undo).Some? {
        ReplayLast(base', s'.undo);
      }
    }
  }

  // ------------------------------------------------------- what other sites are told

  /** Undo reports the edit it applied, marked as an undo. */
  lemma UndoReports(s: State)
    requires AfterUndo(s).1.Done?
    ensures var (s', outcome) := AfterUndo(s);
            outcome.op.source == LocalUndo && Apply(outcome.op.edit, s.document) == Some(s'.document)
  {
  }

  /** Redo reports the edit it applied, marked as a redo, with the text it removed if it was a deletion. */
  lemma RedoReports(base: string, s: State, max: nat)
    requires Consistent(base, s, max) && s.redo != []
    ensures var (s', outcome) := AfterRedo(s);
            && outcome.Done? && outcome.op.source == LocalRedo && Exact(outcome.op.edit, s.document)
            && Apply(outcome.op.edit, s.document) == Some(s'.document)
  {
    assert Reverse(s.redo)[0] == Last(s.redo);
  }

  /** The edit that the operation callback is called with, if it is called. */
  function Report(s: State, event: Event): Option<Edit> {
    match event
    case LocalApply(op) => if Applicable(op.edit, s.document) then Some(Filled(op.edit, s.document)) else None
    case RemoteApply(op) => if Applicable(op.edit, s.document) then Some(Filled(op.edit, s.document)) else None
    case Undo => (match AfterUndo(s).1 case Done(op) => Some(op.edit) case _ => None)
    case Redo => (match AfterRedo(s).1 case Done(op) => Some(op.edit) case _ => None)
    case SetContent(_) => None
  }

  function Reports(s: State, events: seq<Event>, max: nat): seq<Edit>
    decreases |events|
  {
    if events == [] then []
    else
      var first := Report(s, events[0]);
      (if first.Some? then [first.value] else []) + Reports(Step(s, events[0], max), events[1..], max)
  }

  /** The document after the edits one after another; None when one is out of range. */
  function Follow(d: string, edits: seq<Edit>): Option<string>
    decreases |edits|
  {
    if edits == [] then Some(d)
    else
      var next := Apply(edits[0], d);
      if next.None? then None else Follow(next.value, edits[1..])
  }

  lemma StepIsReported(s: State, event: Event, max: nat)
    requires !event.SetContent?
    ensures var report, s' := Report(s, event), Step(s, event, max);
            if report.None? then s'.document == s.document else Apply(report.value, s.document) == Some(s'.document)
  {
  }

  /**
    A second site that applies what the callback reports follows the document through every run of
    edits, remote edits, undos and redos, whether or not the history is in order.
   */
  lemma {:induction false} FollowerFollows(s: State, events: seq<Event>, max: nat)
    requires forall i | 0 <= i < |events| :: !events[i].SetContent?
    ensures Follow(s.document, Reports(s, events, max)) == Some(Run(s, events, max).document)
    decreases |events|
  {
    if events != [] {
      StepIsReported(s, events[0], max);
      FollowerFollows(Step(s, events[0], max), events[1..], max);
      var rest := Reports(Step(s, events[0], max), events[1..], max);
      var first := Report(s, events[0]);
      if first.Some? {
        assert Reports(s, events, max) == [first.value] + rest && ([first.value] + rest)[1..] == rest;
      } else {
        assert Reports(s, events, max) == rest;
      }
    }
  }

  /** An operation that is itself an undo or redo changes the document and leaves the history alone. */
  lemma NotForHistory(s: State, op: Operation, max: nat)
    requires !UserEdit(op) && Applicable(op.edit, s.document)
    ensures Some(AfterLocal(s, op, max).document) == Apply(op.edit, s.document)
    ensures AfterLocal(s, op, max).undo == s.undo && AfterLocal(s, op, max).redo == s.redo
  {
  }

  /** A transformed operation keeps its source, id and link, unless it is a deletion past a deletion. */
  lemma TransformTags(op: Operation, other: Operation)
    ensures TransformOperation(op, other).edit == Transform(op.edit, other.edit)
    ensures op.edit.Insert? || other.edit.Insert? ==>
              TransformOperation(op, other) == op.(edit := Transform(op.edit, other.edit))
    ensures op.edit.Delete? && other.edit.Delete? ==> Plain([TransformOperation(op, other)])
  {
  }

  /** An edit out of range changes nothing, local or remote. */
  lemma OutOfRange(s: State, op: Operation, max: nat)
    requires !Applicable(op.edit, s.document)
    ensures AfterLocal(s, op, max) == s && AfterRemote(s, op) == s
  {
  }

  // ------------------------------------------------------- ids

  /** The operations a run of local calls hands on, and the id counter moving with them. */
  function HandedOn(s: State, ops: seq<Operation>, counter: nat, max: nat): seq<Operation>
    decreases |ops|
  {
    if ops == [] then []
    else [Prepared(ops[0], counter + 1, s.document)]
         + HandedOn(AfterLocal(s, ops[0], max), ops[1..], counter + (if ops[0].id == 0 then 1 else 0), max)
  }

  /**
    Over a run of local calls every operation comes out with a non-zero id. Ids that were set stay;
    those given out lie past the counter and grow from call to call, so no two are the same.
   */
  lemma {:induction false} IdsAreGivenOut(s: State, ops: seq<Operation>, counter: nat, max: nat)
    ensures var out := HandedOn(s, ops, counter, max);
            && |out| == |ops|
            && (forall i | 0 <= i < |ops| :: out[i].id != 0 && (ops[i].id != 0 ==> out[i].id == ops[i].id))
            && (forall i | 0 <= i < |ops| && ops[i].id == 0 :: out[i].id > counter)
            && (forall i, j | 0 <= i < j < |ops| && ops[i].id == 0 && ops[j].id == 0 :: out[i].id < out[j].id)
    decreases |ops|
  {
    if ops != [] {
      var next := counter + if ops[0].id == 0 then 1 else 0;
      IdsAreGivenOut(AfterLocal(s, ops[0], max), ops[1..], next, max);
      var rest := HandedOn(AfterLocal(s, ops[0], max), ops[1..], next, max);
      assert forall i | 1 <= i < |ops| :: ops[i] == ops[1..][i - 1];
      assert HandedOn(s, ops, counter, max) == [Prepared(ops[0], counter + 1, s.document)] + rest;
    }
  }

  /** What is handed on applies as it came; a user's edit is marked local, and a missing record is exact. */
  lemma PreparedIsApplied(op: Operation, id: int, d: string)
    requires Applicable(op.edit, d)
    ensures Apply(Prepared(op, id, d).edit, d) == Apply(op.edit, d)
    ensures Prepared(op, id, d).source == if op.source == LocalUndo || op.source == LocalRedo then op.source else Local
    ensures op.edit.Delete? && op.edit.deleted == "" ==> Exact(Prepared(op, id, d).edit, d)
    ensures op.edit.Delete? && op.edit.deleted != "" ==> Prepared(op, id, d).edit == op.edit
    ensures Prepared(op, id, d).related == op.related
  {
  }

  /** Every entry on the stacks lost its id to clone(), so undo and redo always link to id 0. */
  lemma LinksAreLost(base: string, s: State, max: nat)
    requires Consistent(base, s, max)
    ensures AfterUndo(s).1.Done? ==> AfterUndo(s).1.op.related == Some(0)
    ensures AfterRedo(s).1.Done? ==> AfterRedo(s).1.op.related == Some(0)
  {
  }

  /**
    A remote edit strictly inside recorded history can leave a state that no base explains:
    the entries are transformed against it without being re-based.
   */
  lemma OverlappingRemoteBreaksReplay(max: nat)
    requires max >= 1
    ensures var s := State("abc", [Operation(Insert(0, "abc"), Local, 0, None)], []);
            var s' := AfterRemote(s, Operation(Insert(1, "Z"), Remote, 1, None));
            Consistent("", s, max) && forall base :: !Consistent(base, s', max)
  {
    var entry := Operation(Insert(0, "abc"), Local, 0, None);
    var s := State("abc", [entry], []);
    var s' := AfterRemote(s, Operation(Insert(1, "Z"), Remote, 1, None));
    assert Splice("", 0, 0, "abc") == "abc" && [entry][1..] == [];
    assert s'.undo == [entry] && s'.document[1] == 'Z';
    forall base
      ensures !Consistent(base, s', max)
    {
      assert Replay(base, [entry]) == Replay(Splice(base, 0, 0, "abc"), []);
      assert Splice(base, 0, 0, "abc")[1] == 'b';
    }
  }
}
