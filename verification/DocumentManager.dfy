/**
  The classes of src/common/ot/undo_redo_manager.cpp and src/common/ot/document_manager.cpp.
  Locks and notification callbacks are left out; every method is one critical section.
 */
module DocumentManager {
  import opened Wrappers
  import opened Operations
  import opened History

  /** DeleteOperation::apply and InsertOperation::apply: edits the document, fills in a missing record. */
  method ApplyTo(e: Edit, document: string) returns (ok: bool, document': string, e': Edit)
    ensures ok == Applicable(e, document)
    ensures ok ==> Apply(e, document) == Some(document') && e' == Filled(e, document)
    ensures !ok ==> document' == document && e' == e
  {
    document', e' := document, e;
    match e {
      case Insert(p, t) =>
        if p > |document| {
          return false, document', e';
        }
        document' := document[..p] + t + document[p..];
        assert document' == Splice(document, p, 0, t);
      case Delete(p, n, deleted) =>
        if p + n > |document| {
          return false, document', e';
        }
        if deleted == "" {
          e' := Delete(p, n, document[p..p + n]);
        }
        document' := document[..p] + document[p + n..];
        assert document' == Splice(document, p, n, "");
    }
    ok := true;
  }

  class UndoRedoManager {
    const maxHistorySize: nat
    var undoStack: seq<Operation>
    var redoStack: seq<Operation>

    constructor (max: nat)
      ensures maxHistorySize == max && undoStack == [] && redoStack == []
    {
      maxHistorySize := max;
      undoStack, redoStack := [], [];
    }

    ghost function With(document: string): State
      reads this
    {
      State(document, undoStack, redoStack)
    }

    method TrimUndoStack()
      modifies this`undoStack
      ensures undoStack == Newest(old(undoStack), maxHistorySize)
    {
      while |undoStack| > maxHistorySize
        invariant |undoStack| <= |old(undoStack)|
        invariant undoStack == old(undoStack)[|old(undoStack)| - |undoStack|..]
        invariant |undoStack| >= maxHistorySize || undoStack == old(undoStack)
      {
        undoStack := undoStack[1..];
      }
    }

    method AddOperation(op: Operation)
      modifies this
      ensures op.source != Local ==> undoStack == old(undoStack) && redoStack == old(redoStack)
      ensures op.source == Local ==> redoStack == [] && undoStack == Newest(old(undoStack) + [Clone(op)], maxHistorySize)
    {
      if op.source != Local {
        return;
      }
      redoStack := [];
      undoStack := undoStack + [Clone(op)];
      TrimUndoStack();
    }

    method Undo(document: string) returns (document': string, outcome: Outcome)
      modifies this
      ensures (With(document'), outcome) == AfterUndo(old(With(document)))
    {
      document' := document;
      if undoStack == [] {
        return document', Refused;
      }
      var op := undoStack[|undoStack| - 1];
      undoStack := undoStack[..|undoStack| - 1];
      var inverse := Inverse(op.edit);
      if inverse == None {
        return document', Threw;
      }
      var inverseOp := Operation(inverse.value, LocalUndo, 0, Some(op.id));
      var ok, d, e := ApplyTo(inverseOp.edit, document);
      if !ok {
        undoStack := undoStack + [op];
        assert undoStack == old(undoStack);
        return document', Refused;
      }
      document' := d;
      redoStack := redoStack + [op];
      outcome := Done(inverseOp.(edit := e));
      InverseIsFilled(op.edit, document);
    }

    method Redo(document: string) returns (document': string, outcome: Outcome)
      modifies this
      ensures (With(document'), outcome) == AfterRedo(old(With(document)))
    {
      document' := document;
      if redoStack == [] {
        return document', Refused;
      }
      var op := redoStack[|redoStack| - 1];
      redoStack := redoStack[..|redoStack| - 1];
      var redoOp := Clone(op).(source := LocalRedo, related := Some(op.id));
      var ok, d, e := ApplyTo(redoOp.edit, document);
      if !ok {
        redoStack := redoStack + [op];
        assert redoStack == old(redoStack);
        return document', Refused;
      }
      document' := d;
      undoStack := undoStack + [op];
      outcome := Done(redoOp.(edit := e));
    }

    method Clear()
      modifies this
      ensures undoStack == [] && redoStack == []
    {
      undoStack, redoStack := [], [];
    }

    method TransformHistory(op: Operation)
      modifies this
      ensures undoStack == TransformStack(old(undoStack), op)
      ensures redoStack == TransformStack(old(redoStack), op)
    {
      for i := 0 to |undoStack|
        invariant |undoStack| == |old(undoStack)| && redoStack == old(redoStack)
        invariant forall j | 0 <= j < i :: undoStack[j] == TransformOperation(old(undoStack)[j], op)
        invariant forall j | i <= j < |undoStack| :: undoStack[j] == old(undoStack)[j]
      {
        undoStack := undoStack[i := TransformOperation(undoStack[i], op)];
      }
      for i := 0 to |redoStack|
        invariant |redoStack| == |old(redoStack)| && undoStack == TransformStack(old(undoStack), op)
        invariant forall j | 0 <= j < i :: redoStack[j] == TransformOperation(old(redoStack)[j], op)
        invariant forall j | i <= j < |redoStack| :: redoStack[j] == old(redoStack)[j]
      {
        redoStack := redoStack[i := TransformOperation(redoStack[i], op)];
      }
    }
  }

  // The inverse of a stored deletion re-inserts text, and the inverse of an insertion records its
  // text already unless that text is empty.
  lemma InverseIsFilled(e: Edit, d: string)
    requires Inverse(e).Some? && Applicable(Inverse(e).value, d)
    ensures Filled(Inverse(e).value, d) == Inverse(e).value
  {
  }

  const DEFAULT_MAX_HISTORY: nat := 100

  class DocumentManager {
    var document: string
    const undoRedoManager: UndoRedoManager
    var operationCounter: int

    constructor (initialContent: string)
      ensures fresh(undoRedoManager) && undoRedoManager.maxHistorySize == DEFAULT_MAX_HISTORY == 100
      ensures Contents() == State(initialContent, [], [])
      ensures Consistent(initialContent, Contents(), DEFAULT_MAX_HISTORY)
    {
      document := initialContent;
      undoRedoManager := new UndoRedoManager(DEFAULT_MAX_HISTORY);
      operationCounter := 0;
    }

    ghost function Contents(): State
      reads this, undoRedoManager
    {
      undoRedoManager.With(document)
    }

    method SetContent(content: string)
      modifies this`document, undoRedoManager
      ensures Contents() == Step(old(Contents()), Event.SetContent(content), undoRedoManager.maxHistorySize)
    {
      document := content;
      undoRedoManager.Clear();
    }

    method GenerateOperationId() returns (id: int)
      modifies this`operationCounter
      ensures id == operationCounter == old(operationCounter) + 1
    {
      operationCounter := operationCounter + 1;
      id := operationCounter;
    }

    method ApplyLocalOperation(operation: Operation) returns (ok: bool, operation': Operation)
      modifies this, undoRedoManager
      ensures Contents() == Step(old(Contents()), LocalApply(operation), undoRedoManager.maxHistorySize)
      ensures ok == Applicable(operation.edit, old(document))
      ensures operation' == Prepared(operation, old(operationCounter) + 1, old(document))
      ensures operationCounter == old(operationCounter) + (if operation.id == 0 then 1 else 0)
    {
      operation' := operation;
      if operation'.source != LocalUndo && operation'.source != LocalRedo {
        operation' := operation'.(source := Local);
      }
      if operation'.id == 0 {
        var id := GenerateOperationId();
        operation' := operation'.(id := id);
      }
      var d, e;
      ok, d, e := ApplyTo(operation'.edit, document);
      if !ok {
        return;
      }
      document, operation' := d, operation'.(edit := e);
      if operation'.source == Local {
        undoRedoManager.AddOperation(operation');
      }
    }

    method ApplyRemoteOperation(operation: Operation) returns (ok: bool)
      modifies this`document, undoRedoManager
      ensures Contents() == Step(old(Contents()), RemoteApply(operation), undoRedoManager.maxHistorySize)
      ensures ok == Applicable(operation.edit, old(document))
    {
      var operation' := operation.(source := Remote);
      var d, e;
      ok, d, e := ApplyTo(operation'.edit, document);
      if !ok {
        return;
      }
      document, operation' := d, operation'.(edit := e);
      undoRedoManager.TransformHistory(operation');
    }

    method Undo() returns (outcome: Outcome)
      modifies this`document, undoRedoManager
      ensures Contents() == Step(old(Contents()), Event.Undo, undoRedoManager.maxHistorySize)
      ensures outcome == AfterUndo(old(Contents())).1
    {
      document, outcome := undoRedoManager.Undo(document);
    }

    method Redo() returns (outcome: Outcome)
      modifies this`document, undoRedoManager
      ensures Contents() == Step(old(Contents()), Event.Redo, undoRedoManager.maxHistorySize)
      ensures outcome == AfterRedo(old(Contents())).1
    {
      document, outcome := undoRedoManager.Redo(document);
    }
  }
}
