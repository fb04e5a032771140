# Verified model of the collaborative editor's core

Dafny 4.11 model of three groups of code in this repository, with proofs of what they promise.
`dafny verify dfyconfig.toml` checks everything.

1. **Operational transformation and history** (`src/common/ot`). `Operations.dfy` has the edits with
   `apply`, `transform` and `inverse`, and characterises TP1 exactly. `OperationLogs.dfy` lifts it to
   whole logs and proves TP2 for deletions. `History.dfy` has the undo and redo stacks as values, the
   replay invariant and its preservation over every run. `RemoteEdits.dfy` says where remote edits
   keep the history's meaning. `DocumentManager.dfy` holds the two classes, each method proved to be
   one step of that state machine.
2. **Text representations**. `LineText.dfy` says what a line vector means as flat text, and
   `Document.dfy` is the editor's document, every edit proved to be one splice of that text.
   `CrdtOrder.dfy`, `Crdt.dfy`, `CrdtReplicas.dfy` and `CrdtDocument.dfy` are the position-ordered
   character list: the total order, replica convergence with and without shared positions, Logoot
   positions. `FileSystem.dfy` is the directory tree.
3. **Bundled WebSocket++ protocol code** (`install/include/websocketpp`). `WriteQueue.dfy` is the
   outgoing queue under every interleaving of threads and `ConnectionWriter.dfy` its methods;
   `Lifecycle.dfy` and `ConnectionLife.dfy` do the same for the session state. `Hybi00.dfy` is the
   streaming parser, `Utf8.dfy` the table-driven validator against RFC 3629, `Masking.dfy`
   word-at-a-time payload masking (RFC 6455), `Md5.dfy` the buffering and padding of RFC 1321 and
   `Base64.dfy` the codec of RFC 4648.

Each class is paired with functions on values. A method's `ensures` gives its result or its whole new
state through such a function, and the lemmas are about the functions.

## Where the code differs from what it promises

Each of these is kept as the code has it, with a lemma that says exactly when the promise holds or
gives a concrete input where it does not.

- Two insertions at one position diverge unless their texts commute under concatenation, and an
  insertion strictly inside a concurrent deletion diverges unless it is empty: `Operations.TP1`,
  `OperationLogs.TiedInsertsDiverge`.
- Past an insertion and a deletion in either order a third edit can come to two places, which breaks
  TP2; `OperationLogs.MixedTP2` says exactly when, `OperationLogs.MixedTP2Fails` gives the smallest
  case. Past two deletions or two insertions it never does (`OperationLogs.TP2`,
  `OperationLogs.InsertionsTP2`).
- A deletion widened by an insertion inside it keeps its old, shorter recorded text:
  `OperationLogs.TransformKeepsRecord`.
- `inverse` of a deletion of length zero throws, after its entry has left the undo stack:
  `History.UndoKeepsConsistent`.
- `clone()` drops the operation id, so undo and redo always link to id 0 and never to the original
  operation as the comments say: `History.LinksAreLost`.
- `transformHistory` does not re-base the remote operation from entry to entry. The history still
  explains the document exactly when its rewritten entries can be taken back and carried out one by
  one (`History.RemoteConsistentExactly`), which holds for every edit that lies wholly right or
  wholly left of each entry (`RemoteEdits.ClearRemoteIsAllowed`); a single recorded deletion is
  broken exactly by a non-empty insertion strictly inside it (`RemoteEdits.DeletionBrokenExactly`),
  a single recorded insertion exactly by an edit after which its text no longer stands where the
  transform looks for it (`RemoteEdits.InsertionBrokenExactly`).
  A case that fails: `History.OverlappingRemoteBreaksReplay`.
- `setText` adds an empty line after a text that ends in a newline: `Document.Document.SetText`.
- A multi-line `replaceText` is two records and two version steps: `Document.Document.ReplaceText`.
- Logoot positions run out in front of a component 0, after as many inserts at the front as the first
  component has binary digits: `CrdtDocument.LogootBetweenExactly`, `CrdtDocument.FrontRunsOut`.
- A remote delete that overtakes its insert is forgotten: `CrdtReplicas.OvertakingDeleteDiverges`.
- `getNodeByPath(getPath(n))` misses nodes when a name on the way from the root is empty or contains a
  slash, and nothing stops `create` or `rename` from making such names. It also misses every node of a
  tree whose root has a name, unless that name has only slashes, or ends in slashes after a path that
  happens to lead to a directory: `FileSystem.PathRoundTrip`.
- `addNode` takes any node. A parent that lists the node goes on listing it, and a directory added at or
  below itself makes a cycle. A node that `removeNode` took out keeps its parent link but is not listed,
  so it can be added again. What was in order stays so exactly when no parent lists the node and the directory
  is not the node or below it: `FileSystem.AddNode`, `FileSystem.RemoveThenAdd`.
- The fail handler goes by the error recorded last: for an HTTP request that was answered normally it
  fires exactly if a later step overwrites the record before the shutdown is done
  (`Lifecycle.LateRecordFiresFail`, `Lifecycle.AnyRecordFiresFail`). A timer that reports late does so
  (`Lifecycle.LateTimerFiresFail`). So does a response sent without an error, which takes
  `defer_http_response` and then `send_http_response` after the shutdown has started.
- A read after a protocol error, which `resume_reading` asks for when `drop_on_protocol_error` is false,
  never ends: the hybi-00 parser takes no octet and reports no error (`Hybi00.Reader.StuckRead`).
- The comment on `word_mask_circ` says that whole words are written up to the end of the buffer; the
  code writes exactly `length` octets, which is what `Masking.WordMaskCirc` states.

## Model

| member | source | states |
|---|---|---|
| Operations.TP1 | src/common/ot/opereation.cpp:27-187 | Both transformed operations apply, and the two execution orders give one document if and only if the pair is compatible: inserts at different positions or with commuting texts; an insert not strictly inside the delete, or empty; two deletes always. |
| Operations.InsertInsertTP1 | src/common/ot/opereation.cpp:27-37 | Two inserts converge iff their positions differ or their texts commute. |
| Operations.InsertDeleteTP1 | src/common/ot/opereation.cpp:39-57 | An insert and a delete converge iff the insert is not strictly inside the deleted range or is empty. |
| Operations.DeleteDeleteTP1 | src/common/ot/opereation.cpp:127-187 | Two deletes always converge. |
| Operations.TransformedSpan | src/common/ot/opereation.cpp:127-187 | The six branches of the delete/delete transform move both endpoints of the range by one map: the number of surviving characters to their left. |
| Operations.SpliceChars | src/common/ot/opereation.cpp:18-108 | Character by character, an edit leaves what stood before and after it and puts its text between. |
| OperationLogs.OperationPastQueue | src/common/ot/history.h:129-137 | One operation folded through a queue of any length: it stays applicable, and operation-then-queue equals queue-then-operation whenever every pair met is compatible. |
| OperationLogs.FoldPastCons | src/common/ot/history.h:129-137 | Folding the other way round: passing a whole log equals passing its first operation and then its rest, although every entry is rewritten on the way. |
| OperationLogs.LogsConverge | src/common/ot/history.h:129-137 | Two sites with logs of any lengths that fold each other's log end with one document when every pair met on the way is compatible. |
| OperationLogs.DeleteLogsConverge | src/common/ot/opereation.cpp:127-187 | Delete-only logs of any lengths converge unconditionally, and every transformed delete applies. |
| OperationLogs.TP2 | src/common/ot/opereation.cpp:39-187 | An edit transformed past two concurrent deletes is the same, as an insertion, or has one position and length, as a deletion, whichever it passes first. |
| OperationLogs.InsertionsTP2 | src/common/ot/opereation.cpp:27-125 | Past two concurrent insertions, tied or not, any third edit comes out equal in either order. |
| OperationLogs.MixedTP2 | src/common/ot/opereation.cpp:27-187 | Past an insertion and a deletion a third edit comes out the same in either order if and only if the insertion is empty or the positions avoid three patterns: insertion inside the deleted range, at its end, or at its start under a deletion reaching across. |
| OperationLogs.MixedTP2Fails | src/common/ot/opereation.cpp:39-57 | A concrete insertion, deletion and third insertion that come to two places. |
| OperationLogs.SurviveBothWays | src/common/ot/opereation.cpp:127-187 | Two delete-only logs of any lengths, each followed by the other folded, move every position of the document to the same place. |
| OperationLogs.ThirdSiteAgrees | src/common/ot/opereation.cpp:39-187 | TP2 for logs: a third site's insertion or deletion comes out the same past two concurrent delete-only logs of any lengths in either order. |
| OperationLogs.TransformKeepsRecord | src/common/ot/opereation.cpp:110-187 | The recorded text of a transformed delete is the text it now removes, except exactly when a non-empty insert strictly inside it widened it. |
| OperationLogs.TiedInsertsDiverge | src/common/ot/opereation.cpp:32-35 | A concrete pair of inserts at one position after which the sites differ. |
| History.InverseRestores | src/common/ot/opereation.cpp:63-196 | The inverse of an exact edit applies to its result and gives back the document; it is missing exactly for deletes of length zero. |
| History.LocalKeepsConsistent | src/common/ot/undo_redo_manager.cpp:11-27 | A local edit whose record is absent or right keeps the replay invariant; the base moves only when the stack is trimmed. |
| History.LocalConsistentExactly | src/common/ot/document_manager.cpp:34-74 | With room for history it keeps the invariant if and only if its record is absent or right. |
| History.UndoKeepsConsistent | src/common/ot/undo_redo_manager.cpp:29-64 | Undo lands on the replay of the shorter stack and keeps redo replayable; it is refused only on an empty stack and throws exactly for a delete of length zero, whose entry is then lost. |
| History.RedoKeepsConsistent | src/common/ot/undo_redo_manager.cpp:66-101 | Redo succeeds on every non-empty redo stack and keeps the invariant. |
| History.UndoneState | src/common/ot/undo_redo_manager.cpp:29-64 | k undos reach the replay of all but the last k entries, also past entries whose undo throws; if none throws they stand reversed on the redo stack. |
| History.UndosThenRedos | src/common/ot/undo_redo_manager.cpp:29-101 | k undos of entries other than deletions of length zero, followed by k redos, restore the document and both stacks. |
| History.UnwindInvertsReplay | src/common/ot/undo_redo_manager.cpp:29-64 | Taking the entries back from the top, each checked against the text, is the exact inverse of replaying them: a state has at most one base. |
| History.RemoteConsistentExactly | src/common/ot/undo_redo_manager.cpp:119-147 | After a remote edit anywhere, some base explains the state if and only if the rewritten entries can be taken back one by one and the rewritten redo entries carried out one by one, a computation on the state before the edit; the base is then what taking back reaches. |
| History.RemoteKeepsConsistent | src/common/ot/document_manager.cpp:76-105 | A remote edit that meets that condition keeps the replay invariant, redo and the history bound included. |
| History.RunKeepsConsistent | src/common/ot/document_manager.cpp:21-137 | Over every run of local edits, undos, redos, remote edits that leave the history explained, and resets: the document is the undo stack replayed from the base, redo is replayable, and the stacks together stay within the limit. |
| History.BaseMovesOnlyOnTrim | src/common/ot/undo_redo_manager.cpp:154-158 | Between resets and remote edits the base changes only when a full stack is trimmed, and then by its oldest entry. |
| History.BaseStaysPut | src/common/ot/undo_redo_manager.cpp:11-101 | Over every run of local edits, undos and redos that never pushes onto a full stack, the document stays the replay of the undo stack from the base it started with. |
| History.RoomKeepsEntries | src/common/ot/undo_redo_manager.cpp:154-158 | A run no longer than the room left in the history is such a run. |
| History.LinksAreLost | src/common/ot/undo_redo_manager.cpp:44-46 | In every consistent state undo and redo operations carry related id 0. |
| History.UndoReports | src/common/ot/undo_redo_manager.cpp:41-63 | The operation undo reports is marked as an undo and turns the document into what undo left. |
| History.RedoReports | src/common/ot/undo_redo_manager.cpp:78-100 | The operation redo reports is marked as a redo, is exact where it applied and turns the document into what redo left. |
| History.FollowerFollows | src/common/ot/document_manager.cpp:5-14 | Over every run of edits, remote edits, undos and redos, a second site that applies what the operation callback reports has the same document. |
| History.NotForHistory | src/common/ot/document_manager.cpp:57-61 | An operation that is itself an undo or redo changes the document and leaves both stacks alone. |
| History.OutOfRange | src/common/ot/document_manager.cpp:52-89 | A local or remote edit out of range changes nothing. |
| History.IdsAreGivenOut | src/common/ot/document_manager.cpp:47-50 | Over every run of local calls all ids are non-zero, those that were set stay, and those given out grow past the counter and are distinct. |
| History.PreparedIsApplied | src/common/ot/document_manager.cpp:41-55 | The operation handed on applies as it came, is marked local unless it is an undo or redo, and has a missing record filled in exactly. |
| History.TransformTags | src/common/ot/opereation.cpp:27-187 | A transformed operation keeps source, id and link, unless it is a deletion past a deletion, which starts afresh. |
| History.OverlappingRemoteBreaksReplay | src/common/ot/undo_redo_manager.cpp:126-135 | A concrete remote insert inside recorded history after which no base explains the state. |
| RemoteEdits.ShiftedEdit | src/common/ot/opereation.cpp:27-187 | An edit right of a remote one, transformed, does after it what it did before it. |
| RemoteEdits.EditLeftOfRemote | src/common/ot/opereation.cpp:27-187 | An edit left of a remote one does after it, as it is, what it did before it, the remote one moved by what the edit adds or removes. |
| RemoteEdits.SparedIsUntouched | src/common/ot/opereation.cpp:27-187 | The position guards under which the transform returns the operation unchanged. |
| RemoteEdits.ClearReplays | src/common/ot/undo_redo_manager.cpp:119-147 | A log of any length, rewritten entry by entry against the one remote edit that lies wholly right or left of each, replays from the carried-back edit's result to the remote edit applied to its old result. |
| RemoteEdits.ClearRemoteIsAllowed | src/common/ot/undo_redo_manager.cpp:119-147 | Such a remote edit leaves the history explained, and its carried-back form moves the base. |
| RemoteEdits.LeftRemoteIsAllowed | src/common/ot/undo_redo_manager.cpp:119-147 | So does every remote edit at or left of everything recorded, which moves the base itself. |
| RemoteEdits.RightRemoteIsAllowed | src/common/ot/undo_redo_manager.cpp:119-147 | And every remote edit at or right of everything recorded, its position counted back entry by entry; the undo entries stay as they were. |
| RemoteEdits.DeletionBrokenExactly | src/common/ot/opereation.cpp:110-187 | With one recorded deletion the history stays explained if and only if the remote edit is not a non-empty insertion strictly inside it. |
| RemoteEdits.InsertionBrokenExactly | src/common/ot/opereation.cpp:27-61 | With one recorded insertion it stays explained if and only if its text stands after the remote edit: an insertion k characters in must begin like the rest of the text that it precedes, a deletion reaching into the text must be followed by what it took. |
| RemoteEdits.AppendIsAllowed | src/common/ot/undo_redo_manager.cpp:126-135 | A remote insertion that is not left of the history and is allowed. |
| RemoteEdits.RemoteCommutesWithUndo | src/common/ot/undo_redo_manager.cpp:119-147 | Remote-then-undo is undo-then-remote, whether or not the undo throws: same document, same stacks, same outcome. |
| RemoteEdits.RemoteCommutesWithRedo | src/common/ot/undo_redo_manager.cpp:137-146 | Remote-then-redo is redo-then-remote. |
| RemoteEdits.RemoteCommutesWithUndos | src/common/ot/undo_redo_manager.cpp:119-147 | The same for any number of undos, on stacks of any length. |
| RemoteEdits.RemoteCommutesWithRedos | src/common/ot/undo_redo_manager.cpp:119-147 | And for any number of redos. |
| RemoteEdits.UndosKeepRemote | src/common/ot/undo_redo_manager.cpp:29-147 | Any number of undos after a remote edit clear of the history leaves the carried-back remote edit on the document the undos alone would reach. |
| DocumentManager.ApplyTo | src/common/ot/opereation.cpp:96-108 | apply reports failure exactly when out of range, and otherwise gives the spliced document and the edit with a missing record filled in. |
| DocumentManager.UndoRedoManager.TrimUndoStack | src/common/ot/undo_redo_manager.cpp:154-158 | The trimming loop keeps exactly the newest entries. |
| DocumentManager.UndoRedoManager.AddOperation | src/common/ot/undo_redo_manager.cpp:11-27 | Only local operations enter; redo is cleared and the oldest entries dropped past the limit. |
| DocumentManager.UndoRedoManager.Undo | src/common/ot/undo_redo_manager.cpp:29-64 | Document, both stacks and the outcome, the throwing path included, are those of the specified undo. |
| DocumentManager.UndoRedoManager.Redo | src/common/ot/undo_redo_manager.cpp:66-101 | Likewise for redo. |
| DocumentManager.UndoRedoManager.TransformHistory | src/common/ot/undo_redo_manager.cpp:119-147 | Both in-place loops transform every entry against the one operation. |
| DocumentManager.DocumentManager.SetContent | src/common/ot/document_manager.cpp:21-32 | The reset step: new text, empty history. |
| DocumentManager.DocumentManager.ApplyLocalOperation | src/common/ot/document_manager.cpp:34-74 | The local step of the state machine; the operation comes back with source, id and record set, and the id counter moves only when the id was unset. |
| DocumentManager.DocumentManager.ApplyRemoteOperation | src/common/ot/document_manager.cpp:76-105 | The remote step; refused exactly when the edit is out of range. |
| DocumentManager.DocumentManager.Undo | src/common/ot/document_manager.cpp:107-121 | The undo step. |
| DocumentManager.DocumentManager.Redo | src/common/ot/document_manager.cpp:123-137 | The redo step. |
| LineText.JoinSplit | include/client/editor/document.h:219-263 | Every text is the text of its lines. |
| LineText.JoinInjective | include/client/editor/document.h:205-216 | A text has one well-formed line vector. |
| LineText.CursorCuts | include/client/editor/document.h:645-664 | A cursor cuts the text exactly at its linear offset. |
| LineText.CursorUnique | include/client/editor/document.h:618-642 | A position of the text has one cursor. |
| LineText.TextAcrossLines | include/client/editor/document.h:706-734 | The text between cursors of different lines is the rest of one line, the lines between and the head of the other. |
| LineText.InsertLines | include/client/editor/document.h:771-836 | Weaving several lines in at a cursor is a splice of the flat text. |
| LineText.RemoveBetween | include/client/editor/document.h:839-899 | Joining what is left of one cursor to what is right of another removes exactly the text between. |
| Document.Document.GetText | include/client/editor/document.h:205-216 | The loop gives the flat text, without a newline after the last line. |
| Document.Document.CursorToLinear | include/client/editor/document.h:645-664 | The offset of the cursor, with the column clipped to the line and the line to the document. |
| Document.Document.LinearToCursor | include/client/editor/document.h:618-642 | A valid cursor whose offset is the position, clipped at the end of the text. |
| Document.Document.GetTextRange | include/client/editor/document.h:684-703 | The slice of the flat text, clipped at its end; empty for an invalid start. |
| Document.Document.GetTextBetween | include/client/editor/document.h:706-734 | The slice between two cursors given in either order. |
| Document.Document.RecordOperation | include/client/editor/document.h:749-760 | The record is appended, the oldest dropped past the limit, and redo cleared. |
| Document.NewestThousand | include/client/editor/document.h:749-760 | Over every run of records the history is the newest thousand of them, in order. |
| Document.Document.SetText | include/client/editor/document.h:219-263 | The new text, with one newline more if it ended in one. |
| Document.Document.InsertText | include/client/editor/document.h:282-322 | The text becomes its splice at the cursor's offset; an invalid cursor changes nothing. |
| Document.Document.InsertMultilineText | include/client/editor/document.h:771-836 | The same through the line-inserting loop. |
| Document.Document.DeleteText | include/client/editor/document.h:325-374 | That many characters from the offset on are gone, as far as the text goes; the cursor keeps its offset. |
| Document.Document.DeleteMultilineText | include/client/editor/document.h:839-899 | The same across lines. |
| Document.Document.ReplaceText | include/client/editor/document.h:377-434 | One splice in every branch, recorded as one operation or as two. |
| CrdtOrder.TotalOrder | include/common/crdt/crdt_document.h:49-69 | compareTo is antisymmetric and total; it ties exactly when position, timestamp and author agree. |
| CrdtOrder.Transitive | include/common/crdt/crdt_document.h:49-69 | compareTo is transitive, strictly if either comparison is strict. |
| CrdtOrder.TiesBroken | include/common/crdt/crdt_document.h:63-68 | At one position the earlier timestamp comes first; at one time the author whose name is smaller where the two first differ, or is the beginning of the other. |
| CrdtOrder.ComparePositions | include/common/crdt/crdt_document.h:50-61 | The comparison loop computes the lexicographic order. |
| Crdt.InsertKeepsSorted | include/common/crdt/crdt_document.h:174-177 | Insertion at the lower bound keeps the list sorted. |
| CrdtReplicas.SameCharsSameList | include/common/crdt/crdt_document.h:174-177 | A list strictly ordered by position, timestamp and author is determined by the characters in it. |
| CrdtReplicas.RemoveMembersOf | include/common/crdt/crdt_document.h:140-148 | Among characters that share a position a delete takes exactly the first. |
| CrdtReplicas.EventsCommute | include/common/crdt/crdt_document.h:126-148 | Two inserts that do not tie, two deletes, or an insert and a delete elsewhere may be received in either order. |
| CrdtReplicas.MoveLast | include/common/crdt/crdt_document.h:126-148 | An event of a log that is independent of all later ones might as well come last. |
| CrdtReplicas.TiedReplicasConverge | include/common/crdt/crdt_document.h:126-148 | Replicas that receive the same events, counted, in any two orders in which deletes follow the inserts at their position hold the same text, even where inserts share positions and differ by timestamp or author only. |
| CrdtReplicas.ReplicaHoldsSurvivors | include/common/crdt/crdt_document.h:126-148 | After any log, in any order and with shared positions, a replica holds exactly the characters for which every later delete of their position found another before them, in strict order; a counter per character decides it. |
| CrdtReplicas.AloneSurvives | include/common/crdt/crdt_document.h:126-148 | A character with its position to itself is held exactly if no delete of the position follows its insert. |
| CrdtReplicas.ReplicasAgreeExactly | include/common/crdt/crdt_document.h:126-148 | Two replicas hold one list if and only if the same characters survive in their logs. |
| CrdtReplicas.SurvivesByRank | include/common/crdt/crdt_document.h:140-148 | When deletes follow their inserts, a character survives exactly if at least as many inserted before it at its position as the position was deleted times. |
| CrdtReplicas.ReplicasConvergeExactly | include/common/crdt/crdt_document.h:126-148 | Replicas with the same inserts, in any orders in which deletes follow the inserts at their position, hold the same list if and only if at every position they deleted equally many of the characters inserted there. |
| CrdtReplicas.OvertakingDeleteDiverges | include/common/crdt/crdt_document.h:140-148 | For every character, a delete received before its insert makes replicas differ. |
| CrdtDocument.LogootBetweenExactly | include/common/crdt/crdt_document.h:197-249 | A generated position is strictly between its neighbours if and only if the right one leaves room: its first component past an empty or prefix left neighbour is at least 1, or is 0 with more components after it. |
| CrdtDocument.LogootShape | include/common/crdt/crdt_document.h:197-249 | How many components a generated position has and shares with its neighbours in each branch, a gap adding no level; different draws give different positions wherever a draw is used. |
| CrdtDocument.HalfTruncates | include/common/crdt/crdt_document.h:207-208 | Halving rounds toward zero, for negative components too. |
| CrdtDocument.LocalInsertLands | include/common/crdt/crdt_document.h:102-123 | With room, the character lands at the requested index, the text is the splice there and the list stays strictly ordered, also where other characters share positions; distinct positions stay distinct and increasing. |
| CrdtDocument.LocalInsertNeedsRoom | include/common/crdt/crdt_document.h:102-123 | Without room, in any strictly ordered list, the character goes past its index, unless the right neighbour has the very position and a timestamp no earlier, and then positions no longer increase; with the latest timestamp at its position it always goes past. |
| CrdtDocument.FrontRunsOut | include/common/crdt/crdt_document.h:202-208 | In front of any first component d >= 1 there is room for exactly as many inserts as d has binary digits, at most seven for a drawn first position. |
| CrdtDocument.CrdtDocument.LowerBound | include/common/crdt/crdt_document.h:174-177 | The binary search finds the first character not below the new one. |
| CrdtDocument.CrdtDocument.LocalInsert | include/common/crdt/crdt_document.h:102-123 | The character gets the position generated between the neighbours of the index and goes where that position sorts. |
| CrdtDocument.CrdtDocument.RemoteInsert | include/common/crdt/crdt_document.h:126-129 | A sorted list stays sorted and receives the character. |
| CrdtDocument.CrdtDocument.LocalDelete | include/common/crdt/crdt_document.h:132-137 | The character at the index goes; an index past the end changes nothing. |
| CrdtDocument.CrdtDocument.RemoteDelete | include/common/crdt/crdt_document.h:140-148 | The first character at the position goes, if there is one. |
| CrdtDocument.CrdtDocument.GetText | include/common/crdt/crdt_document.h:151-158 | The values in order. |
| CrdtDocument.CrdtDocument.ReceiveAll | include/common/crdt/crdt_document.h:126-148 | A replica fed a log through the methods ends in the state the convergence lemmas are about. |
| FileSystem.Climb | src/common/models/file_system.cpp:110-116 | Following parents from any attached node ends at the root. |
| FileSystem.LookupConcat | src/common/models/file_system.cpp:107-141 | A path that goes on after a name leads on from the directory its first part leads to, or nowhere. |
| FileSystem.NameLeadsToChild | src/common/models/file_system.cpp:124-140 | A name leads to the child of that name, and on from it exactly when that is a directory. |
| FileSystem.EndsInSlash | src/common/models/file_system.cpp:107-141 | The empty path, and a path ending in one slash after a name, lead nowhere. |
| FileSystem.LookupFindsGoodNodes | src/common/models/file_system.cpp:107-141 | A lookup only ever finds nodes whose names down from the start are non-empty and slash-free. |
| FileSystem.PathRoundTrip | src/common/models/file_system.cpp:7-141 | From any attached directory and for any root name, looking up a node's own path finds it if and only if every name below the root is non-empty and slash-free and the path comes back through the root's name: that name is empty or only slashes, or ends in enough slashes after a path leading to a directory. |
| FileSystem.PathsDiffer | src/common/models/file_system.cpp:7-40 | Different well-named nodes have different paths. |
| FileSystem.AddNode | src/common/models/file_system.cpp:42-51 | Any node, with everything below it and any parent link, is attached under its name unless the name is taken. The directory's tree and what is below the node are one tree if and only if the node was not in that tree; a parent that listed it goes on listing it; and all stays in order if and only if the parent link, if any, led to a directory in order that did not list it, and the directory was not the node or below it. |
| FileSystem.Create | src/common/models/file_system.cpp:70-85 | The tree grows by exactly the new node, or is unchanged when the name is taken. |
| FileSystem.RenameNode | src/common/models/file_system.cpp:53-68 | The child moves to a free name, nothing else changes, and the tree stays a tree. |
| FileSystem.RemoveNode | include/common/models/file_system.h:95-102 | What remains attached is a tree: everything but the child and what lies below it, which is a subtree of its own; the child keeps its parent link but is not listed. |
| FileSystem.RemoveThenAdd | include/common/models/file_system.h:95-102 | Taking a child out and adding it elsewhere in its tree, not at or below itself, moves it with all it holds and gives back a tree of the same nodes; back to its own directory it changes nothing; where the name is taken the child is lost. |
| WriteQueue.StepKeepsInv | install/include/websocketpp/impl/connection_impl.hpp:1793-1928 | Every critical section keeps the queue invariant: one owner of the write flag, conservation, no lost wakeup, nothing after a terminal message. |
| WriteQueue.EveryRunIsSafe | install/include/websocketpp/impl/connection_impl.hpp:104-152 | In every interleaving at most one write is outstanding; written, lost, in-flight and queued messages together are what was pushed, in order; the wire is a prefix of it; the byte count is right; a waiting message always has a write_frame coming or a write in progress. |
| WriteQueue.BuffersAt | install/include/websocketpp/impl/connection_impl.hpp:1829-1837 | A batch of messages makes two buffers each, header first and then payload, in order. |
| WriteQueue.WireCarriesMessages | install/include/websocketpp/impl/connection_impl.hpp:1793-1886 | In every run the wire is header and payload, in that order, of the messages pushed first, the write in progress included. |
| WriteQueue.TotalIsLength | install/include/websocketpp/impl/connection_impl.hpp:2210-2225 | The buffered amount is the number of payload octets queued, headers left out. |
| WriteQueue.WakeupsExactly | install/include/websocketpp/impl/connection_impl.hpp:139-149 | A push owes a write_frame exactly when nobody is writing, the end of a write exactly when messages wait and the connection goes on. |
| WriteQueue.NothingAfterStop | install/include/websocketpp/impl/connection_impl.hpp:1889-1928 | After a failed write or a terminal message no run gives the transport another byte. |
| WriteQueue.StepMakesProgress | install/include/websocketpp/impl/connection_impl.hpp:1793-1928 | Every step but a push uses up pending work. |
| WriteQueue.RunsComeToRest | install/include/websocketpp/impl/connection_impl.hpp:1793-1928 | Without further pushes every run ends within a bound known at its start. |
| WriteQueue.RestMeansAllWritten | install/include/websocketpp/impl/connection_impl.hpp:1793-1928 | At rest after no failed write, exactly the messages up to and including the first terminal one are written, in order, the rest still queued: all of them if none is terminal. After a failed write the connection is terminated and a prefix was taken. |
| ConnectionWriter.Connection.WritePush | install/include/websocketpp/impl/connection_impl.hpp:2210-2225 | The message is queued and its payload counted. |
| ConnectionWriter.Connection.WritePop | install/include/websocketpp/impl/connection_impl.hpp:2228-2248 | The first message leaves the queue and the count; an empty queue gives none. |
| ConnectionWriter.Connection.Enqueue | install/include/websocketpp/impl/connection_impl.hpp:104-152 | The push step; a write_frame is owed exactly when no write is in progress. |
| ConnectionWriter.Connection.DispatchWriteFrame | install/include/websocketpp/impl/connection_impl.hpp:139-149 | The dispatch step: a write_frame that was owed is now coming. |
| ConnectionWriter.Connection.PullBatch | install/include/websocketpp/impl/connection_impl.hpp:1793-1840 | The loop takes every message up to and including the first terminal one. |
| ConnectionWriter.Connection.ClaimMessages | install/include/websocketpp/impl/connection_impl.hpp:1793-1842 | The first half of write_frame is its step. |
| ConnectionWriter.Connection.StartWrite | install/include/websocketpp/impl/connection_impl.hpp:1842-1886 | The second half: header and payload of every message, in order, go to one transport write. |
| ConnectionWriter.Connection.TakeCompletion | install/include/websocketpp/impl/connection_impl.hpp:1889-1904 | The first half of handle_write_frame is its step. |
| ConnectionWriter.Connection.Release | install/include/websocketpp/impl/connection_impl.hpp:1904-1928 | Terminates after an error or a terminal message, otherwise frees the flag and owes a write_frame if messages wait. |
| Lifecycle.StepKeepsInv | install/include/websocketpp/impl/connection_impl.hpp:1351-1431 | Every handler keeps the invariant and never moves the session back; from connecting it cannot go to closing. |
| Lifecycle.RunKeepsInv | install/include/websocketpp/impl/connection_impl.hpp:1698-1790 | The same over every run of handlers. |
| Lifecycle.SessionMoves | install/include/websocketpp/impl/connection_impl.hpp:1351-2158 | Over all states and steps: a connection opens, with one call of the open handler, exactly when the response that accepts an upgrade has been written; it starts to close exactly when a close frame is sent; it closes exactly on the listed errors, refusals, replies and terminal writes; and the close is clean exactly once both close frames were seen. |
| Lifecycle.HandshakeMoves | install/include/websocketpp/impl/connection_impl.hpp:716-960 | The handshake stages follow one another and nothing else moves them; the plain-HTTP mark and the responses owed change exactly where said. |
| Lifecycle.StatusMoves | install/include/websocketpp/impl/connection_impl.hpp:1296-1309 | The status is chosen only while the request is processed, and no response goes out without one. |
| Lifecycle.RunRecords | install/include/websocketpp/impl/connection_impl.hpp:1698-1748 | Over every run the recorded error is the one the last recording step recorded, by the guards of its handler. |
| Lifecycle.HandlersFireOnce | install/include/websocketpp/impl/connection_impl.hpp:1751-1790 | Over every run at most one of fail and close fires, at most once, and none before a shutdown is done; from then on close has fired iff the connection had opened, and fail iff it had not and the error recorded last was not that of an ended HTTP request. |
| Lifecycle.LateRecordFiresFail | install/include/websocketpp/impl/connection_impl.hpp:1764-1769 | From every ended HTTP request and over every run to the end of its shutdown, the fail handler fires if and only if the last step that recorded anything recorded something else. |
| Lifecycle.AnyRecordFiresFail | install/include/websocketpp/impl/connection_impl.hpp:1764-1769 | When transport and timers do not report that very error, it fires if and only if any step recorded anything. |
| Lifecycle.HttpRequestEnds | install/include/websocketpp/impl/connection_impl.hpp:1393-1419 | A run of an ordinary HTTP request that ends with that record. |
| Lifecycle.LateTimerFiresFail | install/include/websocketpp/impl/connection_impl.hpp:1666-1679 | A run: that request, a timer that reports late, the end of the shutdown; the fail handler fires. |
| Lifecycle.PeerCloses | install/include/websocketpp/impl/connection_impl.hpp:1937-2055 | A run from the start through an upgrade and a close asked for by the peer: open and close handler fire once, the close is clean. |
| Lifecycle.UserCloses | install/include/websocketpp/impl/connection_impl.hpp:304-337 | The same for a close asked for by the application. |
| ConnectionLife.Connection.Terminate | install/include/websocketpp/impl/connection_impl.hpp:1698-1748 | Records the error and starts at most one shutdown, of the kind the session state calls for. |
| ConnectionLife.Connection.HandleTerminate | install/include/websocketpp/impl/connection_impl.hpp:1751-1790 | The handler step at the end of a shutdown. |
| ConnectionLife.Connection.StartConnection | install/include/websocketpp/impl/connection_impl.hpp:716-737 | The start step. |
| ConnectionLife.Connection.HandleTransportInit | install/include/websocketpp/impl/connection_impl.hpp:740-771 | The transport-ready step of a server. |
| ConnectionLife.Connection.HandleReadHandshake | install/include/websocketpp/impl/connection_impl.hpp:804-941 | The guards of the handshake read, the boundary checks that terminate, and the move to request processing. |
| ConnectionLife.Connection.WriteHttpResponse | install/include/websocketpp/impl/connection_impl.hpp:1296-1348 | The response step, with the error that is recorded for an unset status. |
| ConnectionLife.Connection.WriteHttpResponseError | install/include/websocketpp/impl/connection_impl.hpp:949-960 | Refusal of a request while it is still being read. |
| ConnectionLife.Connection.HandleWriteHttpResponse | install/include/websocketpp/impl/connection_impl.hpp:1351-1431 | Opens the connection, ends it, or reports an error, by status and session state. |
| ConnectionLife.Connection.Close | install/include/websocketpp/impl/connection_impl.hpp:304-323 | Only an open connection starts the closing handshake. |
| ConnectionLife.Connection.HandleReadFrame | install/include/websocketpp/impl/connection_impl.hpp:965-1015 | The guards of the read loop, for a server; the loop runs exactly when there is no error and the connection is past its handshake. |
| ConnectionLife.Connection.HandleConsumeError | install/include/websocketpp/impl/connection_impl.hpp:1058-1079 | A protocol error drops the connection, or closes it, or terminates when closing fails. |
| ConnectionLife.Connection.ProcessControlFrame | install/include/websocketpp/impl/connection_impl.hpp:1937-2055 | What a close frame does in each session state. |
| Utf8.TableIsNext | install/include/websocketpp/utf8_validator.hpp:45-60 | For every state and octet, the 400-entry table gives the transition of the automaton written out from the octet ranges. |
| Utf8.FeedConcat | install/include/websocketpp/utf8_validator.hpp:105-117 | Decoding in chunks is decoding the whole, registers and code points included. |
| Utf8.RejectIsAbsorbing | install/include/websocketpp/utf8_validator.hpp:69-78 | No continuation leaves the reject state. |
| Utf8.CharIsEncoding | install/include/websocketpp/utf8_validator.hpp:69-78 | A character of the grammar of RFC 3629 section 4 is the encoding of section 3 of the scalar value it spells. |
| Utf8.EncodingIsChar | install/include/websocketpp/utf8_validator.hpp:69-78 | And every encoding is such a character, spelling that value. |
| Utf8.CharRuns | install/include/websocketpp/utf8_validator.hpp:69-78 | A character returns the decoder to accept with its scalar value in the code point register. |
| Utf8.EncodingsAccepted | install/include/websocketpp/utf8_validator.hpp:105-126 | The encoding of any scalar values is accepted and yields them. |
| Utf8.AcceptedIsEncoding | install/include/websocketpp/utf8_validator.hpp:105-126 | Everything accepted is the encoding of the code points reported. |
| Utf8.ValidIsUtf8 | install/include/websocketpp/utf8_validator.hpp:143-149 | A string is valid iff it is well-formed by section 4 of RFC 3629, iff it encodes scalar values; the code points are those values. |
| Utf8.NoFrameEnd | install/include/websocketpp/utf8_validator.hpp:143-149 | A valid string never contains 0xff. |
| Utf8.DecodeOctet | install/include/websocketpp/utf8_validator.hpp:69-78 | The table lookup is one step of the automaton. |
| Utf8.Validator.Decode | install/include/websocketpp/utf8_validator.hpp:105-117 | The loop feeds the octets and stops where they reject. |
| Utf8.Validate | install/include/websocketpp/utf8_validator.hpp:143-149 | True exactly for well-formed strings. |
| Utf8.Validator.Reset | install/include/websocketpp/utf8_validator.hpp:129-132 | The registers are those of a new validator. |
| Hybi00.ReadConcat | install/include/websocketpp/processors/hybi00.hpp:252-307 | Reading two stretches of the stream is reading their concatenation, from any parser state. |
| Hybi00.ChunksDoNotMatter | install/include/websocketpp/impl/connection_impl.hpp:1032-1103 | Any splitting of the stream into reads gives the same messages and final state. |
| Hybi00.FrameReads | install/include/websocketpp/processors/hybi00.hpp:329-363 | A framed payload is read back as that one message if and only if there is a buffer for it and it contains no 0xff. |
| Hybi00.WireFormat | install/include/websocketpp/processors/hybi00.hpp:262-355 | A message goes out as 00, its octets and ff, and those octets are read back as that message. |
| Hybi00.HeaderErrors | install/include/websocketpp/processors/hybi00.hpp:261-275 | Between messages any octet but 00 is a protocol violation; 00 without a buffer is the missing-buffer error. |
| Hybi00.DispatchedWhileOpen | install/include/websocketpp/impl/connection_impl.hpp:1088-1101 | On a connection that stays open every message is handed out, on one that is not open none. |
| Hybi00.MessagesSurviveTheWire | install/include/websocketpp/processors/hybi00.hpp:252-363 | Valid UTF-8 messages, framed, concatenated and split into reads in any way, are, given buffers, delivered unchanged and in order. |
| Hybi00.PrepareDataFrame | install/include/websocketpp/processors/hybi00.hpp:329-363 | Refuses other opcodes and ill-formed payloads; otherwise header and payload are the frame. |
| Hybi00.Processor.Consume | install/include/websocketpp/processors/hybi00.hpp:252-307 | From every state, with or without message buffers, the buffer loop reads the stream octet by octet up to the first complete message, an error or the end, and reports which error. |
| Hybi00.Processor.GetMessage | install/include/websocketpp/processors/hybi00.hpp:317-322 | Hands the message out and waits for the next header. |
| Hybi00.Reader.HandleRead | install/include/websocketpp/impl/connection_impl.hpp:1032-1103 | One read hands out exactly the messages of the octet stream it completes while the connection is open, and leaves the state the stream leaves, an error for a wrong octet or a missing buffer included. |
| Hybi00.Reader.HandleReads | install/include/websocketpp/impl/connection_impl.hpp:1032-1105 | Any number of reads, through the code, does the same for the octet stream they spell, up to the first error. |
| Hybi00.Reader.StuckRead | install/include/websocketpp/impl/connection_impl.hpp:1032-1103 | On a parser that has stopped with an error no number of turns of the read loop gets past the first octet, and nothing changes. |
| Masking.PreparedKeyInMemory | install/include/websocketpp/frame.hpp:595-604 | On either byte order and word size the prepared key lies in memory as the key, once or twice. |
| Masking.CircshiftRotates | install/include/websocketpp/frame.hpp:612-623 | The shifts and the or rotate the key in memory, on either byte order. |
| Masking.KeyAdvances | install/include/websocketpp/frame.hpp:768-789 | The rotated key fits the place `length` octets later, because whole words are whole periods. |
| Masking.MaskTwice | install/include/websocketpp/frame.hpp:645-655 | Masking twice is the identity. |
| Masking.MaskedOctet | install/include/websocketpp/frame.hpp:645-655 | Octet i of a masked payload is the octet of the payload exclusive-or octet i modulo 4 of the key, as section 5.3 of RFC 6455 has it. |
| Masking.PartsMakeWhole | install/include/websocketpp/frame.hpp:768-789 | Masking part by part, each for its place, is masking the whole. |
| Masking.ByteMask | install/include/websocketpp/frame.hpp:645-655 | Octet i meets key octet (offset + i) modulo 4, and nothing else is written. |
| Masking.WordMaskExact | install/include/websocketpp/frame.hpp:702-717 | Word-at-a-time masking, also in place, equals octet-by-octet masking; nothing past `length` is written. |
| Masking.WordMaskCirc | install/include/websocketpp/frame.hpp:768-789 | The same from any place of the stream, and the returned key is the one for the next octet. |
| Masking.MaskStream | install/include/websocketpp/frame.hpp:768-789 | Any partition into buffers, with the key handed on, masks their joint payload as a whole. |
| Md5.AfterBlocks | install/include/websocketpp/common/md5.hpp:384-391 | After whole blocks, the rest of the message alone decides what follows. |
| Md5.PaddedIsWholeBlocks | install/include/websocketpp/common/md5.hpp:393-409 | Padding as in sections 3.1 and 3.2 of RFC 1321: a 1 bit, the fewest zeros, the bit length; whole 64-octet blocks. |
| Md5.BitCountAdds | install/include/websocketpp/common/md5.hpp:366-370 | The two counter words with their carry add modulo 2^64 for every length. |
| Md5.OffsetOfCount | install/include/websocketpp/common/md5.hpp:360 | The low counter word alone gives the fill of the current block, for messages of any length. |
| Md5.StartOctets | install/include/websocketpp/common/md5.hpp:349-355 | The registers start as the sixteen octets of section 3.3 of RFC 1321. |
| Md5.LittleEndianSpells | install/include/websocketpp/common/md5.hpp:403-411 | The octets of a number, weighted by powers of 256, add up to it modulo the power of their count. |
| Md5.Md5State.Append | install/include/websocketpp/common/md5.hpp:357-391 | Chaining value, live buffer prefix and bit count are those of the message so far with the data appended. |
| Md5.Md5State.Finish | install/include/websocketpp/common/md5.hpp:393-412 | The digest is that of the padded message. |
| Md5.HashChunks | install/include/websocketpp/common/md5.hpp:349-412 | The digest depends on the message only, not on how it was split into appends. |
| Base64.TableIsRanges | install/include/websocketpp/base64/base64.hpp:43-58 | Position in the alphabet and membership agree with the character ranges. |
| Base64.EncodedLength | install/include/websocketpp/base64/base64.hpp:66-112 | The output has 4 * ceil(n / 3) characters. |
| Base64.EncodedShape | install/include/websocketpp/base64/base64.hpp:90-109 | Alphabet characters, then exactly as many `=` as section 4 of RFC 4648 asks for. |
| Base64.RoundTrip | install/include/websocketpp/base64/base64.hpp:66-174 | Decoding an encoding gives back every octet string. |
| Base64.Alphabet | install/include/websocketpp/base64/base64.hpp:43-46 | The character in each place is that of table 1 in section 4 of RFC 4648. |
| Base64.SextetsSpell | install/include/websocketpp/base64/base64.hpp:76-81 | The four values of a group spell its 24 bits, most significant first. |
| Base64.TailCharacters | install/include/websocketpp/base64/base64.hpp:90-109 | A last group of one or two octets is two or three characters and padding. |
| Base64.Vectors | install/include/websocketpp/base64/base64.hpp:66-112 | The vectors of section 10 of RFC 4648 for one, two and three octets. |
| Base64.DecodeStops | install/include/websocketpp/base64/base64.hpp:139-171 | Decoding stops at the first character outside the alphabet, whatever follows. |
| Base64.Base64Encode | install/include/websocketpp/base64/base64.hpp:66-112 | The gathering loop computes the group-by-group encoding. |
| Base64.Base64Decode | install/include/websocketpp/base64/base64.hpp:131-174 | The loop stops at the first character outside the alphabet and completes a short group as the code does. |

## Left out

- Arithmetic on `size_t` is on natural numbers: sums of positions and lengths are assumed not to wrap. Logoot components, ids and timestamps are unbounded integers.
- Operation objects are values. The stacks hold clones, so a caller cannot see the difference; an operation applied twice through one shared pointer is not modelled.
- The unreachable branch of `transformHistory` for a failed transform, which would lock its mutex again, is not modelled.
- Locks, callbacks, change listeners, clocks, random sources, user cursors and selections. Random draws, timestamps and whether a buffer can be allocated are parameters. In `document.h` nested calls lock a plain mutex again; the sequential bodies are modelled.
- `Document::undo` and `Document::redo`, `deletedTexts_` and per-line getters: the nested edit of an undo records itself and clears the redo stack.
- OperationLogs.LogsConverge: for logs with inserts the condition is on the pairs met on the way, computed from the two logs; there is no closed condition on the logs alone.
- `CompositeOperation`, `History`, `Editor` and other declared-only classes; `transformAgainstQueue` is modelled from its declaration.
- CrdtDocument.CrdtDocument.LocalInsert: equal neighbouring positions, for which the code reads past the end of a position, are excluded (`Readable`), as is an index other than 0 in an empty document.
- WOOT and LSEQ position generation, and `size` and `at` of the CRDT document.
- FileSystem.PathRoundTrip: for nodes attached to a tree below a directory; the path of a lone file, file contents, owners, sizes, times and the lists of files and subdirectories are not modelled.
- ConnectionWriter.Connection.TakeCompletion: which outstanding write completes is a ghost argument, because the invariant shows there is only one; message objects are values.
- Who pushes which message when: any message may be pushed at any time, which covers ping, pong and the close frame.
- ConnectionLife.Connection.HandleReadHandshake: parsing, version negotiation and the processor's handshake are parameters (`inBounds`, `complete`, `plainHttp`), and the response that follows is a step of its own, so the runs include every order of the real ones and more.
- ConnectionLife.Connection.ProcessControlFrame: pings, pongs, close codes and reasons; only the session state is followed. The client side of the handshake and of the closing handshake is not modelled.
- Hybi00.Reader.HandleRead: which messages get a buffer, and at which the connection is open, are arbitrary functions of the message number; a message handler is always set. A read on a stopped parser does not return and is left to Hybi00.Reader.StuckRead. The handshake and the control frames of hybi-00 are not modelled.
- RemoteEdits.RemoteCommutesWithUndo: for remote edits left of the history; right of it the edit has another position after the undo, and RemoteEdits.UndosKeepRemote says what the document then is.
- The other WebSocket processors, extensions, transports, Asio, timers as such, and logging.
- Utf8.DecodeOctet: bit operations on octets are written as division and remainder; the code point register is taken modulo 2^32 as in the code.
- Md5.Md5State.Append: the compression of a block is an arbitrary function, and `int copy` and the byte counts are not narrowed beyond the 32-bit words of the counter.
- Masking.WordMaskExact: machine words are sequences of octets, least significant first, for words of 4 or 8 octets and both byte orders; alignment and the in-place overloads, which only pass one buffer twice, have no model of their own. `byte_mask_circ` is not modelled.
- JSON serialisation, protocol messages, session tables, the thread pool, configuration and user interface.
