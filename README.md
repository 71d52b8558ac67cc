# Smart Library — a verified model of its containers and request processing

Smart Library is a single-file C console program (`Smart-Librabry/Smart-Librabry.c`).
It keeps four hand-built singly linked lists in global pointers:

- the book catalog (`head`), in insertion order;
- the issue-request queue (`q_front` / `q_rear`);
- the action-log stack (`stack_top`);
- the issued-records list (`issued_head`), most recent first.

Menu operations add books, enqueue issue requests, process the next request, and
undo logged actions. This project models those containers and the operations that
change them as imperative Dafny. It proves that the linked structures stay
well-formed and that each operation does what the program promises.

Layout:

- `cstring.dfy` (module `CString`): NUL-terminated buffers, and `remove_newline`
  as an in-place loop over an `array<char>`.
- `library_model.dfy` (module `LibraryModel`): the library as a value.
  - It has datatypes for books, requests, records, log entries and outcomes.
  - The specification functions are `FirstMatch`, `PopUpTo`, `Logged`, `Serve` and
    `AfterProcessNext`.
  - The ownership rule says every student-name buffer has at most one place: one
    request, or one issued record, or the set of freed buffers.
  - The lemmas state the program's promises about processing a request.
- `containers.dfy` (module `Containers`): one class per linked list.
  - Each class holds the list's global pointers, plus a ghost spine of its nodes and a
    ghost sequence of what they hold.
  - `Valid()` ties the links to the spine: no cycles, last node's `next` is null,
    and the queue's `rear` is its last node.
  - Each method is the list routine of the same name, with its loops and their invariants.
- `smart_library.dfy` (module `SmartLibrary`): class `LibraryState` holds the four
  containers and a ghost record of freed names.
  - Its methods are the container-plus-log tails of `menu_add_book` and
    `menu_request_issue`, and `menu_process_next_request`.
  - Each method is proved to keep the containers separate and well-formed, and to keep
    the ownership rule.
  - Each is proved equal, on the abstract state, to the specification function.
  - Each states which container footprints it keeps and which grow only by new nodes,
    so operations can follow one another on the same library.
- `scenarios.dfy` (module `Scenarios`): sequences of menu operations on a new library,
  proved from the operations' contracts alone. They cover the book-101 issue, a request
  for a missing book, three requests served in order, duplicate ids, a push then pop, and
  undoing two of three actions.

Strings are object references (`array?<char>`, null allowed). "The same `student_name`
buffer moves from the request to the record" is therefore stated as equality of
references. Every `malloc` the modelled code performs is a boolean parameter that says
whether it succeeded.

## Model

| member | source | states |
|---|---|---|
| CString.RemoveNewline | Smart-Librabry/Smart-Librabry.c:18-30 | a null pointer is ignored; otherwise the scan stops at the terminator and the first line feed before it becomes NUL, and nothing else changes |
| CString.RemovedNewline | Smart-Librabry/Smart-Librabry.c:18-30 | the buffer keeps its length; every cell other than the first line feed is kept, and a cell that changes was a line feed and becomes NUL |
| CString.RemovedNewlineTruncates | Smart-Librabry/Smart-Librabry.c:18-30 | the string held afterwards is the old string cut at its first line feed, and it is still terminated |
| CString.NoNewlineUnchanged | Smart-Librabry/Smart-Librabry.c:22-29 | a string without a line feed is left unchanged |
| CString.RemovedNewlineIdempotent | Smart-Librabry/Smart-Librabry.c:18-30 | applying remove_newline twice gives the same buffer as applying it once |
| CString.IndexOf | Smart-Librabry/Smart-Librabry.c:22-24 | the position of the first occurrence of a character, or the length when there is none |
| Containers.Catalog.InsertBook | Smart-Librabry/Smart-Librabry.c:66-90 | the catalog becomes the old catalog followed by (id, title, copies), with no id-uniqueness check; the existing nodes stay in place and the new node is fresh; it is unchanged when the node cannot be allocated; the list stays acyclic and null-terminated |
| Containers.Catalog.SearchBook | Smart-Librabry/Smart-Librabry.c:92-102 | returns null exactly when no book has the id; otherwise returns the node of the first such book in insertion order |
| LibraryModel.FirstMatch | Smart-Librabry/Smart-Librabry.c:92-102 | the index found holds the id and no earlier index does; None exactly when no book holds it |
| LibraryModel.FirstMatchAfterAppend | Smart-Librabry/Smart-Librabry.c:66-102 | after an insert, a search finds the same earlier book as before (the earliest duplicate wins); the new book is found only when no earlier book has its id |
| Containers.Catalog.TakeCopy | Smart-Librabry/Smart-Librabry.c:475 | only the copy count of the book at the given position drops by one; the nodes and links are unchanged |
| Containers.RequestQueue.EnqueueRequest | Smart-Librabry/Smart-Librabry.c:143-166 | the request holding that name buffer joins the rear; the queue is unchanged when the node cannot be allocated |
| Containers.RequestQueue.DequeueRequestNode | Smart-Librabry/Smart-Librabry.c:168-178 | returns null and changes nothing on an empty queue; otherwise returns the detached front request and leaves the old tail; afterwards `rear` is null exactly when `front` is |
| Containers.ActionStack.PushAction | Smart-Librabry/Smart-Librabry.c:219-232 | the entry becomes the new top and the rest of the stack is kept; the stack is unchanged when the node cannot be allocated |
| Containers.ActionStack.PopActionNode | Smart-Librabry/Smart-Librabry.c:234-242 | returns null and changes nothing on an empty stack; otherwise returns the detached top entry and leaves the rest |
| LibraryModel.Logged | Smart-Librabry/Smart-Librabry.c:219-232 | a successful push adds exactly one entry, on top; a failed one adds none |
| Scenarios.PushThenPop | Smart-Librabry/Smart-Librabry.c:219-242 | pushing then popping returns the pushed entry and restores the stack |
| Containers.ActionStack.UndoKActions | Smart-Librabry/Smart-Librabry.c:274-295 | k <= 0 is rejected and changes nothing; otherwise it pops up to k entries, most recent first, reports them, and reports whether the stack ran out first |
| LibraryModel.PopUpTo | Smart-Librabry/Smart-Librabry.c:282-294 | popping up to k entries pops exactly min(k, depth) of them, and the popped and remaining entries together are as many as the stack held |
| Scenarios.UndoNewestTwo | Smart-Librabry/Smart-Librabry.c:274-295 | after logging a1, a2, a3, undoing two reports a3 then a2 without running out, and leaves a1 |
| LibraryModel.PopUpToSplits | Smart-Librabry/Smart-Librabry.c:282-294 | popping up to k entries removes exactly the top min(k, depth) entries and keeps the rest; when k reaches the depth the stack ends empty |
| Containers.IssuedRecords.AddIssueRecord | Smart-Librabry/Smart-Librabry.c:308-320 | a record holding the same name buffer and book id is prepended; nothing changes when the node cannot be allocated |
| SmartLibrary.LibraryState.constructor | Smart-Librabry/Smart-Librabry.c:64-306 | all four containers start out empty, no name is freed, and every container footprint is newly allocated |
| SmartLibrary.LibraryState.LogAction | Smart-Librabry/Smart-Librabry.c:385-395 | the entry is pushed only when its text and node are both allocated; the other containers and their footprints are unchanged, and the log grows only by new nodes |
| SmartLibrary.LibraryState.MenuAddBook | Smart-Librabry/Smart-Librabry.c:383-395 | the book is appended if its node is allocated; ADD_BOOK id is logged either way; the queue, issued list and freed names are unchanged; catalog and log grow only by new nodes |
| SmartLibrary.LibraryState.FreeName | Smart-Librabry/Smart-Librabry.c:516-518 | a non-null name the library does not hold is recorded as freed; `free(NULL)` changes nothing |
| SmartLibrary.LibraryState.Enqueue | Smart-Librabry/Smart-Librabry.c:143-166 | the request joins the rear, or its name is freed when the node cannot be allocated; each name stays in at most one place |
| SmartLibrary.LibraryState.MenuRequestIssue | Smart-Librabry/Smart-Librabry.c:447-455 | the request is enqueued (or dropped and its name freed), then ISSUE_REQUEST id is logged either way; the catalog and issued list are unchanged; queue and log grow only by new nodes |
| SmartLibrary.LibraryState.Dequeue | Smart-Librabry/Smart-Librabry.c:462-467 | the front request is detached, and its name is held nowhere else in the library, so the caller may hand it over; no footprint changes |
| SmartLibrary.LibraryState.TakeCopy | Smart-Librabry/Smart-Librabry.c:475 | only the copy count of the book at the given position drops by one; nodes, other containers and all footprints are unchanged |
| SmartLibrary.LibraryState.RecordIssue | Smart-Librabry/Smart-Librabry.c:486 | the name moves into a new issued record at the head; nothing else changes |
| SmartLibrary.LibraryState.LogIssue | Smart-Librabry/Smart-Librabry.c:477-486 | ISSUE_SUCCESS id is logged if allocated, and the name moves into a new record at the head of the issued list; catalog, queue and freed names are unchanged |
| SmartLibrary.LibraryState.Issue | Smart-Librabry/Smart-Librabry.c:472-496 | on the success branch, the state and outcome are exactly those of `Serve`: one copy taken, ISSUE_SUCCESS logged, name moved to a record; the catalog's book nodes stay in place |
| SmartLibrary.LibraryState.Refuse | Smart-Librabry/Smart-Librabry.c:497-520 | on the failure branch, the state and outcome are exactly those of `Serve`: ISSUE_FAIL logged, name freed, catalog and issued list untouched, book nodes included |
| SmartLibrary.LibraryState.Settle | Smart-Librabry/Smart-Librabry.c:472-520 | given the result of search_book, taking the matching branch gives exactly the state and outcome of `Serve`, and the catalog's book nodes stay in place |
| SmartLibrary.LibraryState.ServeRequest | Smart-Librabry/Smart-Librabry.c:470-520 | searching the book and taking the matching branch gives exactly the state and outcome of `Serve`, and the catalog's book nodes stay in place |
| LibraryModel.Serve | Smart-Librabry/Smart-Librabry.c:470-520 | serving keeps the queue and the catalog's length; it succeeds exactly when the first book with the id has a copy left, and reports "not found" exactly when there is none; it logs ISSUE_SUCCESS or ISSUE_FAIL accordingly; success frees nothing, and failure leaves the catalog and issued list unchanged |
| LibraryModel.AfterProcessNext | Smart-Librabry/Smart-Librabry.c:460-521 | nothing is pending exactly when the queue is empty, and then nothing changes; otherwise the front request leaves the queue |
| SmartLibrary.LibraryState.ProcessNextRequest | Smart-Librabry/Smart-Librabry.c:460-521 | the new library state and the outcome are exactly `AfterProcessNext` of the old state; the containers stay well-formed and every name stays in at most one place; the catalog's book nodes stay in place |
| LibraryModel.ProcessNextOnEmptyQueue | Smart-Librabry/Smart-Librabry.c:462-467 | with an empty queue nothing changes: catalog, stack, issued records and freed names all stay the same |
| LibraryModel.ProcessNextTakesFront | Smart-Librabry/Smart-Librabry.c:462-472 | the front request is the one served and leaves the queue in order; the outcome is success exactly when its book exists with copies > 0, and "not found" exactly when no book has its id |
| LibraryModel.ProcessNextCatalog | Smart-Librabry/Smart-Librabry.c:470-475 | on success exactly the first matching book loses one copy and every other book is unchanged; on failure or an empty queue the catalog is unchanged |
| LibraryModel.ProcessNextKeepsCopiesNonNegative | Smart-Librabry/Smart-Librabry.c:472-475 | a catalog without negative copy counts keeps none after processing |
| LibraryModel.ProcessNextLogsOnce | Smart-Librabry/Smart-Librabry.c:477-505 | exactly one ISSUE_SUCCESS or ISSUE_FAIL entry with the request's book id is pushed when its allocations succeed; none on an empty queue |
| LibraryModel.ProcessNextMovesName | Smart-Librabry/Smart-Librabry.c:485-519 | the name leaves the queue; on success it is held by exactly a new record prepended to the otherwise unchanged issued list; on failure it is freed and the issued list is unchanged |
| LibraryModel.ProcessNextKeepsOwnership | Smart-Librabry/Smart-Librabry.c:460-521 | processing a request keeps every name buffer in at most one place |
| LibraryModel.HandOverKeepsOwnership | Smart-Librabry/Smart-Librabry.c:153-518 | a name the library does not hold can go to a new request, a new record or the freed set, and each name stays in one place |
| LibraryModel.DequeueKeepsOwnership | Smart-Librabry/Smart-Librabry.c:168-178 | the detached front name is held nowhere else, and the rest of the queue keeps the ownership rule |
| Scenarios.IssueToAlice | Smart-Librabry/Smart-Librabry.c:460-521 | one copy of book 101, requested by alice, is issued to her with no copy left and her own name buffer recorded; processing again finds nothing pending |
| Scenarios.RefuseUnknownBook | Smart-Librabry/Smart-Librabry.c:497-520 | a request for the missing book 999 is refused as not found: ISSUE_FAIL 999 is logged, nothing is recorded and the name is freed |
| Scenarios.ServeInArrivalOrder | Smart-Librabry/Smart-Librabry.c:460-521 | three requests for a book with three copies are issued in arrival order, and the issued list holds them most recent first |
| Scenarios.FirstInsertedWins | Smart-Librabry/Smart-Librabry.c:92-102 | with two books sharing id 5, the earlier one, which has no copy, decides: the request is refused although the later one has copies |

## Left out

- Terminal I/O is not modelled: `read_string`, the `scanf` and `getchar` loops, every
  `printf`, the `display_*` functions, `menu_search_book`, `menu_view_all` and the
  `main` menu loop. Where the modelled code prints a result, the model returns it
  instead: `Outcome` for request processing, `UndoReport` for undo.
- Log entries are `Action(kind, id)` values. The `sprintf` text "KIND id" in a 64-byte
  buffer is not modelled.
- `malloc` is not modelled. Each allocation is a boolean parameter.
- `free` is modelled only for student names, as a ghost set of freed buffers. Three
  other frees are not modelled:
  - the title freed when a book node cannot be allocated;
  - the action text freed when a stack node cannot be allocated or an entry is undone;
  - the request and stack nodes freed after use.
- The memory left allocated at exit is not modelled.
- SmartLibrary.LibraryState.MenuAddBook: ownership of the title buffer is not tracked.
  The model does not state that a title freed by a failed insert may still be printed
  by the caller. It also states the catalog's contents but not its nodes. That existing
  book nodes stay in place is stated one level down, by `Containers.Catalog.InsertBook`.
- SmartLibrary.LibraryState.MenuRequestIssue: the request message is not modelled. When
  `enqueue_request` cannot allocate its node it frees the name (Smart-Librabry.c:149-150),
  and `menu_request_issue` then still prints that name (Smart-Librabry.c:457). The model
  records the name as freed but does not state that it is used afterwards.
- LibraryModel.Logged: its contract states the size of the stack and its top entry only.
  That the entries below are kept is stated by `Containers.ActionStack.PushAction`,
  which equates the stack with `Logged`, and by `Scenarios.PushThenPop`. A sequence-slice
  postcondition on `Logged` is left out to keep the proofs of the logging operations small.
- LibraryModel.PopUpTo: its contract states the counts only. Which entries are popped
  and which stay is stated by `LibraryModel.PopUpToSplits`.
- Integers are unbounded. The C `int` copy count and `k` cannot overflow in the
  modelled paths: copies only drop when positive, and `i < k` is counted up from 0.

Four behaviours of the code that a reader might not expect, all kept by the model:

- `insert_book` accepts negative copy counts.
- `menu_add_book` logs ADD_BOOK even when the book node could not be allocated.
- `menu_request_issue` logs ISSUE_REQUEST even when the request was dropped.
- When `add_issue_record` cannot allocate its node, the student name is neither
  recorded nor freed. It is leaked, and `ProcessNextMovesName` states exactly that.
