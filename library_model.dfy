/** The library's containers as values: what the linked catalog, request queue, action
    stack and issued-records list hold, and the effect of processing one issue request. */
module LibraryModel {

  /** A heap text buffer (`char *`), compared by reference. It is null when reading it
      failed to allocate; the library stores such a null pointer like any other. */
  type Buf = array?<char>

  datatype Option<T> = None | Some(value: T)

  /** One catalog entry: book id, title buffer, available copies. */
  datatype BookView = BookView(id: int, title: Buf, copies: int)

  /** One pending issue request, owning its student-name buffer. */
  datatype Request = Request(name: Buf, bookId: int)

  /** One issued-book record, holding the name buffer taken over from a request. */
  datatype Record = Record(name: Buf, bookId: int)

  /** The four operations that leave an entry on the action stack. */
  datatype ActionKind = AddBook | IssueRequest | IssueSuccess | IssueFail

  /** An action-log entry, rendered by the program as "<KIND> <id>". */
  datatype Action = Action(kind: ActionKind, id: int)

  /** What processing the next request reports. */
  datatype Outcome =
    | NoPending
    | Issued(title: Buf, name: Buf, bookId: int, remaining: int)
    | NotFound(bookId: int)
    | NoCopies(bookId: int)

  /** What undoing k actions reports: a rejected count, or the popped entries, most
      recent first, and whether the stack ran out before k pops. */
  datatype UndoReport = KNotPositive | Undone(popped: seq<Action>, ranOut: bool)

  /** The whole library: catalog in insertion order, queue front first, action stack top
      first, issued records most recent first, and the name buffers the library freed. */
  datatype Library = Library(
    catalog: seq<BookView>,
    queue: seq<Request>,
    actions: seq<Action>,
    issued: seq<Record>,
    released: set<Buf>)

  function Min(a: int, b: int): int
  {
    if a <= b then a else b
  }

  // ---------------------------------------------------------------- catalog search

  /** Index of the first book, in insertion order, whose id is `id`. */
  function FirstMatch(catalog: seq<BookView>, id: int): (r: Option<nat>)
    ensures r.Some? ==> r.value < |catalog| && catalog[r.value].id == id
    ensures r.Some? ==> forall j :: 0 <= j < r.value ==> catalog[j].id != id
    ensures r.None? <==> forall j :: 0 <= j < |catalog| ==> catalog[j].id != id
  {
    if catalog == [] then None
    else if catalog[0].id == id then Some(0)
    else match FirstMatch(catalog[1..], id)
      case None => None
      case Some(i) => Some(i + 1)
  }

  /** Appending a book never changes which earlier book a search finds: with duplicate
      ids the earliest inserted one wins, and the new book is found only when no earlier
      book carries its id. */
  lemma FirstMatchAfterAppend(catalog: seq<BookView>, b: BookView, id: int)
    ensures FirstMatch(catalog, id).Some? ==> FirstMatch(catalog + [b], id) == FirstMatch(catalog, id)
    ensures FirstMatch(catalog, id).None? ==>
              FirstMatch(catalog + [b], id) == (if b.id == id then Some(|catalog|) else None)
  {
    var c := catalog + [b];
    match FirstMatch(catalog, id)
    case Some(i) =>
      assert c[i] == catalog[i];
      assert forall j :: 0 <= j < i ==> c[j] == catalog[j];
      FirstMatchUnique(c, id, i);
    case None =>
      if b.id == id {
        assert forall j :: 0 <= j < |catalog| ==> c[j] == catalog[j];
        FirstMatchUnique(c, id, |catalog|);
      } else {
        assert forall j :: 0 <= j < |c| ==> c[j].id != id;
      }
  }

  /** The contract of FirstMatch determines its result. */
  lemma FirstMatchUnique(catalog: seq<BookView>, id: int, i: nat)
    requires i < |catalog| && catalog[i].id == id
    requires forall j :: 0 <= j < i ==> catalog[j].id != id
    ensures FirstMatch(catalog, id) == Some(i)
  {
  }

  // ---------------------------------------------------------------- action stack

  /** Popping up to `k` entries, one at a time, stopping when the stack is empty:
      the popped entries in pop order and the stack that is left. */
  function PopUpTo(stack: seq<Action>, k: nat): (r: (seq<Action>, seq<Action>))
    ensures |r.0| == Min(k, |stack|) && |r.0| + |r.1| == |stack|
    decreases k
  {
    if k == 0 || stack == [] then ([], stack)
    else
      var (popped, rest) := PopUpTo(stack[1..], k - 1);
      ([stack[0]] + popped, rest)
  }

  /** Exactly min(k, depth) entries are popped, most recent first, and the rest of the
      stack is left as it was; when k reaches the depth the stack ends empty. */
  lemma {:induction false} PopUpToSplits(stack: seq<Action>, k: nat)
    ensures PopUpTo(stack, k).0 == stack[..Min(k, |stack|)]
    ensures PopUpTo(stack, k).1 == stack[Min(k, |stack|)..]
    ensures k >= |stack| ==> PopUpTo(stack, k).1 == []
  {
    if k == 0 || stack == [] {
    } else {
      PopUpToSplits(stack[1..], k - 1);
      assert stack == [stack[0]] + stack[1..];
    }
  }

  /** The action stack after an entry is pushed, if its allocations succeeded. */
  function Logged(actions: seq<Action>, a: Action, logged: bool): (r: seq<Action>)
    ensures |r| == |actions| + (if logged then 1 else 0)
    ensures logged ==> r[0] == a
  {
    if logged then [a] + actions else actions
  }

  // ---------------------------------------------------------------- ownership of names

  /** `b` is the name buffer of some pending request. */
  predicate Queued(queue: seq<Request>, b: Buf)
  {
    exists i :: 0 <= i < |queue| && queue[i].name == b
  }

  /** `b` is the name buffer of some issued record. */
  predicate Recorded(issued: seq<Record>, b: Buf)
  {
    exists j :: 0 <= j < |issued| && issued[j].name == b
  }

  /** `b` is a buffer the library does not hold: the caller may hand it over. */
  predicate Unheld(queue: seq<Request>, issued: seq<Record>, released: set<Buf>, b: Buf)
  {
    b == null || (!Queued(queue, b) && !Recorded(issued, b) && b !in released)
  }

  /** Every name buffer has at most one place: one pending request, or one issued
      record, or the set of freed buffers. */
  predicate NamesOk(queue: seq<Request>, issued: seq<Record>, released: set<Buf>)
  {
    null !in released &&
    (forall i, j :: 0 <= i < j < |queue| && queue[i].name != null ==> queue[i].name != queue[j].name) &&
    (forall i, j :: 0 <= i < j < |issued| && issued[i].name != null ==> issued[i].name != issued[j].name) &&
    (forall i, j :: 0 <= i < |queue| && 0 <= j < |issued| && queue[i].name != null ==>
       queue[i].name != issued[j].name) &&
    (forall i :: 0 <= i < |queue| ==> queue[i].name !in released) &&
    (forall j :: 0 <= j < |issued| ==> issued[j].name !in released)
  }

  /** The library keeps every name buffer in at most one place. */
  predicate OwnershipOk(lib: Library)
  {
    NamesOk(lib.queue, lib.issued, lib.released)
  }

  /** A name the library does not hold may be handed over to exactly one place: a new
      request at the rear of the queue, a new record at the head of the issued list, or the
      set of freed buffers. Each keeps every name buffer in at most one place. */
  lemma HandOverKeepsOwnership(queue: seq<Request>, issued: seq<Record>, released: set<Buf>,
                                                  name: Buf, bookId: int)
    requires NamesOk(queue, issued, released) && Unheld(queue, issued, released, name)
    ensures NamesOk(queue + [Request(name, bookId)], issued, released)
    ensures NamesOk(queue, [Record(name, bookId)] + issued, released)
    ensures name != null ==> NamesOk(queue, issued, released + {name})
  {
  }

  /** Detaching the front request leaves its name held nowhere else, so the caller may
      hand it over. */
  lemma DequeueKeepsOwnership(queue: seq<Request>, issued: seq<Record>, released: set<Buf>)
    requires NamesOk(queue, issued, released) && queue != []
    ensures NamesOk(queue[1..], issued, released)
    ensures Unheld(queue[1..], issued, released, queue[0].name)
  {
  }

  /** No catalog entry has a negative number of available copies. */
  predicate CopiesNonNegative(catalog: seq<BookView>)
  {
    forall i :: 0 <= i < |catalog| ==> catalog[i].copies >= 0
  }

  // ---------------------------------------------------------------- processing a request

  /** A detached request can be served: its book exists and has a copy left. */
  predicate CanServe(catalog: seq<BookView>, req: Request)
  {
    var m := FirstMatch(catalog, req.bookId);
    m.Some? && catalog[m.value].copies > 0
  }

  /** The request at the front is issued: its book exists and has a copy left. */
  predicate CanIssue(lib: Library)
    requires lib.queue != []
  {
    CanServe(lib.catalog, lib.queue[0])
  }

  /** Serving a request already detached from the queue: on success the first book with
      its id loses one copy, ISSUE_SUCCESS is logged and the name moves into a new issued
      record; otherwise ISSUE_FAIL is logged and the name is freed. `logged` says the log
      entry's text buffer and stack node were allocated, `recorded` that the issued-record
      node was. */
  function Serve(lib: Library, req: Request, logged: bool, recorded: bool): (r: (Library, Outcome))
    ensures r.0.queue == lib.queue && |r.0.catalog| == |lib.catalog|
    ensures r.1.Issued? <==> CanServe(lib.catalog, req)
    ensures r.1.NotFound? <==> FirstMatch(lib.catalog, req.bookId).None?
    ensures !r.1.NoPending?
    ensures r.0.actions == Logged(lib.actions, Action(if r.1.Issued? then IssueSuccess else IssueFail, req.bookId), logged)
    ensures r.1.Issued? ==> r.0.released == lib.released
    ensures !r.1.Issued? ==> r.0.catalog == lib.catalog && r.0.issued == lib.issued
  {
    var m := FirstMatch(lib.catalog, req.bookId);
    if m.Some? && lib.catalog[m.value].copies > 0 then
      var b := lib.catalog[m.value];
      var b' := b.(copies := b.copies - 1);
      (lib.(catalog := lib.catalog[m.value := b'],
            actions := Logged(lib.actions, Action(IssueSuccess, req.bookId), logged),
            issued := if recorded then [Record(req.name, req.bookId)] + lib.issued else lib.issued),
       Issued(b.title, req.name, b.id, b'.copies))
    else
      (lib.(actions := Logged(lib.actions, Action(IssueFail, req.bookId), logged),
            released := if req.name != null then lib.released + {req.name} else lib.released),
       if m.None? then NotFound(req.bookId) else NoCopies(req.bookId))
  }

  /** menu_process_next_request as a transition: the library afterwards and the outcome.
      Nothing happens on an empty queue; otherwise the front request is detached and served. */
  function AfterProcessNext(lib: Library, logged: bool, recorded: bool): (r: (Library, Outcome))
    ensures r.1.NoPending? <==> lib.queue == []
    ensures lib.queue == [] ==> r.0 == lib
    ensures lib.queue != [] ==> r.0.queue == lib.queue[1..]
  {
    if lib.queue == [] then (lib, NoPending)
    else Serve(lib.(queue := lib.queue[1..]), lib.queue[0], logged, recorded)
  }

  /** An empty queue: nothing changes and nothing is logged. */
  lemma ProcessNextOnEmptyQueue(lib: Library, logged: bool, recorded: bool)
    requires lib.queue == []
    ensures AfterProcessNext(lib, logged, recorded) == (lib, NoPending)
  {
  }

  /** Requests are handled in arrival order: the front request is the one reported on,
      it leaves the queue, and the rest of the queue keeps its order. */
  lemma ProcessNextTakesFront(lib: Library, logged: bool, recorded: bool)
    requires lib.queue != []
    ensures var (after, out) := AfterProcessNext(lib, logged, recorded);
      after.queue == lib.queue[1..] &&
      (out.Issued? <==> CanIssue(lib)) &&
      (out.Issued? ==> out.name == lib.queue[0].name && out.bookId == lib.queue[0].bookId) &&
      (out.NotFound? <==> FirstMatch(lib.catalog, lib.queue[0].bookId).None?) &&
      (out.NotFound? ==> out.bookId == lib.queue[0].bookId) &&
      (out.NoCopies? ==> out.bookId == lib.queue[0].bookId)
  {
  }

  /** On success exactly the first matching book loses one copy; on failure, and on an
      empty queue, the catalog is untouched. */
  lemma ProcessNextCatalog(lib: Library, logged: bool, recorded: bool)
    ensures var after := AfterProcessNext(lib, logged, recorded).0;
      |after.catalog| == |lib.catalog| &&
      (lib.queue == [] || !CanIssue(lib) ==> after.catalog == lib.catalog) &&
      (lib.queue != [] && CanIssue(lib) ==>
         var i := FirstMatch(lib.catalog, lib.queue[0].bookId).value;
         after.catalog[i].copies == lib.catalog[i].copies - 1 &&
         after.catalog[i].id == lib.catalog[i].id &&
         after.catalog[i].title == lib.catalog[i].title &&
         forall j :: 0 <= j < |lib.catalog| && j != i ==> after.catalog[j] == lib.catalog[j])
  {
  }

  /** A count is only ever decremented when it is positive, so a catalog without
      negative counts keeps none. */
  lemma ProcessNextKeepsCopiesNonNegative(lib: Library, logged: bool, recorded: bool)
    requires CopiesNonNegative(lib.catalog)
    ensures CopiesNonNegative(AfterProcessNext(lib, logged, recorded).0.catalog)
  {
  }

  /** Processing a request logs at most one entry, ISSUE_SUCCESS or ISSUE_FAIL with the
      request's book id, exactly one when its allocations succeed, and none on an empty queue. */
  lemma ProcessNextLogsOnce(lib: Library, logged: bool, recorded: bool)
    ensures var (after, out) := AfterProcessNext(lib, logged, recorded);
      (lib.queue == [] || !logged ==> after.actions == lib.actions) &&
      (lib.queue != [] && logged ==>
         after.actions == [Action(if out.Issued? then IssueSuccess else IssueFail, lib.queue[0].bookId)] + lib.actions)
  {
  }

  /** The front request's name buffer is moved, never copied: on success it is held by
      exactly a new record prepended to the otherwise unchanged issued list, and by no
      request; on failure it is freed, held by no request, and the issued list is unchanged.
      If the record node cannot be allocated, the name is dropped without being freed. */
  lemma ProcessNextMovesName(lib: Library, logged: bool, recorded: bool)
    requires OwnershipOk(lib)
    requires lib.queue != [] && lib.queue[0].name != null
    ensures var (after, out) := AfterProcessNext(lib, logged, recorded);
      var n := lib.queue[0].name;
      !Queued(after.queue, n) &&
      (out.Issued? && recorded ==>
         after.issued == [Record(n, lib.queue[0].bookId)] + lib.issued &&
         (forall j :: 0 < j < |after.issued| ==> after.issued[j].name != n) &&
         n !in after.released) &&
      (out.Issued? && !recorded ==>
         after.issued == lib.issued && !Recorded(after.issued, n) && n !in after.released) &&
      (!out.Issued? ==> after.issued == lib.issued && !Recorded(after.issued, n) && n in after.released)
  {
  }

  /** Processing a request keeps every name buffer in at most one place. */
  lemma ProcessNextKeepsOwnership(lib: Library, logged: bool, recorded: bool)
    requires OwnershipOk(lib)
    ensures OwnershipOk(AfterProcessNext(lib, logged, recorded).0)
  {
  }
}
