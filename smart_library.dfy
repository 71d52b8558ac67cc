/** The library's process-wide state and the menu operations that change it: each does
    one container mutation and logs one action-stack entry. */
module SmartLibrary {
  import opened LibraryModel
  import opened Containers

  /** The student-name buffers the program has passed to `free`. Ghost bookkeeping only:
      the program keeps no such list. */
  class FreedNames {
    ghost var names: set<Buf>

    constructor ()
      ensures names == {}
    {
      names := {};
    }
  }

  /** The four containers, which the program keeps in global variables, and the record of
      freed student names. */
  class LibraryState {
    const catalog: Catalog
    const queue: RequestQueue
    const log: ActionStack
    const issued: IssuedRecords
    const freed: FreedNames

    /** The whole library as a value. */
    ghost function State(): Library
      reads catalog, queue, log, issued, freed
    {
      Library(catalog.books, queue.requests, log.actions, issued.records, freed.names)
    }

    /** The containers own disjoint sets of objects, none of which is the freed-name record. */
    ghost predicate Separate()
      reads catalog, queue, log, issued
    {
      freed !in catalog.Repr && freed !in queue.Repr && freed !in log.Repr && freed !in issued.Repr &&
      catalog.Repr !! queue.Repr && catalog.Repr !! log.Repr && catalog.Repr !! issued.Repr &&
      queue.Repr !! log.Repr && queue.Repr !! issued.Repr && log.Repr !! issued.Repr
    }

    /** Four well-formed linked containers, and every name buffer in at most one place. */
    ghost predicate Valid()
      reads catalog, catalog.Repr, queue, queue.Repr, log, log.Repr, issued, issued.Repr, freed
    {
      Linked() && NamesOk(queue.requests, issued.records, freed.names)
    }

    /** Four well-formed linked containers over disjoint objects. */
    ghost predicate Linked()
      reads catalog, catalog.Repr, queue, queue.Repr, log, log.Repr, issued, issued.Repr
    {
      Separate() && catalog.Valid() && queue.Valid() && log.Valid() && issued.Valid()
    }

    /** All globals start out null: every container empty. */
    constructor ()
      ensures Valid()
      ensures fresh(catalog.Repr) && fresh(queue.Repr) && fresh(log.Repr) && fresh(issued.Repr) && fresh(freed)
      ensures State() == Library([], [], [], [], {})
    {
      catalog := new Catalog();
      queue := new RequestQueue();
      log := new ActionStack();
      issued := new IssuedRecords();
      freed := new FreedNames();
    }

    /** The logging idiom of the menu operations: allocate the entry's text and, only if
        that succeeded, push it (push_action drops it when its node cannot be allocated). */
    method LogAction(a: Action, textAllocated: bool, nodeAllocated: bool)
      requires Valid()
      modifies log.Repr
      ensures Valid()
      ensures catalog.Repr == old(catalog.Repr) && queue.Repr == old(queue.Repr) && issued.Repr == old(issued.Repr)
      ensures fresh(log.Repr - old(log.Repr))
      ensures log.actions == Logged(old(log.actions), a, textAllocated && nodeAllocated)
      ensures catalog.books == old(catalog.books) && queue.requests == old(queue.requests)
      ensures issued.records == old(issued.records) && freed.names == old(freed.names)
    {
      if textAllocated {
        log.PushAction(a, nodeAllocated);
      }
    }

    /** The tail of menu_add_book: insert the book, then log ADD_BOOK <id>. The entry is
        logged whether or not the book node was allocated. */
    method MenuAddBook(id: int, title: Buf, copies: int,
                       bookAllocated: bool, textAllocated: bool, nodeAllocated: bool)
      requires Valid()
      modifies catalog.Repr, log.Repr
      ensures Valid()
      ensures queue.Repr == old(queue.Repr) && issued.Repr == old(issued.Repr)
      ensures fresh(catalog.Repr - old(catalog.Repr)) && fresh(log.Repr - old(log.Repr))
      ensures catalog.books == old(catalog.books) + (if bookAllocated then [BookView(id, title, copies)] else [])
      ensures log.actions == Logged(old(log.actions), Action(AddBook, id), textAllocated && nodeAllocated)
      ensures queue.requests == old(queue.requests) && issued.records == old(issued.records)
      ensures freed.names == old(freed.names)
    {
      catalog.InsertBook(id, title, copies, bookAllocated);
      LogAction(Action(AddBook, id), textAllocated, nodeAllocated);
    }

    /** `free` on a student name the library does not hold: from now on it is recorded
        as freed (free(NULL) does nothing). */
    method FreeName(name: Buf)
      requires Valid() && Unheld(queue.requests, issued.records, freed.names, name)
      modifies freed
      ensures Valid()
      ensures catalog.Repr == old(catalog.Repr) && queue.Repr == old(queue.Repr)
      ensures log.Repr == old(log.Repr) && issued.Repr == old(issued.Repr)
      ensures freed.names == if name != null then old(freed.names) + {name} else old(freed.names)
      ensures catalog.books == old(catalog.books) && queue.requests == old(queue.requests)
      ensures log.actions == old(log.actions) && issued.records == old(issued.records)
    {
      if name != null {
        HandOverKeepsOwnership(queue.requests, issued.records, freed.names, name, 0);
        freed.names := freed.names + {name};
      }
    }

    /** enqueue_request as the library sees it: the request joins the rear of the queue, or,
        when its node cannot be allocated, its name buffer is freed. */
    method Enqueue(name: Buf, bookId: int, requestAllocated: bool)
      requires Valid() && Unheld(queue.requests, issued.records, freed.names, name)
      modifies freed, queue.Repr
      ensures Valid()
      ensures catalog.Repr == old(catalog.Repr) && log.Repr == old(log.Repr) && issued.Repr == old(issued.Repr)
      ensures fresh(queue.Repr - old(queue.Repr))
      ensures queue.requests == old(queue.requests) + (if requestAllocated then [Request(name, bookId)] else [])
      ensures freed.names == if !requestAllocated && name != null then old(freed.names) + {name} else old(freed.names)
      ensures catalog.books == old(catalog.books) && log.actions == old(log.actions)
      ensures issued.records == old(issued.records)
    {
      HandOverKeepsOwnership(queue.requests, issued.records, freed.names, name, bookId);
      queue.EnqueueRequest(name, bookId, requestAllocated);
      if !requestAllocated {
        FreeName(name);
      }
    }

    /** The tail of menu_request_issue: enqueue the request, then log ISSUE_REQUEST <id>.
        A request whose node cannot be allocated is dropped and its name freed; the entry is
        logged either way. */
    method MenuRequestIssue(name: Buf, bookId: int,
                            requestAllocated: bool, textAllocated: bool, nodeAllocated: bool)
      requires Valid() && Unheld(queue.requests, issued.records, freed.names, name)
      modifies freed, queue.Repr, log.Repr
      ensures Valid()
      ensures catalog.Repr == old(catalog.Repr) && issued.Repr == old(issued.Repr)
      ensures fresh(queue.Repr - old(queue.Repr)) && fresh(log.Repr - old(log.Repr))
      ensures queue.requests == old(queue.requests) + (if requestAllocated then [Request(name, bookId)] else [])
      ensures freed.names == if !requestAllocated && name != null then old(freed.names) + {name} else old(freed.names)
      ensures log.actions == Logged(old(log.actions), Action(IssueRequest, bookId), textAllocated && nodeAllocated)
      ensures catalog.books == old(catalog.books) && issued.records == old(issued.records)
    {
      Enqueue(name, bookId, requestAllocated);
      LogAction(Action(IssueRequest, bookId), textAllocated, nodeAllocated);
    }

    /** dequeue_request_node as the library sees it: the front request is detached, and
        its name, held nowhere else now, passes to the caller. */
    method Dequeue() returns (req: ReqNode?)
      requires Valid()
      modifies queue.Repr
      ensures Valid()
      ensures catalog.Repr == old(catalog.Repr) && queue.Repr == old(queue.Repr)
      ensures log.Repr == old(log.Repr) && issued.Repr == old(issued.Repr)
      ensures (req == null) == (old(queue.requests) == [])
      ensures req == null ==> queue.requests == old(queue.requests)
      ensures req != null ==> Request(req.studentName, req.bookId) == old(queue.requests)[0] &&
                              queue.requests == old(queue.requests)[1..] &&
                              Unheld(queue.requests, issued.records, freed.names, req.studentName)
      ensures catalog.books == old(catalog.books) && log.actions == old(log.actions)
      ensures issued.records == old(issued.records) && freed.names == old(freed.names)
    {
      if queue.requests != [] {
        DequeueKeepsOwnership(queue.requests, issued.records, freed.names);
      }
      req := queue.DequeueRequestNode();
    }

    /** `available_copies -= 1` on the book found at position i of the catalog. */
    method TakeCopy(b: Book, ghost i: nat)
      requires Valid() && i < |catalog.nodes| && b == catalog.nodes[i]
      modifies catalog.Repr
      ensures Valid() && catalog.nodes == old(catalog.nodes) && catalog.Repr == old(catalog.Repr)
      ensures queue.Repr == old(queue.Repr) && log.Repr == old(log.Repr) && issued.Repr == old(issued.Repr)
      ensures catalog.books == old(catalog.books)[i := old(catalog.books)[i].(copies := old(catalog.books)[i].copies - 1)]
      ensures queue.requests == old(queue.requests) && log.actions == old(log.actions)
      ensures issued.records == old(issued.records) && freed.names == old(freed.names)
    {
      catalog.TakeCopy(b, i);
    }

    /** add_issue_record as the library sees it: a name held nowhere else moves into a new
        record at the head of the issued list. */
    method RecordIssue(name: Buf, bookId: int, recordAllocated: bool)
      requires Valid() && Unheld(queue.requests, issued.records, freed.names, name)
      modifies issued.Repr
      ensures Valid()
      ensures catalog.Repr == old(catalog.Repr) && queue.Repr == old(queue.Repr) && log.Repr == old(log.Repr)
      ensures fresh(issued.Repr - old(issued.Repr))
      ensures issued.records == if recordAllocated then [Record(name, bookId)] + old(issued.records) else old(issued.records)
      ensures catalog.books == old(catalog.books) && queue.requests == old(queue.requests)
      ensures log.actions == old(log.actions) && freed.names == old(freed.names)
    {
      HandOverKeepsOwnership(queue.requests, issued.records, freed.names, name, bookId);
      issued.AddIssueRecord(name, bookId, recordAllocated);
    }

    /** The rest of the success branch once the copy is taken: log ISSUE_SUCCESS, then
        move the name into a new issued record. */
    method LogIssue(name: Buf, bookId: int, textAllocated: bool, nodeAllocated: bool, recordAllocated: bool)
      requires Valid() && Unheld(queue.requests, issued.records, freed.names, name)
      modifies log.Repr, issued.Repr
      ensures Valid()
      ensures catalog.Repr == old(catalog.Repr) && queue.Repr == old(queue.Repr)
      ensures catalog.nodes == old(catalog.nodes)
      ensures fresh(log.Repr - old(log.Repr)) && fresh(issued.Repr - old(issued.Repr))
      ensures log.actions == Logged(old(log.actions), Action(IssueSuccess, bookId), textAllocated && nodeAllocated)
      ensures issued.records == if recordAllocated then [Record(name, bookId)] + old(issued.records) else old(issued.records)
      ensures catalog.books == old(catalog.books) && queue.requests == old(queue.requests)
      ensures freed.names == old(freed.names)
    {
      LogAction(Action(IssueSuccess, bookId), textAllocated, nodeAllocated);
      RecordIssue(name, bookId, recordAllocated);
    }

    /** The success branch of menu_process_next_request: take one copy of the first book
        with the request's id, log ISSUE_SUCCESS and move the detached request's name into a
        new issued record. */
    method Issue(name: Buf, bookId: int, b: Book, ghost i: nat,
                 textAllocated: bool, nodeAllocated: bool, recordAllocated: bool)
      returns (outcome: Outcome)
      requires Valid() && Unheld(queue.requests, issued.records, freed.names, name)
      requires CanServe(catalog.books, Request(name, bookId))
      requires i == FirstMatch(catalog.books, bookId).value && b == catalog.nodes[i]
      modifies catalog.Repr, log.Repr, issued.Repr
      ensures Valid()
      ensures catalog.Repr == old(catalog.Repr) && queue.Repr == old(queue.Repr)
      ensures catalog.nodes == old(catalog.nodes)
      ensures fresh(log.Repr - old(log.Repr)) && fresh(issued.Repr - old(issued.Repr))
      ensures (State(), outcome) ==
              Serve(old(State()), Request(name, bookId), textAllocated && nodeAllocated, recordAllocated)
    {
      TakeCopy(b, i);
      LogIssue(name, bookId, textAllocated, nodeAllocated, recordAllocated);
      outcome := Issued(b.title, name, b.bookId, b.availableCopies);
    }

    /** The failure branch of menu_process_next_request: log ISSUE_FAIL and free the
        detached request's name. No issued record is allocated on this branch, so the
        record flag of Serve is irrelevant here. */
    method Refuse(name: Buf, bookId: int, found: bool, textAllocated: bool, nodeAllocated: bool)
      returns (outcome: Outcome)
      requires Valid() && Unheld(queue.requests, issued.records, freed.names, name)
      requires !CanServe(catalog.books, Request(name, bookId))
      requires found == FirstMatch(catalog.books, bookId).Some?
      modifies freed, log.Repr
      ensures Valid()
      ensures catalog.Repr == old(catalog.Repr) && queue.Repr == old(queue.Repr) && issued.Repr == old(issued.Repr)
      ensures catalog.nodes == old(catalog.nodes)
      ensures fresh(log.Repr - old(log.Repr))
      ensures (State(), outcome) ==
              Serve(old(State()), Request(name, bookId), textAllocated && nodeAllocated, false)
    {
      LogAction(Action(IssueFail, bookId), textAllocated, nodeAllocated);
      outcome := if found then NoCopies(bookId) else NotFound(bookId);
      FreeName(name);
    }

    /** The branch of menu_process_next_request on the result of search_book: issue a
        copy when the book exists and has one left, refuse otherwise. */
    method Settle(name: Buf, bookId: int, b: Book?, textAllocated: bool, nodeAllocated: bool, recordAllocated: bool)
      returns (outcome: Outcome)
      requires Valid() && Unheld(queue.requests, issued.records, freed.names, name)
      requires b == null <==> FirstMatch(catalog.books, bookId).None?
      requires b != null ==> b == catalog.nodes[FirstMatch(catalog.books, bookId).value]
      modifies freed, catalog.Repr, log.Repr, issued.Repr
      ensures Valid()
      ensures catalog.Repr == old(catalog.Repr) && queue.Repr == old(queue.Repr)
      ensures catalog.nodes == old(catalog.nodes)
      ensures fresh(log.Repr - old(log.Repr)) && fresh(issued.Repr - old(issued.Repr))
      ensures (State(), outcome) ==
              Serve(old(State()), Request(name, bookId), textAllocated && nodeAllocated, recordAllocated)
    {
      ghost var m := FirstMatch(catalog.books, bookId);
      assert b != null ==> catalog.books[m.value] == BookView(b.bookId, b.title, b.availableCopies);
      if b != null && b.availableCopies > 0 {
        outcome := Issue(name, bookId, b, m.value, textAllocated, nodeAllocated, recordAllocated);
      } else {
        outcome := Refuse(name, bookId, b != null, textAllocated, nodeAllocated);
      }
    }

    /** The part of menu_process_next_request after the dequeue: search the detached
        request's book, then issue a copy or refuse. */
    method ServeRequest(name: Buf, bookId: int, textAllocated: bool, nodeAllocated: bool, recordAllocated: bool)
      returns (outcome: Outcome)
      requires Valid() && Unheld(queue.requests, issued.records, freed.names, name)
      modifies freed, catalog.Repr, log.Repr, issued.Repr
      ensures Valid()
      ensures catalog.Repr == old(catalog.Repr) && queue.Repr == old(queue.Repr)
      ensures catalog.nodes == old(catalog.nodes)
      ensures fresh(log.Repr - old(log.Repr)) && fresh(issued.Repr - old(issued.Repr))
      ensures (State(), outcome) ==
              Serve(old(State()), Request(name, bookId), textAllocated && nodeAllocated, recordAllocated)
    {
      var b := catalog.SearchBook(bookId);
      outcome := Settle(name, bookId, b, textAllocated, nodeAllocated, recordAllocated);
    }

    /** menu_process_next_request: dequeue one request; if its book exists and has a copy
        left, take one copy, log ISSUE_SUCCESS and move the name buffer into a new issued
        record; otherwise log ISSUE_FAIL and free the name. */
    method ProcessNextRequest(textAllocated: bool, nodeAllocated: bool, recordAllocated: bool)
      returns (outcome: Outcome)
      requires Valid()
      modifies freed, catalog.Repr, queue.Repr, log.Repr, issued.Repr
      ensures Valid()
      ensures catalog.Repr == old(catalog.Repr) && queue.Repr == old(queue.Repr)
      ensures catalog.nodes == old(catalog.nodes)
      ensures fresh(log.Repr - old(log.Repr)) && fresh(issued.Repr - old(issued.Repr))
      ensures (State(), outcome) ==
              AfterProcessNext(old(State()), textAllocated && nodeAllocated, recordAllocated)
    {
      var req := Dequeue();
      if req == null {
        return NoPending;
      }
      outcome := ServeRequest(req.studentName, req.bookId, textAllocated, nodeAllocated, recordAllocated);
    }
  }
}
