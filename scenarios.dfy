/** Sequences of menu operations, as the program's menu loop performs them, on a library
    that starts out empty. Each is proved from the contracts of the operations alone. */
module Scenarios {
  import opened LibraryModel
  import opened Containers
  import opened SmartLibrary

  /** Stack round trip: pushing an entry and popping at once hands back that entry and
      leaves the stack as it was. */
  method PushThenPop(s: ActionStack, a: Action) returns (p: StackNode?)
    requires s.Valid()
    modifies s.Repr
    ensures s.Valid() && p != null && p.action == a && s.actions == old(s.actions)
  {
    s.PushAction(a, true);
    p := s.PopActionNode();
  }

  /** Undo is LIFO: after logging a1, a2, a3, undoing two actions pops a3 then a2 and
      leaves a1. */
  method UndoNewestTwo(a1: Action, a2: Action, a3: Action) returns (report: UndoReport, s: ActionStack)
    ensures report == Undone([a3, a2], false)
    ensures s.Valid() && s.actions == [a1]
  {
    s := new ActionStack();
    s.PushAction(a1, true);
    s.PushAction(a2, true);
    s.PushAction(a3, true);
    assert s.actions == [a3, a2, a1];
    PopUpToSplits(s.actions, 2);
    assert s.actions[..2] == [a3, a2] && s.actions[2..] == [a1];
    report := s.UndoKActions(2);
  }

  /** A new library after one book is added. */
  method OneBook(id: int, title: Buf, copies: int) returns (lib: LibraryState)
    ensures lib.Valid()
    ensures fresh(lib.catalog.Repr) && fresh(lib.queue.Repr) && fresh(lib.log.Repr) && fresh(lib.issued.Repr)
    ensures fresh(lib.freed)
    ensures lib.State() == Library([BookView(id, title, copies)], [], [Action(AddBook, id)], [], {})
  {
    lib := new LibraryState();
    lib.MenuAddBook(id, title, copies, true, true, true);
  }

  /** A new library after one book is added and one request for it is made. */
  method OneBookOneRequest(id: int, title: Buf, copies: int, name: Buf) returns (lib: LibraryState)
    ensures lib.Valid()
    ensures fresh(lib.catalog.Repr) && fresh(lib.queue.Repr) && fresh(lib.log.Repr) && fresh(lib.issued.Repr)
    ensures fresh(lib.freed)
    ensures lib.State() ==
            Library([BookView(id, title, copies)], [Request(name, id)], [Action(IssueRequest, id), Action(AddBook, id)], [], {})
  {
    lib := OneBook(id, title, copies);
    lib.MenuRequestIssue(name, id, true, true, true);
  }

  /** One copy of book 101 is added and requested by `alice`: processing issues it to her
      with no copy left, her very name buffer is the one recorded, and processing again
      finds no pending request and changes nothing. */
  method IssueToAlice(title: Buf, alice: Buf) returns (first: Outcome, second: Outcome, lib: LibraryState)
    ensures first == Issued(title, alice, 101, 0)
    ensures second == NoPending
    ensures lib.State() ==
            Library([BookView(101, title, 0)], [],
                    [Action(IssueSuccess, 101), Action(IssueRequest, 101), Action(AddBook, 101)],
                    [Record(alice, 101)], {})
  {
    lib := OneBookOneRequest(101, title, 1, alice);
    first := lib.ProcessNextRequest(true, true, true);
    second := lib.ProcessNextRequest(true, true, true);
  }

  /** A request for a book id that does not exist is refused: ISSUE_FAIL 999 is logged,
      nothing is recorded and the student's name buffer is freed. */
  method RefuseUnknownBook(bob: Buf) returns (outcome: Outcome, lib: LibraryState)
    ensures outcome == NotFound(999)
    ensures lib.State() ==
            Library([], [], [Action(IssueFail, 999), Action(IssueRequest, 999)], [],
                    if bob != null then {bob} else {})
  {
    lib := new LibraryState();
    lib.MenuRequestIssue(bob, 999, true, true, true);
    outcome := lib.ProcessNextRequest(true, true, true);
  }

  /** A new library holding one book with three copies and two requests for it. */
  method TwoRequests(title: Buf, n1: Buf, n2: Buf) returns (lib: LibraryState)
    requires n1 == null || n1 != n2
    ensures lib.Valid()
    ensures fresh(lib.catalog.Repr) && fresh(lib.queue.Repr) && fresh(lib.log.Repr) && fresh(lib.issued.Repr)
    ensures fresh(lib.freed)
    ensures lib.catalog.books == [BookView(7, title, 3)] && lib.issued.records == [] && lib.freed.names == {}
    ensures lib.queue.requests == [Request(n1, 7), Request(n2, 7)]
  {
    lib := OneBookOneRequest(7, title, 3, n1);
    lib.MenuRequestIssue(n2, 7, true, true, true);
  }

  /** A new library holding one book with three copies and three requests for it. */
  method ThreeRequests(title: Buf, n1: Buf, n2: Buf, n3: Buf) returns (lib: LibraryState)
    requires n1 == null || (n1 != n2 && n1 != n3)
    requires n2 == null || n2 != n3
    ensures lib.Valid()
    ensures fresh(lib.catalog.Repr) && fresh(lib.queue.Repr) && fresh(lib.log.Repr) && fresh(lib.issued.Repr)
    ensures fresh(lib.freed)
    ensures lib.catalog.books == [BookView(7, title, 3)] && lib.issued.records == []
    ensures lib.queue.requests == [Request(n1, 7), Request(n2, 7), Request(n3, 7)]
  {
    lib := TwoRequests(title, n1, n2);
    lib.MenuRequestIssue(n3, 7, true, true, true);
  }

  /** The last two of three requests for book 7, after the first was served. */
  method ServeLastTwo(lib: LibraryState, title: Buf, n1: Buf, n2: Buf, n3: Buf) returns (o2: Outcome, o3: Outcome)
    requires lib.Valid()
    requires lib.catalog.books == [BookView(7, title, 2)] && lib.issued.records == [Record(n1, 7)]
    requires lib.queue.requests == [Request(n2, 7), Request(n3, 7)]
    modifies lib.freed, lib.catalog.Repr, lib.queue.Repr, lib.log.Repr, lib.issued.Repr
    ensures o2 == Issued(title, n2, 7, 1)
    ensures o3 == Issued(title, n3, 7, 0)
    ensures lib.catalog.books == [BookView(7, title, 0)] && lib.queue.requests == []
    ensures lib.issued.records == [Record(n3, 7), Record(n2, 7), Record(n1, 7)]
  {
    o2 := lib.ProcessNextRequest(true, true, true);
    o3 := lib.ProcessNextRequest(true, true, true);
  }

  /** Requests are served in arrival order: three requests for a book with three copies are
      issued to n1, n2, n3 in that order, and the issued list holds them most recent first. */
  method ServeInArrivalOrder(title: Buf, n1: Buf, n2: Buf, n3: Buf)
    returns (o1: Outcome, o2: Outcome, o3: Outcome, lib: LibraryState)
    requires n1 == null || (n1 != n2 && n1 != n3)
    requires n2 == null || n2 != n3
    ensures o1 == Issued(title, n1, 7, 2)
    ensures o2 == Issued(title, n2, 7, 1)
    ensures o3 == Issued(title, n3, 7, 0)
    ensures lib.catalog.books == [BookView(7, title, 0)] && lib.queue.requests == []
    ensures lib.issued.records == [Record(n3, 7), Record(n2, 7), Record(n1, 7)]
  {
    lib := ThreeRequests(title, n1, n2, n3);
    o1 := lib.ProcessNextRequest(true, true, true);
    o2, o3 := ServeLastTwo(lib, title, n1, n2, n3);
  }

  /** With a duplicate id the earliest inserted book decides: the first book 5 has no copy
      left, so a request for 5 is refused although a later book 5 has copies. */
  method FirstInsertedWins(t1: Buf, t2: Buf, name: Buf) returns (outcome: Outcome, lib: LibraryState)
    ensures outcome == NoCopies(5)
    ensures lib.catalog.books == [BookView(5, t1, 0), BookView(5, t2, 4)]
  {
    lib := OneBookOneRequest(5, t1, 0, name);
    lib.MenuAddBook(5, t2, 4, true, true, true);
    outcome := lib.ProcessNextRequest(true, true, true);
  }
}
