/** The four hand-built singly linked containers: the book catalog, the issue-request
    queue, the action stack and the issued-records list. Each container object stands for
    the global pointer(s) of one of them; a ghost spine lists its nodes in link order and a
    ghost value says what they hold, and Valid() keeps the two in step with the links. */
module Containers {
  import opened LibraryModel

  /** The nodes of a spine are pairwise distinct, so the links form no cycle. */
  ghost predicate Distinct<T>(nodes: seq<T>)
  {
    forall i, j :: 0 <= i < j < |nodes| ==> nodes[i] != nodes[j]
  }

  // ================================================================ book catalog

  /** A catalog node (BookStruct). Only the copy count and the link change after creation. */
  class Book {
    const bookId: int
    const title: Buf
    var availableCopies: int
    var next: Book?

    constructor (id: int, title: Buf, copies: int)
      ensures bookId == id && this.title == title && availableCopies == copies && next == null
    {
      bookId, this.title, availableCopies, next := id, title, copies, null;
    }
  }

  /** The catalog list (global `head`), in insertion order. */
  class Catalog {
    var head: Book?
    ghost var nodes: seq<Book>
    ghost var Repr: set<object>
    ghost var books: seq<BookView>

    ghost predicate Valid()
      reads this, Repr
    {
      this in Repr && (forall i :: 0 <= i < |nodes| ==> nodes[i] in Repr) &&
      (if nodes == [] then head == null else head == nodes[0] && nodes[|nodes| - 1].next == null) &&
      (forall i, j :: 0 <= i && j == i + 1 && j < |nodes| ==> nodes[i].next == nodes[j]) &&
      Distinct(nodes) && |books| == |nodes| &&
      (forall i :: 0 <= i < |nodes| ==>
         books[i] == BookView(nodes[i].bookId, nodes[i].title, nodes[i].availableCopies))
    }

    constructor ()
      ensures Valid() && books == [] && nodes == [] && Repr == {this}
    {
      head, nodes, books, Repr := null, [], [], {this};
    }

    /** insert_book: walks to the tail and links a new book there. Existing books are
        untouched and ids are not checked for uniqueness. When the node cannot be
        allocated nothing is inserted. */
    method InsertBook(id: int, title: Buf, copies: int, nodeAllocated: bool)
      requires Valid()
      modifies Repr
      ensures Valid() && fresh(Repr - old(Repr))
      ensures books == old(books) + (if nodeAllocated then [BookView(id, title, copies)] else [])
      ensures |nodes| == |old(nodes)| + (if nodeAllocated then 1 else 0) && nodes[..|old(nodes)|] == old(nodes)
      ensures nodeAllocated ==> fresh(nodes[|old(nodes)|])
    {
      if !nodeAllocated {
        return;
      }
      var b := new Book(id, title, copies);
      if head == null {
        head := b;
      } else {
        var cur := head;
        ghost var i := 0;
        while cur.next != null
          invariant 0 <= i < |nodes| && cur == nodes[i]
          invariant cur.next == if i + 1 < |nodes| then nodes[i + 1] else null
          decreases |nodes| - i
        {
          cur := cur.next;
          i := i + 1;
        }
        cur.next := b;
      }
      ghost var old_nodes := nodes;
      nodes, Repr := nodes + [b], Repr + {b};
      assert forall j :: 0 <= j < |old_nodes| - 1 ==> nodes[j].next == old_nodes[j + 1];
      books := books + [BookView(id, title, copies)];
    }

    /** search_book: a linear scan that returns the first book, in insertion order, with
        the given id, or null when there is none. */
    method SearchBook(id: int) returns (b: Book?)
      requires Valid()
      ensures b == null <==> FirstMatch(books, id).None?
      ensures b != null ==> b == nodes[FirstMatch(books, id).value] && b.bookId == id
    {
      var cur := head;
      ghost var i := 0;
      while cur != null
        invariant 0 <= i <= |nodes|
        invariant cur == (if i < |nodes| then nodes[i] else null)
        invariant forall j :: 0 <= j < i ==> books[j].id != id
        decreases |nodes| - i
      {
        if cur.bookId == id {
          FirstMatchUnique(books, id, i);
          return cur;
        }
        cur := cur.next;
        i := i + 1;
      }
      return null;
    }

    /** Issuing one copy of the book at position i: `available_copies -= 1` on that node. */
    method TakeCopy(b: Book, ghost i: nat)
      requires Valid() && i < |nodes| && b == nodes[i]
      modifies this, b
      ensures Valid() && nodes == old(nodes) && Repr == old(Repr)
      ensures books == old(books)[i := old(books)[i].(copies := old(books)[i].copies - 1)]
    {
      b.availableCopies := b.availableCopies - 1;
      books := books[i := books[i].(copies := books[i].copies - 1)];
    }
  }

  // ================================================================ request queue

  /** A request-queue node (ReqNode), owning its student-name buffer until dequeued. */
  class ReqNode {
    const studentName: Buf
    const bookId: int
    var next: ReqNode?

    constructor (name: Buf, id: int)
      ensures studentName == name && bookId == id && next == null
    {
      studentName, bookId, next := name, id, null;
    }
  }

  /** The request queue (globals `q_front` and `q_rear`), front first. */
  class RequestQueue {
    var front: ReqNode?
    var rear: ReqNode?
    ghost var nodes: seq<ReqNode>
    ghost var Repr: set<object>
    ghost var requests: seq<Request>

    ghost predicate Valid()
      reads this, Repr
    {
      this in Repr && (forall i :: 0 <= i < |nodes| ==> nodes[i] in Repr) &&
      (if nodes == [] then front == null && rear == null
       else front == nodes[0] && rear == nodes[|nodes| - 1] && rear.next == null) &&
      (forall i, j :: 0 <= i && j == i + 1 && j < |nodes| ==> nodes[i].next == nodes[j]) &&
      Distinct(nodes) && |requests| == |nodes| &&
      (forall i :: 0 <= i < |nodes| ==> requests[i] == Request(nodes[i].studentName, nodes[i].bookId))
    }

    constructor ()
      ensures Valid() && requests == [] && nodes == [] && Repr == {this}
    {
      front, rear, nodes, requests, Repr := null, null, [], [], {this};
    }

    /** enqueue_request: links a request holding `name` at the rear. When the node cannot
        be allocated the request is dropped (its name is freed) and the queue is unchanged. */
    method EnqueueRequest(name: Buf, bookId: int, nodeAllocated: bool)
      requires Valid()
      modifies Repr
      ensures Valid() && fresh(Repr - old(Repr))
      ensures requests == old(requests) + (if nodeAllocated then [Request(name, bookId)] else [])
    {
      if !nodeAllocated {
        return;
      }
      var node := new ReqNode(name, bookId);
      if front == null {
        front, rear := node, node;
      } else {
        rear.next := node;
        rear := node;
      }
      nodes, Repr := nodes + [node], Repr + {node};
      requests := requests + [Request(name, bookId)];
    }

    /** dequeue_request_node: detaches the front request and hands it to the caller,
        resetting the rear pointer when the queue empties; on an empty queue it returns
        null and changes nothing. */
    method DequeueRequestNode() returns (req: ReqNode?)
      requires Valid()
      modifies Repr
      ensures Valid() && Repr == old(Repr)
      ensures (req == null) == (old(requests) == [])
      ensures req == null ==> requests == old(requests)
      ensures req != null ==> Request(req.studentName, req.bookId) == old(requests)[0] &&
                              requests == old(requests)[1..] && req.next == null
      ensures (front == null) == (rear == null)
    {
      if front == null {
        return null;
      }
      req := front;
      front := front.next;
      if front == null {
        rear := null;
      }
      req.next := null;
      nodes := nodes[1..];
      requests := requests[1..];
    }
  }

  // ================================================================ action stack

  /** An action-stack node (StackNode). */
  class StackNode {
    const action: Action
    var next: StackNode?

    constructor (a: Action, next: StackNode?)
      ensures action == a && this.next == next
    {
      action, this.next := a, next;
    }
  }

  /** The action stack (global `stack_top`), top first. */
  class ActionStack {
    var top: StackNode?
    ghost var nodes: seq<StackNode>
    ghost var Repr: set<object>
    ghost var actions: seq<Action>

    ghost predicate Valid()
      reads this, Repr
    {
      this in Repr && (forall i :: 0 <= i < |nodes| ==> nodes[i] in Repr) &&
      (if nodes == [] then top == null else top == nodes[0] && nodes[|nodes| - 1].next == null) &&
      (forall i, j :: 0 <= i && j == i + 1 && j < |nodes| ==> nodes[i].next == nodes[j]) &&
      Distinct(nodes) && |actions| == |nodes| &&
      (forall i :: 0 <= i < |nodes| ==> actions[i] == nodes[i].action)
    }

    constructor ()
      ensures Valid() && actions == [] && nodes == [] && Repr == {this}
    {
      top, nodes, actions, Repr := null, [], [], {this};
    }

    /** push_action: the entry becomes the new top. When the node cannot be allocated
        the entry is dropped and the stack is unchanged. */
    method PushAction(a: Action, nodeAllocated: bool)
      requires Valid()
      modifies Repr
      ensures Valid() && fresh(Repr - old(Repr))
      ensures actions == Logged(old(actions), a, nodeAllocated)
    {
      if !nodeAllocated {
        return;
      }
      top := new StackNode(a, top);
      nodes, Repr := [top] + nodes, Repr + {top};
      actions := [a] + actions;
    }

    /** pop_action_node: detaches the top entry and hands it to the caller; on an empty
        stack it returns null and changes nothing. */
    method PopActionNode() returns (p: StackNode?)
      requires Valid()
      modifies Repr
      ensures Valid() && Repr == old(Repr)
      ensures (p == null) == (old(actions) == [])
      ensures p == null ==> actions == old(actions) && nodes == old(nodes)
      ensures p != null ==> p.action == old(actions)[0] && actions == old(actions)[1..] &&
                            nodes == old(nodes)[1..] && p.next == null
    {
      if top == null {
        return null;
      }
      p := top;
      top := top.next;
      p.next := null;
      nodes := nodes[1..];
      actions := actions[1..];
    }

    /** undo_k_actions: rejects k <= 0; otherwise pops up to k entries, most recent first,
        stopping early when the stack runs out, and reports the popped entries. */
    method UndoKActions(k: int) returns (report: UndoReport)
      requires Valid()
      modifies Repr
      ensures Valid() && Repr == old(Repr)
      ensures k <= 0 ==> report == KNotPositive && actions == old(actions)
      ensures k > 0 ==> report == Undone(PopUpTo(old(actions), k).0, k > |old(actions)|) &&
                        actions == PopUpTo(old(actions), k).1
    {
      if k <= 0 {
        return KNotPositive;
      }
      PopUpToSplits(actions, k);
      var popped: seq<Action> := [];
      for i := 0 to k
        invariant Valid()
        invariant i <= |old(actions)|
        invariant popped == old(actions)[..i] && actions == old(actions)[i..]
        invariant nodes == old(nodes)[i..] && Repr == old(Repr)
      {
        var p := PopActionNode();
        if p == null {
          return Undone(popped, true);
        }
        popped := popped + [p.action];
      }
      return Undone(popped, false);
    }
  }

  // ================================================================ issued records

  /** An issued-records node (IssueRecord), holding a name buffer taken over from a request. */
  class IssueRecord {
    const studentName: Buf
    const bookId: int
    var next: IssueRecord?

    constructor (name: Buf, id: int, next: IssueRecord?)
      ensures studentName == name && bookId == id && this.next == next
    {
      studentName, bookId, this.next := name, id, next;
    }
  }

  /** The issued-records list (global `issued_head`), most recent first. */
  class IssuedRecords {
    var head: IssueRecord?
    ghost var nodes: seq<IssueRecord>
    ghost var Repr: set<object>
    ghost var records: seq<Record>

    ghost predicate Valid()
      reads this, Repr
    {
      this in Repr && (forall i :: 0 <= i < |nodes| ==> nodes[i] in Repr) &&
      (if nodes == [] then head == null else head == nodes[0] && nodes[|nodes| - 1].next == null) &&
      (forall i, j :: 0 <= i && j == i + 1 && j < |nodes| ==> nodes[i].next == nodes[j]) &&
      Distinct(nodes) && |records| == |nodes| &&
      (forall i :: 0 <= i < |nodes| ==> records[i] == Record(nodes[i].studentName, nodes[i].bookId))
    }

    constructor ()
      ensures Valid() && records == [] && nodes == [] && Repr == {this}
    {
      head, nodes, records, Repr := null, [], [], {this};
    }

    /** add_issue_record: prepends a record that takes over `name`. When the node cannot
        be allocated nothing is recorded. */
    method AddIssueRecord(name: Buf, bookId: int, nodeAllocated: bool)
      requires Valid()
      modifies Repr
      ensures Valid() && fresh(Repr - old(Repr))
      ensures records == if nodeAllocated then [Record(name, bookId)] + old(records) else old(records)
    {
      if !nodeAllocated {
        return;
      }
      head := new IssueRecord(name, bookId, head);
      nodes, Repr := [head] + nodes, Repr + {head};
      records := [Record(name, bookId)] + records;
    }
  }
}
