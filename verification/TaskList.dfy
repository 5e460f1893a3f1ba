// The intrusive circular lists of tasks: every operation rewrites links in place.
module TaskList {
  import opened Bytes

  // A task node with the list_head embedded in it, so that list_entry is the identity. Of the head
  // of a list only the links are used. What a task says does not change while it is in a list.
  class Link {
    var next: Link?
    var prev: Link?
    const msgId: nat
    const curState: byte

    constructor (msgId: nat, curState: byte)
      ensures this.msgId == msgId && this.curState == curState
    {
      this.msgId, this.curState := msgId, curState;
      next, prev := null, null;
    }
  }

  // The list once around, from the head to the head.
  ghost function Ring(head: Link, tasks: seq<Link>): seq<Link> {
    [head] + tasks + [head]
  }

  // Circular, with next and prev inverse to each other, and no node in it twice.
  ghost predicate IsList(head: Link, tasks: seq<Link>)
    reads head, tasks
  {
    && Separate(head, tasks)
    && var r := Ring(head, tasks);
       forall i | 0 <= i <= |tasks| :: Linked(r[i], r[i + 1])
  }

  ghost predicate Separate(head: Link, tasks: seq<Link>) {
    head !in tasks && forall i, j | 0 <= i < j < |tasks| :: tasks[i] != tasks[j]
  }

  ghost predicate Linked(a: Link, b: Link)
    reads a, b
  {
    a.next == b && b.prev == a
  }

  method InitListHead(list: Link)
    modifies list
    ensures IsList(list, [])
  {
    list.next := list;
    list.prev := list;
  }

  // __list_add and list_add: behind the head.
  method ListAdd(entry: Link, head: Link, ghost tasks: seq<Link>)
    requires IsList(head, tasks) && entry != head && entry !in tasks
    modifies entry`next, entry`prev, head`next, head`prev, tasks`prev
    ensures IsList(head, [entry] + tasks)
  {
    ghost var r, r' := Ring(head, tasks), Ring(head, [entry] + tasks);
    assert Linked(r[0], r[1]);
    var prev, next := head, head.next;
    next.prev := entry;
    entry.next := next;
    entry.prev := prev;
    prev.next := entry;
    forall i | 0 <= i <= |tasks| + 1 ensures Linked(r'[i], r'[i + 1]) {
      if i >= 2 {
        assert r'[i] == r[i - 1] && r'[i + 1] == r[i];
        assert old(Linked(r[i - 1], r[i]));
      }
    }
  }

  // __list_del_entry: the neighbours point to each other; the links of the entry are left as they are.
  method ListDelEntry(entry: Link, ghost head: Link, ghost tasks: seq<Link>, ghost at: nat)
    requires IsList(head, tasks) && at < |tasks| && tasks[at] == entry
    modifies head`next, head`prev, tasks`next, tasks`prev
    ensures IsList(head, Without(tasks, at)) && Separate(head, tasks)
    ensures entry.next == old(entry.next) && entry.prev == old(entry.prev)
  {
    ghost var r, r' := Ring(head, tasks), Ring(head, Without(tasks, at));
    assert r[at + 1] == entry && Linked(r[at], r[at + 1]) && Linked(r[at + 1], r[at + 2]);
    var prev, next := entry.prev, entry.next;
    next.prev := prev;
    prev.next := next;
    forall i | 0 <= i < |tasks| ensures Linked(r'[i], r'[i + 1]) {
      if i < at {
        assert r'[i] == r[i] && r'[i + 1] == r[i + 1];
        assert old(Linked(r[i], r[i + 1]));
      } else if i > at {
        assert r'[i] == r[i + 1] && r'[i + 1] == r[i + 2];
        assert old(Linked(r[i + 1], r[i + 2]));
      } else {
        assert r'[i] == r[i] && r'[i + 1] == r[i + 2];
      }
    }
  }

  predicate ListIsLast(list: Link, head: Link)
    reads list
  {
    list.next == head
  }

  predicate ListEmpty(head: Link)
    reads head
  {
    head.next == head
  }

  // The tests on links are tests on the list.
  lemma LinksTell(head: Link, tasks: seq<Link>, at: nat)
    requires IsList(head, tasks) && at < |tasks|
    ensures !ListEmpty(head) && head.next == tasks[0] && head.prev == tasks[|tasks| - 1]
    ensures ListIsLast(tasks[at], head) <==> at == |tasks| - 1
    ensures at + 1 < |tasks| ==> tasks[at].next == tasks[at + 1] && tasks[at + 1].prev == tasks[at]
  {
    var r := Ring(head, tasks);
    assert Linked(r[0], r[1]) && Linked(r[|tasks|], r[|tasks| + 1]);
    assert r[at + 1] == tasks[at] && Linked(r[at + 1], r[at + 2]);
  }

  // The first task with that message id.
  ghost function FirstWith(tasks: seq<Link>, msgId: nat): (at: Option<nat>)
    ensures at.Some? ==> at.value < |tasks| && tasks[at.value].msgId == msgId
  {
    if tasks == [] then None
    else if tasks[0].msgId == msgId then Some(0)
    else
      match FirstWith(tasks[1..], msgId)
      case None => None
      case Some(at) => Some(at + 1)
  }

  // The traversal macro with the test of the find and delete loops: the node found and its place.
  method Search(head: Link, msgId: nat, ghost tasks: seq<Link>) returns (pos: Link, ghost at: nat)
    requires IsList(head, tasks)
    ensures match FirstWith(tasks, msgId)
      case None => pos == head
      case Some(k) => pos == tasks[k] && pos != head && at == k
  {
    ghost var r := Ring(head, tasks);
    assert Linked(r[0], r[1]);
    pos := head.next;
    at := 0;
    while pos != head
      invariant at <= |tasks| && pos == r[at + 1]
      invariant FirstWith(tasks, msgId) ==
        match FirstWith(tasks[at..], msgId) case None => None case Some(k) => Some(at + k)
      decreases |tasks| - at
    {
      assert tasks[at..][1..] == tasks[at + 1..];
      if msgId == pos.msgId {
        return;
      }
      assert Linked(r[at + 1], r[at + 2]);
      pos := pos.next;
      at := at + 1;
    }
  }

  method FindTaskByMsgID(msgId: nat, head: Link, ghost tasks: seq<Link>) returns (node: Link?)
    requires IsList(head, tasks)
    ensures match FirstWith(tasks, msgId) case None => node == null case Some(at) => node == tasks[at]
  {
    ghost var at;
    node, at := Search(head, msgId, tasks);
    if node == head {
      node := null;
    }
  }

  // NextTask: the task behind a node or the head, null behind the last one. It looks for the head it
  // is given: behind the last node of a list with another head it finds that other head.
  method NextTask(cur: Link, head: Link, ghost in_: Link, ghost tasks: seq<Link>, ghost at: nat)
    returns (node: Link?)
    requires IsList(in_, tasks) && at <= |tasks| && Ring(in_, tasks)[at] == cur && head !in tasks
    ensures node == if at < |tasks| then tasks[at] else if in_ == head then null else in_
  {
    assert Linked(Ring(in_, tasks)[at], Ring(in_, tasks)[at + 1]);
    if ListIsLast(cur, head) {
      node := null;
    } else {
      node := cur.next;
    }
  }

  // Walking to a task by its position.
  method NthTask(n: nat, head: Link, ghost tasks: seq<Link>) returns (node: Link?)
    requires IsList(head, tasks)
    ensures node == if n < |tasks| then tasks[n] else null
  {
    hide IsList;
    HeadApart(head, tasks);
    node := NextTask(head, head, head, tasks, 0);
    var i: nat := 0;
    while i < n && node != null
      invariant i <= |tasks| && i <= n && node == if i < |tasks| then tasks[i] else null
      decreases n - i
    {
      i := i + 1;
      node := NextTask(node, head, head, tasks, i);
    }
  }

  method IsEmpty(head: Link, ghost tasks: seq<Link>) returns (empty: bool)
    requires IsList(head, tasks)
    ensures empty <==> tasks == []
  {
    assert Linked(Ring(head, tasks)[0], Ring(head, tasks)[1]);
    empty := ListEmpty(head);
  }

  // --- The two lists of the program

  datatype Task = Task(msgId: nat, curState: byte)

  // What a list holds, as values.
  ghost function Values(tasks: seq<Link>): (v: seq<Task>)
    ensures |v| == |tasks| && forall i | 0 <= i < |tasks| :: v[i] == Task(tasks[i].msgId, tasks[i].curState)
  {
    if tasks == [] then [] else [Task(tasks[0].msgId, tasks[0].curState)] + Values(tasks[1..])
  }

  datatype Queues = Queues(waiting: seq<Task>, doing: seq<Task>) {
    function Get(which: Which): seq<Task> {
      if which == Waiting then waiting else doing
    }

    function Set(which: Which, tasks: seq<Task>): Queues {
      if which == Waiting then Queues(tasks, doing) else Queues(waiting, tasks)
    }
  }

  datatype Which = Waiting | Doing

  class TaskQueues {
    const waitingHead: Link
    const doingHead: Link
    ghost var waiting: seq<Link>
    ghost var doing: seq<Link>

    ghost predicate Valid()
      reads this, waitingHead, doingHead, waiting, doing
    {
      && waitingHead != doingHead && waitingHead !in doing && doingHead !in waiting
      && (forall i | 0 <= i < |waiting| :: waiting[i] !in doing)
      && (forall i | 0 <= i < |doing| :: doing[i] !in waiting)
      && IsList(waitingHead, waiting) && IsList(doingHead, doing)
    }

    ghost function State(): Queues
      reads this
    {
      Queues(Values(waiting), Values(doing))
    }

    ghost function Repr(): set<object>
      reads this
    {
      {this, waitingHead, doingHead} + (set t | t in waiting) + (set t | t in doing)
    }

    constructor ()
      ensures Valid() && State() == Queues([], []) && fresh(Repr())
    {
      waitingHead := new Link(0, 0);
      doingHead := new Link(0, 0);
      waiting, doing := [], [];
      new;
      InitListHead(waitingHead);
      InitListHead(doingHead);
    }

    method InsertTask(which: Which, msgId: nat, curState: byte)
      requires Valid()
      modifies Repr()
      ensures Valid() && fresh(Repr() - old(Repr()))
      ensures State() == old(State()).Set(which, [Task(msgId, curState)] + old(State()).Get(which))
    {
      hide IsList, Separate, Values, First, FirstWith;
      var newTask := new Link(msgId, curState);
      if which == Waiting {
        ListAdd(newTask, waitingHead, waiting);
        NodeAdded(newTask, waiting);
        waiting := [newTask] + waiting;
      } else {
        ListAdd(newTask, doingHead, doing);
        NodeAdded(newTask, doing);
        doing := [newTask] + doing;
      }
    }

    function Head(which: Which): Link {
      if which == Waiting then waitingHead else doingHead
    }

    ghost function Tasks(which: Which): seq<Link>
      reads this
    {
      if which == Waiting then waiting else doing
    }

    // Links a node out of the list that it is in.
    method Unlink(node: Link, ghost from: Which, ghost at: nat)
      requires Valid() && at < |Tasks(from)| && Tasks(from)[at] == node
      modifies Repr()
      ensures Valid() && Repr() + {node} == old(Repr())
      ensures node !in waiting && node !in doing && node != waitingHead && node != doingHead
      ensures waiting == if from == Waiting then Without(old(waiting), at) else old(waiting)
      ensures doing == if from == Doing then Without(old(doing), at) else old(doing)
      ensures State() == old(State()).Set(from, Without(old(State()).Get(from), at))
    {
      hide IsList, Separate, Values;
      ghost var tasks := Tasks(from);
      ListDelEntry(node, Head(from), tasks, at);
      NodeRemoved(Head(from), tasks, at);
      ValuesWithout(tasks, at);
      if from == Waiting {
        waiting := Without(tasks, at);
      } else {
        doing := Without(tasks, at);
      }
    }

    // DeleteTask: any node is unlinked, poisoned and freed. A poison pointer is null here.
    method DeleteTask(node: Link, ghost which: Which, ghost at: nat)
      requires Valid() && at < |Tasks(which)| && Tasks(which)[at] == node
      modifies Repr()
      ensures Valid() && Repr() <= old(Repr())
      ensures State() == DeletedAt(old(State()), which, at)
    {
      hide IsList, Separate, Values;
      Unlink(node, which, at);
      node.next := null;
      node.prev := null;
    }

    // The search leaves the loop with the node deleted, or reaches the head.
    method DeleteTaskByMsgID(which: Which, msgId: nat) returns (found: bool)
      requires Valid()
      modifies Repr()
      ensures Valid() && Repr() <= old(Repr())
      ensures found <==> First(old(State()).Get(which), msgId).Some?
      ensures State() == Deleted(old(State()), which, msgId)
    {
      hide IsList, Separate, Values, First, FirstWith;
      FirstIsFirst(Tasks(which), msgId);
      var pos, at := Search(Head(which), msgId, Tasks(which));
      found := pos != Head(which);
      if found {
        DeleteTask(pos, which, at);
      }
    }

    // MoveTask, which is list_move: the node is unlinked and put at the front of the other list, or of
    // its own. Which list it comes from is not looked at.
    method MoveTask(node: Link, to: Which, ghost from: Which, ghost at: nat)
      requires Valid() && at < |Tasks(from)| && Tasks(from)[at] == node
      modifies Repr()
      ensures Valid() && Repr() == old(Repr())
      ensures Tasks(to) == [node] + if from == to then Without(old(Tasks(from)), at) else old(Tasks(to))
      ensures State() == MovedAt(old(State()), from, to, at)
    {
      hide IsList, Separate, Values;
      Unlink(node, from, at);
      ListAddTo(to, node);
    }

    // Find by message id in one list, then move.
    method MoveTaskByMsgID(from: Which, to: Which, msgId: nat) returns (found: bool)
      requires Valid()
      modifies Repr()
      ensures Valid() && Repr() == old(Repr())
      ensures found <==> First(old(State()).Get(from), msgId).Some?
      ensures State() == Moved(old(State()), from, to, msgId)
    {
      hide IsList, Separate, Values, First, FirstWith, MovedAt;
      FirstIsFirst(Tasks(from), msgId);
      var pos, at := Search(Head(from), msgId, Tasks(from));
      found := pos != Head(from);
      if found {
        MoveTask(pos, to, from, at);
      }
    }

    // The first turns of the loop that works off the tasks being done: the first task is moved to the
    // waiting list, and the next one is looked for behind it. It is not the second task being done,
    // but the one the moved task was put in front of, or the head of the waiting list.
    method FirstTurns() returns (first: Link?, second: Link?)
      requires Valid()
      modifies Repr()
      ensures Valid() && Repr() == old(Repr())
      ensures old(doing) == [] ==> first == null && second == null && State() == old(State())
      ensures old(doing) != [] ==>
        && first == old(doing[0]) && State() == MovedAt(old(State()), Doing, Waiting, 0)
        && second == if old(waiting) == [] then waitingHead else old(waiting[0])
    {
      hide IsList, Separate, Values;
      HeadApart(doingHead, doing);
      second := null;
      first := NextTask(doingHead, doingHead, doingHead, doing, 0);
      if first != null {
        MoveTask(first, Waiting, Doing, 0);
        second := NextTask(first, doingHead, waitingHead, waiting, 1);
      }
    }

    method ListAddTo(which: Which, node: Link)
      requires Valid() && node !in waiting && node !in doing && node != waitingHead && node != doingHead
      modifies Repr(), node`next, node`prev
      ensures Valid() && Repr() == old(Repr()) + {node}
      ensures waiting == if which == Waiting then [node] + old(waiting) else old(waiting)
      ensures doing == if which == Doing then [node] + old(doing) else old(doing)
      ensures State() == old(State()).Set(which, [Task(node.msgId, node.curState)] + old(State()).Get(which))
    {
      hide IsList, Separate, Values, First, FirstWith;
      if which == Waiting {
        ListAdd(node, waitingHead, waiting);
        NodeAdded(node, waiting);
        waiting := [node] + waiting;
      } else {
        ListAdd(node, doingHead, doing);
        NodeAdded(node, doing);
        doing := [node] + doing;
      }
    }
  }

  // --- The same on values

  function First(tasks: seq<Task>, msgId: nat): (at: Option<nat>)
    ensures at.Some? ==> at.value < |tasks| && tasks[at.value].msgId == msgId
    ensures at.Some? ==> forall k | 0 <= k < at.value :: tasks[k].msgId != msgId
    ensures at.None? ==> forall k | 0 <= k < |tasks| :: tasks[k].msgId != msgId
  {
    if tasks == [] then None
    else if tasks[0].msgId == msgId then Some(0)
    else
      match First(tasks[1..], msgId)
      case None => None
      case Some(at) => Some(at + 1)
  }

  lemma {:induction false} FirstIsFirst(tasks: seq<Link>, msgId: nat)
    ensures First(Values(tasks), msgId) == FirstWith(tasks, msgId)
  {
    if tasks != [] {
      assert Values(tasks)[1..] == Values(tasks[1..]);
      hide Values;
      FirstIsFirst(tasks[1..], msgId);
    }
  }

  lemma HeadApart(head: Link, tasks: seq<Link>)
    requires IsList(head, tasks)
    ensures head !in tasks
  {
  }

  lemma NodeRemoved(head: Link, tasks: seq<Link>, at: nat)
    requires at < |tasks| && Separate(head, tasks)
    ensures tasks[at] !in Without(tasks, at)
    ensures forall t | t in tasks :: t == tasks[at] || t in Without(tasks, at)
    ensures forall t | t in Without(tasks, at) :: t in tasks
    ensures head != tasks[at]
    ensures (set t | t in tasks) == (set t | t in Without(tasks, at)) + {tasks[at]}
  {
    var rest := Without(tasks, at);
    forall i | 0 <= i < |tasks| && i != at ensures tasks[i] in rest {
      assert tasks[i] == if i < at then rest[i] else rest[i - 1];
    }
  }

  lemma NodeAdded(node: Link, tasks: seq<Link>)
    ensures (set t | t in [node] + tasks) == {node} + set t | t in tasks
    ensures forall t | t in [node] + tasks :: t == node || t in tasks
    ensures Values([node] + tasks) == [Task(node.msgId, node.curState)] + Values(tasks)
  {
    hide Values;
    assert forall i | 1 <= i <= |tasks| :: ([node] + tasks)[i] == tasks[i - 1];
  }

  lemma ValuesWithout(tasks: seq<Link>, at: nat)
    requires at < |tasks|
    ensures Values(Without(tasks, at)) == Without(Values(tasks), at)
  {
    var a, b := Values(Without(tasks, at)), Without(Values(tasks), at);
    assert |a| == |b|;
    forall i | 0 <= i < |b|
      ensures a[i] == b[i]
    {
      assert Without(tasks, at)[i] == tasks[if i < at then i else i + 1];
    }
  }

  function Deleted(q: Queues, which: Which, msgId: nat): Queues {
    match First(q.Get(which), msgId)
    case None => q
    case Some(at) => DeletedAt(q, which, at)
  }

  function DeletedAt(q: Queues, which: Which, at: nat): Queues
    requires at < |q.Get(which)|
  {
    q.Set(which, Without(q.Get(which), at))
  }

  function Moved(q: Queues, from: Which, to: Which, msgId: nat): Queues {
    match First(q.Get(from), msgId)
    case None => q
    case Some(at) => MovedAt(q, from, to, at)
  }

  function MovedAt(q: Queues, from: Which, to: Which, at: nat): Queues
    requires at < |q.Get(from)|
  {
    var rest := DeletedAt(q, from, at);
    rest.Set(to, [q.Get(from)[at]] + rest.Get(to))
  }

  // Deleting by message id takes out the first task that has it, and nothing else.
  lemma DeletedTells(q: Queues, which: Which, msgId: nat, at: nat)
    requires at < |q.Get(which)| && q.Get(which)[at].msgId == msgId
    requires forall k | 0 <= k < at :: q.Get(which)[k].msgId != msgId
    ensures var rest := q.Get(which)[..at] + q.Get(which)[at + 1..];
      Deleted(q, which, msgId) == if which == Waiting then Queues(rest, q.doing) else Queues(q.waiting, rest)
  {
  }

  // Moving by message id takes that task to the front; within one list the others keep their order,
  // and of two lists one loses and the other gains it.
  lemma MovedTells(q: Queues, from: Which, to: Which, msgId: nat, at: nat)
    requires at < |q.Get(from)| && q.Get(from)[at].msgId == msgId
    requires forall k | 0 <= k < at :: q.Get(from)[k].msgId != msgId
    ensures var task, rest := q.Get(from)[at], q.Get(from)[..at] + q.Get(from)[at + 1..];
      Moved(q, from, to, msgId) ==
        if from == Waiting && to == Waiting then Queues([task] + rest, q.doing)
        else if from == Waiting && to == Doing then Queues(rest, [task] + q.doing)
        else if from == Doing && to == Waiting then Queues([task] + q.waiting, rest)
        else Queues(q.waiting, [task] + rest)
  {
  }

  // A message id that no task has changes nothing.
  lemma NoneTells(q: Queues, from: Which, to: Which, msgId: nat)
    requires forall k | 0 <= k < |q.Get(from)| :: q.Get(from)[k].msgId != msgId
    ensures Deleted(q, from, msgId) == q && Moved(q, from, to, msgId) == q
  {
  }

  // --- Runs

  // Tasks are deleted and moved by message id, or as nodes; a node is named by its place.
  datatype Op =
    | Insert(which: Which, task: Task)
    | Delete(which: Which, msgId: nat)
    | DeleteNode(which: Which, at: nat)
    | Move(from: Which, to: Which, msgId: nat)
    | MoveNode(from: Which, to: Which, at: nat)

  function Step(q: Queues, op: Op): Queues {
    match op
    case Insert(which, task) => q.Set(which, [task] + q.Get(which))
    case Delete(which, msgId) => Deleted(q, which, msgId)
    case DeleteNode(which, at) => if at < |q.Get(which)| then DeletedAt(q, which, at) else q
    case Move(from, to, msgId) => Moved(q, from, to, msgId)
    case MoveNode(from, to, at) => if at < |q.Get(from)| then MovedAt(q, from, to, at) else q
  }

  // On nodes the operations do the same to any place.
  lemma NodeTells(q: Queues, from: Which, to: Which, at: nat)
    requires at < |q.Get(from)|
    ensures var task, rest := q.Get(from)[at], q.Get(from)[..at] + q.Get(from)[at + 1..];
      && Step(q, DeleteNode(from, at)) == (if from == Waiting then Queues(rest, q.doing) else Queues(q.waiting, rest))
      && Step(q, MoveNode(from, to, at)) ==
           if from == Waiting && to == Waiting then Queues([task] + rest, q.doing)
           else if from == Waiting && to == Doing then Queues(rest, [task] + q.doing)
           else if from == Doing && to == Waiting then Queues([task] + q.waiting, rest)
           else Queues(q.waiting, [task] + rest)
  {
  }

  function Run(q: Queues, ops: seq<Op>): Queues
    decreases |ops|
  {
    if ops == [] then q else Run(Step(q, ops[0]), ops[1..])
  }

  // The task an operation puts in, and the one it takes out for good.
  function PutIn(op: Op): seq<Task> {
    if op.Insert? then [op.task] else []
  }

  function TakenOut(q: Queues, op: Op): seq<Task> {
    if op.Delete? && First(q.Get(op.which), op.msgId).Some?
    then [q.Get(op.which)[First(q.Get(op.which), op.msgId).value]]
    else if op.DeleteNode? && op.at < |q.Get(op.which)| then [q.Get(op.which)[op.at]]
    else []
  }

  function AllPutIn(ops: seq<Op>): seq<Task> {
    if ops == [] then [] else PutIn(ops[0]) + AllPutIn(ops[1..])
  }

  function AllTakenOut(q: Queues, ops: seq<Op>): seq<Task>
    decreases |ops|
  {
    if ops == [] then [] else TakenOut(q, ops[0]) + AllTakenOut(Step(q, ops[0]), ops[1..])
  }

  ghost function Combined(q: Queues): multiset<Task> {
    multiset(q.waiting) + multiset(q.doing)
  }

  lemma Regrouped(q: Queues, which: Which, tasks: seq<Task>)
    ensures Combined(q.Set(which, tasks)) + multiset(q.Get(which)) == Combined(q) + multiset(tasks)
  {
  }

  lemma Cancel(a: multiset<Task>, x: multiset<Task>, c: multiset<Task>, y: multiset<Task>)
    requires a + (x + y) == c + y
    ensures a + x == c
  {
    forall t: Task ensures (a + x)[t] == c[t] {
      assert (a + (x + y))[t] == (c + y)[t];
    }
  }

  lemma Chain(
    run: multiset<Task>, outs: multiset<Task>, step: multiset<Task>, ins: multiset<Task>,
    q: multiset<Task>, out: multiset<Task>, inn: multiset<Task>)
    requires run + outs == step + ins && step + out == q + inn
    ensures run + (out + outs) == q + (inn + ins)
  {
    assert run + (out + outs) == (run + outs) + out;
    assert (step + ins) + out == (step + out) + ins;
  }

  lemma PushAdds(q: Queues, which: Which, task: Task)
    ensures Combined(q.Set(which, [task] + q.Get(which))) == Combined(q) + multiset([task])
  {
    assert multiset([task] + q.Get(which)) == multiset([task]) + multiset(q.Get(which));
  }

  lemma DeletedAtConserves(q: Queues, which: Which, at: nat)
    requires at < |q.Get(which)|
    ensures Combined(DeletedAt(q, which, at)) + multiset([q.Get(which)[at]]) == Combined(q)
  {
    hide Combined;
    var tasks := q.Get(which);
    Regrouped(q, which, Without(tasks, at));
    assert tasks == tasks[..at] + [tasks[at]] + tasks[at + 1..];
    Cancel(Combined(DeletedAt(q, which, at)), multiset([tasks[at]]), Combined(q), multiset(Without(tasks, at)));
  }

  // Moving any task of either list to either list, in front of the others.
  lemma MoveConserves(q: Queues, from: Which, to: Which, at: nat)
    requires at < |q.Get(from)|
    ensures Combined(MovedAt(q, from, to, at)) == Combined(q)
  {
    hide Combined;
    DeletedAtConserves(q, from, at);
    PushAdds(DeletedAt(q, from, at), to, q.Get(from)[at]);
  }

  lemma MoveByIdConserves(q: Queues, from: Which, to: Which, msgId: nat)
    ensures Combined(Moved(q, from, to, msgId)) == Combined(q)
  {
    hide First, Combined, MovedAt;
    var at := First(q.Get(from), msgId);
    if at.Some? {
      MoveConserves(q, from, to, at.value);
    }
  }

  lemma StepConserves(q: Queues, op: Op)
    ensures Combined(Step(q, op)) + multiset(TakenOut(q, op)) == Combined(q) + multiset(PutIn(op))
  {
    hide First, Combined, Moved, DeletedAt, MovedAt;
    match op
    case Insert(which, task) => PushAdds(q, which, task);
    case Delete(which, msgId) =>
      var at := First(q.Get(which), msgId);
      if at.Some? {
        DeletedAtConserves(q, which, at.value);
      }
    case DeleteNode(which, at) =>
      if at < |q.Get(which)| {
        DeletedAtConserves(q, which, at);
      }
    case Move(from, to, msgId) =>
      MoveByIdConserves(q, from, to, msgId);
    case MoveNode(from, to, at) =>
      if at < |q.Get(from)| {
        MoveConserves(q, from, to, at);
      }
  }

  // Over every run, no task is lost or doubled: moving conserves the tasks of both lists together,
  // deleting takes out the one it finds.
  lemma {:induction false} RunConserves(q: Queues, ops: seq<Op>)
    ensures Combined(Run(q, ops)) + multiset(AllTakenOut(q, ops)) == Combined(q) + multiset(AllPutIn(ops))
    decreases |ops|
  {
    hide First, Combined, Step, TakenOut, PutIn;
    if ops != [] {
      var q' := Step(q, ops[0]);
      StepConserves(q, ops[0]);
      RunConserves(q', ops[1..]);
      Chain(
        Combined(Run(q, ops)), multiset(AllTakenOut(q', ops[1..])), Combined(q'), multiset(AllPutIn(ops[1..])),
        Combined(q), multiset(TakenOut(q, ops[0])), multiset(PutIn(ops[0])));
    }
  }

  method ExecuteOne(queues: TaskQueues, op: Op)
    requires queues.Valid()
    modifies queues.Repr()
    ensures queues.Valid() && fresh(queues.Repr() - old(queues.Repr()))
    ensures queues.State() == Step(old(queues.State()), op)
  {
    hide IsList, Values, First, Deleted, Moved, DeletedAt, MovedAt;
    match op {
      case Insert(which, task) => queues.InsertTask(which, task.msgId, task.curState);
      case Delete(which, msgId) => var _ := queues.DeleteTaskByMsgID(which, msgId);
      case DeleteNode(which, at) =>
        var node := NthTask(at, queues.Head(which), queues.Tasks(which));
        if node != null {
          queues.DeleteTask(node, which, at);
        }
      case Move(from, to, msgId) => var _ := queues.MoveTaskByMsgID(from, to, msgId);
      case MoveNode(from, to, at) =>
        var node := NthTask(at, queues.Head(from), queues.Tasks(from));
        if node != null {
          queues.MoveTask(node, to, from, at);
        }
    }
  }

  // Every sequence of operations on the linked lists does to them what it does to the values, and
  // leaves them circular and apart.
  method Execute(queues: TaskQueues, ops: seq<Op>)
    requires queues.Valid()
    modifies queues.Repr()
    ensures queues.Valid() && fresh(queues.Repr() - old(queues.Repr()))
    ensures queues.State() == Run(old(queues.State()), ops)
  {
    hide TaskQueues.Valid, Values, Step;
    var i := 0;
    while i < |ops|
      invariant 0 <= i <= |ops| && queues.Valid() && fresh(queues.Repr() - old(queues.Repr()))
      invariant Run(queues.State(), ops[i..]) == Run(old(queues.State()), ops)
    {
      assert ops[i..][1..] == ops[i + 1..];
      ExecuteOne(queues, ops[i]);
      i := i + 1;
    }
  }
}
