/**
 The registry of open files: the `open_files` linked list of path/lock
 nodes guarded by the ticket lock `open_files_lock`, with `enqueue` and
 `dequeue`.

 The list is a sequence whose first element is the head `open_files`.
 Each call is one atomic step: it takes a ticket on the registry lock, does
 its lookup and update, takes or releases the ticket on the file's lock,
 and releases the registry lock. Waiting is not modelled.

 The registry is modelled as the code writes it: a node for a path not yet
 in the list gets `next = NULL` and becomes the new head, so every earlier
 node is dropped from the list. `AtMostOneNode` and `DropAllowsTwoHolders`
 state the consequences.
 */
module OpenFiles {
  import opened Wrappers
  import opened TicketLocks

  datatype Node = Node(path: string, lock: TicketLock)

  datatype Registry = Registry(files: seq<Node>, guard: TicketLock)

  /** The result of `enqueue`: the registry afterwards and the ticket the
      caller holds on the file's lock. */
  datatype Entered = Entered(registry: Registry, ticket: nat)

  /** The state `main` sets up: an empty list and a fresh registry lock. */
  function Empty(): Registry
  {
    Registry([], Init())
  }

  /** The paths of the list, head first. */
  function Paths(files: seq<Node>): seq<string>
  {
    seq(|files|, i requires 0 <= i < |files| => files[i].path)
  }

  /** The list walk of `enqueue` and `dequeue`: the position of the first
      node, from the head, whose path equals `path`. */
  function Find(files: seq<Node>, path: string): (r: Option<nat>)
    ensures r.Some? ==> r.value < |files| && files[r.value].path == path
    ensures r.Some? ==> forall j :: 0 <= j < r.value ==> files[j].path != path
    ensures r.None? <==> forall j :: 0 <= j < |files| ==> files[j].path != path
    decreases |files|
  {
    if |files| == 0 then None
    else if files[0].path == path then Some(0)
    else match Find(files[1..], path)
      case None => None
      case Some(i) => Some(i + 1)
  }

  /** The registry lock round trip of both calls: one ticket taken, one
      served. */
  function Guarded(l: TicketLock): (r: TicketLock)
    ensures r.curr == l.curr + 1 && r.waiting == l.waiting + 1
    ensures Idle(l) ==> Idle(r) && MayEnter(Take(l).lock, Take(l).ticket)
  {
    Release(Take(l).lock)
  }

  /** `enqueue(path)`. A path already in the list keeps the list as it is
      and takes a ticket on that node's lock; an unseen path replaces the
      whole list by one fresh node for it and takes ticket 0 on it.
      Either way a later lookup finds the path. */
  function Enqueue(r: Registry, path: string): (e: Entered)
    ensures Find(r.files, path).Some? ==>
      var i := Find(r.files, path).value;
      && Paths(e.registry.files) == Paths(r.files)
      && e.ticket == r.files[i].lock.waiting
      && e.registry.files[i].lock == Take(r.files[i].lock).lock
      && forall j :: 0 <= j < |r.files| && j != i ==> e.registry.files[j] == r.files[j]
    ensures Find(r.files, path).None? ==>
      e.registry.files == [Node(path, TicketLock(0, 1))] && e.ticket == 0
    ensures Find(e.registry.files, path).Some?
    ensures Outstanding(e.registry.files[Find(e.registry.files, path).value].lock, e.ticket) <==>
      (Find(r.files, path).None? || Valid(r.files[Find(r.files, path).value].lock))
    ensures e.registry.guard.curr == r.guard.curr + 1 && e.registry.guard.waiting == r.guard.waiting + 1
  {
    match Find(r.files, path)
    case Some(i) =>
      var taken := Take(r.files[i].lock);
      Entered(Registry(r.files[i := Node(path, taken.lock)], Guarded(r.guard)), taken.ticket)
    case None =>
      var taken := Take(Init());
      Entered(Registry([Node(path, taken.lock)], Guarded(r.guard)), taken.ticket)
  }

  /** `dequeue(path)`. Only the lock of the node found for `path` serves
      its next ticket; a path not in the list changes nothing. The paths of
      the list never change. */
  function Dequeue(r: Registry, path: string): (d: Registry)
    ensures Paths(d.files) == Paths(r.files)
    ensures Find(r.files, path).Some? ==>
      var i := Find(r.files, path).value;
      && d.files[i].lock == Release(r.files[i].lock)
      && forall j :: 0 <= j < |r.files| && j != i ==> d.files[j] == r.files[j]
    ensures Find(r.files, path).None? ==> d.files == r.files
    ensures d.guard.curr == r.guard.curr + 1 && d.guard.waiting == r.guard.waiting + 1
  {
    match Find(r.files, path)
    case Some(i) =>
      Registry(r.files[i := Node(path, Release(r.files[i].lock))], Guarded(r.guard))
    case None =>
      Registry(r.files, Guarded(r.guard))
  }

  /** Every node's lock, and the registry lock, has served every ticket it
      handed out. */
  predicate AllIdle(r: Registry)
  {
    Idle(r.guard) && forall j :: 0 <= j < |r.files| ==> Idle(r.files[j].lock)
  }

  /** No two nodes share a path. */
  predicate DistinctPaths(files: seq<Node>)
  {
    forall i, j :: 0 <= i < j < |files| ==> files[i].path != files[j].path
  }

  /** Since a new node always replaces the whole list, the list never holds
      more than one node, so its paths are trivially distinct. */
  lemma AtMostOneNode(r: Registry, path: string)
    requires |r.files| <= 1
    ensures |Enqueue(r, path).registry.files| <= 1
    ensures |Dequeue(r, path).files| <= 1
    ensures DistinctPaths(Enqueue(r, path).registry.files)
    ensures DistinctPaths(Dequeue(r, path).files)
  {
    assert |Paths(Dequeue(r, path).files)| == |Paths(r.files)|;
  }

  /** Enqueue on an idle registry is granted at once: the ticket handed out
      is the one being served. */
  lemma EnqueueIdleMayEnter(r: Registry, path: string)
    requires AllIdle(r)
    ensures var e := Enqueue(r, path);
      MayEnter(e.registry.files[Find(e.registry.files, path).value].lock, e.ticket)
  {
  }

  /** `enqueue` followed by `dequeue` of the same path returns an idle
      registry to an idle registry. */
  lemma {:induction false} EnqueueDequeueIdle(r: Registry, path: string)
    requires AllIdle(r)
    ensures AllIdle(Dequeue(Enqueue(r, path).registry, path))
  {
    var e := Enqueue(r, path).registry;
    var d := Dequeue(e, path);
    match Find(r.files, path)
    case Some(i) =>
      assert Paths(e.files) == Paths(r.files);
      FindDependsOnPaths(e.files, r.files, path);
      forall j | 0 <= j < |d.files|
        ensures Idle(d.files[j].lock)
      {
        if j != i {
          assert d.files[j] == e.files[j] == r.files[j];
        }
      }
    case None =>
  }

  /** The lookup only looks at the paths of the list. */
  lemma {:induction false} FindDependsOnPaths(a: seq<Node>, b: seq<Node>, path: string)
    requires Paths(a) == Paths(b)
    ensures Find(a, path) == Find(b, path)
    decreases |a|
  {
    assert |a| == |Paths(a)| == |b|;
    if |a| > 0 {
      assert a[0].path == Paths(a)[0] == b[0].path;
      assert Paths(a[1..]) == Paths(a)[1..] == Paths(b)[1..] == Paths(b[1..]);
      FindDependsOnPaths(a[1..], b[1..], path);
    }
  }

  /** The drop of earlier nodes breaks mutual exclusion: while one caller
      holds `a.txt`, a first reference to `b.txt` drops the node of
      `a.txt`, and a second caller for `a.txt` then gets a fresh lock whose
      ticket may enter at once. The first holder's `dequeue` afterwards
      serves a ticket on the new lock instead of its own. */
  lemma DropAllowsTwoHolders()
    ensures var first := Enqueue(Empty(), "a.txt");
      var other := Enqueue(first.registry, "b.txt");
      var second := Enqueue(other.registry, "a.txt");
      && MayEnter(first.registry.files[0].lock, first.ticket)
      && Find(other.registry.files, "a.txt").None?
      && MayEnter(second.registry.files[0].lock, second.ticket)
      && second.registry.files[0].path == "a.txt"
      && Dequeue(second.registry, "a.txt").files[0].lock == TicketLock(1, 1)
  {
    var first := Enqueue(Empty(), "a.txt");
    assert Find(first.registry.files, "b.txt").None?;
    var other := Enqueue(first.registry, "b.txt");
    assert Find(other.registry.files, "a.txt").None?;
  }
}
