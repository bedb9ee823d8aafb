/** The results over all runs, read off the nodes and counters in the heap. */
module HeapResults {
  import opened Basics
  import opened Clients
  import opened ClientNodes
  import opened ClientLists
  import S = Session
  import Invariants
  import ListOperations
  import RequestPins
  import RunSteps
  import Runs
  import Theorems

  /** The list has been brought to its state by a run of critical sections. */
  ghost predicate ReachedBy(list: ClientList, ops: seq<S.Op>)
    reads list, list.book.nodes, list.book.alloc.Values
  {
    list.Valid() && list.book.w == S.Run(ops, list.cfg)
  }

  // ---- runs in the heap -----------------------------------------------------------------------

  /** The list at the start of every run. */
  method Start(cfg: Config) returns (list: ClientList)
    ensures fresh(list) && list.cfg == cfg && ReachedBy(list, []) && list.book.alloc == map[]
  {
    list := new ClientList(cfg);
    RunSteps.NothingRun(cfg);
  }

  /** A request that returns a pin has the pointer to the node it pinned; other operations hold nothing. */
  ghost predicate Holds(list: ClientList, op: S.Op, held: Client?)
    reads list, held, list.book.alloc.Values
  {
    op.UnpinOp? ==>
      if held == null then op.id !in list.book.w.pins
      else held in list.book.alloc.Values && held.id == op.id && op.id in list.book.w.pins
  }

  /** A node that is allocated and pinned after a step was not freed in it. */
  lemma PinnedStays(list: ClientList, ops: seq<S.Op>, before: Book)
    requires ReachedBy(list, ops) && before.Placed()
    requires list.book.alloc.Values <= before.alloc.Values || before.alloc.Values <= list.book.alloc.Values
    ensures forall c :: c in before.alloc.Values && c.id in list.book.w.pins ==> c in list.book.alloc.Values
  {
    hide ClientList.Valid, S.Run;
    list.BookPlaced();
    forall c | c in before.alloc.Values && c.id in list.book.w.pins
      ensures c in list.book.alloc.Values
    {
      Theorems.NodesLiveExactlyWhileNeeded(ops, list.cfg, c.id);
      Runs.PinnedAllocated(ops, list.cfg, c.id);
      var d := list.book.alloc[c.id];
      assert d in list.book.alloc.Values && d.id == c.id;
    }
  }

  /** Any one of the critical sections, on the nodes: a list reached by a run goes to the list reached by the run one
      operation longer. Nodes are allocated and freed, but none that is pinned afterwards. */
  method Perform(list: ClientList, op: S.Op, held: Client?, ghost ops: seq<S.Op>) returns (pinned: Client?)
    requires ReachedBy(list, ops) && Holds(list, op, held)
    modifies list, list.book.alloc.Values
    ensures ReachedBy(list, ops + [op])
    ensures fresh(list.book.alloc.Values - old(list.book.alloc.Values))
    ensures pinned != null ==> pinned in list.book.alloc.Values
    ensures list.book.w.pins
            == old(list.book.w.pins) - (if op.UnpinOp? && held != null then multiset{op.id} else multiset{})
               + (if pinned == null then multiset{} else multiset{pinned.id})
    ensures forall c :: c in old(list.book.alloc.Values) && c.id in list.book.w.pins ==> c in list.book.alloc.Values
  {
    hide ClientList.Valid, S.Run, S.FindAndPin, S.AddPinned, S.AddUnpinned, S.AuthClient, S.ControlAuth, S.HttpReset,
         S.DeauthClient, S.DeauthAll, S.Pass, S.Unpin, Book.Placed;
    RunSteps.RunStep(ops, op, list.cfg);
    list.BookPlaced();
    ghost var before := list.book;
    pinned := Dispatch(list, op, held);
    PinnedStays(list, ops + [op], before);
  }

  /** The branch of each operation. */
  method Dispatch(list: ClientList, op: S.Op, held: Client?) returns (pinned: Client?)
    requires list.Valid() && Holds(list, op, held)
    modifies list, list.book.alloc.Values
    ensures list.Valid() && list.book.w == S.Step(old(list.book.w), op, list.cfg)
    ensures fresh(list.book.alloc.Values - old(list.book.alloc.Values))
    ensures || list.book.alloc.Values <= old(list.book.alloc.Values)
            || old(list.book.alloc.Values) <= list.book.alloc.Values
    ensures pinned != null ==> pinned in list.book.alloc.Values
    ensures list.book.w.pins
            == old(list.book.w.pins) - (if op.UnpinOp? && held != null then multiset{op.id} else multiset{})
               + (if pinned == null then multiset{} else multiset{pinned.id})
  {
    hide ClientList.Valid, S.FindAndPin, S.AddPinned, S.AddUnpinned, S.AuthClient, S.ControlAuth, S.HttpReset,
         S.DeauthClient, S.DeauthAll, S.Pass, S.Unpin;
    pinned := null;
    if !RequestPins.Pins(op) {
      RequestPins.StepPins(list.book.w, op, list.cfg);
    }
    match op
    case FindAndPinOp(mac, ip) => pinned := list.FindAndPin(mac, ip);
    case AddPinnedOp(req) => pinned := list.AddClientPinned(req);
    case AddUnpinnedOp(req) => var client := list.AddClient(req);
    case UnpinOp(id) =>
      if held != null {
        list.Allocated(held);
        RequestPins.UnpinPins(list.book.w, id);
      }
      list.Unpin(held);
    case AuthOp(id, inp) => var rc := ListOperations.AuthClient(list, id, inp);
    case ControlAuthOp(id, preset, inp) => ListOperations.ControlAuth(list, id, preset, inp);
    case HttpResetOp(id, start, end) =>
      var client := list.FindById(id);
      if client != null {
        list.NodeFields(FirstIndex(list.book.w.clients, ById(id)));
        if client.state == Preauthenticated {
          ListOperations.HttpReset(list, id, start, end);
        }
      }
    case DeauthOp(id) => var rc := ListOperations.DeauthClient(list, id);
    case DeauthAllOp => ghost var visited := ListOperations.DeauthAll(list);
    case PassOp(now, snap, env) =>
      var ok;
      ghost var visited;
      ok, visited := ListOperations.RefreshClientList(list, now, snap, env);
  }

  /** The requests hold exactly the pins there are, each with the pointer to an allocated node. */
  ghost predicate Held(list: ClientList, pins: multiset<nat>, nodes: map<nat, Client>)
    reads list, list.book.alloc.Values
  {
    pins == list.book.w.pins && PointedAt(pins, nodes, list.book.alloc.Values)
  }

  ghost predicate PointedAt(pins: multiset<nat>, nodes: map<nat, Client>, live: set<Client>) {
    forall id :: id in pins ==> id in nodes && nodes[id] in live && nodes[id].id == id
  }

  lemma StillPointedAt(pins: multiset<nat>, nodes: map<nat, Client>, before: set<Client>, now: multiset<nat>,
                       after: set<Client>, pinned: Client?)
    requires PointedAt(pins, nodes, before) && (pinned != null ==> pinned in after)
    requires forall id :: id in now ==> id in pins || (pinned != null && id == pinned.id)
    requires forall c :: c in before && c.id in now ==> c in after
    ensures PointedAt(now, if pinned == null then nodes else nodes[pinned.id := pinned], after)
  {
  }

  /** One operation, with what the requests hold before and after it. */
  method PerformNext(list: ClientList, op: S.Op, pins: multiset<nat>, nodes: map<nat, Client>, ghost ops: seq<S.Op>)
    returns (pins': multiset<nat>, nodes': map<nat, Client>)
    requires ReachedBy(list, ops) && Held(list, pins, nodes)
    modifies list, list.book.alloc.Values
    ensures ReachedBy(list, ops + [op]) && Held(list, pins', nodes')
    ensures fresh(list.book.alloc.Values - old(list.book.alloc.Values))
  {
    hide ReachedBy, PointedAt;
    pins', nodes' := pins, nodes;
    ghost var before := list.book.alloc.Values;
    var held: Client? := null;
    if op.UnpinOp? && op.id in pins {
      HeldPointer(list, pins, nodes, op.id);
      held := nodes[op.id];
      pins' := pins - multiset{op.id};
    }
    var pinned := Perform(list, op, held, ops);
    if pinned != null {
      pins' := pins' + multiset{pinned.id};
      nodes' := nodes[pinned.id := pinned];
    }
    StillPointedAt(pins, nodes, before, pins', list.book.alloc.Values, pinned);
  }

  lemma HeldPointer(list: ClientList, pins: multiset<nat>, nodes: map<nat, Client>, id: nat)
    requires Held(list, pins, nodes) && id in pins
    ensures id in nodes && nodes[id] in list.book.alloc.Values && nodes[id].id == id
  {
  }

  /** A whole run on the nodes, from the empty list. The requests keep the pointers they have pinned and return them.
      So the results below hold of the heap after every run. */
  method PerformAll(cfg: Config, ops: seq<S.Op>) returns (list: ClientList)
    ensures fresh(list) && fresh(list.book.alloc.Values) && list.cfg == cfg && ReachedBy(list, ops)
  {
    hide ReachedBy;
    list := Start(cfg);
    var pins: multiset<nat>, nodes: map<nat, Client> := multiset{}, map[];
    NothingHeld(list);
    for k := 0 to |ops|
      invariant fresh(list) && fresh(list.book.alloc.Values) && list.cfg == cfg
      invariant ReachedBy(list, ops[..k]) && Held(list, pins, nodes)
    {
      hide Held;
      pins, nodes := PerformNext(list, ops[k], pins, nodes, ops[..k]);
      assert ops[..k] + [ops[k]] == ops[..k + 1];
    }
    assert ops[..|ops|] == ops;
  }

  lemma NothingHeld(list: ClientList)
    requires ReachedBy(list, [])
    ensures Held(list, multiset{}, map[])
  {
    RunSteps.NothingRun(list.cfg);
  }

  // ---- results --------------------------------------------------------------------------------

  lemma ListedMeansLinked(b: Book, id: nat)
    requires b.Placed()
    ensures Invariants.Listed(b.w.clients, id) <==> exists i :: 0 <= i < |b.nodes| && b.nodes[i].id == id
  {
    if Invariants.Listed(b.w.clients, id) {
      var i :| 0 <= i < |b.w.clients| && b.w.clients[i].id == id;
      assert b.nodes[i].id == id;
    }
    if i :| 0 <= i < |b.nodes| && b.nodes[i].id == id {
      assert b.w.clients[i].id == id;
    }
  }

  lemma LinkedMeansListed(b: Book, client: Client)
    requires b.Placed() && client.id in b.alloc && b.alloc[client.id] == client
    ensures client in b.nodes <==> Invariants.Listed(b.w.clients, client.id)
  {
    ListedMeansLinked(b, client.id);
    if i :| 0 <= i < |b.nodes| && b.nodes[i].id == client.id {
      assert b.nodes[i] == b.alloc[client.id];
    }
    if client in b.nodes {
      var i :| 0 <= i < |b.nodes| && b.nodes[i] == client;
      assert b.nodes[i].id == client.id;
    }
  }

  lemma IdsGrow(b: Book)
    requires b.Placed()
    ensures forall i, j :: 0 <= i < j < |b.nodes| ==> b.nodes[i].id < b.nodes[j].id
  {
  }

  /** Every node that has not been freed: its `refcount` is the number of requests that hold it, its `dead` mark
      says exactly that it is off the list, and off the list it is held; without holders every node is linked. */
  lemma NodeFieldsExact(list: ClientList, ops: seq<S.Op>, client: Client)
    requires ReachedBy(list, ops) && client in list.book.alloc.Values
    ensures client.refcount == list.book.w.pins[client.id]
    ensures client.dead <==> client !in list.book.nodes
    ensures client.dead ==> client.refcount > 0
    ensures client.id !in list.book.w.freed
    ensures list.book.w.pins == multiset{} ==> client in list.book.nodes
  {
    hide ClientList.Valid, Book.Placed, S.Run;
    list.Allocated(client);
    list.BookPlaced();
    LinkedMeansListed(list.book, client);
    Theorems.NodesLiveExactlyWhileNeeded(ops, list.cfg, client.id);
  }

  /** The chain: it starts at the list head, ends with null, meets no node twice, and carries growing ids; the
      counters of the C code count its nodes, the clients ever listed, and the authentications. */
  lemma ChainAndCountersExact(list: ClientList, ops: seq<S.Op>)
    requires ReachedBy(list, ops)
    ensures list.firstclient == list.book.At(0)
    ensures forall i :: 0 <= i < |list.book.nodes| ==> list.book.nodes[i].next == list.book.At(i + 1)
    ensures forall i, j :: 0 <= i < j < |list.book.nodes| ==> list.book.nodes[i].id < list.book.nodes[j].id
    ensures list.clientCount == |list.book.nodes| <= Max(0, list.cfg.maxclients)
    ensures list.clientId - 1 == list.clientCount + list.book.w.deletions
    ensures list.authenticatedSinceStart
            == (Invariants.ActiveCount(list.book.w.clients) + list.book.w.deauths) % TWO_TO_THE_32
  {
    hide S.Run, ClientList.Valid, Book.Placed;
    list.Counts();
    list.FirstNode();
    forall i | 0 <= i < |list.book.nodes|
      ensures list.book.nodes[i].next == list.book.At(i + 1)
    {
      list.NextNode(i);
    }
    list.BookPlaced();
    IdsGrow(list.book);
    Theorems.AuthenticationsConserved(ops, list.cfg);
  }
}
