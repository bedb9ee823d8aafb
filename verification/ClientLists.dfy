/** The client list and the operations under its lock, in place: links, reference counts and fields are
    updated as the C code does, and every operation is proved to take the abstract state to what the
    state machine of Session says. */
module ClientLists {
  import opened Basics
  import opened Clients
  import opened Firewall
  import opened RateLimit
  import opened CounterRefresh
  import opened ClientNodes
  import S = Session
  import MacLists

  /** The ghost side of the list: the linked nodes in order, every allocated node that has not been freed,
      by id, and the abstract state. */
  datatype Book = Book(nodes: seq<Client>, alloc: map<nat, Client>, w: S.World) {
    function At(i: nat): Client? {
      if i < |nodes| then nodes[i] else null
    }

    /** The linked nodes are allocated and not dead, and their ids grow along the list. */
    ghost predicate Placed() {
      && |nodes| == |w.clients|
      && (forall i, j :: 0 <= i < j < |nodes| ==> nodes[i].id < nodes[j].id)
      && (forall i :: 0 <= i < |nodes| ==> nodes[i].id == w.clients[i].id)
      && (forall i :: 0 <= i < |nodes| ==> nodes[i].id in alloc && alloc[nodes[i].id] == nodes[i])
      && (forall i :: 0 <= i < |nodes| ==> nodes[i] in alloc.Values && nodes[i].id !in w.dead)
      && (forall id :: id in alloc ==> alloc[id].id == id && id < w.nextId)
      && alloc.Keys == w.refs.Keys && w.dead <= alloc.Keys
    }

    /** The links follow the list order. */
    ghost predicate Chained(first: Client?)
      reads nodes`next
    {
      first == At(0) && forall i :: 0 <= i < |nodes| ==> nodes[i].next == At(i + 1)
    }

    /** Reference counts and dead marks are those of the abstract state. */
    ghost predicate Counted()
      requires alloc.Keys == w.refs.Keys
      reads alloc.Values`refcount, alloc.Values`dead
    {
      forall id :: id in alloc ==> alloc[id].refcount == w.refs[id] && (alloc[id].dead <==> id in w.dead)
    }

    /** Every listed node but possibly one carries the values of the abstract list. */
    ghost predicate Agreeing(k: int)
      requires |nodes| == |w.clients|
      reads nodes
    {
      forall i :: 0 <= i < |nodes| && i != k ==> w.clients[i] == nodes[i].Info()
    }

    ghost predicate Sound(first: Client?)
      reads nodes, alloc.Values
    {
      Placed() && Chained(first) && Counted() && Agreeing(-1)
    }

    /** The outcome of a search that ends at position i: the node there, or null at the end of the list. */
    ghost predicate Found(ptr: Client?, i: nat) {
      && |nodes| == |w.clients|
      && (ptr == null ==> i == |nodes|)
      && (ptr != null ==> i < |nodes| && ptr == nodes[i] && ptr.id == w.clients[i].id && ptr in alloc.Values)
    }

    /** The abstract client at i and the firewall. */
    function CellAt(i: nat): S.Cell
      requires i < |w.clients|
    {
      S.CellAt(w, i)
    }

    function WithCell(i: nat, x: S.Cell): Book
      requires i < |w.clients|
    {
      this.(w := S.Put(w, i, x))
    }

    lemma WithCellTwice(i: nat, x: S.Cell, y: S.Cell)
      requires i < |w.clients|
      ensures WithCell(i, x).CellAt(i) == x && |WithCell(i, x).w.clients| == |w.clients|
      ensures WithCell(i, x).WithCell(i, y) == WithCell(i, y)
    {
      assert w.clients[i := x.c][i := y.c] == w.clients[i := y.c];
    }

    lemma WithCellSame(i: nat)
      requires i < |w.clients|
      ensures WithCell(i, CellAt(i)) == this
    {
      assert w.clients[i := w.clients[i]] == w.clients;
    }

    lemma WithCellPlaced(i: nat, x: S.Cell)
      requires Placed() && i < |nodes| && x.c.id == nodes[i].id
      ensures i < |w.clients| && WithCell(i, x).Placed()
    {
    }

    lemma WithCellAgrees(i: nat, fw: Chains)
      requires i < |nodes| == |w.clients| && Agreeing(i)
      ensures WithCell(i, S.Cell(nodes[i].Info(), fw)).Agreeing(-1)
    {
      hide Client.Info;
    }

    lemma WithCellLinks(i: nat, x: S.Cell, first: Client?)
      requires i < |w.clients| && alloc.Keys == w.refs.Keys && Chained(first) && Counted()
      ensures WithCell(i, x).Chained(first) && WithCell(i, x).Counted()
    {
    }

    lemma WithCellSound(i: nat, fw: Chains, first: Client?)
      requires Placed() && i < |nodes| && Chained(first) && Counted() && Agreeing(i)
      ensures i < |w.clients| && WithCell(i, S.Cell(nodes[i].Info(), fw)).Sound(first)
    {
      hide Client.Info, Placed, Chained, Counted, Agreeing;
      Sizes();
      WithCellPlaced(i, S.Cell(nodes[i].Info(), fw));
      WithCellLinks(i, S.Cell(nodes[i].Info(), fw), first);
      WithCellAgrees(i, fw);
    }

    lemma Sizes()
      requires Placed()
      ensures |nodes| == |w.clients| && alloc.Keys == w.refs.Keys
    {
    }

    /** The reference count of `id` becomes `count`, with the pins accounted for. */
    function WithCount(id: nat, count: nat, pins: multiset<nat>): Book {
      this.(w := w.(refs := w.refs[id := count], pins := pins))
    }

    lemma WithCountPlaced(id: nat, count: nat, pins: multiset<nat>)
      requires Placed() && id in alloc
      ensures WithCount(id, count, pins).Placed()
    {
    }

    lemma WithCountLinks(id: nat, count: nat, pins: multiset<nat>, first: Client?)
      requires |nodes| == |w.clients| && Chained(first) && Agreeing(-1)
      ensures WithCount(id, count, pins).Chained(first) && WithCount(id, count, pins).Agreeing(-1)
    {
    }

    /** The counts agree again once one node's reference count has changed on both sides. */
    twostate lemma CountedAfter(client: Client)
      requires Placed() && client in alloc.Values && client.refcount == w.refs[client.id]
      requires forall n :: n in alloc.Values && n != client ==> n.refcount == old(n.refcount)
      requires forall n :: n in alloc.Values ==> n.dead == old(n.dead)
      requires forall id :: id in alloc && id != client.id ==> old(alloc[id].refcount) == w.refs[id]
      requires forall id :: id in alloc ==> (old(alloc[id].dead) <==> id in w.dead)
      ensures Counted()
    {
    }

    twostate lemma AgreeingAfter(client: Client)
      requires |nodes| == |w.clients| && old(Agreeing(-1))
      requires client.Info() == old(client.Info())
      requires forall n :: n in nodes && n != client ==> n.Info() == old(n.Info())
      ensures Agreeing(-1)
    {
      hide Client.Info;
      forall i | 0 <= i < |nodes|
        ensures w.clients[i] == nodes[i].Info()
      {
        assert nodes[i] in nodes;
      }
    }

    /** Only the firewall and the history change. */
    function Noted(fw: Chains, authCount: nat, deauths: nat): Book {
      this.(w := w.(fw := fw, authCount := authCount, deauths := deauths))
    }

    lemma NotedSound(fw: Chains, authCount: nat, deauths: nat, first: Client?)
      requires Sound(first)
      ensures Noted(fw, authCount, deauths).Sound(first)
    {
      hide Client.Info;
    }

    function WithDead(id: nat): Book {
      this.(w := w.(dead := w.dead + {id}))
    }

    lemma WithDeadPlaced(id: nat, first: Client?)
      requires Placed() && id in alloc && Unlisted(id) && Chained(first) && |nodes| == |w.clients| && Agreeing(-1)
      ensures WithDead(id).Placed() && WithDead(id).Chained(first) && WithDead(id).Agreeing(-1)
    {
    }

    /** The book once the node of `id` has been freed. */
    function WithoutNode(id: nat): Book {
      Book(nodes, alloc - {id}, S.Free(w, id))
    }

    predicate Unlisted(id: nat) {
      forall i :: 0 <= i < |nodes| ==> nodes[i].id != id
    }

    lemma DeadUnlisted(id: nat)
      requires Placed() && id in w.dead
      ensures Unlisted(id)
    {
    }

    lemma WithoutNodeSound(id: nat, first: Client?)
      requires Sound(first) && id in alloc && Unlisted(id)
      ensures WithoutNode(id).Sound(first)
    {
      hide Client.Info;
      WithoutNodePlaced(id);
    }

    lemma WithoutNodePlaced(id: nat)
      requires Placed() && id in alloc && Unlisted(id)
      ensures WithoutNode(id).Placed()
    {
      var b := WithoutNode(id);
      forall i | 0 <= i < |nodes|
        ensures nodes[i].id in b.alloc && b.alloc[nodes[i].id] == nodes[i] && nodes[i] in b.alloc.Values
      {
        assert b.alloc[nodes[i].id] == nodes[i];
      }
    }
  }

  /** The book after the client at i has been unlinked, but not yet marked dead or freed. */
  function Unlinked(b: Book, i: nat): Book
    requires i < |b.nodes| == |b.w.clients|
  {
    Book(b.nodes[..i] + b.nodes[i + 1..], b.alloc, S.Unlink(b.w, i))
  }

  /** A position in a book where a node is cut out of the chain. */
  datatype Cut = Cut(b: Book, i: nat) {
    ghost predicate Inside() {
      i < |b.nodes| == |b.w.clients|
    }

    lemma Shape()
      requires Inside()
      ensures var u := Unlinked(b, i);
              && |u.nodes| == |b.nodes| - 1 == |u.w.clients|
              && (forall j :: 0 <= j < |u.nodes| ==> u.nodes[j] == b.nodes[if j < i then j else j + 1])
              && (forall j :: 0 <= j < |u.nodes| ==> u.w.clients[j] == b.w.clients[if j < i then j else j + 1])
    {
    }

    lemma UnlinkedPlaced()
      requires Inside() && b.Placed()
      ensures Unlinked(b, i).Placed() && Unlinked(b, i).Unlisted(b.nodes[i].id)
    {
      Shape();
      var u := Unlinked(b, i);
      forall j | 0 <= j < |u.nodes|
        ensures u.nodes[j].id == u.w.clients[j].id && u.nodes[j].id in u.alloc && u.alloc[u.nodes[j].id] == u.nodes[j]
        ensures u.nodes[j] in u.alloc.Values && u.nodes[j].id !in u.w.dead && u.nodes[j].id != b.nodes[i].id
      {
        var k := if j < i then j else j + 1;
        assert u.nodes[j] == b.nodes[k] && u.w.clients[j] == b.w.clients[k];
      }
    }

    lemma UnlinkedTotals()
      requires Inside()
      ensures var u := Unlinked(b, i).w;
              u.count == b.w.count - 1 && u.nextId == b.w.nextId && u.authCount == b.w.authCount
    {
    }

    lemma Distinct()
      requires Inside() && b.Placed()
      ensures forall j, k :: 0 <= j < k < |b.nodes| ==> b.nodes[j] != b.nodes[k]
    {
    }

    twostate lemma UnlinkedChained(first: Client?)
      requires Inside() && old(b.Chained(b.At(0)))
      requires forall j :: 0 <= j < |b.nodes| && j != i && j != i - 1 ==> b.nodes[j].next == old(b.nodes[j].next)
      requires i > 0 ==> b.nodes[i - 1].next == old(b.nodes[i].next)
      requires first == if i == 0 then old(b.nodes[0].next) else b.nodes[0]
      ensures Unlinked(b, i).Chained(first)
    {
      Shape();
      var u := Unlinked(b, i);
      forall j | 0 <= j < |u.nodes|
        ensures u.nodes[j].next == u.At(j + 1)
      {
        var k := if j < i then j else j + 1;
        assert u.nodes[j] == b.nodes[k];
        assert old(b.nodes[k].next) == b.At(k + 1);
        if j + 1 == i {
          assert old(b.nodes[i].next) == b.At(i + 1);
        }
      }
    }

    lemma UnlinkedCounted()
      requires Inside() && b.alloc.Keys == b.w.refs.Keys && b.Counted()
      ensures Unlinked(b, i).alloc.Keys == Unlinked(b, i).w.refs.Keys && Unlinked(b, i).Counted()
    {
    }

    twostate lemma UnlinkedAgrees()
      requires Inside() && old(b.Agreeing(-1))
      requires forall j :: 0 <= j < |b.nodes| ==> b.nodes[j].Info() == old(b.nodes[j].Info())
      ensures |Unlinked(b, i).nodes| == |Unlinked(b, i).w.clients| && Unlinked(b, i).Agreeing(-1)
    {
      hide Client.Info;
      Shape();
    }
  }

  /** The book after a deletion. */
  function Deleted(b: Book, i: nat): Book
    requires i < |b.nodes| == |b.w.clients|
  {
    var id := b.w.clients[i].id;
    var u := Unlinked(b, i);
    if id in b.w.refs && b.w.refs[id] > 0 then u.WithDead(id) else u.WithoutNode(id)
  }

  lemma DeletedState(b: Book, i: nat)
    requires i < |b.nodes| == |b.w.clients|
    ensures Deleted(b, i).w == S.DeleteAt(b.w, i)
    ensures Deleted(b, i).nodes == b.nodes[..i] + b.nodes[i + 1..]
    ensures Deleted(b, i).alloc.Values <= b.alloc.Values
  {
    forall c | c in Deleted(b, i).alloc.Values
      ensures c in b.alloc.Values
    {
      var id :| id in Deleted(b, i).alloc && Deleted(b, i).alloc[id] == c;
      assert b.alloc[id] == c;
    }
  }

  /** A new node at the tail of a book. */
  datatype Join = Join(b: Book, client: Client) {
    function Joined(c: ClientInfo): Book {
      Book(b.nodes + [client], b.alloc[client.id := client], S.Append(b.w, c))
    }

    ghost predicate Ready() {
      b.Placed() && client.id == b.w.nextId && client.id !in b.alloc
    }

    lemma Fresh()
      requires b.Placed() && client.id == b.w.nextId
      ensures Ready()
    {
    }

    lemma JoinedPlaced(c: ClientInfo)
      requires Ready() && c.id == client.id
      ensures Joined(c).Placed()
    {
      var u := Joined(c);
      forall j | 0 <= j < |u.nodes|
        ensures u.nodes[j].id in u.alloc && u.alloc[u.nodes[j].id] == u.nodes[j] && u.nodes[j] in u.alloc.Values
      {
        assert j < |b.nodes| ==> u.nodes[j] == b.nodes[j] && b.nodes[j].id in b.alloc;
        assert u.alloc[u.nodes[j].id] == u.nodes[j];
      }
    }

    twostate lemma JoinedChained(first: Client?)
      requires old(b.Chained(b.At(0))) && client.next == null
      requires forall j :: 0 <= j < |b.nodes| - 1 ==> b.nodes[j].next == old(b.nodes[j].next)
      requires |b.nodes| > 0 ==> b.nodes[|b.nodes| - 1].next == client
      requires first == if |b.nodes| == 0 then client else b.nodes[0]
      ensures forall c: ClientInfo :: Joined(c).Chained(first)
    {
      var nodes := b.nodes + [client];
      forall j | 0 <= j < |nodes|
        ensures nodes[j].next == if j + 1 < |nodes| then nodes[j + 1] else null
      {
        if j < |b.nodes| - 1 {
          assert nodes[j] == b.nodes[j] && old(b.nodes[j].next) == b.At(j + 1);
        }
      }
    }

    lemma JoinedCounted(c: ClientInfo)
      requires Ready() && c.id == client.id && b.Counted() && client.refcount == 0 && !client.dead
      ensures Joined(c).alloc.Keys == Joined(c).w.refs.Keys && Joined(c).Counted()
    {
    }

    lemma JoinedFound(c: ClientInfo)
      requires |b.nodes| == |b.w.clients| && c.id == client.id
      ensures Joined(c).Found(client, |b.w.clients|)
      ensures Joined(c).alloc.Values <= b.alloc.Values + {client}
    {
      assert Joined(c).alloc[client.id] == client;
    }

    lemma JoinedKeeps(c: ClientInfo)
      requires b.Placed() && client.id == b.w.nextId
      ensures b.alloc.Values <= Joined(c).alloc.Values && Joined(c).w.pins == b.w.pins
    {
      forall d | d in b.alloc.Values
        ensures d in Joined(c).alloc.Values
      {
        var id :| id in b.alloc && b.alloc[id] == d;
        assert Joined(c).alloc[id] == d;
      }
    }

    lemma JoinedAgrees()
      requires |b.nodes| == |b.w.clients| && b.Agreeing(-1)
      ensures |Joined(client.Info()).nodes| == |Joined(client.Info()).w.clients| && Joined(client.Info()).Agreeing(-1)
    {
      hide Client.Info;
    }
  }

  class ClientList {
    const cfg: Config
    var firstclient: Client?
    var clientCount: int
    var clientId: nat
    var authenticatedSinceStart: nat
    ghost var book: Book

    ghost predicate Totals()
      reads this
    {
      clientCount == book.w.count && clientId == book.w.nextId && authenticatedSinceStart == book.w.authCount
    }

    ghost predicate Valid()
      reads this, book.nodes, book.alloc.Values
    {
      book.Sound(firstclient) && Totals()
    }

    constructor (cfg: Config)
      ensures Valid() && book.w == S.INITIAL && this.cfg == cfg && book.alloc == map[]
    {
      this.cfg := cfg;
      firstclient := null;
      clientCount := 0;
      clientId := 1;
      authenticatedSinceStart := 0;
      book := Book([], map[], S.INITIAL);
    }

    /** After the fields of one node and the firewall have changed, the abstract state follows. */
    ghost method Sync(i: nat, fw: Chains)
      requires book.Placed() && i < |book.nodes| && book.Chained(firstclient) && book.Counted() && book.Agreeing(i)
               && Totals()
      modifies this`book
      ensures old(i < |book.w.clients|) && book == old(book.WithCell(i, S.Cell(book.nodes[i].Info(), fw))) && Valid()
    {
      hide Client.Info, Book.Placed, Book.Chained, Book.Counted, Book.Agreeing;
      book.WithCellSound(i, fw, firstclient);
      book := book.WithCell(i, S.Cell(book.nodes[i].Info(), fw));
    }

    /** What a search sees at the k-th node. */
    lemma Searched(k: nat)
      requires Valid()
      ensures firstclient == book.At(0) && |book.nodes| == |book.w.clients|
      ensures k < |book.nodes| ==>
                var n, c := book.nodes[k], book.w.clients[k];
                n.id == c.id && n.ip == c.ip && n.mac == c.mac && n.next == book.At(k + 1) && n in book.alloc.Values
    {
    }

    // ---- searches -----------------------------------------------------------------------------

    method FindById(id: nat) returns (ptr: Client?)
      requires Valid()
      ensures book.Found(ptr, FirstIndex(book.w.clients, ById(id)))
    {
      hide Valid;
      Searched(0);
      ptr := firstclient;
      ghost var k := 0;
      while ptr != null
        invariant k <= |book.nodes| && ptr == book.At(k)
        invariant forall j :: 0 <= j < k ==> !Matches(book.w.clients[j], ById(id))
        decreases |book.nodes| - k
      {
        Searched(k);
        if ptr.id == id {
          FirstIndexUnique(book.w.clients, ById(id), k);
          return;
        }
        ptr := ptr.next;
        k := k + 1;
      }
      FirstIndexUnique(book.w.clients, ById(id), k);
    }

    method FindByIp(ip: string) returns (ptr: Client?)
      requires Valid()
      ensures book.Found(ptr, FirstIndex(book.w.clients, ByIp(ip)))
    {
      hide Valid;
      Searched(0);
      ptr := firstclient;
      ghost var k := 0;
      while ptr != null
        invariant k <= |book.nodes| && ptr == book.At(k)
        invariant forall j :: 0 <= j < k ==> !Matches(book.w.clients[j], ByIp(ip))
        decreases |book.nodes| - k
      {
        Searched(k);
        if ptr.ip == ip {
          FirstIndexUnique(book.w.clients, ByIp(ip), k);
          return;
        }
        ptr := ptr.next;
        k := k + 1;
      }
      FirstIndexUnique(book.w.clients, ByIp(ip), k);
    }

    method Find(mac: string, ip: string) returns (ptr: Client?)
      requires Valid()
      ensures book.Found(ptr, FirstIndex(book.w.clients, ByMacIp(mac, ip)))
    {
      hide Valid;
      Searched(0);
      ptr := firstclient;
      ghost var k := 0;
      while ptr != null
        invariant k <= |book.nodes| && ptr == book.At(k)
        invariant forall j :: 0 <= j < k ==> !Matches(book.w.clients[j], ByMacIp(mac, ip))
        decreases |book.nodes| - k
      {
        Searched(k);
        if Lower(ptr.mac) == Lower(mac) && ptr.ip == ip {
          FirstIndexUnique(book.w.clients, ByMacIp(mac, ip), k);
          return;
        }
        ptr := ptr.next;
        k := k + 1;
      }
      FirstIndexUnique(book.w.clients, ByMacIp(mac, ip), k);
    }

    // ---- pins -----------------------------------------------------------------------------------

    lemma Allocated(client: Client)
      requires Valid() && client in book.alloc.Values
      ensures client.id in book.alloc && book.alloc[client.id] == client && client.id in book.w.refs
      ensures client.refcount == book.w.refs[client.id] && (client.dead <==> client.id in book.w.dead)
    {
    }

    /** A reference count changes, in the node and in the abstract state; the caller accounts for the pin. */
    method SetRefcount(client: Client, count: nat, ghost pins: multiset<nat>)
      requires Valid() && client in book.alloc.Values
      modifies this`book, client`refcount
      ensures Valid() && client.refcount == count
      ensures book == old(book).WithCount(client.id, count, pins)
    {
      hide Client.Info, Book.Placed, Book.Chained, Book.Agreeing;
      Allocated(client);
      client.refcount := count;
      client.InfoUnchanged();
      book.WithCountPlaced(client.id, count, pins);
      ghost var b := book.WithCount(client.id, count, pins);
      b.CountedAfter(client);
      book.Sizes();
      book.AgreeingAfter(client);
      book.WithCountLinks(client.id, count, pins, firstclient);
      book := b;
    }

    method PinNode(client: Client, ghost i: nat)
      requires Valid() && i < |book.nodes| && client == book.nodes[i]
      modifies this`book, client`refcount
      ensures Valid() && book == old(book).(w := S.PinAt(old(book).w, i))
    {
      hide Valid;
      NodeAllocated(i);
      Allocated(client);
      SetRefcount(client, client.refcount + 1, book.w.pins + multiset{client.id});
    }

    lemma NodeAllocated(i: nat)
      requires Valid() && i < |book.nodes|
      ensures |book.nodes| == |book.w.clients|
      ensures book.nodes[i] in book.alloc.Values && book.nodes[i].id == book.w.clients[i].id
      ensures book.nodes[i].Info() == book.w.clients[i]
    {
    }

    method FindAndPin(mac: string, ip: string) returns (client: Client?)
      requires Valid()
      modifies this, book.alloc.Values
      ensures Valid() && book == old(book).(w := S.FindAndPin(old(book).w, mac, ip))
      ensures old(book).Found(client, FirstIndex(old(book).w.clients, ByMacIp(mac, ip)))
      ensures client != null ==> client in book.alloc.Values
      ensures book.w.pins == old(book).w.pins + (if client == null then multiset{} else multiset{client.id})
    {
      hide Valid;
      client := Find(mac, ip);
      if client != null {
        Allocated(client);
        PinNode(client, FirstIndex(book.w.clients, ByMacIp(mac, ip)));
      }
    }

    /** The node goes back to the allocator. It must be allocated, so it cannot be freed twice, and off the list. */
    ghost method FreeNode(id: nat)
      requires Valid() && id in book.alloc && book.Unlisted(id)
      modifies this`book
      ensures Valid() && book == old(book).WithoutNode(id)
    {
      hide Book.Sound;
      book.WithoutNodeSound(id, firstclient);
      book := book.WithoutNode(id);
    }

    lemma DeadNodeUnlisted(id: nat)
      requires Valid() && id in book.w.dead
      ensures book.Unlisted(id)
    {
      book.DeadUnlisted(id);
    }

    /** `client_list_unpin`: the caller returns a pin it holds. */
    method Unpin(client: Client?)
      requires Valid()
      requires client != null ==> client in book.alloc.Values && client.id in book.w.pins
      modifies this, book.alloc.Values
      ensures Valid() && book.nodes == old(book.nodes)
      ensures book.w == if client == null then old(book.w) else S.Unpin(old(book.w), client.id)
      ensures book.alloc.Values <= old(book.alloc.Values)
    {
      hide Valid;
      if client == null {
        return;
      }
      Allocated(client);
      SetRefcount(client, if client.refcount > 0 then client.refcount - 1 else client.refcount,
                  book.w.pins - multiset{client.id});
      Allocated(client);
      if client.dead && client.refcount == 0 {
        DeadNodeUnlisted(client.id);
        FreeNode(client.id);
      }
    }

    // ---- limiting -----------------------------------------------------------------------------

    /** The value of a linked node whose fields have just changed, and the firewall, enter the abstract state. */
    ghost method Record(client: Client, i: nat, fw: Chains)
      requires i < |book.nodes| && client == book.nodes[i]
      requires book.Placed() && book.Chained(firstclient) && book.Counted() && book.Agreeing(i) && Totals()
      modifies this`book
      ensures i < |old(book).w.clients| && book == old(book).WithCell(i, S.Cell(client.Info(), fw)) && Valid()
    {
      hide Client.Info, Book.Placed, Book.Chained, Book.Counted, Book.Agreeing;
      Sync(i, fw);
    }

    lemma OthersDiffer(i: nat)
      requires Valid() && i < |book.nodes|
      ensures forall j :: 0 <= j < |book.nodes| && j != i ==> book.nodes[j] != book.nodes[i]
    {
    }

    method DownloadRatelimitEnable(client: Client, ghost i: nat, enable: bool)
      requires Valid() && i < |book.nodes| && client == book.nodes[i]
      modifies this`book, client
      ensures Valid() && i < |old(book).w.clients|
      ensures book == old(book).WithCell(i, S.LimitDownload(old(book).CellAt(i), enable, cfg))
    {
      hide Client.Info, Book.Placed, Book.Chained, Book.Counted, DownloadLimit;
      NodeAllocated(i);
      OthersDiffer(i);
      ghost var x := S.LimitDownload(book.CellAt(i), enable, cfg);
      client.LimitDownload(enable, cfg);
      Record(client, i, x.fw);
    }

    method UploadRatelimitEnable(client: Client, ghost i: nat, enable: bool)
      requires Valid() && i < |book.nodes| && client == book.nodes[i]
      modifies this`book, client
      ensures Valid() && i < |old(book).w.clients|
      ensures book == old(book).WithCell(i, S.LimitUpload(old(book).CellAt(i), enable, cfg))
    {
      hide Client.Info, Book.Placed, Book.Chained, Book.Counted, UploadLimit;
      NodeAllocated(i);
      OthersDiffer(i);
      ghost var x := S.LimitUpload(book.CellAt(i), enable, cfg);
      client.LimitUpload(enable, cfg);
      Record(client, i, x.fw);
    }

    method SetClientBits(client: Client, ghost i: nat, bits: bv32)
      requires Valid() && i < |book.nodes| && client == book.nodes[i]
      modifies this`book, client
      ensures Valid() && i < |old(book).w.clients|
      ensures book == old(book).WithCell(i, S.WithBits(old(book).CellAt(i), bits))
    {
      hide Client.Info, Book.Placed, Book.Chained, Book.Counted;
      NodeAllocated(i);
      OthersDiffer(i);
      client.SetBits(bits);
      Record(client, i, book.w.fw);
    }

    /** What a linked node's fields are, by the abstract list. */
    lemma NodeFields(i: nat)
      requires Valid() && i < |book.nodes|
      ensures i < |book.w.clients|
      ensures var n, c := book.nodes[i], book.w.clients[i];
              && n.id == c.id && n.ip == c.ip && n.mac == c.mac && n.state == c.state
              && n.rateExceeded == c.rateExceeded && n.windowCounter == c.windowCounter
              && n.downloadRate == c.downloadRate && n.uploadRate == c.uploadRate
              && n.downrate == c.downrate && n.uprate == c.uprate && n.counters == c.counters
              && n.sessionEnd == c.sessionEnd && n.sessionEndExplicit == c.sessionEndExplicit
              && n.downloadQuota == c.downloadQuota && n.uploadQuota == c.uploadQuota
    {
      NodeAllocated(i);
    }

    // ---- the rate section -----------------------------------------------------------------------

    method ExceedDownload(client: Client, ghost i: nat)
      requires Valid() && i < |book.nodes| && client == book.nodes[i]
      modifies this`book, client
      ensures Valid() && i < |old(book).w.clients|
      ensures book == old(book).WithCell(i, S.ExceedDownload(old(book).CellAt(i), cfg))
    {
      hide Valid, S.LimitDownload, S.Flipped;
      NodeFields(i);
      ghost var b := book;
      b.WithCellSame(i);
      if client.rateExceeded & 1 == 0 {
        if client.downloadRate > 0 && client.downloadRate <= client.downrate {
          if cfg.downloadBucketRatio > 0 {
            var bits := client.rateExceeded;
            DownloadRatelimitEnable(client, i, true);
            SetClientBits(client, i, S.Flipped(bits, 1));
            b.WithCellTwice(i, S.LimitDownload(b.CellAt(i), true, cfg), book.CellAt(i));
          }
        }
      }
    }

    method ExceedUpload(client: Client, ghost i: nat)
      requires Valid() && i < |book.nodes| && client == book.nodes[i]
      modifies this`book, client
      ensures Valid() && i < |old(book).w.clients|
      ensures book == old(book).WithCell(i, S.ExceedUpload(old(book).CellAt(i), cfg))
    {
      hide Valid, S.LimitUpload, S.Flipped;
      NodeFields(i);
      ghost var b := book;
      b.WithCellSame(i);
      if client.rateExceeded & 2 == 0 {
        if client.uploadRate > 0 && client.uploadRate <= client.uprate {
          if cfg.uploadBucketRatio > 0 {
            var bits := client.rateExceeded;
            UploadRatelimitEnable(client, i, true);
            SetClientBits(client, i, S.Flipped(bits, 2));
            b.WithCellTwice(i, S.LimitUpload(b.CellAt(i), true, cfg), book.CellAt(i));
          }
        }
      }
    }

    method ExpireDownload(client: Client, ghost i: nat)
      requires Valid() && i < |book.nodes| && client == book.nodes[i]
      modifies this`book, client
      ensures Valid() && i < |old(book).w.clients|
      ensures book == old(book).WithCell(i, S.ExpireDownload(old(book).CellAt(i), cfg))
    {
      hide Valid, S.LimitDownload, S.Flipped;
      NodeFields(i);
      ghost var b := book;
      b.WithCellSame(i);
      if client.downloadRate > 0 && client.rateExceeded & 1 == 1 {
        if client.downloadRate > client.downrate && cfg.downloadUnrestrictedBursting > 0 {
          var bits := client.rateExceeded;
          DownloadRatelimitEnable(client, i, false);
          SetClientBits(client, i, S.Flipped(bits, 1));
        } else {
          DownloadRatelimitEnable(client, i, false);
          DownloadRatelimitEnable(client, i, true);
        }
        b.WithCellTwice(i, S.LimitDownload(b.CellAt(i), false, cfg), book.CellAt(i));
      }
    }

    method ExpireUpload(client: Client, ghost i: nat)
      requires Valid() && i < |book.nodes| && client == book.nodes[i]
      modifies this`book, client
      ensures Valid() && i < |old(book).w.clients|
      ensures book == old(book).WithCell(i, S.ExpireUpload(old(book).CellAt(i), cfg))
    {
      hide Valid, S.LimitUpload, S.Flipped;
      NodeFields(i);
      ghost var b := book;
      b.WithCellSame(i);
      if client.uploadRate > 0 && client.rateExceeded & 2 == 2 {
        if client.uploadRate > client.uprate && cfg.uploadUnrestrictedBursting > 0 {
          var bits := client.rateExceeded;
          UploadRatelimitEnable(client, i, false);
          SetClientBits(client, i, S.Flipped(bits, 2));
        } else {
          UploadRatelimitEnable(client, i, false);
          UploadRatelimitEnable(client, i, true);
        }
        b.WithCellTwice(i, S.LimitUpload(b.CellAt(i), false, cfg), book.CellAt(i));
      }
    }

    method MeasureRates(client: Client, ghost i: nat, now: int)
      requires Valid() && i < |book.nodes| && client == book.nodes[i]
      modifies this`book, client
      ensures Valid() && i < |old(book).w.clients|
      ensures var x := old(book).CellAt(i); book == old(book).WithCell(i, x.(c := S.Measure(x.c, now)))
    {
      hide Client.Info, Book.Placed, Book.Chained, Book.Counted, S.Measure;
      NodeAllocated(i);
      OthersDiffer(i);
      client.MeasureRates(now);
      Record(client, i, book.w.fw);
    }

    method StartWindow(client: Client, ghost i: nat, now: int)
      requires Valid() && i < |book.nodes| && client == book.nodes[i]
      modifies this`book, client
      ensures Valid() && i < |old(book).w.clients|
      ensures var x := old(book).CellAt(i); book == old(book).WithCell(i, x.(c := S.StartWindow(x.c, now, cfg)))
    {
      hide Client.Info, Book.Placed, Book.Chained, Book.Counted, S.StartWindow;
      NodeAllocated(i);
      OthersDiffer(i);
      client.StartWindow(now, cfg);
      Record(client, i, book.w.fw);
    }

    method CountDown(client: Client, ghost i: nat)
      requires Valid() && i < |book.nodes| && client == book.nodes[i]
      modifies this`book, client
      ensures Valid() && i < |old(book).w.clients|
      ensures var x := old(book).CellAt(i);
              book == old(book).WithCell(i, x.(c := x.c.(windowCounter := x.c.windowCounter - 1)))
    {
      hide Client.Info, Book.Placed, Book.Chained, Book.Counted;
      NodeAllocated(i);
      NodeFields(i);
      OthersDiffer(i);
      client.SetWindowCounter(client.windowCounter - 1);
      Record(client, i, book.w.fw);
    }

    /** The rate section of the pass for one client. */
    method CheckRates(client: Client, ghost i: nat, now: int)
      requires Valid() && i < |book.nodes| && client == book.nodes[i]
      modifies this`book, client
      ensures Valid() && i < |old(book).w.clients|
      ensures book == old(book).WithCell(i, S.CheckRates(old(book).CellAt(i), now, cfg))
    {
      hide Valid, S.ExceedDownload, S.ExceedUpload, S.ExpireDownload, S.ExpireUpload, S.Measure, S.StartWindow,
           Book.WithCell;
      ghost var b := book;
      NodeAllocated(i);
      Collapse(b, i);
      MeasureRates(client, i, now);
      ghost var x := book.CellAt(i);
      assert book == b.WithCell(i, x);
      ExceedDownload(client, i);
      ghost var y := S.ExceedDownload(x, cfg);
      assert book == b.WithCell(i, y);
      ExceedUpload(client, i);
      ghost var z := S.ExceedUpload(y, cfg);
      assert book == b.WithCell(i, z);
      NodeFields(i);
      if client.windowCounter > 1 {
        CountDown(client, i);
      } else {
        StartWindow(client, i, now);
        ghost var s := z.(c := S.StartWindow(z.c, now, cfg));
        assert book == b.WithCell(i, s);
        ExpireDownload(client, i);
        assert book == b.WithCell(i, S.ExpireDownload(s, cfg));
        ExpireUpload(client, i);
      }
    }

    /** Successive changes of one cell are one change. */
    static lemma Collapse(b: Book, i: nat)
      requires i < |b.w.clients|
      ensures forall x: S.Cell :: |b.WithCell(i, x).w.clients| == |b.w.clients| && b.WithCell(i, x).CellAt(i) == x
      ensures forall x: S.Cell :: b.WithCell(i, x).nodes == b.nodes
      ensures forall x: S.Cell, y: S.Cell :: b.WithCell(i, x).WithCell(i, y) == b.WithCell(i, y)
    {
      forall x: S.Cell, y: S.Cell
        ensures b.WithCell(i, x).WithCell(i, y) == b.WithCell(i, y)
      {
        b.WithCellTwice(i, x, y);
      }
    }

    // ---- the counter refresh --------------------------------------------------------------------

    method CountLine(client: Client, ghost i: nat, dir: Direction, line: Line, at: int)
      requires Valid() && i < |book.nodes| && client == book.nodes[i]
      modifies this`book, client
      ensures Valid() && i < |old(book).w.clients|
      ensures var x := old(book).CellAt(i);
              book == old(book).WithCell(i, x.(c := x.c.(counters := Count(x.c.counters, dir, line, at))))
    {
      hide Client.Info, Book.Placed, Book.Chained, Book.Counted, Count;
      NodeAllocated(i);
      NodeFields(i);
      OthersDiffer(i);
      client.CountLine(dir, line, at);
      Record(client, i, book.w.fw);
    }

    /** One listing, line by line; each line goes to the first client with its address. */
    method ReadListing(dir: Direction, lines: seq<Line>, at: int)
      requires Valid()
      modifies this`book, book.alloc.Values
      ensures Valid()
      ensures book == old(book).(w := old(book).w.(clients := ApplyLines(old(book).w.clients, dir, lines, at)))
    {
      hide Valid, Count;
      ghost var b := book;
      for k := 0 to |lines|
        invariant Valid()
        invariant book == b.(w := b.w.(clients := ApplyLines(b.w.clients, dir, lines[..k], at)))
      {
        var line := lines[k];
        assert lines[..k + 1][..k] == lines[..k];
        if line.ip == "0.0.0.0" {
          continue;
        }
        var p1 := FindByIp(line.ip);
        if p1 != null {
          CountLine(p1, FirstIndex(book.w.clients, ByIp(line.ip)), dir, line, at);
        }
      }
      assert lines[..|lines|] == lines;
    }

    /** `iptables_fw_counters_update` */
    method CountersUpdate(snap: Snapshot) returns (ok: bool)
      requires Valid()
      modifies this`book, book.alloc.Values
      ensures Valid()
      ensures var (w, done) := S.RefreshWorld(old(book).w, snap); book == old(book).(w := w) && ok == done
    {
      hide Valid, ApplyLines;
      if snap.outgoing.None? {
        return false;
      }
      ReadListing(Upload, snap.outgoing.value, snap.at);
      if snap.incoming.None? {
        return false;
      }
      ReadListing(Download, snap.incoming.value, snap.at);
      return true;
    }

    // ---- deletion -------------------------------------------------------------------------------

    /** Where an allocated node is in the list, if it is there at all. */
    lemma WhereListed(client: Client)
      requires Valid() && client in book.alloc.Values
      ensures |book.nodes| == |book.w.clients|
      ensures forall j :: 0 <= j < |book.nodes| ==>
                (book.nodes[j] == client <==> Matches(book.w.clients[j], ById(client.id)))
    {
      Allocated(client);
    }

    /** The loop of `client_list_delete`: the node whose successor is the client, or the last node. */
    method Predecessor(client: Client) returns (ptr: Client, ghost k: nat)
      requires Valid() && firstclient != null && firstclient != client
      ensures k < |book.nodes| && ptr == book.nodes[k] && ptr.next == book.At(k + 1)
      ensures ptr.next == null || ptr.next == client
      ensures forall j :: 0 <= j <= k ==> book.nodes[j] != client
    {
      hide Client.Info, Book.Counted, Book.Placed, Book.Agreeing;
      ptr := firstclient;
      k := 0;
      while ptr.next != null && ptr.next != client
        invariant k < |book.nodes| && ptr == book.nodes[k]
        invariant forall j :: 0 <= j <= k ==> book.nodes[j] != client
        decreases |book.nodes| - k
      {
        ptr := ptr.next;
        k := k + 1;
      }
    }

    /** The first node leaves the chain. */
    method CutHead(client: Client)
      requires Valid() && |book.nodes| > 0 && client == book.nodes[0]
      modifies this`firstclient, this`clientCount, this`book, client`next
      ensures Valid() && |old(book).nodes| == |old(book).w.clients| && book == Unlinked(old(book), 0)
    {
      hide Client.Info, Book.Counted, Book.Placed, Book.Agreeing, Book.Chained, Unlinked;
      NextNode(0);
      FirstNode();
      NodeAllocated(0);
      ghost var cut := Cut(book, 0);
      firstclient := client.next;
      client.next := null;
      client.InfoUnchanged();
      clientCount := clientCount - 1;
      book.Sizes();
      cut.Distinct();
      cut.UnlinkedPlaced();
      cut.UnlinkedChained(firstclient);
      cut.UnlinkedCounted();
      cut.UnlinkedAgrees();
      cut.UnlinkedTotals();
      book := Unlinked(book, 0);
    }

    /** The chain goes around the node after `ptr`. */
    method Bypass(ptr: Client, ghost k: nat, client: Client)
      requires Valid() && k + 1 < |book.nodes| && ptr == book.nodes[k] && client == book.nodes[k + 1]
      modifies ptr`next, client`next
      ensures |book.nodes| == |book.w.clients| && Unlinked(book, k + 1).Sound(firstclient)
    {
      hide Client.Info, Book.Counted, Book.Placed, Book.Agreeing, Book.Chained, Unlinked;
      FirstNode();
      ghost var cut := Cut(book, k + 1);
      book.Sizes();
      cut.Distinct();
      ptr.next := client.next;
      client.next := null;
      ptr.InfoUnchanged();
      client.InfoUnchanged();
      cut.UnlinkedPlaced();
      cut.UnlinkedChained(firstclient);
      cut.UnlinkedCounted();
      cut.UnlinkedAgrees();
    }

    method CutAfter(ptr: Client, ghost k: nat, client: Client)
      requires Valid() && k + 1 < |book.nodes| && ptr == book.nodes[k] && client == book.nodes[k + 1]
      modifies this`clientCount, this`book, ptr`next, client`next
      ensures Valid() && |old(book).nodes| == |old(book).w.clients| && book == Unlinked(old(book), k + 1)
    {
      hide Book.Sound;
      assert Totals();
      Bypass(ptr, k, client);
      clientCount := clientCount - 1;
      book := Unlinked(book, k + 1);
    }

    /** The pointer surgery of `client_list_delete`. */
    method UnlinkNode(client: Client) returns (found: bool)
      requires Valid() && client in book.alloc.Values
      modifies this`firstclient, this`clientCount, this`book, book.alloc.Values`next
      ensures Valid()
      ensures var b, i := old(book), FirstIndex(old(book).w.clients, ById(client.id));
              && |b.nodes| == |b.w.clients|
              && (found <==> i < |b.nodes|)
              && (found ==> b.nodes[i] == client && book == Unlinked(b, i))
              && (!found ==> book == b)
    {
      hide Valid;
      WhereListed(client);
      FirstNode();
      if firstclient == null {
        return false;
      }
      if firstclient == client {
        FirstIndexUnique(book.w.clients, ById(client.id), 0);
        CutHead(client);
        return true;
      }
      var ptr, k := Predecessor(client);
      if ptr.next == null {
        FirstIndexUnique(book.w.clients, ById(client.id), |book.nodes|);
        return false;
      }
      FirstIndexUnique(book.w.clients, ById(client.id), k + 1);
      NodeAllocated(k);
      CutAfter(ptr, k, client);
      return true;
    }

    /** A node a request still holds is marked dead. */
    method MarkDead(client: Client)
      requires Valid() && client in book.alloc.Values && book.Unlisted(client.id)
      modifies this`book, client`dead
      ensures Valid() && book == old(book).WithDead(client.id)
    {
      hide Client.Info, Book.Placed, Book.Chained, Book.Agreeing;
      Allocated(client);
      client.dead := true;
      client.InfoUnchanged();
      book.Sizes();
      book.AgreeingAfter(client);
      book.WithDeadPlaced(client.id, firstclient);
      book := book.WithDead(client.id);
    }

    /** `client_list_delete`: a listed node is unlinked, and freed unless a request still holds it. */
    method Delete(client: Client)
      requires Valid() && client in book.alloc.Values
      modifies this, book.alloc.Values
      ensures Valid()
      ensures var b, i := old(book), FirstIndex(old(book).w.clients, ById(client.id));
              |b.nodes| == |b.w.clients| && book == if i < |b.nodes| then Deleted(b, i) else b
    {
      hide Valid;
      ghost var b, i := book, FirstIndex(book.w.clients, ById(client.id));
      WhereListed(client);
      if i < |book.nodes| {
        UnlinkedOffList(i);
      }
      Allocated(client);
      var found := UnlinkNode(client);
      if !found {
        return;
      }
      Allocated(client);
      if client.refcount > 0 {
        MarkDead(client);
      } else {
        FreeNode(client.id);
      }
    }

    lemma UnlinkedOffList(i: nat)
      requires Valid() && i < |book.nodes|
      ensures |book.nodes| == |book.w.clients| && Unlinked(book, i).Unlisted(book.nodes[i].id)
    {
      book.Sizes();
      Cut(book, i).UnlinkedPlaced();
    }

    lemma FirstNode()
      requires Valid()
      ensures firstclient == book.At(0)
    {
    }

    lemma NextNode(i: nat)
      requires Valid() && i < |book.nodes|
      ensures book.nodes[i].next == book.At(i + 1)
    {
    }

    // ---- addition -------------------------------------------------------------------------------

    /** The walk to the last node. */
    method LastNode() returns (prevclient: Client?)
      requires Valid()
      ensures prevclient == if |book.nodes| == 0 then null else book.nodes[|book.nodes| - 1]
    {
      hide Valid;
      Searched(0);
      prevclient := null;
      var client := firstclient;
      ghost var k := 0;
      while client != null
        invariant k <= |book.nodes| && client == book.At(k)
        invariant prevclient == if k == 0 then null else book.nodes[k - 1]
        decreases |book.nodes| - k
      {
        Searched(k);
        prevclient := client;
        client := client.next;
        k := k + 1;
      }
    }

    /** The new node becomes the last one. */
    method Link(prevclient: Client?, client: Client)
      requires Valid() && client.id == book.w.nextId
      requires client.next == null && client.refcount == 0 && !client.dead && client !in book.alloc.Values
      requires prevclient == if |book.nodes| == 0 then null else book.nodes[|book.nodes| - 1]
      modifies this`firstclient, book.alloc.Values`next
      ensures Join(book, client).Joined(client.Info()).Sound(firstclient)
    {
      hide Client.Info, Book.Counted, Book.Placed, Book.Agreeing, Book.Chained, Join.Joined;
      FirstNode();
      ghost var join := Join(book, client);
      join.Fresh();
      book.Sizes();
      if prevclient == null {
        firstclient := client;
      } else {
        NodeAllocated(|book.nodes| - 1);
        Cut(book, 0).Distinct();
        prevclient.next := client;
        prevclient.InfoUnchanged();
        book.AgreeingAfter(prevclient);
      }
      join.JoinedPlaced(client.Info());
      join.JoinedChained(firstclient);
      join.JoinedCounted(client.Info());
      join.JoinedAgrees();
    }

    method LinkNew(prevclient: Client?, client: Client)
      requires Valid() && client.id == book.w.nextId
      requires client.next == null && client.refcount == 0 && !client.dead && client !in book.alloc.Values
      requires prevclient == if |book.nodes| == 0 then null else book.nodes[|book.nodes| - 1]
      modifies this`firstclient, this`clientId, this`clientCount, this`book, book.alloc.Values`next
      ensures Valid() && book == Join(old(book), client).Joined(old(client.Info()))
    {
      hide Client.Info, Book.Sound;
      Link(prevclient, client);
      clientId := clientId + 1;
      clientCount := clientCount + 1;
      book := Join(book, client).Joined(client.Info());
    }

    /** `_client_list_append` */
    method Append(req: S.AddRequest) returns (client: Client?)
      requires Valid() && FirstIndex(book.w.clients, ByMacIp(req.mac, req.ip)) == |book.w.clients|
      modifies this, book.alloc.Values
      ensures Valid()
      ensures var (w, i) := S.FindOrAppend(old(book).w, req, cfg);
              book.w == w && (client == null <==> i.None?)
              && (i.Some? ==> book.Found(client, i.value) && client != null)
      ensures old(book).alloc.Values <= book.alloc.Values && fresh(book.alloc.Values - old(book).alloc.Values)
      ensures book.nodes == old(book).nodes + (if client == null then [] else [client])
      ensures book.w.pins == old(book).w.pins
    {
      hide Valid, Client.Info;
      Counts();
      if clientCount >= cfg.maxclients {
        return null;
      }
      var prevclient := LastNode();
      if !req.tokenDrawn {
        return null;
      }
      client := new Client(clientId, req.mac, req.ip, MacLists.IsTrusted(req.trustedMacs, req.mac), req.at);
      Join(book, client).JoinedFound(client.Info());
      BookPlaced();
      Join(book, client).JoinedKeeps(client.Info());
      LinkNew(prevclient, client);
    }

    lemma BookPlaced()
      requires Valid()
      ensures book.Placed()
    {
    }

    lemma Counts()
      requires Valid()
      ensures clientCount == book.w.count && clientId == book.w.nextId && |book.nodes| == |book.w.clients|
      ensures authenticatedSinceStart == book.w.authCount
    {
    }

    /** `client_list_find_or_append` */
    method FindOrAppend(req: S.AddRequest) returns (client: Client?)
      requires Valid()
      modifies this, book.alloc.Values
      ensures Valid()
      ensures var (w, i) := S.FindOrAppend(old(book).w, req, cfg);
              book.w == w && (client == null <==> i.None?)
              && (i.Some? ==> book.Found(client, i.value) && client != null)
      ensures old(book).alloc.Values <= book.alloc.Values && fresh(book.alloc.Values - old(book).alloc.Values)
      ensures book.w.pins == old(book).w.pins
    {
      hide Valid;
      client := Find(req.mac, req.ip);
      if client == null {
        client := Append(req);
      }
    }

    /** `client_list_add_client_pinned`; the address and DHCP checks come first. */
    method AddClientPinned(req: S.AddRequest) returns (client: Client?)
      requires Valid()
      modifies this, book.alloc.Values
      ensures Valid() && book.w == S.AddPinned(old(book).w, req, cfg)
      ensures old(book).alloc.Values <= book.alloc.Values && fresh(book.alloc.Values - old(book).alloc.Values)
      ensures client != null ==> client in book.alloc.Values && client.id in book.w.pins
      ensures book.w.pins == old(book).w.pins + (if client == null then multiset{} else multiset{client.id})
    {
      hide Valid, S.FindOrAppend;
      if !MacLists.MacFormat(req.mac) {
        return null;
      }
      if !req.ipValid {
        return null;
      }
      if !req.dhcpAllocated {
        return null;
      }
      client := FindOrAppend(req);
      if client != null {
        ghost var i := S.FindOrAppend(old(book).w, req, cfg).1.value;
        Allocated(client);
        PinNode(client, i);
      }
    }

    /** `client_list_add_client`, for a caller that holds the lock and takes no pin. */
    method AddClient(req: S.AddRequest) returns (client: Client?)
      requires Valid()
      modifies this, book.alloc.Values
      ensures Valid() && book.w == S.AddUnpinned(old(book).w, req, cfg)
      ensures old(book).alloc.Values <= book.alloc.Values && fresh(book.alloc.Values - old(book).alloc.Values)
    {
      hide Valid, S.FindOrAppend;
      if !MacLists.MacFormat(req.mac) || !req.ipValid || !req.dhcpAllocated {
        return null;
      }
      client := FindOrAppend(req);
    }

    // ---- fields and firewall for the state changes ----------------------------------------------

    ghost method SetFirewall(fw: Chains)
      requires Valid()
      modifies this`book
      ensures Valid() && book == old(book).Noted(fw, old(book).w.authCount, old(book).w.deauths)
    {
      hide Book.Sound;
      book.NotedSound(fw, book.w.authCount, book.w.deauths, firstclient);
      book := book.Noted(fw, book.w.authCount, book.w.deauths);
    }

    ghost method NoteDeauth()
      requires Valid()
      modifies this`book
      ensures Valid() && book == old(book).Noted(old(book).w.fw, old(book).w.authCount, old(book).w.deauths + 1)
    {
      hide Book.Sound;
      book.NotedSound(book.w.fw, book.w.authCount, book.w.deauths + 1, firstclient);
      book := book.Noted(book.w.fw, book.w.authCount, book.w.deauths + 1);
    }

    /** `authenticated_since_start++`, an unsigned int. */
    method CountAuthentication()
      requires Valid()
      modifies this`book, this`authenticatedSinceStart
      ensures Valid()
      ensures book == old(book).Noted(old(book).w.fw, (old(book).w.authCount + 1) % TWO_TO_THE_32, old(book).w.deauths)
    {
      hide Book.Sound;
      authenticatedSinceStart := (authenticatedSinceStart + 1) % TWO_TO_THE_32;
      book.NotedSound(book.w.fw, authenticatedSinceStart, book.w.deauths, firstclient);
      book := book.Noted(book.w.fw, authenticatedSinceStart, book.w.deauths);
    }

    method SetExplicitEnd(client: Client, ghost i: nat, explicitEnd: bool)
      requires Valid() && i < |book.nodes| && client == book.nodes[i]
      modifies this`book, client
      ensures Valid() && i < |old(book).w.clients|
      ensures var x := old(book).CellAt(i);
              book == old(book).WithCell(i, x.(c := x.c.(sessionEndExplicit := explicitEnd)))
    {
      hide Client.Info, Book.Placed, Book.Chained, Book.Counted;
      NodeAllocated(i);
      OthersDiffer(i);
      client.SetExplicitEnd(explicitEnd);
      Record(client, i, book.w.fw);
    }

    /** `iptables_fw_authenticate` and the parameters granted after it. */
    method Grant(client: Client, ghost i: nat, explicitEnd: bool, inp: S.ChangeInput)
      requires Valid() && i < |book.nodes| && client == book.nodes[i]
      modifies this`book, client
      ensures Valid() && i < |old(book).w.clients|
      ensures var x := old(book).CellAt(i);
              book == old(book).WithCell(i, S.Cell(S.Granted(x.c, explicitEnd, inp, cfg),
                                                   Authenticate(x.fw, x.c.ip, x.c.mac)))
    {
      hide Client.Info, Book.Placed, Book.Chained, Book.Counted, S.Granted;
      NodeAllocated(i);
      OthersDiffer(i);
      client.Grant(explicitEnd, inp, cfg);
      Record(client, i, Authenticate(book.w.fw, client.ip, client.mac));
    }

    method SetState(client: Client, ghost i: nat, mark: Mark)
      requires Valid() && i < |book.nodes| && client == book.nodes[i]
      modifies this`book, client
      ensures Valid() && i < |old(book).w.clients|
      ensures var x := old(book).CellAt(i); book == old(book).WithCell(i, x.(c := x.c.(state := mark)))
    {
      hide Client.Info, Book.Placed, Book.Chained, Book.Counted;
      NodeAllocated(i);
      OthersDiffer(i);
      client.SetState(mark);
      Record(client, i, book.w.fw);
    }

    method SetRate(client: Client, ghost i: nat, dir: Direction, rate: U64)
      requires Valid() && i < |book.nodes| && client == book.nodes[i]
      modifies this`book, client
      ensures Valid() && i < |old(book).w.clients|
      ensures var x := old(book).CellAt(i); book == old(book).WithCell(i, x.(c := S.WithRate(x.c, dir, rate)))
    {
      hide Client.Info, Book.Placed, Book.Chained, Book.Counted;
      NodeAllocated(i);
      OthersDiffer(i);
      client.SetRate(dir, rate);
      Record(client, i, book.w.fw);
    }

    method ApplyPreset(client: Client, ghost i: nat, p: S.Preset)
      requires Valid() && i < |book.nodes| && client == book.nodes[i]
      modifies this`book, client
      ensures Valid() && i < |old(book).w.clients|
      ensures var x := old(book).CellAt(i); book == old(book).WithCell(i, x.(c := S.WithPreset(x.c, p)))
    {
      hide Client.Info, Book.Placed, Book.Chained, Book.Counted, S.WithPreset;
      NodeAllocated(i);
      OthersDiffer(i);
      client.ApplyPreset(p);
      Record(client, i, book.w.fw);
    }

    method Clear(client: Client, ghost i: nat, start: int, end: int)
      requires Valid() && i < |book.nodes| && client == book.nodes[i]
      modifies this`book, client
      ensures Valid() && i < |old(book).w.clients|
      ensures var x := old(book).CellAt(i); book == old(book).WithCell(i, x.(c := S.Cleared(x.c, start, end)))
    {
      hide Client.Info, Book.Placed, Book.Chained, Book.Counted, S.Cleared;
      NodeAllocated(i);
      OthersDiffer(i);
      client.Clear(start, end);
      Record(client, i, book.w.fw);
    }
  }
}
