/** The state changes and the periodic pass of auth.c, on the client list in place. */
module AuthEngine {
  import opened Clients
  import opened Firewall
  import opened ClientNodes
  import opened ClientLists
  import S = Session

  method AuthDownload(list: ClientList, client: Client, ghost i: nat)
    requires list.Valid() && i < |list.book.nodes| && client == list.book.nodes[i]
    modifies list`book, client
    ensures list.Valid() && i < |old(list.book).w.clients|
    ensures list.book == old(list.book).WithCell(i, S.AuthDownload(old(list.book).CellAt(i), list.cfg))
  {
    hide ClientList.Valid, S.LimitDownload;
    list.NodeFields(i);
    ghost var b := list.book;
    b.WithCellSame(i);
    if list.cfg.downloadUnrestrictedBursting == 0 && list.cfg.downloadBucketRatio > 0 {
      var bits := client.rateExceeded;
      list.DownloadRatelimitEnable(client, i, true);
      list.SetClientBits(client, i, S.Flipped(bits, 1));
      b.WithCellTwice(i, S.LimitDownload(b.CellAt(i), true, list.cfg), list.book.CellAt(i));
    }
  }

  method AuthUpload(list: ClientList, client: Client, ghost i: nat)
    requires list.Valid() && i < |list.book.nodes| && client == list.book.nodes[i]
    modifies list`book, client
    ensures list.Valid() && i < |old(list.book).w.clients|
    ensures list.book == old(list.book).WithCell(i, S.AuthUpload(old(list.book).CellAt(i), list.cfg))
  {
    hide ClientList.Valid, S.LimitUpload;
    list.NodeFields(i);
    ghost var b := list.book;
    b.WithCellSame(i);
    if list.cfg.uploadUnrestrictedBursting == 0 && list.cfg.uploadBucketRatio > 0 {
      var bits := client.rateExceeded;
      list.UploadRatelimitEnable(client, i, true);
      list.SetClientBits(client, i, S.Flipped(bits, 2));
      b.WithCellTwice(i, S.LimitUpload(b.CellAt(i), true, list.cfg), list.book.CellAt(i));
    }
  }

  method BlockDownload(list: ClientList, client: Client, ghost i: nat)
    requires list.Valid() && i < |list.book.nodes| && client == list.book.nodes[i]
    modifies list`book, client
    ensures list.Valid() && i < |old(list.book).w.clients|
    ensures list.book == old(list.book).WithCell(i, S.BlockDownload(old(list.book).CellAt(i), list.cfg))
  {
    hide ClientList.Valid, S.LimitDownload, S.Raised;
    list.NodeFields(i);
    ghost var b := list.book;
    b.WithCellSame(i);
    if list.cfg.downloadUnrestrictedBursting == 0 && list.cfg.downloadBucketRatio > 0 {
      var bits := S.Raised(client.rateExceeded, 1);
      list.DownloadRatelimitEnable(client, i, true);
      list.SetClientBits(client, i, bits);
      b.WithCellTwice(i, S.LimitDownload(b.CellAt(i), true, list.cfg), list.book.CellAt(i));
    }
  }

  method BlockUpload(list: ClientList, client: Client, ghost i: nat)
    requires list.Valid() && i < |list.book.nodes| && client == list.book.nodes[i]
    modifies list`book, client
    ensures list.Valid() && i < |old(list.book).w.clients|
    ensures list.book == old(list.book).WithCell(i, S.BlockUpload(old(list.book).CellAt(i), list.cfg))
  {
    hide ClientList.Valid, S.LimitUpload, S.Raised;
    list.NodeFields(i);
    ghost var b := list.book;
    b.WithCellSame(i);
    if list.cfg.uploadUnrestrictedBursting == 0 && list.cfg.uploadBucketRatio > 0 {
      var bits := S.Raised(client.rateExceeded, 2);
      list.UploadRatelimitEnable(client, i, true);
      list.SetClientBits(client, i, bits);
      b.WithCellTwice(i, S.LimitUpload(b.CellAt(i), true, list.cfg), list.book.CellAt(i));
    }
  }

  /** The end of a successful authentication: the limiters, then the new state. */
  method Complete(list: ClientList, client: Client, ghost i: nat)
    requires list.Valid() && i < |list.book.nodes| && client == list.book.nodes[i]
    modifies list`book, client
    ensures list.Valid() && i < |old(list.book).w.clients|
    ensures list.book == old(list.book).(w := S.Complete(old(list.book).w, i, list.cfg))
  {
    hide ClientList.Valid, S.AuthDownload, S.AuthUpload;
    list.NodeAllocated(i);
    ghost var b := list.book;
    ghost var x := S.AuthDownload(b.CellAt(i), list.cfg);
    AuthDownload(list, client, i);
    b.WithCellTwice(i, x, S.AuthUpload(x, list.cfg));
    AuthUpload(list, client, i);
    ghost var y := S.AuthUpload(x, list.cfg);
    b.WithCellTwice(i, y, y.(c := y.c.(state := Authenticated)));
    list.SetState(client, i, Authenticated);
  }

  method FinishBlock(list: ClientList, client: Client, ghost i: nat)
    requires list.Valid() && i < |list.book.nodes| && client == list.book.nodes[i]
    modifies list`book, client
    ensures list.Valid() && i < |old(list.book).w.clients|
    ensures list.book == old(list.book).(w := S.FinishBlock(old(list.book).w, i, list.cfg))
  {
    hide ClientList.Valid, S.BlockDownload, S.BlockUpload;
    list.NodeAllocated(i);
    ghost var b := list.book;
    ghost var x := S.BlockDownload(b.CellAt(i), list.cfg);
    BlockDownload(list, client, i);
    b.WithCellTwice(i, x, S.BlockUpload(x, list.cfg));
    BlockUpload(list, client, i);
    ghost var y := S.BlockUpload(x, list.cfg);
    b.WithCellTwice(i, y, y.(c := y.c.(state := AuthBlocked)));
    list.SetState(client, i, AuthBlocked);
  }

  /** Preauthenticated to Authenticated. The explicit-end flag is read and cleared first; BinAuth may refuse; if
      the counters cannot be read, the rules just installed are removed again. */
  method Authorize(list: ClientList, client: Client, ghost i: nat, inp: S.ChangeInput) returns (rc: int)
    requires list.Valid() && i < |list.book.nodes| && client == list.book.nodes[i]
    modifies list`book, list.book.alloc.Values
    ensures list.Valid() && i < |old(list.book).w.clients|
    ensures var (w, code) := S.Authorize(old(list.book).w, i, inp, list.cfg);
            list.book == old(list.book).(w := w) && rc == code
  {
    hide ClientList.Valid, S.Complete, S.Granted, S.RefreshWorld;
    list.NodeAllocated(i);
    list.NodeFields(i);
    ghost var b := list.book;
    ghost var asked := b.CellAt(i).(c := b.CellAt(i).c.(sessionEndExplicit := false));
    var explicitEnd := client.sessionEndExplicit;
    list.SetExplicitEnd(client, i, false);
    if inp.binauth != 0 {
      return 1;
    }
    ghost var granted := S.Cell(S.Granted(asked.c, explicitEnd, inp, list.cfg),
                                Authenticate(asked.fw, asked.c.ip, asked.c.mac));
    b.WithCellTwice(i, asked, granted);
    list.Grant(client, i, explicitEnd, inp);
    var ok := list.CountersUpdate(inp.snap);
    if !ok {
      list.SetFirewall(Deauthenticate(list.book.w.fw, client.ip));
      AdmittedIp(b.w, i, inp, list.cfg);
      return -1;
    }
    Complete(list, client, i);
    return 0;
  }

  lemma AdmittedIp(w: S.World, i: nat, inp: S.ChangeInput, cfg: Config)
    requires i < |w.clients|
    ensures S.Admit(w, i, inp, cfg).0.clients[i].ip == w.clients[i].ip
  {
  }

  /** Authenticated to AuthBlocked. */
  method Block(list: ClientList, client: Client, ghost i: nat, inp: S.ChangeInput) returns (rc: int)
    requires list.Valid() && i < |list.book.nodes| && client == list.book.nodes[i]
    modifies list`book, list.book.alloc.Values
    ensures list.Valid() && i < |old(list.book).w.clients|
    ensures var (w, code) := S.Block(old(list.book).w, i, inp, list.cfg);
            list.book == old(list.book).(w := w) && rc == code
  {
    hide ClientList.Valid, S.FinishBlock, S.StartWindow, S.RefreshWorld;
    list.NodeAllocated(i);
    list.StartWindow(client, i, inp.now);
    var ok := list.CountersUpdate(inp.snap);
    if !ok {
      return -1;
    }
    FinishBlock(list, client, i);
    return 0;
  }

  /** Deauthentication: the rules go, then the client itself. */
  method Revoke(list: ClientList, client: Client, ghost i: nat)
    requires list.Valid() && i < |list.book.nodes| && client == list.book.nodes[i]
    modifies list, list.book.alloc.Values
    ensures list.Valid() && i < |old(list.book).w.clients|
    ensures list.book.w == S.Revoke(old(list.book).w, i)
    ensures list.book.nodes == old(list.book).nodes[..i] + old(list.book).nodes[i + 1..]
    ensures list.book.alloc.Values <= old(list.book).alloc.Values
  {
    hide ClientList.Valid, S.DeleteAt, Deleted;
    list.NodeAllocated(i);
    list.WhereListed(client);
    list.OthersDiffer(i);
    FirstIndexUnique(list.book.w.clients, ById(client.id), i);
    list.SetFirewall(Deauthenticate(list.book.w.fw, client.ip));
    ghost var b := list.book;
    assert |b.nodes| == |b.w.clients|;
    DeletedState(b, i);
    list.Delete(client);
    list.NoteDeauth();
  }
}

/** The critical sections of the list lock, each proved to be one step of the state machine. */
module ListOperations {
  import opened Basics
  import opened Clients
  import opened CounterRefresh
  import opened ClientNodes
  import opened ClientLists
  import opened AuthEngine
  import S = Session

  /** `auth_change_state`. Afterwards the list holds the same nodes, or all but this one. */
  method AuthChangeState(list: ClientList, client: Client, ghost i: nat, target: Mark, inp: S.ChangeInput)
    returns (rc: int)
    requires list.Valid() && i < |list.book.nodes| && client == list.book.nodes[i]
    modifies list, list.book.alloc.Values
    ensures list.Valid() && i < |old(list.book).w.clients|
    ensures var (w, code) := S.ChangeState(old(list.book).w, i, target, inp, list.cfg); list.book.w == w && rc == code
    ensures NodesAfter(old(list.book), list.book, i)
  {
    hide ClientList.Valid, S.Authorize, S.Block, S.Revoke;
    list.NodeFields(i);
    var state := client.state;
    if state == target {
      return -1;
    } else if state == Preauthenticated {
      if target == Authenticated {
        rc := Authorize(list, client, i, inp);
      } else {
        return -1;
      }
    } else if state == Authenticated {
      if target == Preauthenticated {
        Revoke(list, client, i);
        return 0;
      } else if target == AuthBlocked {
        rc := Block(list, client, i, inp);
      } else {
        return -1;
      }
    } else {
      return -1;
    }
  }

  /** The nodes after a step on the one at i: the same, or without it. */
  ghost predicate NodesAfter(before: Book, after: Book, i: nat)
    requires i < |before.nodes|
  {
    && (after.nodes == before.nodes || after.nodes == before.nodes[..i] + before.nodes[i + 1..])
    && after.alloc.Values <= before.alloc.Values
  }

  /** `auth_client_auth_nolock` */
  method AuthClient(list: ClientList, id: nat, inp: S.ChangeInput) returns (rc: int)
    requires list.Valid()
    modifies list, list.book.alloc.Values
    ensures list.Valid()
    ensures var (w, code) := S.AuthClient(old(list.book).w, id, inp, list.cfg); list.book.w == w && rc == code
    ensures list.book.alloc.Values <= old(list.book).alloc.Values
  {
    hide ClientList.Valid, S.ChangeState;
    var client := list.FindById(id);
    if client == null {
      return -1;
    }
    rc := AuthChangeState(list, client, FirstIndex(list.book.w.clients, ById(id)), Authenticated, inp);
    if rc == 0 {
      list.CountAuthentication();
    }
  }

  /** A deauthentication reads nothing from outside, so any input will do. */
  const NO_INPUT := S.ChangeInput(0, 0, None, Snapshot(None, None, 0))

  lemma DeauthIsChange(w: S.World, i: nat, cfg: Config)
    requires i < |w.clients|
    ensures S.ChangeState(w, i, Preauthenticated, NO_INPUT, cfg) == S.Deauth(w, i)
  {
  }

  method Deauth(list: ClientList, client: Client, ghost i: nat) returns (rc: int)
    requires list.Valid() && i < |list.book.nodes| && client == list.book.nodes[i]
    modifies list, list.book.alloc.Values
    ensures list.Valid() && i < |old(list.book).w.clients|
    ensures var (w, code) := S.Deauth(old(list.book).w, i); list.book.w == w && rc == code
    ensures NodesAfter(old(list.book), list.book, i)
  {
    hide ClientList.Valid, S.ChangeState, S.Deauth;
    list.NodeAllocated(i);
    DeauthIsChange(list.book.w, i, list.cfg);
    rc := AuthChangeState(list, client, i, Preauthenticated, NO_INPUT);
  }

  /** `auth_client_deauth` */
  method DeauthClient(list: ClientList, id: nat) returns (rc: int)
    requires list.Valid()
    modifies list, list.book.alloc.Values
    ensures list.Valid()
    ensures var (w, code) := S.DeauthClient(old(list.book).w, id); list.book.w == w && rc == code
    ensures list.book.alloc.Values <= old(list.book).alloc.Values
  {
    hide ClientList.Valid, S.Deauth;
    var client := list.FindById(id);
    if client == null {
      return -1;
    }
    rc := Deauth(list, client, FirstIndex(list.book.w.clients, ById(id)));
  }

  /** What `ndsctl auth` and the preemptive list do under the lock, once the arguments are parsed. */
  method ControlAuth(list: ClientList, id: nat, p: S.Preset, inp: S.ChangeInput)
    requires list.Valid()
    modifies list, list.book.alloc.Values
    ensures list.Valid() && list.book.w == S.ControlAuth(old(list.book).w, id, p, inp, list.cfg)
    ensures list.book.alloc.Values <= old(list.book).alloc.Values
  {
    hide ClientList.Valid, S.AuthClient, S.WithPreset;
    var client := list.FindById(id);
    if client == null {
      return;
    }
    ghost var i := FirstIndex(list.book.w.clients, ById(id));
    list.NodeFields(i);
    if client.state == Preauthenticated {
      list.ApplyPreset(client, i, p);
      var rc := AuthClient(list, id, inp);
    }
  }

  /** The reset at the start of `authenticate_client`, which preauthenticated and throttled clients reach. */
  method HttpReset(list: ClientList, id: nat, start: int, end: int)
    requires list.Valid()
    modifies list, list.book.alloc.Values
    ensures list.Valid() && list.book.w == S.HttpReset(old(list.book).w, id, start, end)
    ensures list.book.alloc.Values <= old(list.book).alloc.Values
  {
    hide ClientList.Valid, S.Cleared;
    var client := list.FindById(id);
    if client == null {
      return;
    }
    ghost var i := FirstIndex(list.book.w.clients, ById(id));
    list.NodeFields(i);
    if client.state == Authenticated || client.state == Trusted {
      return;
    }
    list.Clear(client, i, start, end);
  }

  // ---- the periodic pass ------------------------------------------------------------------------

  lemma BlockKeepsLength(w: S.World, i: nat, inp: S.ChangeInput, cfg: Config)
    requires i < |w.clients|
    ensures |S.ChangeState(w, i, AuthBlocked, inp, cfg).0.clients| == |w.clients|
  {
  }

  /** Throttling sets the rate first, then changes the state. */
  method Throttle(list: ClientList, client: Client, ghost i: nat, dir: Direction, inp: S.ChangeInput)
    requires list.Valid() && i < |list.book.nodes| && client == list.book.nodes[i]
    modifies list, list.book.alloc.Values
    ensures list.Valid() && i < |old(list.book).w.clients|
    ensures var c := S.WithRate(old(list.book).w.clients[i], dir, S.ThrottleRate(list.cfg, dir));
            var w := S.Put(old(list.book).w, i, S.Cell(c, old(list.book).w.fw));
            list.book.w == S.ChangeState(w, i, AuthBlocked, inp, list.cfg).0
    ensures list.book.nodes == old(list.book).nodes && list.book.alloc.Values <= old(list.book).alloc.Values
  {
    hide ClientList.Valid, S.ChangeState, S.WithRate;
    list.NodeAllocated(i);
    list.SetRate(client, i, dir, S.ThrottleRate(list.cfg, dir));
    ghost var b := list.book;
    var rc := AuthChangeState(list, client, i, AuthBlocked, inp);
    BlockKeepsLength(b.w, i, inp, list.cfg);
    list.Counts();
  }

  /** The quota section of a turn in one direction: cut off without a throttle rate, else throttle a client that is
      not at that rate yet. */
  method CheckQuota(list: ClientList, client: Client, ghost i: nat, dir: Direction, inp: S.ChangeInput)
    returns (done: bool)
    requires list.Valid() && i < |list.book.nodes| && client == list.book.nodes[i]
    modifies list, list.book.alloc.Values
    ensures list.Valid() && i < |old(list.book).w.clients|
    ensures done == S.CutOffDue(old(list.book).w.clients[i], dir, list.cfg)
    ensures list.book.w
            == if done then S.Deauth(old(list.book).w, i).0 else S.Throttle(old(list.book).w, i, dir, inp, list.cfg)
    ensures NodesAfter(old(list.book), list.book, i)
    ensures !done ==> list.book.nodes == old(list.book).nodes
  {
    hide ClientList.Valid, S.ChangeState, S.WithRate, S.Deauth;
    list.NodeFields(i);
    var quota := if dir == Download then client.downloadQuota else client.uploadQuota;
    var used := if dir == Download then client.counters.incoming / 1024 else client.counters.outgoing / 1024;
    if quota > 0 && quota <= used {
      if S.ThrottleRate(list.cfg, dir) == 0 {
        var rc := Deauth(list, client, i);
        return true;
      } else {
        if (if dir == Download then client.downloadRate else client.uploadRate) != S.ThrottleRate(list.cfg, dir) {
          Throttle(list, client, i, dir, inp);
        }
      }
    }
    return false;
  }

  /** The part of a turn after the download quota. */
  method LateTurn(list: ClientList, client: Client, ghost i: nat, ghost c: ClientInfo, connState: Mark,
                  lastUpdated: int, now: int, env: S.Environment)
    requires list.Valid() && i < |list.book.nodes| && client == list.book.nodes[i]
    requires c.id == client.id && connState == c.state && lastUpdated == c.counters.lastUpdated
    modifies list, list.book.alloc.Values
    ensures list.Valid() && i < |old(list.book).w.clients|
    ensures list.book.w == S.LateTurn(old(list.book).w, i, c, now, list.cfg, env)
    ensures NodesAfter(old(list.book), list.book, i)
  {
    hide ClientList.Valid, S.Throttle, S.Deauth, S.CutOffDue, S.CheckRates;
    list.NodeAllocated(i);
    list.NodeFields(i);
    var done := CheckQuota(list, client, i, Upload, env(client.id, Upload));
    if done {
      return;
    }
    list.NodeFields(i);
    if list.cfg.authIdleSecs > 0 && connState == Authenticated && lastUpdated + list.cfg.authIdleSecs <= now {
      var rc := Deauth(list, client, i);
      return;
    }
    if client.state != Preauthenticated {
      list.CheckRates(client, i, now);
    }
  }

  lemma PositionOf(list: ClientList, i: nat)
    requires list.Valid() && i < |list.book.nodes|
    ensures |list.book.nodes| == |list.book.w.clients|
    ensures FirstIndex(list.book.w.clients, ById(list.book.nodes[i].id)) == i
  {
    hide ClientList.Valid;
    list.NodeAllocated(i);
    list.WhereListed(list.book.nodes[i]);
    list.OthersDiffer(i);
    FirstIndexUnique(list.book.w.clients, ById(list.book.nodes[i].id), i);
  }

  /** One turn of the loop of `fw_refresh_client_list`. */
  method PassTurn(list: ClientList, client: Client, ghost i: nat, now: int, env: S.Environment)
    requires list.Valid() && i < |list.book.nodes| && client == list.book.nodes[i]
    modifies list, list.book.alloc.Values
    ensures list.Valid() && i < |old(list.book).w.clients|
    ensures list.book.w == S.PassTurn(old(list.book).w, i, now, list.cfg, env)
    ensures NodesAfter(old(list.book), list.book, i)
  {
    hide ClientList.Valid, S.Throttle, S.Deauth, S.CutOffDue, S.LateTurn, S.DeleteAt, Deleted;
    list.NodeFields(i);
    ghost var c := list.book.w.clients[i];
    var lastUpdated := client.counters.lastUpdated;
    var connState := client.state;
    if connState == Preauthenticated {
      if list.cfg.preauthIdleSecs > 0 && lastUpdated + list.cfg.preauthIdleSecs <= now {
        PositionOf(list, i);
        list.NodeAllocated(i);
        DeletedState(list.book, i);
        list.Delete(client);
      }
      return;
    }
    if client.sessionEnd > 0 && client.sessionEnd <= now {
      var rc := Deauth(list, client, i);
      return;
    }
    var done := CheckQuota(list, client, i, Download, env(client.id, Download));
    if done {
      return;
    }
    LateTurn(list, client, i, c, connState, lastUpdated, now, env);
  }

  /** Where a walk over the list stands: the nodes and ids it started from, how many turns it has taken, and
      the position of the next node in the list as it is now. */
  datatype Walk = Walk(start: seq<Client>, ids: seq<nat>, turn: nat, pos: nat) {
    ghost predicate On(b: Book) {
      && turn <= |start| == |ids| && pos <= |b.nodes| && b.nodes[pos..] == start[turn..]
      && forall k :: 0 <= k < |start| ==> start[k].id == ids[k]
    }

    predicate Within() {
      turn <= |start| == |ids|
    }

    lemma Finished(b: Book)
      requires On(b) && pos == |b.nodes|
      ensures turn == |start| && start[..turn] == start && ids[turn..] == []
    {
    }

    function Next(before: Book, after: Book): Walk {
      Walk(start, ids, turn + 1, if after.nodes == before.nodes then pos + 1 else pos)
    }

    /** What is left is what was left before, without its first node; the successor read before the turn is
        still the next node after it. */
    lemma Advanced(before: Book, after: Book)
      requires On(before) && pos < |before.nodes| && NodesAfter(before, after, pos)
      ensures turn < |start| && before.nodes[pos] == start[turn] && Next(before, after).On(after)
      ensures before.At(pos + 1) == after.At(Next(before, after).pos)
      ensures ids[turn] == before.nodes[pos].id && start[..turn] + [before.nodes[pos]] == start[..turn + 1]
    {
      assert before.nodes[pos..][0] == start[turn..][0];
      assert before.nodes[pos + 1..] == before.nodes[pos..][1..] == start[turn + 1..];
      if after.nodes != before.nodes {
        assert after.nodes[pos..] == before.nodes[pos + 1..];
      }
    }
  }

  lemma StartOfWalk(list: ClientList)
    requires list.Valid()
    ensures |list.book.nodes| == |list.book.w.clients|
    ensures Walk(list.book.nodes, Ids(list.book.w.clients), 0, 0).On(list.book)
    ensures list.firstclient == list.book.At(0)
  {
  }

  lemma WalkStep(w: S.World, ids: seq<nat>, turn: nat, i: nat, now: int, cfg: Config, env: S.Environment)
    requires turn < |ids| && i < |w.clients| && FirstIndex(w.clients, ById(ids[turn])) == i
    ensures S.PassWalk(w, ids[turn..], now, cfg, env)
            == S.PassWalk(S.PassTurn(w, i, now, cfg, env), ids[turn + 1..], now, cfg, env)
  {
    hide S.PassTurn;
    assert ids[turn..][1..] == ids[turn + 1..] && ids[turn..][0] == ids[turn];
  }

  lemma DeauthWalkStep(w: S.World, ids: seq<nat>, turn: nat, i: nat)
    requires turn < |ids| && i < |w.clients| && FirstIndex(w.clients, ById(ids[turn])) == i
    ensures S.DeauthIds(w, ids[turn..]) == S.DeauthIds(S.Deauth(w, i).0, ids[turn + 1..])
  {
    hide S.Deauth;
    assert ids[turn..][1..] == ids[turn + 1..] && ids[turn..][0] == ids[turn];
  }

  lemma NextInWalk(list: ClientList, i: nat)
    requires list.Valid() && list.book.At(i) != null
    ensures i < |list.book.nodes| && list.book.nodes[i].next == list.book.At(i + 1)
    ensures list.book.nodes[i] in list.book.alloc.Values
    ensures FirstIndex(list.book.w.clients, ById(list.book.nodes[i].id)) == i < |list.book.w.clients|
  {
    hide ClientList.Valid;
    list.Searched(i);
    PositionOf(list, i);
  }

  lemma EndOfWalk(list: ClientList, walk: Walk)
    requires walk.On(list.book) && list.book.At(walk.pos) == null
    ensures walk.pos == |list.book.nodes|
  {
  }

  lemma FoundAgain(list: ClientList, i: nat, found: Client?)
    requires list.Valid() && i < |list.book.nodes|
    requires list.book.Found(found, FirstIndex(list.book.w.clients, ById(list.book.nodes[i].id)))
    ensures found == list.book.nodes[i]
  {
    hide ClientList.Valid;
    PositionOf(list, i);
  }

  /** One iteration of the pass. The client is looked up again by its id; the lookup always succeeds, so the
      re-validation never skips a client. */
  method VisitInPass(list: ClientList, cp1: Client, ghost visited: seq<Client>, ghost walk: Walk, now: int,
                     env: S.Environment)
    returns (cp2: Client?, ghost visited': seq<Client>, ghost next: Walk)
    requires list.Valid() && walk.On(list.book) && walk.Within()
    requires cp1 == list.book.At(walk.pos) && visited == walk.start[..walk.turn]
    modifies list, list.book.alloc.Values
    ensures list.Valid() && next.On(list.book) && next.Within()
            && next == Walk(walk.start, walk.ids, walk.turn + 1, next.pos)
    ensures cp2 == list.book.At(next.pos) && visited' == next.start[..next.turn]
    ensures S.PassWalk(list.book.w, next.ids[next.turn..], now, list.cfg, env)
            == S.PassWalk(old(list.book).w, walk.ids[walk.turn..], now, list.cfg, env)
    ensures list.book.alloc.Values <= old(list.book).alloc.Values
  {
    hide ClientList.Valid, S.PassTurn, S.PassWalk, Walk.On;
    ghost var before := list.book;
    NextInWalk(list, walk.pos);
    cp2 := cp1.next;
    var found := list.FindById(cp1.id);
    FoundAgain(list, walk.pos, found);
    PassTurn(list, found, walk.pos, now, env);
    walk.Advanced(before, list.book);
    WalkStep(before.w, walk.ids, walk.turn, walk.pos, now, list.cfg, env);
    visited', next := visited + [found], walk.Next(before, list.book);
  }

  /** The locked part of `fw_refresh_client_list`. Every node of the starting list is visited exactly once, in
      order; only nodes that are still allocated are touched. */
  method RefreshClientList(list: ClientList, now: int, snap: Snapshot, env: S.Environment)
    returns (ok: bool, ghost visited: seq<Client>)
    requires list.Valid()
    modifies list, list.book.alloc.Values
    ensures list.Valid()
    ensures list.book.w == S.Pass(old(list.book).w, now, snap, list.cfg, env)
    ensures ok == S.RefreshWorld(old(list.book).w, snap).1
    ensures visited == if ok then old(list.book).nodes else []
    ensures list.book.alloc.Values <= old(list.book).alloc.Values
  {
    hide ClientList.Valid, S.PassTurn, S.RefreshWorld, Walk.On, NodesAfter, Walk.Next;
    visited := [];
    ok := list.CountersUpdate(snap);
    if !ok {
      return;
    }
    StartOfWalk(list);
    ghost var walk := Walk(list.book.nodes, Ids(list.book.w.clients), 0, 0);
    var cp1 := list.firstclient;
    while cp1 != null
      invariant list.Valid() && walk.On(list.book) && walk.Within()
      invariant cp1 == list.book.At(walk.pos) && visited == walk.start[..walk.turn]
      invariant walk.start == old(list.book).nodes && list.book.alloc.Values <= old(list.book).alloc.Values
      invariant S.PassWalk(list.book.w, walk.ids[walk.turn..], now, list.cfg, env)
                == S.Pass(old(list.book).w, now, snap, list.cfg, env)
      decreases |walk.start| - walk.turn
    {
      cp1, visited, walk := VisitInPass(list, cp1, visited, walk, now, env);
    }
    assert walk.pos == |list.book.nodes| by {
      EndOfWalk(list, walk);
    }
    walk.Finished(list.book);
  }

  method VisitInDeauth(list: ClientList, cp1: Client, ghost visited: seq<Client>, ghost walk: Walk)
    returns (cp2: Client?, ghost visited': seq<Client>, ghost next: Walk)
    requires list.Valid() && walk.On(list.book) && walk.Within()
    requires cp1 == list.book.At(walk.pos) && visited == walk.start[..walk.turn]
    modifies list, list.book.alloc.Values
    ensures list.Valid() && next.On(list.book) && next.Within()
            && next == Walk(walk.start, walk.ids, walk.turn + 1, next.pos)
    ensures cp2 == list.book.At(next.pos) && visited' == next.start[..next.turn]
    ensures S.DeauthIds(list.book.w, next.ids[next.turn..]) == S.DeauthIds(old(list.book).w, walk.ids[walk.turn..])
    ensures list.book.alloc.Values <= old(list.book).alloc.Values
  {
    hide ClientList.Valid, S.Deauth, S.DeauthIds, Walk.On;
    ghost var before := list.book;
    NextInWalk(list, walk.pos);
    cp2 := cp1.next;
    var found := list.FindById(cp1.id);
    FoundAgain(list, walk.pos, found);
    var rc := Deauth(list, found, walk.pos);
    walk.Advanced(before, list.book);
    DeauthWalkStep(before.w, walk.ids, walk.turn, walk.pos);
    visited', next := visited + [found], walk.Next(before, list.book);
  }

  /** `auth_client_deauth_all` */
  method DeauthAll(list: ClientList) returns (ghost visited: seq<Client>)
    requires list.Valid()
    modifies list, list.book.alloc.Values
    ensures list.Valid() && list.book.w == S.DeauthAll(old(list.book).w)
    ensures visited == old(list.book).nodes
    ensures list.book.alloc.Values <= old(list.book).alloc.Values
  {
    hide ClientList.Valid, S.Deauth, Walk.On, NodesAfter, Walk.Next;
    visited := [];
    StartOfWalk(list);
    ghost var walk := Walk(list.book.nodes, Ids(list.book.w.clients), 0, 0);
    var cp1 := list.firstclient;
    while cp1 != null
      invariant list.Valid() && walk.On(list.book) && walk.Within()
      invariant cp1 == list.book.At(walk.pos) && visited == walk.start[..walk.turn]
      invariant walk.start == old(list.book).nodes && list.book.alloc.Values <= old(list.book).alloc.Values
      invariant S.DeauthIds(list.book.w, walk.ids[walk.turn..]) == S.DeauthAll(old(list.book).w)
      decreases |walk.start| - walk.turn
    {
      cp1, visited, walk := VisitInDeauth(list, cp1, visited, walk);
    }
    assert walk.pos == |list.book.nodes| by {
      EndOfWalk(list, walk);
    }
    walk.Finished(list.book);
  }
}
