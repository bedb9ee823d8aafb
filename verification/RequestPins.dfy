/** Only requests pin: what each critical section does to the pins. */
module RequestPins {
  import opened Basics
  import opened Clients
  import opened CounterRefresh
  import opened Session

  predicate Pins(op: Op) {
    op.FindAndPinOp? || op.AddPinnedOp? || op.UnpinOp?
  }

  lemma ChangePins(w: World, i: nat, target: Mark, inp: ChangeInput, cfg: Config)
    requires i < |w.clients|
    ensures ChangeState(w, i, target, inp, cfg).0.pins == w.pins && Deauth(w, i).0.pins == w.pins
  {
    hide Refresh, Granted, AuthDownload, AuthUpload, BlockDownload, BlockUpload;
  }

  lemma ThrottlePins(w: World, i: nat, dir: Direction, inp: ChangeInput, cfg: Config)
    requires i < |w.clients|
    ensures Throttle(w, i, dir, inp, cfg).pins == w.pins
  {
    hide ChangeState;
    ChangePins(Put(w, i, Cell(WithRate(w.clients[i], dir, ThrottleRate(cfg, dir)), w.fw)), i, AuthBlocked, inp, cfg);
  }

  lemma LateTurnPins(w: World, i: nat, c: ClientInfo, now: int, cfg: Config, env: Environment)
    requires i < |w.clients|
    ensures LateTurn(w, i, c, now, cfg, env).pins == w.pins
  {
    hide ChangeState, Deauth, Throttle, CheckRates;
    var inp := env(c.id, Upload);
    ChangePins(w, i, AuthBlocked, inp, cfg);
    ThrottlePins(w, i, Upload, inp, cfg);
    ChangePins(Throttle(w, i, Upload, inp, cfg), i, AuthBlocked, inp, cfg);
  }

  lemma TurnPins(w: World, i: nat, now: int, cfg: Config, env: Environment)
    requires i < |w.clients|
    ensures PassTurn(w, i, now, cfg, env).pins == w.pins
  {
    hide ChangeState, Deauth, Throttle, LateTurn;
    var c := w.clients[i];
    var inp := env(c.id, Download);
    ChangePins(w, i, AuthBlocked, inp, cfg);
    ThrottlePins(w, i, Download, inp, cfg);
    LateTurnPins(Throttle(w, i, Download, inp, cfg), i, c, now, cfg, env);
  }

  lemma {:induction false} WalkPins(w: World, ids: seq<nat>, now: int, cfg: Config, env: Environment)
    ensures PassWalk(w, ids, now, cfg, env).pins == w.pins
    decreases |ids|
  {
    hide PassTurn;
    if ids != [] {
      var i := FirstIndex(w.clients, ById(ids[0]));
      if i < |w.clients| {
        TurnPins(w, i, now, cfg, env);
      }
      WalkPins(PassClient(w, ids[0], now, cfg, env), ids[1..], now, cfg, env);
    }
  }

  lemma {:induction false} DeauthIdsPins(w: World, ids: seq<nat>)
    ensures DeauthIds(w, ids).pins == w.pins
    decreases |ids|
  {
    if ids != [] {
      DeauthIdsPins(DeauthClient(w, ids[0]).0, ids[1..]);
    }
  }

  lemma AuthPins(w: World, id: nat, inp: ChangeInput, cfg: Config)
    ensures AuthClient(w, id, inp, cfg).0.pins == w.pins
  {
    hide ChangeState;
    var i := FirstIndex(w.clients, ById(id));
    if i < |w.clients| {
      ChangePins(w, i, Authenticated, inp, cfg);
    }
  }

  /** A critical section that is no request for a pin or the return of one leaves the pins alone. */
  lemma StepPins(w: World, op: Op, cfg: Config)
    requires !Pins(op)
    ensures Step(w, op, cfg).pins == w.pins
  {
    hide ChangeState, Deauth, PassWalk, DeauthIds, AuthClient, Refresh, Cleared, WithPreset;
    match op
    case AuthOp(id, inp) => AuthPins(w, id, inp, cfg);
    case ControlAuthOp(id, preset, inp) =>
      var i := FirstIndex(w.clients, ById(id));
      if i < |w.clients| {
        AuthPins(Put(w, i, Cell(WithPreset(w.clients[i], preset), w.fw)), id, inp, cfg);
      }
    case DeauthOp(id) =>
      var i := FirstIndex(w.clients, ById(id));
      if i < |w.clients| {
        ChangePins(w, i, Preauthenticated, ChangeInput(0, 0, None, Snapshot(None, None, 0)), cfg);
      }
    case DeauthAllOp => DeauthIdsPins(w, Ids(w.clients));
    case PassOp(now, snap, env) =>
      var u := RefreshWorld(w, snap).0;
      WalkPins(u, Ids(u.clients), now, cfg, env);
    case _ =>
  }

  lemma UnpinPins(w: World, id: nat)
    requires id in w.refs
    ensures Unpin(w, id).pins == w.pins - multiset{id}
  {
  }
}
