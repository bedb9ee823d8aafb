/** The slot accounting of thread_ndsctl in ndsctl_thread.c. */
module ControlSocket {
  import opened Basics

  const MAX_EVENT_SIZE := 30

  /** One event of epoll_wait, with what the system calls made for it answer: the accepted descriptor, whether it
      could be added to the epoll set, whether the listen socket could be put back, and whether the command asks
      the thread to stop. */
  datatype Event = Event(fd: int, ready: bool, accepted: Option<int>, added: bool, resumed: bool, stop: bool)

  /** The two descriptors the thread starts with; -1 when there is no shutdown pipe. */
  datatype Fds = Fds(sock: int, shutdown: int)

  /** The counter, the flag, the open control connections, and whether the thread is still in its loop. */
  datatype Slots = Slots(count: int, accepting: bool, open: set<int>, running: bool)

  const START := Slots(1, true, {}, true)

  /** A slot has become free: accept again if the thread had stopped to. */
  function Released(s: Slots, resumed: bool): Slots {
    if s.accepting || s.count >= MAX_EVENT_SIZE then s
    else if resumed then s.(accepting := true)
    else s.(running := false)
  }

  function Failed(s: Slots, e: Event, fds: Fds): Slots {
    var closed := if e.fd > 0 then s.(open := s.open - {e.fd}) else s;
    if e.fd > 0 && e.fd != fds.sock && s.count > 1 then Released(closed.(count := s.count - 1), e.resumed) else closed
  }

  function Accepted(s: Slots, e: Event): Slots {
    if s.count >= MAX_EVENT_SIZE then s.(accepting := false)
    else if e.accepted.None? || !e.added then s.(running := false)
    else
      var count := s.count + 1;
      Slots(count, s.accepting && count < MAX_EVENT_SIZE, s.open + {e.accepted.value}, true)
  }

  function Served(s: Slots, e: Event): Slots {
    if e.stop then s.(open := s.open - {e.fd}, running := false)
    else Released(s.(count := s.count - 1, open := s.open - {e.fd}), e.resumed)
  }

  function Step(s: Slots, e: Event, fds: Fds): Slots {
    if !s.running then s
    else if e.fd == fds.shutdown then s.(running := false)
    else if !e.ready then Failed(s, e, fds)
    else if e.fd == fds.sock then Accepted(s, e)
    else Served(s, e)
  }

  function Steps(s: Slots, events: seq<Event>, fds: Fds): Slots {
    if events == [] then s else Step(Steps(s, events[..|events| - 1], fds), events[|events| - 1], fds)
  }

  /** The room offered to epoll_wait: the counter, clipped to the array. */
  function Room(s: Slots): int {
    Max(1, Min(s.count, MAX_EVENT_SIZE))
  }

  // ---- the thread -------------------------------------------------------------------------------

  class Thread {
    const fds: Fds
    var currentFdCount: int
    var accepting: bool
    var running: bool
    ghost var open: set<int>

    ghost function State(): Slots
      reads this
    {
      Slots(currentFdCount, accepting, open, running)
    }

    constructor (fds: Fds)
      ensures State() == START && this.fds == fds
    {
      this.fds := fds;
      currentFdCount := 1;
      accepting := true;
      running := true;
      open := {};
    }

    /** The clipping before epoll_wait. */
    method MaxEvents() returns (maxevents: int)
      ensures maxevents == Room(State()) && 1 <= maxevents <= MAX_EVENT_SIZE
      ensures 1 <= currentFdCount <= MAX_EVENT_SIZE ==> maxevents == currentFdCount
    {
      maxevents := currentFdCount;
      if maxevents > MAX_EVENT_SIZE {
        maxevents := MAX_EVENT_SIZE;
      }
      if maxevents < 1 {
        maxevents := 1;
      }
    }

    method Resume(resumed: bool)
      modifies this
      ensures State() == Released(old(State()), resumed)
    {
      if !accepting && currentFdCount < MAX_EVENT_SIZE {
        if resumed {
          accepting := true;
        } else {
          running := false;
        }
      }
    }

    method OnFailed(events: array<Event>, i: nat)
      requires i < events.Length && running
      modifies this, events
      ensures State() == Failed(old(State()), old(events[i]), fds)
      ensures events[..] == old(events[..])[i := old(events[i]).(fd := if old(events[i].fd) > 0 then 0
                                                                 else old(events[i].fd))]
    {
      var e := events[i];
      var dead := e.fd;
      if dead > 0 {
        open := open - {dead};
        events[i] := e.(fd := 0);
      }
      if dead > 0 && dead != fds.sock && currentFdCount > 1 {
        currentFdCount := currentFdCount - 1;
        Resume(e.resumed);
      }
    }

    method OnAccept(e: Event)
      requires running
      modifies this
      ensures State() == Accepted(old(State()), e)
    {
      if currentFdCount >= MAX_EVENT_SIZE {
        if accepting {
          accepting := false;
        }
        return;
      }
      if e.accepted.None? || !e.added {
        running := false;
        return;
      }
      open := open + {e.accepted.value};
      currentFdCount := currentFdCount + 1;
      if currentFdCount >= MAX_EVENT_SIZE {
        accepting := false;
      }
    }

    method OnCommand(events: array<Event>, i: nat)
      requires i < events.Length && running
      modifies this, events
      ensures State() == Served(old(State()), old(events[i]))
      ensures forall j :: 0 <= j < events.Length && j != i ==> events[j] == old(events[j])
    {
      var e := events[i];
      open := open - {e.fd};
      if e.stop {
        running := false;
        return;
      }
      currentFdCount := currentFdCount - 1;
      if events[i].fd > 0 {
        events[i] := e.(fd := 0);
      }
      Resume(e.resumed);
    }

    method OnEvent(events: array<Event>, i: nat)
      requires i < events.Length && running
      modifies this, events
      ensures State() == Step(old(State()), old(events[i]), fds)
      ensures forall j :: 0 <= j < events.Length && j != i ==> events[j] == old(events[j])
    {
      var e := events[i];
      if e.fd == fds.shutdown {
        running := false;
      } else if !e.ready {
        OnFailed(events, i);
      } else if e.fd == fds.sock {
        OnAccept(e);
      } else {
        OnCommand(events, i);
      }
    }

    /** The loop over one batch; the thread leaves it at once when it stops. */
    method OnBatch(events: array<Event>, n: nat)
      requires n <= events.Length && running
      modifies this, events
      ensures State() == Steps(old(State()), old(events[..n]), fds)
    {
      ghost var batch := events[..n];
      var i := 0;
      while i < n && running
        invariant i <= n && State() == Steps(old(State()), batch[..i], fds)
        invariant forall j :: i <= j < n ==> events[j] == batch[j]
      {
        assert batch[..i + 1][..i] == batch[..i];
        OnEvent(events, i);
        i := i + 1;
      }
      StoppedStays(old(State()), batch, i, fds);
      assert batch[..n] == batch;
    }
  }

  lemma {:induction false} StoppedStays(s: Slots, events: seq<Event>, i: nat, fds: Fds)
    requires i <= |events|
    ensures i == |events| || !Steps(s, events[..i], fds).running ==> Steps(s, events, fds) == Steps(s, events[..i], fds)
    decreases |events|
  {
    if i < |events| {
      StoppedStays(s, events[..|events| - 1], i, fds);
      assert events[..|events| - 1][..i] == events[..i];
    } else {
      assert events[..i] == events;
    }
  }

  // ---- what every batch keeps -------------------------------------------------------------------

  /** Each open connection has a slot, the cap holds, and the thread accepts exactly while a slot is free. */
  predicate Accounted(s: Slots, fds: Fds) {
    && s.count == 1 + |s.open|
    && 1 <= s.count <= MAX_EVENT_SIZE
    && (s.accepting <==> s.count < MAX_EVENT_SIZE)
    && fds.sock !in s.open && fds.shutdown !in s.open
    && forall fd :: fd in s.open ==> fd > 0
  }

  /** What the kernel promises of one event: it is about a watched descriptor, and an accepted one is new. */
  predicate Plausible(s: Slots, e: Event, fds: Fds) {
    && (e.fd in s.open || e.fd == fds.sock || e.fd == fds.shutdown)
    && (e.accepted.Some? ==> e.accepted.value > 0 && e.accepted.value !in s.open
                             && e.accepted.value != fds.sock && e.accepted.value != fds.shutdown)
  }

  lemma StepAccounted(s: Slots, e: Event, fds: Fds)
    requires Accounted(s, fds) && Plausible(s, e, fds) && s.running
    ensures Step(s, e, fds).running ==> Accounted(Step(s, e, fds), fds)
  {
  }

  /** A batch: no descriptor twice, every one watched when epoll_wait returned, and every accepted one new at its
      turn. */
  predicate Batch(s: Slots, events: seq<Event>, fds: Fds) {
    && (forall i, j :: 0 <= i < j < |events| ==> events[i].fd != events[j].fd)
    && (forall i :: 0 <= i < |events| ==>
          events[i].fd in s.open || events[i].fd == fds.sock || events[i].fd == fds.shutdown)
    && forall i :: 0 <= i < |events| ==> NewAt(s, events, i, fds)
  }

  predicate NewAt(s: Slots, events: seq<Event>, i: nat, fds: Fds)
    requires i < |events|
  {
    var t := Steps(s, events[..i], fds);
    events[i].accepted.Some? ==>
      var fd := events[i].accepted.value;
      fd > 0 && fd !in t.open && fd != fds.sock && fd != fds.shutdown
  }

  /** An event closes no descriptor but its own. */
  lemma {:induction false} StillOpen(s: Slots, events: seq<Event>, fd: int, fds: Fds)
    requires fd in s.open && forall i :: 0 <= i < |events| ==> events[i].fd != fd
    ensures fd in Steps(s, events, fds).open
  {
    if events != [] {
      StillOpen(s, events[..|events| - 1], fd, fds);
    }
  }

  /** After every event of a batch the accounting is exact, unless the thread has stopped. */
  lemma {:induction false} BatchAccounted(s: Slots, events: seq<Event>, k: nat, fds: Fds)
    requires Accounted(s, fds) && s.running && Batch(s, events, fds) && k <= |events|
    ensures var t := Steps(s, events[..k], fds); t.running ==> Accounted(t, fds)
  {
    if k > 0 {
      BatchAccounted(s, events, k - 1, fds);
      assert events[..k][..k - 1] == events[..k - 1];
      var t, e := Steps(s, events[..k - 1], fds), events[k - 1];
      if t.running {
        if e.fd in s.open {
          StillOpen(s, events[..k - 1], e.fd, fds);
        }
        assert NewAt(s, events, k - 1, fds);
        StepAccounted(t, e, fds);
      }
    }
  }

  // ---- when the thread goes on ------------------------------------------------------------------

  /** The events that end the thread: the shutdown pipe; a command that asks it to stop; a new connection below the cap
      that cannot be accepted or watched; and the end of a connection at the cap, when the listen socket cannot be put
      back. */
  predicate Ends(s: Slots, e: Event, fds: Fds) {
    || e.fd == fds.shutdown
    || (e.ready && e.fd != fds.sock && e.stop)
    || (e.ready && e.fd == fds.sock && s.count < 30 && (e.accepted.None? || !e.added))
    || (e.fd in s.open && !(e.ready && e.stop) && s.count == 30 && !e.resumed)
  }

  /** The connections open after an event that does not end the thread. */
  function OpenAfter(s: Slots, e: Event, fds: Fds): set<int> {
    if e.fd != fds.sock then s.open - {e.fd}
    else if e.ready && s.count < 30 && e.accepted.Some? then s.open + {e.accepted.value}
    else s.open
  }

  /** From an accounted state the thread goes on if and only if the event is none of those, and then exactly the
      connection of the event is closed, or the new one is open. */
  lemma GoesOn(s: Slots, e: Event, fds: Fds)
    requires Accounted(s, fds) && Plausible(s, e, fds) && s.running
    ensures Step(s, e, fds).running <==> !Ends(s, e, fds)
    ensures Step(s, e, fds).running ==> Accounted(Step(s, e, fds), fds) && Step(s, e, fds).open == OpenAfter(s, e, fds)
  {
    StepAccounted(s, e, fds);
    if e.fd in s.open {
      assert |s.open| >= 1;
      Counted(s.open, e.fd);
    }
  }

  lemma Counted(open: set<int>, fd: int)
    requires fd in open
    ensures |open - {fd}| == |open| - 1
  {
  }

  /** No event of the batch ends the thread. */
  predicate Calm(s: Slots, events: seq<Event>, fds: Fds) {
    forall k :: 0 <= k < |events| ==> !Ends(Steps(s, events[..k], fds), events[k], fds)
  }

  lemma {:induction false} CalmBatch(s: Slots, events: seq<Event>, k: nat, fds: Fds)
    requires Accounted(s, fds) && s.running && Batch(s, events, fds) && Calm(s, events, fds) && k <= |events|
    ensures var t := Steps(s, events[..k], fds); t.running && Accounted(t, fds)
  {
    hide Ends, Accounted;
    if k > 0 {
      CalmBatch(s, events, k - 1, fds);
      assert events[..k][..k - 1] == events[..k - 1];
      var t, e := Steps(s, events[..k - 1], fds), events[k - 1];
      if e.fd in s.open {
        StillOpen(s, events[..k - 1], e.fd, fds);
      }
      assert NewAt(s, events, k - 1, fds);
      GoesOn(t, e, fds);
    }
  }

  // ---- runs -------------------------------------------------------------------------------------

  function Run(batches: seq<seq<Event>>, fds: Fds): Slots {
    if batches == [] then START else Steps(Run(batches[..|batches| - 1], fds), batches[|batches| - 1], fds)
  }

  /** Every batch is what the kernel can report in the state it finds. */
  predicate Possible(batches: seq<seq<Event>>, fds: Fds) {
    forall i :: 0 <= i < |batches| ==> Batch(Run(batches[..i], fds), batches[i], fds)
  }

  lemma {:induction false} BatchesAccounted(batches: seq<seq<Event>>, fds: Fds)
    requires Possible(batches, fds)
    ensures Run(batches, fds).running ==> Accounted(Run(batches, fds), fds)
  {
    if batches != [] {
      var n := |batches| - 1;
      forall i | 0 <= i < n
        ensures Batch(Run(batches[..n][..i], fds), batches[..n][i], fds)
      {
        assert batches[..n][..i] == batches[..i];
        assert Batch(Run(batches[..i], fds), batches[i], fds);
      }
      BatchesAccounted(batches[..n], fds);
      assert Batch(Run(batches[..n], fds), batches[n], fds);
      var s := Run(batches[..n], fds);
      if s.running {
        BatchAccounted(s, batches[n], |batches[n]|, fds);
        assert batches[n][..|batches[n]|] == batches[n];
      } else {
        StoppedStays(s, batches[n], 0, fds);
      }
    }
  }

  lemma PossibleBefore(batches: seq<seq<Event>>, b: nat, fds: Fds)
    requires Possible(batches, fds) && b <= |batches|
    ensures Possible(batches[..b], fds)
  {
    forall i | 0 <= i < b
      ensures Batch(Run(batches[..b][..i], fds), batches[..b][i], fds)
    {
      assert batches[..b][..i] == batches[..i];
    }
  }

  /** Over whole runs, while the thread runs. At each epoll_wait and after every event of every batch the counter is
      one more than the open connections and within 1..30, and the thread accepts exactly below the cap; and
      epoll_wait is offered the counter itself, so the clipping to the array never takes place. */
  lemma RunAccounted(batches: seq<seq<Event>>, b: nat, k: nat, fds: Fds)
    requires Possible(batches, fds) && b <= |batches|
    ensures var s := Run(batches[..b], fds);
            s.running ==> Accounted(s, fds) && Room(s) == s.count <= MAX_EVENT_SIZE
    ensures b < |batches| && k <= |batches[b]| ==>
              var t := Steps(Run(batches[..b], fds), batches[b][..k], fds);
              t.running ==> Accounted(t, fds)
  {
    hide Accounted, Steps, Run;
    PossibleBefore(batches, b, fds);
    BatchesAccounted(batches[..b], fds);
    var s := Run(batches[..b], fds);
    if s.running {
      AccountedRoom(s, fds);
    }
    if b < |batches| && k <= |batches[b]| {
      if s.running {
        assert Batch(s, batches[b], fds);
        BatchAccounted(s, batches[b], k, fds);
      } else {
        StoppedStays(s, batches[b][..k], 0, fds);
        NothingHappened(s, fds);
      }
    }
  }

  lemma AccountedRoom(s: Slots, fds: Fds)
    requires Accounted(s, fds)
    ensures Room(s) == s.count <= MAX_EVENT_SIZE
  {
  }

  lemma NothingHappened(s: Slots, fds: Fds)
    ensures Steps(s, [], fds) == s
  {
  }

  /** No event of the run ends the thread. */
  predicate CalmRun(batches: seq<seq<Event>>, fds: Fds) {
    forall b :: 0 <= b < |batches| ==> Calm(Run(batches[..b], fds), batches[b], fds)
  }

  /** So without those events the thread never stops: over whole runs it is running and accounted for, at each
      epoll_wait and after every event of every batch. */
  lemma {:induction false} RunsOn(batches: seq<seq<Event>>, b: nat, k: nat, fds: Fds)
    requires Possible(batches, fds) && CalmRun(batches, fds) && b <= |batches|
    ensures Run(batches[..b], fds).running && Accounted(Run(batches[..b], fds), fds)
    ensures b < |batches| && k <= |batches[b]| ==>
              var t := Steps(Run(batches[..b], fds), batches[b][..k], fds);
              t.running && Accounted(t, fds)
    decreases b
  {
    hide Accounted, Steps, Calm, Batch;
    if b == 0 {
      assert Run(batches[..0], fds) == START;
      StartAccounted(fds);
    } else {
      var s := Run(batches[..b - 1], fds);
      RunsOn(batches, b - 1, 0, fds);
      assert batches[..b][..b - 1] == batches[..b - 1];
      assert Batch(s, batches[b - 1], fds) && Calm(s, batches[b - 1], fds);
      CalmBatch(s, batches[b - 1], |batches[b - 1]|, fds);
      assert batches[b - 1][..|batches[b - 1]|] == batches[b - 1];
    }
    if b < |batches| && k <= |batches[b]| {
      assert Batch(Run(batches[..b], fds), batches[b], fds) && Calm(Run(batches[..b], fds), batches[b], fds);
      CalmBatch(Run(batches[..b], fds), batches[b], k, fds);
    }
  }

  lemma StartAccounted(fds: Fds)
    ensures Accounted(START, fds) && START.running
  {
  }
}
