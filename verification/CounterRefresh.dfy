/** The refresh of the byte and packet counters from a firewall snapshot. */
module CounterRefresh {
  import opened Basics
  import opened Clients

  /** One accounting line of ndsOUT or ndsINC that carries the authentication mark and a valid address. */
  datatype Line = Line(ip: string, packets: U64, bytes: U64)

  /** The two listings one refresh reads, at time `at`. None is a listing that could not be started. */
  datatype Snapshot = Snapshot(outgoing: Option<seq<Line>>, incoming: Option<seq<Line>>, at: int)

  function CountOutgoing(k: Counters, line: Line, at: int): Counters {
    if k.outgoing < line.bytes then
      k.(outgoingPrevious := k.outgoing, outgoing := line.bytes,
         outpacketsPrevious := k.outpackets, outpackets := line.packets, lastUpdated := at)
    else k
  }

  function CountIncoming(k: Counters, line: Line): Counters {
    if k.incoming < line.bytes then
      k.(incomingPrevious := k.incoming, incoming := line.bytes,
         inpacketsPrevious := k.inpackets, inpackets := line.packets)
    else k
  }

  function Count(k: Counters, dir: Direction, line: Line, at: int): Counters {
    match dir
    case Upload => CountOutgoing(k, line, at)
    case Download => CountIncoming(k, line)
  }

  /** One line goes to the first client with its address. */
  function ApplyLine(cs: seq<ClientInfo>, dir: Direction, line: Line, at: int): (r: seq<ClientInfo>)
    ensures |r| == |cs|
    ensures forall i :: 0 <= i < |cs| ==> r[i] == cs[i].(counters := r[i].counters)
  {
    var i := FirstIndex(cs, ByIp(line.ip));
    if line.ip == "0.0.0.0" || i == |cs| then cs
    else cs[i := cs[i].(counters := Count(cs[i].counters, dir, line, at))]
  }

  /** A whole listing, read from its first line to its last. */
  function ApplyLines(cs: seq<ClientInfo>, dir: Direction, lines: seq<Line>, at: int): (r: seq<ClientInfo>)
    ensures |r| == |cs|
    ensures forall i :: 0 <= i < |cs| ==> r[i] == cs[i].(counters := r[i].counters)
  {
    if lines == [] then cs
    else ApplyLine(ApplyLines(cs, dir, lines[..|lines| - 1], at), dir, lines[|lines| - 1], at)
  }

  /** The whole refresh. When only the second listing fails, the first has been applied already. */
  function Refresh(cs: seq<ClientInfo>, snap: Snapshot): (r: (seq<ClientInfo>, bool))
    ensures |r.0| == |cs|
    ensures forall i :: 0 <= i < |cs| ==> r.0[i] == cs[i].(counters := r.0[i].counters)
  {
    if snap.outgoing.None? then (cs, false)
    else
      var sent := ApplyLines(cs, Upload, snap.outgoing.value, snap.at);
      if snap.incoming.None? then (sent, false)
      else (ApplyLines(sent, Download, snap.incoming.value, snap.at), true)
  }

  // ---- properties -----------------------------------------------------------------------------

  /** Neither direction's previous value or window start is ahead of its total. */
  predicate CountersOk(k: Counters) {
    && k.incomingPrevious <= k.incoming && k.inWindowStart <= k.incoming
    && k.outgoingPrevious <= k.outgoing && k.outWindowStart <= k.outgoing
  }

  function Bytes(k: Counters, dir: Direction): U64 {
    match dir
    case Upload => k.outgoing
    case Download => k.incoming
  }

  /** The largest byte count the listing has for an address, or `floor` when that is larger. */
  function LargestFor(lines: seq<Line>, ip: string, floor: U64): U64 {
    if lines == [] then floor
    else
      var last := lines[|lines| - 1];
      var before := LargestFor(lines[..|lines| - 1], ip, floor);
      if last.ip == ip && before < last.bytes then last.bytes else before
  }

  predicate SameWindowStart(k: Counters, k': Counters) {
    k.inWindowStart == k'.inWindowStart && k.outWindowStart == k'.outWindowStart
  }

  lemma CountMax(k: Counters, dir: Direction, line: Line, at: int)
    ensures var k' := Count(k, dir, line, at);
            && Bytes(k', dir) == Max(Bytes(k, dir), line.bytes)
            && Bytes(k', Other(dir)) == Bytes(k, Other(dir))
            && SameWindowStart(k, k')
            && (CountersOk(k) ==> CountersOk(k'))
  {
  }

  /** A line reaches the client at i exactly when it is the first with the line's address. */
  predicate Reaches(cs: seq<ClientInfo>, line: Line, i: nat)
    requires i < |cs|
  {
    line.ip == cs[i].ip && FirstIndex(cs, ByIp(cs[i].ip)) == i && cs[i].ip != "0.0.0.0"
  }

  lemma ApplyLineAt(cs: seq<ClientInfo>, dir: Direction, line: Line, at: int, i: nat)
    requires i < |cs|
    ensures ApplyLine(cs, dir, line, at)[i].counters
            == if Reaches(cs, line, i) then Count(cs[i].counters, dir, line, at) else cs[i].counters
  {
    if line.ip != cs[i].ip {
      var f := FirstIndex(cs, ByIp(line.ip));
      assert f == |cs| || f != i;
    }
  }

  /** Every client's counters after a listing: the first client with each address takes the maximum
      of its old value and all lines for that address; every other client, and the other
      direction, keeps what it had. */
  lemma {:induction false} ApplyLinesMax(cs: seq<ClientInfo>, dir: Direction, lines: seq<Line>, at: int, i: nat)
    requires i < |cs|
    ensures var k, k' := cs[i].counters, ApplyLines(cs, dir, lines, at)[i].counters;
            && Bytes(k', dir)
               == (if FirstIndex(cs, ByIp(cs[i].ip)) == i && cs[i].ip != "0.0.0.0"
                   then LargestFor(lines, cs[i].ip, Bytes(k, dir)) else Bytes(k, dir))
            && Bytes(k', Other(dir)) == Bytes(k, Other(dir))
            && SameWindowStart(k, k')
  {
    if lines != [] {
      var before := ApplyLines(cs, dir, lines[..|lines| - 1], at);
      ApplyLinesMax(cs, dir, lines[..|lines| - 1], at, i);
      assert SameIdentities(cs, before);
      FirstIndexSame(cs, before, ByIp(cs[i].ip));
      ApplyLineAt(before, dir, lines[|lines| - 1], at, i);
      CountMax(before[i].counters, dir, lines[|lines| - 1], at);
    }
  }

  function Other(dir: Direction): Direction {
    if dir == Upload then Download else Upload
  }

  lemma {:induction false} ApplyLinesOk(cs: seq<ClientInfo>, dir: Direction, lines: seq<Line>, at: int)
    requires forall i :: 0 <= i < |cs| ==> CountersOk(cs[i].counters)
    ensures forall i :: 0 <= i < |cs| ==> CountersOk(ApplyLines(cs, dir, lines, at)[i].counters)
  {
    if lines != [] {
      ApplyLinesOk(cs, dir, lines[..|lines| - 1], at);
    }
  }

  lemma RefreshOk(cs: seq<ClientInfo>, snap: Snapshot)
    requires forall i :: 0 <= i < |cs| ==> CountersOk(cs[i].counters)
    ensures forall i :: 0 <= i < |cs| ==> CountersOk(Refresh(cs, snap).0[i].counters)
  {
    if snap.outgoing.Some? {
      ApplyLinesOk(cs, Upload, snap.outgoing.value, snap.at);
      if snap.incoming.Some? {
        ApplyLinesOk(ApplyLines(cs, Upload, snap.outgoing.value, snap.at), Download, snap.incoming.value, snap.at);
      }
    }
  }

  /** A client no line of the listing can still change. */
  predicate AbsorbedLines(c: ClientInfo, dir: Direction, lines: seq<Line>) {
    || c.ip == "0.0.0.0"
    || forall j :: 0 <= j < |lines| && lines[j].ip == c.ip ==> lines[j].bytes <= Bytes(c.counters, dir)
  }

  predicate Absorbed(c: ClientInfo, snap: Snapshot) {
    && (snap.outgoing.Some? ==> AbsorbedLines(c, Upload, snap.outgoing.value))
    && (snap.incoming.Some? ==> AbsorbedLines(c, Download, snap.incoming.value))
  }

  lemma {:induction false} AbsorbedLinesNoChange(cs: seq<ClientInfo>, dir: Direction, lines: seq<Line>, at: int)
    requires forall i :: 0 <= i < |cs| ==> FirstIndex(cs, ByIp(cs[i].ip)) == i ==> AbsorbedLines(cs[i], dir, lines)
    ensures ApplyLines(cs, dir, lines, at) == cs
  {
    if lines != [] {
      AbsorbedLinesNoChange(cs, dir, lines[..|lines| - 1], at);
      var line := lines[|lines| - 1];
      var i := FirstIndex(cs, ByIp(line.ip));
      if line.ip != "0.0.0.0" && i < |cs| {
        assert AbsorbedLines(cs[i], dir, lines);
        assert cs[i].(counters := Count(cs[i].counters, dir, line, at)) == cs[i];
      }
    }
  }

  /** A snapshot every client has absorbed changes nothing, not even the activity time. */
  lemma AbsorbedNoChange(cs: seq<ClientInfo>, snap: Snapshot)
    requires forall i :: 0 <= i < |cs| ==> FirstIndex(cs, ByIp(cs[i].ip)) == i ==> Absorbed(cs[i], snap)
    ensures Refresh(cs, snap).0 == cs
  {
    if snap.outgoing.Some? {
      AbsorbedLinesNoChange(cs, Upload, snap.outgoing.value, snap.at);
      if snap.incoming.Some? {
        AbsorbedLinesNoChange(cs, Download, snap.incoming.value, snap.at);
      }
    }
  }

  lemma {:induction false} LargestForBounds(lines: seq<Line>, ip: string, floor: U64)
    ensures floor <= LargestFor(lines, ip, floor)
    ensures forall j :: 0 <= j < |lines| && lines[j].ip == ip ==> lines[j].bytes <= LargestFor(lines, ip, floor)
    ensures LargestFor(lines, ip, floor) == floor
            || exists j :: 0 <= j < |lines| && lines[j].ip == ip && lines[j].bytes == LargestFor(lines, ip, floor)
  {
    if lines != [] {
      LargestForBounds(lines[..|lines| - 1], ip, floor);
    }
  }

  /** The totals after a whole refresh, never smaller than before it. */
  lemma RefreshMax(cs: seq<ClientInfo>, snap: Snapshot, i: nat)
    requires i < |cs|
    requires snap.outgoing.Some? && snap.incoming.Some?
    ensures var k, k' := cs[i].counters, Refresh(cs, snap).0[i].counters;
            var first := FirstIndex(cs, ByIp(cs[i].ip)) == i && cs[i].ip != "0.0.0.0";
            && k'.outgoing == (if first then LargestFor(snap.outgoing.value, cs[i].ip, k.outgoing) else k.outgoing)
            && k'.incoming == (if first then LargestFor(snap.incoming.value, cs[i].ip, k.incoming) else k.incoming)
            && k.outgoing <= k'.outgoing && k.incoming <= k'.incoming
            && k'.inWindowStart == k.inWindowStart && k'.outWindowStart == k.outWindowStart
  {
    var sent := ApplyLines(cs, Upload, snap.outgoing.value, snap.at);
    ApplyLinesMax(cs, Upload, snap.outgoing.value, snap.at, i);
    ApplyLinesMax(sent, Download, snap.incoming.value, snap.at, i);
    assert SameIdentities(cs, sent);
    FirstIndexSame(cs, sent, ByIp(cs[i].ip));
    LargestForBounds(snap.outgoing.value, cs[i].ip, cs[i].counters.outgoing);
    LargestForBounds(snap.incoming.value, cs[i].ip, cs[i].counters.incoming);
  }

  /** After a successful refresh the first client with each address has absorbed the snapshot. */
  lemma RefreshAbsorbs(cs: seq<ClientInfo>, snap: Snapshot, i: nat)
    requires i < |cs|
    requires snap.outgoing.Some? && snap.incoming.Some?
    requires FirstIndex(cs, ByIp(cs[i].ip)) == i
    ensures Absorbed(Refresh(cs, snap).0[i], snap)
  {
    RefreshMax(cs, snap, i);
    LargestForBounds(snap.outgoing.value, cs[i].ip, cs[i].counters.outgoing);
    LargestForBounds(snap.incoming.value, cs[i].ip, cs[i].counters.incoming);
  }

  /** Refreshing twice from one snapshot is refreshing once. */
  lemma RefreshIdempotent(cs: seq<ClientInfo>, snap: Snapshot)
    requires snap.outgoing.Some? && snap.incoming.Some?
    ensures Refresh(Refresh(cs, snap).0, snap) == Refresh(cs, snap)
  {
    var ds := Refresh(cs, snap).0;
    assert SameIdentities(cs, ds);
    forall i | 0 <= i < |ds| && FirstIndex(ds, ByIp(ds[i].ip)) == i
      ensures Absorbed(ds[i], snap)
    {
      FirstIndexSame(cs, ds, ByIp(ds[i].ip));
      RefreshAbsorbs(cs, snap, i);
    }
    AbsorbedNoChange(ds, snap);
  }

  // ---- one client of a refresh ----------------------------------------------------------------

  /** No earlier client has the address of the one at i. */
  predicate FirstAt(cs: seq<ClientInfo>, i: nat)
    requires i < |cs|
  {
    FirstIndex(cs, ByIp(cs[i].ip)) == i
  }

  /** What a refresh makes of a client that is the first with its address. */
  function Recounted(c: ClientInfo, snap: Snapshot): (r: ClientInfo)
    ensures r == c.(counters := r.counters)
  {
    Refresh([c], snap).0[0]
  }

  lemma {:induction false} ApplyLinesAt(cs: seq<ClientInfo>, dir: Direction, lines: seq<Line>, at: int, i: nat)
    requires i < |cs|
    ensures ApplyLines(cs, dir, lines, at)[i]
            == if FirstAt(cs, i) then ApplyLines([cs[i]], dir, lines, at)[0] else cs[i]
  {
    if lines != [] {
      var before, line := lines[..|lines| - 1], lines[|lines| - 1];
      var ds, one := ApplyLines(cs, dir, before, at), ApplyLines([cs[i]], dir, before, at);
      ApplyLinesAt(cs, dir, before, at, i);
      assert SameIdentities(cs, ds);
      FirstIndexSame(cs, ds, ByIp(cs[i].ip));
      ApplyLineAt(ds, dir, line, at, i);
      ApplyLineAt(one, dir, line, at, 0);
    }
  }

  /** A refresh reaches exactly the first client with each address, and treats it as if it were alone. */
  lemma RefreshAt(cs: seq<ClientInfo>, snap: Snapshot, i: nat)
    requires i < |cs|
    ensures Refresh(cs, snap).0[i] == if FirstAt(cs, i) then Recounted(cs[i], snap) else cs[i]
  {
    if snap.outgoing.Some? {
      var sent := ApplyLines(cs, Upload, snap.outgoing.value, snap.at);
      ApplyLinesAt(cs, Upload, snap.outgoing.value, snap.at, i);
      if snap.incoming.Some? {
        ApplyLinesAt(sent, Download, snap.incoming.value, snap.at, i);
        assert SameIdentities(cs, sent);
        FirstIndexSame(cs, sent, ByIp(cs[i].ip));
        assert [sent[i]]
               == if FirstAt(cs, i) then ApplyLines([cs[i]], Upload, snap.outgoing.value, snap.at) else [cs[i]];
      }
    }
  }

  lemma RecountedTwice(c: ClientInfo, snap: Snapshot)
    requires snap.outgoing.Some? && snap.incoming.Some?
    ensures Recounted(Recounted(c, snap), snap) == Recounted(c, snap)
  {
    RefreshIdempotent([c], snap);
    assert Refresh([c], snap).0 == [Recounted(c, snap)];
  }
}
