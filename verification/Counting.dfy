/** What a refresh leaves in the counters of a client: totals, the totals before the last raise, and activity. */
module Counting {
  import opened Basics
  import opened Clients
  import opened CounterRefresh
  import opened RateLimit

  function Packets(k: Counters, dir: Direction): U64 {
    match dir
    case Upload => k.outpackets
    case Download => k.inpackets
  }

  function EarlierBytes(k: Counters, dir: Direction): U64 {
    match dir
    case Upload => k.outgoingPrevious
    case Download => k.incomingPrevious
  }

  function EarlierPackets(k: Counters, dir: Direction): U64 {
    match dir
    case Upload => k.outpacketsPrevious
    case Download => k.inpacketsPrevious
  }

  /** The last line for the address with more bytes than every one before it and than `floor`. */
  function LastRaise(lines: seq<Line>, ip: string, floor: U64): (r: Option<nat>)
    ensures r.Some? ==> r.value < |lines|
  {
    if lines == [] then None
    else
      var n := |lines| - 1;
      if lines[n].ip == ip && LargestFor(lines[..n], ip, floor) < lines[n].bytes then Some(n)
      else LastRaise(lines[..n], ip, floor)
  }

  /** The packets counted together with the largest byte count. */
  function PacketsAfter(lines: seq<Line>, k: Counters, dir: Direction, ip: string): U64 {
    var j := LastRaise(lines, ip, Bytes(k, dir));
    if j.None? then Packets(k, dir) else lines[j.value].packets
  }

  predicate SameDirection(k: Counters, k': Counters, dir: Direction) {
    && Bytes(k', dir) == Bytes(k, dir) && Packets(k', dir) == Packets(k, dir)
    && EarlierBytes(k', dir) == EarlierBytes(k, dir) && EarlierPackets(k', dir) == EarlierPackets(k, dir)
  }

  /** One direction after its listing. Without a raise nothing has changed; after one the totals are those of the last
      raising line and the earlier values are the totals just before that line. */
  predicate Counted(k: Counters, k': Counters, dir: Direction, lines: seq<Line>, ip: string) {
    var j := LastRaise(lines, ip, Bytes(k, dir));
    if j.None? then SameDirection(k, k', dir)
    else
      && Bytes(k', dir) == lines[j.value].bytes
      && Packets(k', dir) == lines[j.value].packets
      && EarlierBytes(k', dir) == LargestFor(lines[..j.value], ip, Bytes(k, dir))
      && EarlierPackets(k', dir) == PacketsAfter(lines[..j.value], k, dir, ip)
  }

  lemma {:induction false} LastRaiseLargest(lines: seq<Line>, ip: string, floor: U64)
    ensures var j := LastRaise(lines, ip, floor);
            LargestFor(lines, ip, floor) == if j.None? then floor else lines[j.value].bytes
  {
    if lines != [] {
      LastRaiseLargest(lines[..|lines| - 1], ip, floor);
    }
  }

  /** What one listing does to one client's counters. */
  predicate Listed(k: Counters, k': Counters, dir: Direction, lines: seq<Line>, ip: string, at: int) {
    && Counted(k, k', dir, lines, ip) && SameDirection(k, k', Other(dir)) && SameWindowStart(k, k')
    && k'.lastUpdated == if dir == Upload && LastRaise(lines, ip, Bytes(k, dir)).Some? then at else k.lastUpdated
  }

  lemma CountedLine(k: Counters, m: Counters, dir: Direction, lines: seq<Line>, ip: string, at: int)
    requires lines != [] && Listed(k, m, dir, lines[..|lines| - 1], ip, at)
    ensures var line := lines[|lines| - 1];
            Listed(k, if line.ip == ip then Count(m, dir, line, at) else m, dir, lines, ip, at)
  {
    hide LargestFor;
    var n := |lines| - 1;
    LastRaiseLargest(lines[..n], ip, Bytes(k, dir));
    var j := LastRaise(lines[..n], ip, Bytes(k, dir));
    if j.Some? {
      assert lines[..n][..j.value] == lines[..j.value];
    }
  }

  lemma {:induction false} ListingCounts(cs: seq<ClientInfo>, dir: Direction, lines: seq<Line>, at: int, i: nat)
    requires i < |cs| && FirstAt(cs, i) && cs[i].ip != "0.0.0.0"
    ensures Listed(cs[i].counters, ApplyLines(cs, dir, lines, at)[i].counters, dir, lines, cs[i].ip, at)
  {
    hide Count, LargestFor;
    if lines != [] {
      var n := |lines| - 1;
      var ds := ApplyLines(cs, dir, lines[..n], at);
      ListingCounts(cs, dir, lines[..n], at, i);
      assert SameIdentities(cs, ds);
      FirstIndexSame(cs, ds, ByIp(cs[i].ip));
      ApplyLineAt(ds, dir, lines[n], at, i);
      CountedLine(cs[i].counters, ds[i].counters, dir, lines, cs[i].ip, at);
    }
  }

  // ---- the whole refresh ------------------------------------------------------------------------

  /** The lines a refresh gets to read in a direction. */
  function LinesRead(snap: Snapshot, dir: Direction): seq<Line> {
    match dir
    case Upload => if snap.outgoing.Some? then snap.outgoing.value else []
    case Download => if snap.outgoing.Some? && snap.incoming.Some? then snap.incoming.value else []
  }

  /** A refresh succeeds exactly when both listings can be read. The first client with an address has the totals of the
      last raising line in each direction, and the totals just before it as its earlier values; the activity time moves
      exactly with an upload raise. Any other client keeps everything. When only the second listing is missing, the
      first has been counted. */
  lemma RefreshCounts(cs: seq<ClientInfo>, snap: Snapshot, i: nat)
    requires i < |cs|
    ensures Refresh(cs, snap).1 <==> snap.outgoing.Some? && snap.incoming.Some?
    ensures var k, k' := cs[i].counters, Refresh(cs, snap).0[i].counters;
            var ip := cs[i].ip;
            if FirstAt(cs, i) && ip != "0.0.0.0" then
              && Counted(k, k', Upload, LinesRead(snap, Upload), ip)
              && Counted(k, k', Download, LinesRead(snap, Download), ip)
              && k'.lastUpdated
                 == (if LastRaise(LinesRead(snap, Upload), ip, k.outgoing).Some? then snap.at else k.lastUpdated)
              && SameWindowStart(k, k')
            else Refresh(cs, snap).0[i] == cs[i]
  {
    hide LargestFor, Counted, Count;
    NothingRaised(cs[i].counters, Upload, cs[i].ip);
    NothingRaised(cs[i].counters, Download, cs[i].ip);
    if FirstAt(cs, i) && cs[i].ip != "0.0.0.0" {
      if snap.outgoing.Some? {
        var sent := ApplyLines(cs, Upload, snap.outgoing.value, snap.at);
        ListingCounts(cs, Upload, snap.outgoing.value, snap.at, i);
        NoLinesFor(cs[i].counters, sent[i].counters, cs[i].ip);
        if snap.incoming.Some? {
          assert SameIdentities(cs, sent);
          FirstIndexSame(cs, sent, ByIp(cs[i].ip));
          ListingCounts(sent, Download, snap.incoming.value, snap.at, i);
          CountedOnTop(cs[i].counters, sent[i].counters, Refresh(cs, snap).0[i].counters, snap, cs[i].ip);
        }
      }
    } else {
      Unreached(cs, snap, i);
    }
  }

  lemma NothingRaised(k: Counters, dir: Direction, ip: string)
    ensures Counted(k, k, dir, [], ip) && LastRaise([], ip, Bytes(k, dir)).None?
  {
  }

  lemma NoLinesFor(k: Counters, m: Counters, ip: string)
    requires SameDirection(k, m, Download)
    ensures Counted(k, m, Download, [], ip)
  {
  }

  lemma CountedOnTop(k: Counters, m: Counters, k': Counters, snap: Snapshot, ip: string)
    requires snap.outgoing.Some? && snap.incoming.Some?
    requires Listed(k, m, Upload, snap.outgoing.value, ip, snap.at)
    requires Listed(m, k', Download, snap.incoming.value, ip, snap.at)
    ensures Counted(k, k', Upload, snap.outgoing.value, ip) && Counted(k, k', Download, snap.incoming.value, ip)
    ensures SameWindowStart(k, k') && k'.lastUpdated == m.lastUpdated
  {
    hide LargestFor, LastRaise;
  }

  lemma Unreached(cs: seq<ClientInfo>, snap: Snapshot, i: nat)
    requires i < |cs| && (!FirstAt(cs, i) || cs[i].ip == "0.0.0.0")
    ensures Refresh(cs, snap).0[i] == cs[i]
  {
    hide Count;
    RefreshAt(cs, snap, i);
    if cs[i].ip == "0.0.0.0" {
      var c := [cs[i]];
      if snap.outgoing.Some? {
        Unlisted(c, Upload, snap.outgoing.value, snap.at);
        if snap.incoming.Some? {
          Unlisted(c, Download, snap.incoming.value, snap.at);
        }
      }
    }
  }

  lemma {:induction false} Unlisted(cs: seq<ClientInfo>, dir: Direction, lines: seq<Line>, at: int)
    requires |cs| == 1 && cs[0].ip == "0.0.0.0"
    ensures ApplyLines(cs, dir, lines, at) == cs
  {
    hide Count;
    if lines != [] {
      Unlisted(cs, dir, lines[..|lines| - 1], at);
    }
  }

  /** Totals never go down, whatever can be read. */
  lemma RefreshGrows(cs: seq<ClientInfo>, snap: Snapshot, i: nat, dir: Direction)
    requires i < |cs|
    ensures Bytes(cs[i].counters, dir) <= Bytes(Refresh(cs, snap).0[i].counters, dir)
  {
    hide Refresh, LargestFor, LastRaise;
    var k := cs[i].counters;
    var lines := LinesRead(snap, dir);
    RefreshCounts(cs, snap, i);
    LastRaiseLargest(lines, cs[i].ip, Bytes(k, dir));
    LargestForBounds(lines, cs[i].ip, Bytes(k, dir));
  }

  /** A client raised by one line of a listing, with more packets than before, has traffic to measure: the limiter uses
      the average packet of what that line added. */
  lemma RaisedOnce(cs: seq<ClientInfo>, snap: Snapshot, i: nat, dir: Direction)
    requires i < |cs| && FirstAt(cs, i) && cs[i].ip != "0.0.0.0"
    requires var lines, b := LinesRead(snap, dir), Bytes(cs[i].counters, dir);
             && LastRaise(lines, cs[i].ip, b).Some?
             && var j := LastRaise(lines, cs[i].ip, b).value;
             && LastRaise(lines[..j], cs[i].ip, b).None? && lines[j].packets > Packets(cs[i].counters, dir)
    ensures var lines, k, d := LinesRead(snap, dir), cs[i].counters, Refresh(cs, snap).0[i];
            var line := lines[LastRaise(lines, cs[i].ip, Bytes(k, dir)).value];
            && line.ip == cs[i].ip && line.bytes > Bytes(k, dir)
            && PacketsGrew(d, dir)
            && TrueAverage(d, dir) == (line.bytes - Bytes(k, dir)) / (line.packets - Packets(k, dir)) + 1
  {
    hide Refresh, LargestFor;
    var lines, k := LinesRead(snap, dir), cs[i].counters;
    var j := LastRaise(lines, cs[i].ip, Bytes(k, dir)).value;
    RefreshCounts(cs, snap, i);
    LastRaiseLargest(lines[..j], cs[i].ip, Bytes(k, dir));
    RaisingLine(lines, cs[i].ip, Bytes(k, dir));
  }

  lemma {:induction false} RaisingLine(lines: seq<Line>, ip: string, floor: U64)
    ensures var j := LastRaise(lines, ip, floor);
            j.Some? ==> lines[j.value].ip == ip && LargestFor(lines[..j.value], ip, floor) < lines[j.value].bytes
  {
    if lines != [] {
      var n := |lines| - 1;
      RaisingLine(lines[..n], ip, floor);
      var j := LastRaise(lines[..n], ip, floor);
      if j.Some? {
        assert lines[..n][..j.value] == lines[..j.value];
      }
    }
  }
}
