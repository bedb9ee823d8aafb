/** What the rate section of a turn does to the limiters of its client. */
module RateSection {
  import opened Basics
  import opened Clients
  import opened Firewall
  import opened RateLimit
  import opened Session

  // ---- who is limited -------------------------------------------------------------------------

  predicate OverRate(c: ClientInfo, dir: Direction) {
    0 < RateOf(c, dir) <= MeasuredRateOf(c, dir)
  }

  /** The limiter bit of a direction. */
  predicate Marked(c: ClientInfo, dir: Direction) {
    match dir
    case Download => c.rateExceeded & 1 == 1
    case Upload => c.rateExceeded & 2 == 2
  }

  function Stored(c: ClientInfo, dir: Direction): Limit {
    match dir
    case Download => Limit(c.incPacketLimit, c.downloadBucketSize)
    case Upload => Limit(c.outPacketLimit, c.uploadBucketSize)
  }

  lemma Flips(bits: bv32)
    ensures (bits ^ 2) & 1 == bits & 1 && (bits ^ 1) & 2 == bits & 2
    ensures bits & 1 == 0 || bits & 1 == 1
    ensures bits & 2 == 0 || bits & 2 == 2
    ensures bits & 1 == 0 <==> (bits ^ 1) & 1 == 1
    ensures bits & 2 == 0 <==> (bits ^ 2) & 2 == 2
  {
  }

  /** What the limiter computes from: two clients that agree on it get the same limit. */
  predicate SameTraffic(c: ClientInfo, d: ClientInfo) {
    && c.counters.(inWindowStart := d.counters.inWindowStart, outWindowStart := d.counters.outWindowStart) == d.counters
    && (forall dir :: RateOf(c, dir) == RateOf(d, dir) && MeasuredRateOf(c, dir) == MeasuredRateOf(d, dir))
  }

  lemma SameLimit(c: ClientInfo, d: ClientInfo, cfg: Config)
    requires SameTraffic(c, d)
    ensures forall dir :: LimitFor(c, cfg, dir) == LimitFor(d, cfg, dir)
  {
    hide Capped, MeasuredLimit, DefaultLimit, AveragePacket;
    assert RateOf(c, Download) == RateOf(d, Download) && RateOf(c, Upload) == RateOf(d, Upload);
    assert MeasuredRateOf(c, Download) == MeasuredRateOf(d, Download);
    assert MeasuredRateOf(c, Upload) == MeasuredRateOf(d, Upload);
  }

  // ---- one direction, one step ----------------------------------------------------------------

  function Other(dir: Direction): Direction {
    if dir == Download then Upload else Download
  }

  function Bursting(cfg: Config, dir: Direction): int {
    match dir
    case Download => cfg.downloadUnrestrictedBursting
    case Upload => cfg.uploadUnrestrictedBursting
  }

  function ExceedIn(x: Cell, dir: Direction, cfg: Config): Cell {
    match dir
    case Download => ExceedDownload(x, cfg)
    case Upload => ExceedUpload(x, cfg)
  }

  function ExpireIn(x: Cell, dir: Direction, cfg: Config): Cell {
    match dir
    case Download => ExpireDownload(x, cfg)
    case Upload => ExpireUpload(x, cfg)
  }

  /** Limiting starts in this check. */
  predicate Starts(c: ClientInfo, dir: Direction, cfg: Config) {
    !Marked(c, dir) && OverRate(c, dir) && RatioOf(cfg, dir) > 0
  }

  /** Limiting would end with the window. */
  predicate MayEnd(c: ClientInfo, dir: Direction, cfg: Config) {
    RateOf(c, dir) > MeasuredRateOf(c, dir) && Bursting(cfg, dir) > 0
  }

  predicate Unmoved(c: ClientInfo, d: ClientInfo, dir: Direction) {
    (Marked(d, dir) <==> Marked(c, dir)) && Stored(d, dir) == Stored(c, dir)
  }

  /** A step in one direction: everything the limiters compute from stays, and so does the other direction. */
  predicate StepIn(x: Cell, y: Cell, dir: Direction) {
    SameTraffic(x.c, y.c) && Unmoved(x.c, y.c, Other(dir)) && y.c.windowCounter == x.c.windowCounter
  }

  lemma ExceedStep(x: Cell, dir: Direction, cfg: Config)
    ensures var y := ExceedIn(x, dir, cfg);
            && StepIn(x, y, dir)
            && (Marked(y.c, dir) <==> Marked(x.c, dir) || Starts(x.c, dir, cfg))
            && Stored(y.c, dir) == if Starts(x.c, dir, cfg) then LimitFor(x.c, cfg, dir) else Stored(x.c, dir)
  {
    hide DownloadLimit, UploadLimit, ReplaceDownload, ReplaceUpload;
    Flips(x.c.rateExceeded);
  }

  lemma ExpireStep(x: Cell, dir: Direction, cfg: Config)
    ensures var y := ExpireIn(x, dir, cfg);
            var due := RateOf(x.c, dir) > 0 && Marked(x.c, dir);
            && StepIn(x, y, dir)
            && (Marked(y.c, dir) <==> Marked(x.c, dir) && !(due && MayEnd(x.c, dir, cfg)))
            && Stored(y.c, dir) == if !due then Stored(x.c, dir)
                                   else if MayEnd(x.c, dir, cfg) then Limit(0, 0)
                                   else LimitFor(x.c, cfg, dir)
  {
    hide DownloadLimit, UploadLimit, ReplaceDownload, ReplaceUpload;
    Flips(x.c.rateExceeded);
    var off := Cell(x.c.(incPacketLimit := 0, downloadBucketSize := 0, downloadLimiting := false), x.fw);
    SameLimit(x.c, off.c, cfg);
    var offUp := Cell(x.c.(outPacketLimit := 0, uploadBucketSize := 0, uploadLimiting := false), x.fw);
    SameLimit(x.c, offUp.c, cfg);
  }

  lemma BothExceed(x: Cell, dir: Direction, cfg: Config)
    ensures var y := Exceed(x, cfg);
            && SameTraffic(x.c, y.c) && y.c.windowCounter == x.c.windowCounter
            && (Marked(y.c, dir) <==> Marked(x.c, dir) || Starts(x.c, dir, cfg))
            && Stored(y.c, dir) == if Starts(x.c, dir, cfg) then LimitFor(x.c, cfg, dir) else Stored(x.c, dir)
  {
    hide ExceedDownload, ExceedUpload, LimitFor, Marked, Stored;
    var y := ExceedIn(x, Download, cfg);
    ExceedStep(x, Download, cfg);
    ExceedStep(y, Upload, cfg);
    SameLimit(x.c, y.c, cfg);
    SameDecisions(x.c, y.c, cfg);
  }

  lemma BothExpire(x: Cell, dir: Direction, cfg: Config)
    ensures var y := ExpireUpload(ExpireDownload(x, cfg), cfg);
            var due := RateOf(x.c, dir) > 0 && Marked(x.c, dir);
            && (Marked(y.c, dir) <==> Marked(x.c, dir) && !(due && MayEnd(x.c, dir, cfg)))
            && Stored(y.c, dir) == if !due then Stored(x.c, dir)
                                   else if MayEnd(x.c, dir, cfg) then Limit(0, 0)
                                   else LimitFor(x.c, cfg, dir)
  {
    hide ExpireDownload, ExpireUpload, LimitFor, Marked, Stored;
    var y := ExpireIn(x, Download, cfg);
    ExpireStep(x, Download, cfg);
    ExpireStep(y, Upload, cfg);
    SameLimit(x.c, y.c, cfg);
    SameDecisions(x.c, y.c, cfg);
  }

  lemma SameDecisions(c: ClientInfo, d: ClientInfo, cfg: Config)
    requires SameTraffic(c, d)
    ensures forall dir :: OverRate(c, dir) <==> OverRate(d, dir)
    ensures forall dir :: MayEnd(c, dir, cfg) <==> MayEnd(d, dir, cfg)
    ensures forall dir :: RateOf(c, dir) == RateOf(d, dir)
  {
  }

  lemma FieldsKept(c: ClientInfo, now: int, cfg: Config, left: int, dir: Direction)
    ensures Unmoved(c, Measure(c, now), dir) && Measure(c, now).windowCounter == c.windowCounter
    ensures Unmoved(c, StartWindow(c, now, cfg), dir) && SameTraffic(c, StartWindow(c, now, cfg))
    ensures Unmoved(c, c.(windowCounter := left), dir)
  {
    hide AverageRate;
  }

  // ---- the whole section ----------------------------------------------------------------------

  /** Only limits and limiter bits differ. */
  predicate OnlyLimits(c: ClientInfo, d: ClientInfo) {
    d == c.(rateExceeded := d.rateExceeded, downloadLimiting := d.downloadLimiting, uploadLimiting := d.uploadLimiting,
            incPacketLimit := d.incPacketLimit, downloadBucketSize := d.downloadBucketSize,
            outPacketLimit := d.outPacketLimit, uploadBucketSize := d.uploadBucketSize)
  }

  /** The decision table of the rate section, for either direction. Limiting starts at or over the rate; it ends with
      the window, below the rate, if bursting is unrestricted; and at the end of a window the limit of a client still
      limited is computed anew, from the traffic just measured. */
  lemma RateSectionExact(x: Cell, now: int, cfg: Config, dir: Direction)
    ensures var c, d := Measure(x.c, now), CheckRates(x, now, cfg).c;
            var marked := Marked(c, dir) || Starts(c, dir, cfg);
            var renewed := x.c.windowCounter <= 1 && RateOf(c, dir) > 0 && marked;
            && (Marked(d, dir) <==> marked && !(renewed && MayEnd(c, dir, cfg)))
            && Stored(d, dir) == if renewed && MayEnd(c, dir, cfg) then Limit(0, 0)
                                 else if renewed || Starts(c, dir, cfg) then LimitFor(c, cfg, dir)
                                 else Stored(x.c, dir)
  {
    hide Exceed, ExpireDownload, ExpireUpload, Measure, StartWindow, LimitFor, Marked, Stored, SameTraffic;
    var a := x.(c := Measure(x.c, now));
    var y := Exceed(a, cfg);
    FieldsKept(x.c, now, cfg, 0, dir);
    BothExceed(a, dir, cfg);
    SameLimit(a.c, y.c, cfg);
    SameDecisions(a.c, y.c, cfg);
    FieldsKept(y.c, now, cfg, y.c.windowCounter - 1, dir);
    var w := y.(c := StartWindow(y.c, now, cfg));
    BothExpire(w, dir, cfg);
    SameLimit(y.c, w.c, cfg);
    SameDecisions(y.c, w.c, cfg);
  }

  /** A client at or over its rate is limited after the check, whatever the size of the window: a window of 0 does not
      switch the limits off. */
  lemma OverRateIsLimited(x: Cell, now: int, cfg: Config, dir: Direction)
    requires OverRate(Measure(x.c, now), dir) && RatioOf(cfg, dir) > 0
    ensures Marked(CheckRates(x, now, cfg).c, dir)
  {
    hide CheckRates, Measure, Marked;
    RateSectionExact(x, now, cfg, dir);
  }

  // ---- the limits it installs -----------------------------------------------------------------

  function PacketRate(c: ClientInfo, dir: Direction): U64
    requires PacketsGrew(c, dir) && TrueAverage(c, dir) < TWO_TO_THE_64
  {
    PacketsPerMinute(MeasuredRateOf(c, dir), TrueAverage(c, dir))
  }

  function PacketLimit(c: ClientInfo, dir: Direction): U64
    requires PacketsGrew(c, dir) && TrueAverage(c, dir) < TWO_TO_THE_64
  {
    PacketsPerMinute(RateOf(c, dir), TrueAverage(c, dir))
  }

  /** A client that starts being limited, or is limited anew while at or over its rate, gets the largest limit that
      fits its rate, and as its bucket the measured excess over it, both within the caps. */
  lemma LimitOverRate(x: Cell, now: int, cfg: Config, dir: Direction)
    requires var c := Measure(x.c, now);
             && OverRate(c, dir) && RatioOf(cfg, dir) > 0
             && PacketsGrew(c, dir) && TrueAverage(c, dir) < TWO_TO_THE_64
             && MeasuredRateOf(c, dir) * 61440 < TWO_TO_THE_64
             && (!Marked(x.c, dir) || x.c.windowCounter <= 1)
    ensures var c := Measure(x.c, now);
            var limit, packets := PacketLimit(c, dir), PacketRate(c, dir);
            && limit <= packets
            && Stored(CheckRates(x, now, cfg).c, dir)
               == Capped(Limit(limit, RawBucket(packets, limit)), RatioOf(cfg, dir), MaxBucketOf(cfg, dir))
  {
    hide CheckRates, Measure, Stored, LimitFor, PacketsPerMinute, TrueAverage, Capped;
    FieldsKept(x.c, now, cfg, 0, dir);
    RateSectionExact(x, now, cfg, dir);
    ExcessBucket(Measure(x.c, now), cfg, dir);
  }

  /** In numbers, where nothing wraps: the excess in whole limits, times the ratio, but at least 5 and at most the
      largest bucket. */
  lemma BucketOverRate(x: Cell, now: int, cfg: Config, dir: Direction)
    requires var c := Measure(x.c, now);
             && OverRate(c, dir) && RatioOf(cfg, dir) > 0
             && PacketsGrew(c, dir) && TrueAverage(c, dir) < TWO_TO_THE_64
             && MeasuredRateOf(c, dir) * 61440 < TWO_TO_THE_64
             && (!Marked(x.c, dir) || x.c.windowCounter <= 1)
             && PacketLimit(c, dir) > 0 && PacketLimit(c, dir) <= PacketRate(c, dir)
             && (PacketRate(c, dir) - PacketLimit(c, dir)) / PacketLimit(c, dir) * RatioOf(cfg, dir) < TWO_TO_THE_64
    ensures var c := Measure(x.c, now);
            var limit, packets := PacketLimit(c, dir), PacketRate(c, dir);
            Stored(CheckRates(x, now, cfg).c, dir)
            == Limit(Min(limit, 300000),
                     Min(MaxBucketOf(cfg, dir), Max(5, (packets - limit) / limit * RatioOf(cfg, dir))))
  {
    hide CheckRates, Measure, Stored, PacketsPerMinute, TrueAverage, Capped;
    var c := Measure(x.c, now);
    var limit, packets := PacketLimit(c, dir), PacketRate(c, dir);
    LimitOverRate(x, now, cfg, dir);
    CappedExact(Limit(limit, RawBucket(packets, limit)), RatioOf(cfg, dir), MaxBucketOf(cfg, dir));
  }

  /** A client limited anew at the end of a window below its limit gets the largest bucket, because the excess wraps. */
  lemma LimitUnderRate(x: Cell, now: int, cfg: Config, dir: Direction)
    requires var c := Measure(x.c, now);
             && Marked(x.c, dir) && x.c.windowCounter <= 1 && RateOf(c, dir) > 0 && !MayEnd(c, dir, cfg)
             && PacketsGrew(c, dir) && TrueAverage(c, dir) < TWO_TO_THE_64
             && PacketRate(c, dir) < PacketLimit(c, dir) && RatioOf(cfg, dir) >= 1
             && var raw := RawBucket(PacketRate(c, dir), PacketLimit(c, dir));
             && raw * RatioOf(cfg, dir) < TWO_TO_THE_64 && MINIMUM_BUCKET <= MaxBucketOf(cfg, dir) <= raw
    ensures Marked(CheckRates(x, now, cfg).c, dir)
            && Stored(CheckRates(x, now, cfg).c, dir).bucket == MaxBucketOf(cfg, dir)
  {
    hide CheckRates, Measure, Stored, Marked, LimitFor, PacketsPerMinute, TrueAverage, Capped, RawBucket;
    FieldsKept(x.c, now, cfg, 0, dir);
    RateSectionExact(x, now, cfg, dir);
    WrappedBucketIsMax(Measure(x.c, now), cfg, dir);
  }
}
