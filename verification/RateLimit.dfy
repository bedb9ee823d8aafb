/** The limiter arithmetic of fw_iptables.c and the moving average of the rate check, with the
    wrap-around of `unsigned long long int` written out. */
module RateLimit {
  import opened Basics
  import opened Clients
  import opened Firewall

  const PACKET_LIMIT_CAP: U64 := 300000
  const MINIMUM_BUCKET: U64 := 5

  /** kbit/s to bits per minute: `rate * 1024 * 60` */
  function BitsPerMinute(rate: U64): U64 {
    Wrap(Wrap(rate * 1024) * 60)
  }

  /** `rate * 1024 * 60 / average / 8`, packets per minute */
  function PacketsPerMinute(rate: U64, average: U64): U64
  {
    Div(BitsPerMinute(rate), average) / 8
  }

  function AveragePacket(bytes: U64, bytesPrevious: U64, packets: U64, packetsPrevious: U64): U64
  {
    Wrap(Div(Wrap(bytes - bytesPrevious), Wrap(packets - packetsPrevious)) + 1)
  }

  /** The limit before the caps, when there is traffic to average over. */
  function MeasuredLimit(rate: U64, measured: U64, average: U64): Limit
  {
    var limit := PacketsPerMinute(rate, average);
    Limit(limit, Div(Wrap(PacketsPerMinute(measured, average) - limit), limit))
  }

  /** The limit before the caps, when there is none. */
  function DefaultLimit(rate: U64): Limit {
    Limit(PacketsPerMinute(rate, 1500), MINIMUM_BUCKET)
  }

  function Capped(raw: Limit, ratio: U64, maxBucket: U64): Limit {
    var bucket := Wrap(raw.bucket * ratio);
    var atLeast := if bucket < MINIMUM_BUCKET then MINIMUM_BUCKET else bucket;
    Limit(if raw.packetLimit > PACKET_LIMIT_CAP then PACKET_LIMIT_CAP else raw.packetLimit,
          if atLeast > maxBucket then maxBucket else atLeast)
  }

  function RawDownloadLimit(c: ClientInfo): Limit {
    var k := c.counters;
    if k.incoming == 0 || k.inpackets == 0 || Wrap(k.incoming - k.incomingPrevious) == 0
       || Wrap(k.inpackets - k.inpacketsPrevious) == 0
    then DefaultLimit(c.downloadRate)
    else MeasuredLimit(c.downloadRate, c.downrate,
                       AveragePacket(k.incoming, k.incomingPrevious, k.inpackets, k.inpacketsPrevious))
  }

  /** Unlike the download form, this one does not ask whether the packet count grew. */
  function RawUploadLimit(c: ClientInfo): Limit {
    var k := c.counters;
    if k.outgoing == 0 || k.outpackets == 0 || Wrap(k.outgoing - k.outgoingPrevious) == 0
    then DefaultLimit(c.uploadRate)
    else MeasuredLimit(c.uploadRate, c.uprate,
                       AveragePacket(k.outgoing, k.outgoingPrevious, k.outpackets, k.outpacketsPrevious))
  }

  function DownloadLimit(c: ClientInfo, cfg: Config): Limit {
    Capped(RawDownloadLimit(c), cfg.downloadBucketRatio, cfg.maxDownloadBucketSize)
  }

  function UploadLimit(c: ClientInfo, cfg: Config): Limit {
    Capped(RawUploadLimit(c), cfg.uploadBucketRatio, cfg.maxUploadBucketSize)
  }

  /** Dividing by 125 and then by the duration is one division by 125 times the duration. */
  function AverageRate(bytes: U64, durationSecs: U64): U64 {
    Div(bytes / 125, durationSecs)
  }

  // ---- properties -----------------------------------------------------------------------------

  /** With a window that did not start in the future, the measured rate is the exact average. */
  lemma AverageRateExact(bytes: U64, windowStart: int, now: int)
    requires windowStart <= now && now - windowStart + 1 < TWO_TO_THE_64
    ensures AverageRate(bytes, Wrap(now - windowStart + 1)) == bytes / (125 * (now - windowStart + 1))
  {
    NestedDivision(bytes, 125, now - windowStart + 1);
  }

  /** Without 64-bit overflow in the scaling, the limit is the largest number of average packets per
      minute whose bits fit in the rate. */
  lemma PacketsPerMinuteExact(rate: U64, average: U64)
    requires rate * 61440 < TWO_TO_THE_64
    requires average > 0
    ensures var limit := PacketsPerMinute(rate, average);
            8 * average * limit <= rate * 61440 < 8 * average * (limit + 1)
  {
    hide BitsPerMinute;
    ScaledRate(rate);
    var x := rate * 61440;
    NestedDivision(x, average, 8);
    var d := average * 8;
    QuotientBounds(x, d);
    var limit := x / d;
    assert limit * d == 8 * average * limit;
    assert (limit + 1) * d == 8 * average * (limit + 1);
  }

  /** The measured packet rate is at least the limit when the measured rate is at least the client's
      rate, so the subtraction under the bucket does not wrap. */
  lemma BucketDoesNotWrap(rate: U64, measured: U64, average: U64)
    requires rate <= measured && measured * 61440 < TWO_TO_THE_64
    requires average > 0
    ensures PacketsPerMinute(rate, average) <= PacketsPerMinute(measured, average)
    ensures var limit := PacketsPerMinute(rate, average);
            MeasuredLimit(rate, measured, average).bucket
            == Div(PacketsPerMinute(measured, average) - limit, limit)
  {
    hide BitsPerMinute;
    ScaledRate(rate);
    ScaledRate(measured);
    DivisionMonotone(rate * 61440, measured * 61440, average);
    DivisionMonotone(rate * 61440 / average, measured * 61440 / average, 8);
    Unwrapped(PacketsPerMinute(measured, average) - PacketsPerMinute(rate, average));
  }

  lemma Unwrapped(x: int)
    requires 0 <= x < TWO_TO_THE_64
    ensures Wrap(x) == x
  {
  }

  lemma ScaledRate(rate: U64)
    requires rate * 61440 < TWO_TO_THE_64
    ensures BitsPerMinute(rate) == rate * 61440
  {
    Unwrapped(rate * 1024);
    Unwrapped(rate * 1024 * 60);
  }

  lemma DivisionMonotone(x: nat, y: nat, a: nat)
    requires x <= y && a > 0
    ensures x / a <= y / a
  {
    QuotientBounds(x, a);
    QuotientBounds(y, a);
    if y / a < x / a {
      MulMono(y / a + 1, x / a, a);
      assert false;
    }
  }

  predicate PacketsGrew(c: ClientInfo, dir: Direction) {
    var k := c.counters;
    match dir
    case Download => k.inpacketsPrevious < k.inpackets && k.incomingPrevious < k.incoming
    case Upload => k.outpacketsPrevious < k.outpackets && k.outgoingPrevious < k.outgoing
  }

  /** The average packet size the limiter uses once traffic has been counted: one more than the
      floor of the true average, so never zero and never below it. */
  function TrueAverage(c: ClientInfo, dir: Direction): nat
    requires PacketsGrew(c, dir)
  {
    var k := c.counters;
    match dir
    case Download => (k.incoming - k.incomingPrevious) / (k.inpackets - k.inpacketsPrevious) + 1
    case Upload => (k.outgoing - k.outgoingPrevious) / (k.outpackets - k.outpacketsPrevious) + 1
  }

  function LimitFor(c: ClientInfo, cfg: Config, dir: Direction): Limit {
    match dir
    case Download => DownloadLimit(c, cfg)
    case Upload => UploadLimit(c, cfg)
  }

  function RateOf(c: ClientInfo, dir: Direction): U64 {
    match dir
    case Download => c.downloadRate
    case Upload => c.uploadRate
  }

  lemma MeasuredLimitMeetsRate(rate: U64, measured: U64, average: U64, ratio: U64, maxBucket: U64)
    requires rate * 61440 < TWO_TO_THE_64
    requires average > 0
    ensures LargestFitting(Capped(MeasuredLimit(rate, measured, average), ratio, maxBucket).packetLimit, average, rate)
  {
    PacketsPerMinuteExact(rate, average);
    var uncapped := PacketsPerMinute(rate, average);
    MulMono(Min(uncapped, 300000), uncapped, 8 * average);
    assert forall z: int :: z * (8 * average) == 8 * average * z;
  }

  lemma AveragePacketExact(bytes: U64, bytesPrevious: U64, packets: U64, packetsPrevious: U64)
    requires bytesPrevious < bytes && packetsPrevious < packets
    requires (bytes - bytesPrevious) / (packets - packetsPrevious) + 1 < TWO_TO_THE_64
    ensures Wrap(bytes - bytesPrevious) == bytes - bytesPrevious > 0
    ensures Wrap(packets - packetsPrevious) == packets - packetsPrevious > 0
    ensures AveragePacket(bytes, bytesPrevious, packets, packetsPrevious)
            == (bytes - bytesPrevious) / (packets - packetsPrevious) + 1
  {
    var x, y := bytes - bytesPrevious, packets - packetsPrevious;
    assert Wrap(x) == x && Wrap(y) == y;
    QuotientBounds(x, y);
  }

  lemma LimitMeasured(c: ClientInfo, cfg: Config, dir: Direction)
    requires PacketsGrew(c, dir)
    requires TrueAverage(c, dir) < TWO_TO_THE_64
    ensures dir == Download ==>
              DownloadLimit(c, cfg)
              == Capped(MeasuredLimit(c.downloadRate, c.downrate, TrueAverage(c, dir)),
                        cfg.downloadBucketRatio, cfg.maxDownloadBucketSize)
    ensures dir == Upload ==>
              UploadLimit(c, cfg)
              == Capped(MeasuredLimit(c.uploadRate, c.uprate, TrueAverage(c, dir)),
                        cfg.uploadBucketRatio, cfg.maxUploadBucketSize)
  {
    var k := c.counters;
    if dir == Download {
      AveragePacketExact(k.incoming, k.incomingPrevious, k.inpackets, k.inpacketsPrevious);
    } else {
      AveragePacketExact(k.outgoing, k.outgoingPrevious, k.outpackets, k.outpacketsPrevious);
    }
  }

  /** `limit` packets of `average` bytes a minute stay within the rate; below the cap, one more would not. */
  predicate LargestFitting(limit: nat, average: nat, rate: nat) {
    && 8 * average * limit <= rate * 61440
    && (limit < 300000 ==> rate * 61440 < 8 * average * (limit + 1))
    && limit <= 300000
  }

  /** The limit installed for a client whose packet count grew: a full minute of average packets
      never exceeds the client's rate, and below the cap one packet more would. */
  lemma LimitMeetsRate(c: ClientInfo, cfg: Config, dir: Direction)
    requires PacketsGrew(c, dir)
    requires RateOf(c, dir) * 61440 < TWO_TO_THE_64
    requires TrueAverage(c, dir) < TWO_TO_THE_64
    ensures LargestFitting(LimitFor(c, cfg, dir).packetLimit, TrueAverage(c, dir), RateOf(c, dir))
  {
    if dir == Download {
      LimitMeasured(c, cfg, Download);
      MeasuredLimitMeetsRate(c.downloadRate, c.downrate, TrueAverage(c, Download), cfg.downloadBucketRatio,
                             cfg.maxDownloadBucketSize);
    } else {
      LimitMeasured(c, cfg, Upload);
      MeasuredLimitMeetsRate(c.uploadRate, c.uprate, TrueAverage(c, Upload), cfg.uploadBucketRatio,
                             cfg.maxUploadBucketSize);
    }
  }

  /** Whatever wrapped before, the bucket stays between min(5, max) and max. */
  lemma LimitBucketBounds(c: ClientInfo, cfg: Config)
    ensures Min(5, cfg.maxDownloadBucketSize) <= DownloadLimit(c, cfg).bucket <= cfg.maxDownloadBucketSize
    ensures Min(5, cfg.maxUploadBucketSize) <= UploadLimit(c, cfg).bucket <= cfg.maxUploadBucketSize
    ensures DownloadLimit(c, cfg).packetLimit <= 300000 && UploadLimit(c, cfg).packetLimit <= 300000
  {
  }

  // ---- the bucket ------------------------------------------------------------------------------

  function MeasuredRateOf(c: ClientInfo, dir: Direction): U64 {
    match dir
    case Download => c.downrate
    case Upload => c.uprate
  }

  function RatioOf(cfg: Config, dir: Direction): U64 {
    match dir
    case Download => cfg.downloadBucketRatio
    case Upload => cfg.uploadBucketRatio
  }

  function MaxBucketOf(cfg: Config, dir: Direction): U64 {
    match dir
    case Download => cfg.maxDownloadBucketSize
    case Upload => cfg.maxUploadBucketSize
  }

  /** The bucket before the caps, for a limit of `limit` packets and a measured rate of `packets`: how often the limit
      goes into the excess; below the limit the excess has wrapped. */
  function RawBucket(packets: U64, limit: U64): U64 {
    if limit == 0 then 0
    else
      var excess := if packets >= limit then packets - limit else TWO_TO_THE_64 + packets - limit;
      QuotientBelow(excess, limit);
      excess / limit
  }

  lemma QuotientBelow(x: nat, a: nat)
    requires a > 0
    ensures 0 <= x / a <= x
  {
    var q := x / a;
    QuotientBounds(x, a);
    AtLeastOnce(q, a);
  }

  lemma AtLeastOnce(q: nat, a: nat)
    requires a > 0
    ensures q <= q * a
  {
  }

  lemma MeasuredBucket(rate: U64, measured: U64, average: U64)
    ensures MeasuredLimit(rate, measured, average).bucket
            == RawBucket(PacketsPerMinute(measured, average), PacketsPerMinute(rate, average))
  {
    hide PacketsPerMinute;
    var packets: int, limit: int := PacketsPerMinute(measured, average), PacketsPerMinute(rate, average);
    if packets >= limit {
      Unwrapped(packets - limit);
    } else {
      WrappedOnce(packets - limit);
    }
  }

  lemma WrappedOnce(x: int)
    requires -TWO_TO_THE_64 <= x < 0
    ensures Wrap(x) == TWO_TO_THE_64 + x
  {
  }

  /** The bucket of a client whose packet count grew, whatever its measured rate. */
  lemma BucketExact(c: ClientInfo, cfg: Config, dir: Direction)
    requires PacketsGrew(c, dir) && TrueAverage(c, dir) < TWO_TO_THE_64
    ensures var packets := PacketsPerMinute(MeasuredRateOf(c, dir), TrueAverage(c, dir));
            var limit := PacketsPerMinute(RateOf(c, dir), TrueAverage(c, dir));
            LimitFor(c, cfg, dir)
            == Capped(Limit(limit, RawBucket(packets, limit)), RatioOf(cfg, dir), MaxBucketOf(cfg, dir))
  {
    hide PacketsPerMinute, TrueAverage, Capped, RawBucket;
    var average := TrueAverage(c, dir);
    LimitMeasured(c, cfg, dir);
    MeasuredBucket(RateOf(c, dir), MeasuredRateOf(c, dir), average);
  }

  lemma CappedAtMax(raw: Limit, ratio: U64, maxBucket: U64)
    requires ratio >= 1 && raw.bucket * ratio < TWO_TO_THE_64
    requires MINIMUM_BUCKET <= maxBucket <= raw.bucket
    ensures Capped(raw, ratio, maxBucket).bucket == maxBucket
  {
    MulMono(1, ratio, raw.bucket);
    Unwrapped(raw.bucket * ratio);
  }

  /** A client limited again at the end of a window in which it stayed below its limit gets the largest bucket there
      is, because of the wrap: unless the product with the ratio wraps as well, or the largest bucket is out of
      reach. */
  lemma WrappedBucketIsMax(c: ClientInfo, cfg: Config, dir: Direction)
    requires PacketsGrew(c, dir) && TrueAverage(c, dir) < TWO_TO_THE_64
    requires var packets := PacketsPerMinute(MeasuredRateOf(c, dir), TrueAverage(c, dir));
             var limit := PacketsPerMinute(RateOf(c, dir), TrueAverage(c, dir));
             var raw := RawBucket(packets, limit);
             && packets < limit && RatioOf(cfg, dir) >= 1 && raw * RatioOf(cfg, dir) < TWO_TO_THE_64
             && MINIMUM_BUCKET <= MaxBucketOf(cfg, dir) <= raw
    ensures LimitFor(c, cfg, dir).bucket == MaxBucketOf(cfg, dir)
  {
    hide PacketsPerMinute, TrueAverage, Capped, RawBucket, LimitFor;
    BucketExact(c, cfg, dir);
    var packets := PacketsPerMinute(MeasuredRateOf(c, dir), TrueAverage(c, dir));
    var limit := PacketsPerMinute(RateOf(c, dir), TrueAverage(c, dir));
    CappedAtMax(Limit(limit, RawBucket(packets, limit)), RatioOf(cfg, dir), MaxBucketOf(cfg, dir));
  }

  /** At or above the rate nothing wraps: the bucket is the true excess, in limits. */
  lemma ExcessBucket(c: ClientInfo, cfg: Config, dir: Direction)
    requires PacketsGrew(c, dir) && TrueAverage(c, dir) < TWO_TO_THE_64
    requires RateOf(c, dir) <= MeasuredRateOf(c, dir) && MeasuredRateOf(c, dir) * 61440 < TWO_TO_THE_64
    ensures var packets := PacketsPerMinute(MeasuredRateOf(c, dir), TrueAverage(c, dir));
            var limit := PacketsPerMinute(RateOf(c, dir), TrueAverage(c, dir));
            && limit <= packets && RawBucket(packets, limit) == Div(packets - limit, limit)
            && LimitFor(c, cfg, dir)
               == Capped(Limit(limit, RawBucket(packets, limit)), RatioOf(cfg, dir), MaxBucketOf(cfg, dir))
  {
    hide PacketsPerMinute, TrueAverage, Capped, RawBucket, LimitFor, MeasuredLimit;
    BucketExact(c, cfg, dir);
    AverageNotZero(c, dir);
    BucketDoesNotWrap(RateOf(c, dir), MeasuredRateOf(c, dir), TrueAverage(c, dir));
    RawAbove(PacketsPerMinute(MeasuredRateOf(c, dir), TrueAverage(c, dir)),
             PacketsPerMinute(RateOf(c, dir), TrueAverage(c, dir)));
  }

  lemma AverageNotZero(c: ClientInfo, dir: Direction)
    requires PacketsGrew(c, dir)
    ensures TrueAverage(c, dir) > 0
  {
    var k := c.counters;
    match dir
    case Download => QuotientBelow(k.incoming - k.incomingPrevious, k.inpackets - k.inpacketsPrevious);
    case Upload => QuotientBelow(k.outgoing - k.outgoingPrevious, k.outpackets - k.outpacketsPrevious);
  }

  lemma RawAbove(packets: U64, limit: U64)
    requires limit <= packets
    ensures RawBucket(packets, limit) == Div(packets - limit, limit)
  {
  }

  // ---- the caps -------------------------------------------------------------------------------

  /** As long as the product with the ratio does not wrap, the bucket is that product, but at least 5 and at most the
      largest bucket; the limit is at most 300000. */
  lemma CappedExact(raw: Limit, ratio: U64, maxBucket: U64)
    requires raw.bucket * ratio < TWO_TO_THE_64
    ensures Capped(raw, ratio, maxBucket)
            == Limit(Min(raw.packetLimit, 300000), Min(maxBucket, Max(5, raw.bucket * ratio)))
  {
    Unwrapped(raw.bucket * ratio);
  }

  /** Nothing to average over. The upload form does not ask whether the packet count grew. */
  predicate NoTraffic(c: ClientInfo, dir: Direction) {
    var k := c.counters;
    match dir
    case Download =>
      k.incoming == 0 || k.inpackets == 0 || k.incoming == k.incomingPrevious || k.inpackets == k.inpacketsPrevious
    case Upload => k.outgoing == 0 || k.outpackets == 0 || k.outgoing == k.outgoingPrevious
  }

  /** Then packets of 1500 bytes are taken, and a bucket of 5 times the ratio. */
  lemma LimitWithoutTraffic(c: ClientInfo, cfg: Config, dir: Direction)
    requires NoTraffic(c, dir) && RateOf(c, dir) * 61440 < TWO_TO_THE_64 && 5 * RatioOf(cfg, dir) < TWO_TO_THE_64
    ensures var limit := LimitFor(c, cfg, dir);
            && LargestFitting(limit.packetLimit, 1500, RateOf(c, dir))
            && limit.bucket == Min(MaxBucketOf(cfg, dir), Max(5, 5 * RatioOf(cfg, dir)))
  {
    hide PacketsPerMinute, Capped;
    var raw := DefaultLimit(RateOf(c, dir));
    DefaultTaken(c, cfg, dir);
    CappedExact(raw, RatioOf(cfg, dir), MaxBucketOf(cfg, dir));
    FitsWithin(RateOf(c, dir), 1500);
  }

  lemma DefaultTaken(c: ClientInfo, cfg: Config, dir: Direction)
    requires NoTraffic(c, dir)
    ensures LimitFor(c, cfg, dir) == Capped(DefaultLimit(RateOf(c, dir)), RatioOf(cfg, dir), MaxBucketOf(cfg, dir))
  {
    hide MeasuredLimit, DefaultLimit, Capped, AveragePacket, Wrap;
    Unwrapped(0);
  }

  /** Bytes without packets stop the C code at its upload division, which the download form tests for; the model
      goes on with a quotient of 0, an average packet of one byte. */
  lemma BytesWithoutPackets(c: ClientInfo, cfg: Config)
    requires c.uploadRate * 61440 < TWO_TO_THE_64 && !NoTraffic(c, Upload)
    requires c.counters.outpackets == c.counters.outpacketsPrevious
    ensures LargestFitting(UploadLimit(c, cfg).packetLimit, 1, c.uploadRate)
  {
    hide PacketsPerMinute, BitsPerMinute;
    FitsWithin(c.uploadRate, 1);
  }

  lemma FitsWithin(rate: U64, average: U64)
    requires rate * 61440 < TWO_TO_THE_64 && average > 0
    ensures LargestFitting(Min(PacketsPerMinute(rate, average), 300000), average, rate)
  {
    PacketsPerMinuteExact(rate, average);
    var uncapped := PacketsPerMinute(rate, average);
    MulMono(Min(uncapped, 300000), uncapped, 8 * average);
    assert forall z: int :: z * (8 * average) == 8 * average * z;
  }
}
