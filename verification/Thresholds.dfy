/** The tests of the periodic pass in plain numbers: seconds, bytes, and quotas in kB. */
module Thresholds {
  import opened Basics
  import opened Clients
  import opened PassFilter
  import opened RateLimit
  import opened RateSection
  import opened Session

  /** A quota of n kB is reached with 1024 * n bytes; 0 is no quota. */
  lemma QuotaExact(c: ClientInfo)
    ensures QuotaReached(c, Download) <==> c.downloadQuota > 0 && c.counters.incoming >= 1024 * c.downloadQuota
    ensures QuotaReached(c, Upload) <==> c.uploadQuota > 0 && c.counters.outgoing >= 1024 * c.uploadQuota
  {
  }

  /** A reached quota cuts the client off where there is no throttle rate; where there is one, it throttles the client
      unless it is at that rate already. */
  lemma DueExact(c: ClientInfo, cfg: Config)
    ensures var reached := c.downloadQuota > 0 && c.counters.incoming >= 1024 * c.downloadQuota;
            && (CutOffDue(c, Download, cfg) <==> reached && cfg.fupDownloadThrottleRate == 0)
            && (ThrottleDue(c, Download, cfg)
                <==> reached && cfg.fupDownloadThrottleRate > 0 && c.downloadRate != cfg.fupDownloadThrottleRate)
    ensures var reached := c.uploadQuota > 0 && c.counters.outgoing >= 1024 * c.uploadQuota;
            && (CutOffDue(c, Upload, cfg) <==> reached && cfg.fupUploadThrottleRate == 0)
            && (ThrottleDue(c, Upload, cfg)
                <==> reached && cfg.fupUploadThrottleRate > 0 && c.uploadRate != cfg.fupUploadThrottleRate)
  {
    hide QuotaReached;
    QuotaExact(c);
  }

  /** The quota check of one direction removes the client, throttles it, or does nothing. */
  datatype Verdict = Remove | Slow | Leave

  function Check(quota: nat, bytes: nat, rate: nat, throttleRate: nat): Verdict {
    if quota == 0 || bytes < 1024 * quota then Leave
    else if throttleRate == 0 then Remove
    else if rate != throttleRate then Slow
    else Leave
  }

  /** The decision table of the pass, for a client in the state its turn finds. Preauthenticated clients go when idle.
      Authenticated ones go at the end of their session; then the download check decides, then the upload check, and at
      last the idle time. Throttled and trusted clients stay as they are. */
  lemma FateTable(c: ClientInfo, now: int, cfg: Config)
    ensures var idleSecs := now - c.counters.lastUpdated;
            var down := Check(c.downloadQuota, c.counters.incoming, c.downloadRate, cfg.fupDownloadThrottleRate);
            var up := Check(c.uploadQuota, c.counters.outgoing, c.uploadRate, cfg.fupUploadThrottleRate);
            Fate(c, now, cfg)
            == match c.state
               case Preauthenticated =>
                 if cfg.preauthIdleSecs > 0 && idleSecs >= cfg.preauthIdleSecs then None else Some(Preauthenticated)
               case Authenticated =>
                 if c.sessionEnd > 0 && now >= c.sessionEnd then None
                 else if down == Remove then None
                 else if down == Slow then Some(AuthBlocked)
                 else if up == Remove then None
                 else if up == Slow then Some(AuthBlocked)
                 else if cfg.authIdleSecs > 0 && idleSecs >= cfg.authIdleSecs then None
                 else Some(Authenticated)
               case AuthBlocked => Some(AuthBlocked)
               case Trusted => Some(Trusted)
  {
    hide CutOffDue, ThrottleDue;
    DueExact(c, cfg);
  }

  // ---- the bytes of a window --------------------------------------------------------------------

  /** A new window starts from the totals there are. */
  predicate StartedFrom(k: Counters, k': Counters) {
    k' == k.(inWindowStart := k.incoming, outWindowStart := k.outgoing)
  }

  lemma LimitersKeep(x: Cell, enable: bool, cfg: Config)
    ensures OnlyLimits(x.c, LimitDownload(x, enable, cfg).c) && OnlyLimits(x.c, LimitUpload(x, enable, cfg).c)
  {
    hide DownloadLimit, UploadLimit;
  }

  lemma ExceedKeeps(x: Cell, cfg: Config)
    ensures OnlyLimits(x.c, Exceed(x, cfg).c)
  {
    hide LimitDownload, LimitUpload, Flipped;
    LimitersKeep(x, true, cfg);
    LimitersKeep(ExceedDownload(x, cfg), true, cfg);
  }

  lemma ExpireDownloadKeeps(x: Cell, cfg: Config)
    ensures OnlyLimits(x.c, ExpireDownload(x, cfg).c)
  {
    hide LimitDownload, Flipped;
    LimitersKeep(x, false, cfg);
    LimitersKeep(LimitDownload(x, false, cfg), true, cfg);
  }

  lemma ExpireUploadKeeps(x: Cell, cfg: Config)
    ensures OnlyLimits(x.c, ExpireUpload(x, cfg).c)
  {
    hide LimitUpload, Flipped;
    LimitersKeep(x, false, cfg);
    LimitersKeep(LimitUpload(x, false, cfg), true, cfg);
  }

  /** A rate check changes the window, the measured rates and the limits, and no other field. It counts nothing, and
      where it ends a window the next one starts from the totals. */
  lemma WindowBytes(x: Cell, now: int, cfg: Config)
    ensures var c, d := x.c, CheckRates(x, now, cfg).c;
            && (if c.windowCounter > 1 then d.counters == c.counters else StartedFrom(c.counters, d.counters))
            && OnlyLimits(c.(windowStart := d.windowStart, windowCounter := d.windowCounter, counters := d.counters,
                             uprate := d.uprate, downrate := d.downrate), d)
  {
    hide Exceed, ExpireDownload, ExpireUpload, AverageRate;
    var a := x.(c := Measure(x.c, now));
    var y := Exceed(a, cfg);
    ExceedKeeps(a, cfg);
    var w := y.(c := StartWindow(y.c, now, cfg));
    ExpireDownloadKeeps(w, cfg);
    ExpireUploadKeeps(ExpireDownload(w, cfg), cfg);
  }
}
