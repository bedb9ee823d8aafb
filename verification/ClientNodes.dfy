/** The client node as the C code has it: fields updated in place. */
module ClientNodes {
  import opened Basics
  import opened Clients
  import opened Firewall
  import opened RateLimit
  import opened CounterRefresh
  import S = Session

  class Client {
    const id: nat
    const ip: string
    const mac: string
    var next: Client?
    var refcount: nat
    var dead: bool
    var state: Mark
    var sessionStart: int
    var sessionEnd: int
    var sessionEndExplicit: bool
    var windowStart: int
    var windowCounter: int
    var rateExceeded: bv32
    var counters: Counters
    var uploadRate: U64
    var downloadRate: U64
    var uprate: U64
    var downrate: U64
    var uploadQuota: U64
    var downloadQuota: U64
    var downloadBucketSize: U64
    var uploadBucketSize: U64
    var incPacketLimit: U64
    var outPacketLimit: U64
    ghost var downloadLimiting: bool
    ghost var uploadLimiting: bool

    /** The value of the node, without its links and its reference count. */
    ghost function Info(): (c: ClientInfo)
      reads this
      ensures c.id == id && c.ip == ip && c.mac == mac && c.state == state
    {
      ClientInfo(id, ip, mac, state, sessionStart, sessionEnd, sessionEndExplicit, windowStart, windowCounter,
                 rateExceeded, counters, uploadRate, downloadRate, uprate, downrate, uploadQuota, downloadQuota,
                 downloadBucketSize, uploadBucketSize, incPacketLimit, outPacketLimit, downloadLimiting, uploadLimiting)
    }

    /** Links and reference counts are no part of the value. */
    twostate lemma InfoUnchanged()
      requires unchanged(this`state, this`sessionStart, this`sessionEnd, this`sessionEndExplicit, this`windowStart,
                         this`windowCounter, this`rateExceeded, this`counters, this`uploadRate, this`downloadRate,
                         this`uprate, this`downrate, this`uploadQuota, this`downloadQuota, this`downloadBucketSize,
                         this`uploadBucketSize, this`incPacketLimit, this`outPacketLimit, this`downloadLimiting,
                         this`uploadLimiting)
      ensures Info() == old(Info())
    {
    }

    constructor (id: nat, mac: string, ip: string, trusted: bool, at: int)
      ensures Info() == S.NewClient(id, mac, ip, trusted, at)
      ensures this.id == id && next == null && refcount == 0 && !dead
    {
      this.id, this.mac, this.ip := id, mac, ip;
      next, refcount, dead := null, 0, false;
      state := if trusted then Trusted else Preauthenticated;
      sessionStart, sessionEnd, sessionEndExplicit := 0, 0, false;
      windowStart, windowCounter, rateExceeded := 0, 0, 0;
      counters := Counters(0, 0, 0, 0, 0, 0, 0, 0, 0, 0, at);
      uploadRate, downloadRate, uprate, downrate, uploadQuota, downloadQuota := 0, 0, 0, 0, 0, 0;
      downloadBucketSize, uploadBucketSize, incPacketLimit, outPacketLimit := 0, 0, 0, 0;
      downloadLimiting, uploadLimiting := false, false;
    }

    /** The limit `iptables_download_ratelimit_enable` computes before the caps. */
    method AverageDownload() returns (packetLimit: U64, bucket: U64)
      ensures Limit(packetLimit, bucket) == RawDownloadLimit(Info())
    {
      hide PacketsPerMinute, AveragePacket, Wrap, Div;
      if counters.incoming == 0
         || counters.inpackets == 0
         || Wrap(counters.incoming - counters.incomingPrevious) == 0
         || Wrap(counters.inpackets - counters.inpacketsPrevious) == 0 {
        packetLimit := PacketsPerMinute(downloadRate, 1500);
        bucket := 5;
      } else {
        var average := AveragePacket(counters.incoming, counters.incomingPrevious, counters.inpackets,
                                     counters.inpacketsPrevious);
        var raw := MeasuredLimit(downloadRate, downrate, average);
        packetLimit, bucket := raw.packetLimit, raw.bucket;
      }
    }

    /** The same for `iptables_upload_ratelimit_enable`. */
    method AverageUpload() returns (packetLimit: U64, bucket: U64)
      ensures Limit(packetLimit, bucket) == RawUploadLimit(Info())
    {
      hide PacketsPerMinute, AveragePacket, Wrap, Div;
      if counters.outgoing == 0 || counters.outpackets == 0
          || Wrap(counters.outgoing - counters.outgoingPrevious) == 0 {
        packetLimit := PacketsPerMinute(uploadRate, 1500);
        bucket := 5;
      } else {
        var average := AveragePacket(counters.outgoing, counters.outgoingPrevious, counters.outpackets,
                                     counters.outpacketsPrevious);
        var raw := MeasuredLimit(uploadRate, uprate, average);
        packetLimit, bucket := raw.packetLimit, raw.bucket;
      }
    }

    /** The caps both directions apply, one after the other. */
    static method Cap(rawLimit: U64, rawBucket: U64, ratio: U64, maxBucket: U64) returns (packetLimit: U64, bucket: U64)
      ensures Limit(packetLimit, bucket) == Capped(Limit(rawLimit, rawBucket), ratio, maxBucket)
    {
      hide Wrap;
      packetLimit := rawLimit;
      bucket := Wrap(rawBucket * ratio);
      if bucket < 5 {
        bucket := 5;
      }
      if packetLimit > 300000 {
        packetLimit := 300000;
      }
      if bucket > maxBucket {
        bucket := maxBucket;
      }
    }

    method StartWindow(now: int, cfg: Config)
      modifies this`windowStart, this`windowCounter, this`counters
      ensures Info() == S.StartWindow(old(Info()), now, cfg)
    {
      windowStart := now;
      windowCounter := cfg.rateCheckWindow;
      counters := counters.(inWindowStart := counters.incoming);
      counters := counters.(outWindowStart := counters.outgoing);
    }

    method ZeroCounters()
      modifies this`counters
      ensures Info() == S.Zeroed(old(Info()))
    {
      counters := counters.(incoming := 0, incomingPrevious := 0, outgoing := 0, outgoingPrevious := 0,
                            inpackets := 0, inpacketsPrevious := 0, outpackets := 0, outpacketsPrevious := 0);
    }

    method GrantRates(up: S.I64, down: S.I64, cfg: Config)
      modifies this`uploadRate, this`downloadRate
      ensures Info() == S.WithRates(old(Info()), up, down, cfg)
    {
      if up > 0 {
        uploadRate := up;
      } else if uploadRate == 0 {
        uploadRate := cfg.uploadRate;
      }
      if down > 0 {
        downloadRate := down;
      } else if downloadRate == 0 {
        downloadRate := cfg.downloadRate;
      }
    }

    method GrantQuotas(up: S.I64, down: S.I64, cfg: Config)
      modifies this`uploadQuota, this`downloadQuota
      ensures Info() == S.WithQuotas(old(Info()), up, down, cfg)
    {
      if up > 0 {
        uploadQuota := up;
      } else if uploadQuota == 0 {
        uploadQuota := cfg.uploadQuota;
      }
      if down > 0 {
        downloadQuota := down;
      } else if downloadQuota == 0 {
        downloadQuota := cfg.downloadQuota;
      }
    }

    /** The parameters granted by an authentication, in the order they are set. */
    method Grant(explicitEnd: bool, inp: S.ChangeInput, cfg: Config)
      modifies this`counters, this`sessionEnd, this`uploadRate, this`downloadRate, this`uploadQuota,
               this`downloadQuota, this`windowStart, this`windowCounter
      ensures Info() == S.Granted(old(Info()), explicitEnd, inp, cfg)
    {
      hide S.Zeroed, S.WithRates, S.WithQuotas, S.StartWindow;
      var q := if inp.quota.Some? then inp.quota.value else S.Quota(0, 0, 0, 0, 0);
      ZeroCounters();
      if q.session > 0 && !explicitEnd {
        SetSessionEnd(inp.now + 60 * q.session);
      }
      GrantRates(q.uprate, q.downrate, cfg);
      GrantQuotas(q.upquota, q.downquota, cfg);
      StartWindow(inp.now, cfg);
    }

    method SetSessionEnd(end: int)
      modifies this`sessionEnd
      ensures Info() == old(Info()).(sessionEnd := end)
    {
      sessionEnd := end;
    }

    method CountLine(dir: Direction, line: Line, at: int)
      modifies this`counters
      ensures Info() == old(Info()).(counters := Count(old(counters), dir, line, at))
    {
      if dir == Upload {
        if counters.outgoing < line.bytes {
          counters := counters.(outgoingPrevious := counters.outgoing);
          counters := counters.(outgoing := line.bytes);
          counters := counters.(outpacketsPrevious := counters.outpackets);
          counters := counters.(outpackets := line.packets);
          counters := counters.(lastUpdated := at);
        }
      } else {
        if counters.incoming < line.bytes {
          counters := counters.(incomingPrevious := counters.incoming);
          counters := counters.(incoming := line.bytes);
          counters := counters.(inpacketsPrevious := counters.inpackets);
          counters := counters.(inpackets := line.packets);
        }
      }
    }

    method MeasureRates(now: int)
      modifies this`downrate, this`uprate
      ensures Info() == S.Measure(old(Info()), now)
    {
      var durationSecs := Wrap((now - windowStart) + 1);
      var downloadBytes := Wrap(counters.incoming - counters.inWindowStart);
      var uploadBytes := Wrap(counters.outgoing - counters.outWindowStart);
      SetMeasured(AverageRate(uploadBytes, durationSecs), AverageRate(downloadBytes, durationSecs));
    }

    method SetRates(up: U64, down: U64)
      modifies this`uploadRate, this`downloadRate
      ensures Info() == old(Info()).(uploadRate := up, downloadRate := down)
    {
      uploadRate, downloadRate := up, down;
    }

    method SetQuotas(up: U64, down: U64)
      modifies this`uploadQuota, this`downloadQuota
      ensures Info() == old(Info()).(uploadQuota := up, downloadQuota := down)
    {
      uploadQuota, downloadQuota := up, down;
    }

    method SetSession(start: int, end: int)
      modifies this`sessionStart, this`sessionEnd
      ensures Info() == old(Info()).(sessionStart := start, sessionEnd := end)
    {
      sessionStart, sessionEnd := start, end;
    }

    method ApplyPreset(p: S.Preset)
      modifies this`sessionStart, this`sessionEnd, this`sessionEndExplicit, this`uploadRate, this`downloadRate,
               this`uploadQuota, this`downloadQuota
      ensures Info() == S.WithPreset(old(Info()), p)
    {
      SetSession(p.start, p.end);
      if p.explicitEnd.Some? {
        sessionEndExplicit := p.explicitEnd.value;
      }
      SetRates(p.uploadRate, p.downloadRate);
      SetQuotas(p.uploadQuota, p.downloadQuota);
    }

    method SetDownloadLimit(packetLimit: U64, bucket: U64)
      modifies this`incPacketLimit, this`downloadBucketSize
      ensures Info() == old(Info()).(incPacketLimit := packetLimit, downloadBucketSize := bucket)
    {
      incPacketLimit, downloadBucketSize := packetLimit, bucket;
    }

    method SetUploadLimit(packetLimit: U64, bucket: U64)
      modifies this`outPacketLimit, this`uploadBucketSize
      ensures Info() == old(Info()).(outPacketLimit := packetLimit, uploadBucketSize := bucket)
    {
      outPacketLimit, uploadBucketSize := packetLimit, bucket;
    }

    method SetMeasured(up: U64, down: U64)
      modifies this`uprate, this`downrate
      ensures Info() == old(Info()).(uprate := up, downrate := down)
    {
      uprate, downrate := up, down;
    }

    method SetBits(bits: bv32)
      modifies this`rateExceeded
      ensures Info() == old(Info()).(rateExceeded := bits)
    {
      rateExceeded := bits;
    }

    method SetWindowCounter(left: int)
      modifies this`windowCounter
      ensures Info() == old(Info()).(windowCounter := left)
    {
      windowCounter := left;
    }

    method SetState(mark: Mark)
      modifies this`state
      ensures Info() == old(Info()).(state := mark)
    {
      state := mark;
    }

    method Clear(start: int, end: int)
      modifies this`sessionStart, this`sessionEnd, this`windowCounter, this`rateExceeded, this`uploadRate,
               this`downloadRate, this`uprate, this`downrate, this`uploadQuota, this`downloadQuota,
               this`downloadBucketSize, this`uploadBucketSize, this`incPacketLimit, this`outPacketLimit
      ensures Info() == S.Cleared(old(Info()), start, end)
    {
      SetWindowCounter(0);
      SetBits(0);
      SetDownloadLimit(0, 0);
      SetUploadLimit(0, 0);
      SetRates(0, 0);
      SetMeasured(0, 0);
      SetQuotas(0, 0);
      SetSession(start, end);
    }

    ghost method NoteDownload(enable: bool)
      modifies this`downloadLimiting
      ensures Info() == old(Info()).(downloadLimiting := enable)
    {
      downloadLimiting := enable;
    }

    ghost method NoteUpload(enable: bool)
      modifies this`uploadLimiting
      ensures Info() == old(Info()).(uploadLimiting := enable)
    {
      uploadLimiting := enable;
    }

    /** `iptables_download_ratelimit_enable`, as far as the node is concerned. */
    method LimitDownload(enable: bool, cfg: Config)
      modifies this`incPacketLimit, this`downloadBucketSize, this`downloadLimiting
      ensures forall fw :: Info() == S.LimitDownload(S.Cell(old(Info()), fw), enable, cfg).c
    {
      hide RawDownloadLimit, Capped;
      if downloadRate == 0 {
        NoteDownload(enable);
        return;
      }
      var packetLimit, bucket := AverageDownload();
      packetLimit, bucket := Cap(packetLimit, bucket, cfg.downloadBucketRatio, cfg.maxDownloadBucketSize);
      if !enable {
        SetDownloadLimit(0, 0);
      }
      if enable {
        SetDownloadLimit(packetLimit, bucket);
      }
      NoteDownload(enable);
    }

    method LimitUpload(enable: bool, cfg: Config)
      modifies this`outPacketLimit, this`uploadBucketSize, this`uploadLimiting
      ensures forall fw :: Info() == S.LimitUpload(S.Cell(old(Info()), fw), enable, cfg).c
    {
      hide RawUploadLimit, Capped;
      if uploadRate == 0 {
        NoteUpload(enable);
        return;
      }
      var packetLimit, bucket := AverageUpload();
      packetLimit, bucket := Cap(packetLimit, bucket, cfg.uploadBucketRatio, cfg.maxUploadBucketSize);
      if !enable {
        SetUploadLimit(0, 0);
      }
      if enable {
        SetUploadLimit(packetLimit, bucket);
      }
      NoteUpload(enable);
    }

    method SetExplicitEnd(explicitEnd: bool)
      modifies this`sessionEndExplicit
      ensures Info() == old(Info()).(sessionEndExplicit := explicitEnd)
    {
      sessionEndExplicit := explicitEnd;
    }

    method SetRate(dir: Direction, rate: U64)
      modifies this`uploadRate, this`downloadRate
      ensures Info() == S.WithRate(old(Info()), dir, rate)
    {
      if dir == Download {
        SetRates(uploadRate, rate);
      } else {
        SetRates(rate, downloadRate);
      }
    }
  }
}
