/** The four nftables chains that hold per-client rules, as ordered lists of rules.
    `insert rule` puts a rule at the head of a chain and `add rule` at its tail. */
module Firewall {
  import opened Basics

  datatype Verdict = SetMark | Return | Drop

  /** `limit rate <packetLimit>/minute burst <bucket> packets` */
  datatype Limit = Limit(packetLimit: U64, bucket: U64)

  datatype Rule = Rule(ip: string, mac: Option<string>, verdict: Verdict, limit: Option<Limit>)

  datatype Chains = Chains(
    outgoing: seq<Rule>,      // ndsOUT
    uploadRate: seq<Rule>,    // ndsULR
    incoming: seq<Rule>,      // ndsINC
    downloadRate: seq<Rule>)  // ndsDLR

  const EMPTY := Chains([], [], [], [])

  function RulesFor(chain: seq<Rule>, ip: string): seq<Rule> {
    if chain == [] then []
    else if chain[0].ip == ip then [chain[0]] + RulesFor(chain[1..], ip)
    else RulesFor(chain[1..], ip)
  }

  /** `delete_client_rule <chain> all <ip>` */
  function Without(chain: seq<Rule>, ip: string): seq<Rule> {
    if chain == [] then []
    else if chain[0].ip == ip then Without(chain[1..], ip)
    else [chain[0]] + Without(chain[1..], ip)
  }

  /** `replace_client_rule <chain> return <ip> ...`: every return rule for the address is replaced in place. */
  function ReplaceReturn(chain: seq<Rule>, ip: string, limit: Option<Limit>): seq<Rule> {
    if chain == [] then []
    else
      [if chain[0].ip == ip && chain[0].verdict == Return then Rule(ip, None, Return, limit) else chain[0]]
      + ReplaceReturn(chain[1..], ip, limit)
  }

  /** The six rules of an authenticated client. */
  function Authenticate(fw: Chains, ip: string, mac: string): Chains {
    Chains(
      [Rule(ip, Some(mac), SetMark, None)] + fw.outgoing,
      fw.uploadRate + [Rule(ip, None, Return, None)] + [Rule(ip, None, Drop, None)],
      [Rule(ip, None, SetMark, None)] + fw.incoming,
      fw.downloadRate + [Rule(ip, None, Return, None)] + [Rule(ip, None, Drop, None)])
  }

  function Deauthenticate(fw: Chains, ip: string): Chains {
    Chains(Without(fw.outgoing, ip), Without(fw.uploadRate, ip),
           Without(fw.incoming, ip), Without(fw.downloadRate, ip))
  }

  function ReplaceDownload(fw: Chains, ip: string, limit: Option<Limit>): Chains {
    fw.(downloadRate := ReplaceReturn(fw.downloadRate, ip, limit))
  }

  function ReplaceUpload(fw: Chains, ip: string, limit: Option<Limit>): Chains {
    fw.(uploadRate := ReplaceReturn(fw.uploadRate, ip, limit))
  }

  /** What the chains hold for one address, in chain order. */
  function View(fw: Chains, ip: string): Chains {
    Chains(RulesFor(fw.outgoing, ip), RulesFor(fw.uploadRate, ip),
           RulesFor(fw.incoming, ip), RulesFor(fw.downloadRate, ip))
  }

  /** `rule` is installed in some chain. */
  predicate Installed(fw: Chains, rule: Rule) {
    rule in fw.outgoing || rule in fw.uploadRate || rule in fw.incoming || rule in fw.downloadRate
  }

  lemma {:induction false} RulesForConcat(a: seq<Rule>, b: seq<Rule>, ip: string)
    ensures RulesFor(a + b, ip) == RulesFor(a, ip) + RulesFor(b, ip)
  {
    if a == [] {
      assert a + b == b;
    } else {
      assert (a + b)[1..] == a[1..] + b;
      RulesForConcat(a[1..], b, ip);
    }
  }

  lemma {:induction false} RulesForWithout(chain: seq<Rule>, ip: string, other: string)
    ensures RulesFor(Without(chain, ip), other) == if other == ip then [] else RulesFor(chain, other)
  {
    if chain != [] {
      RulesForWithout(chain[1..], ip, other);
      if chain[0].ip != ip {
        RulesForConcat([chain[0]], Without(chain[1..], ip), other);
      }
    }
  }

  lemma {:induction false} RulesForReplace(chain: seq<Rule>, ip: string, limit: Option<Limit>, other: string)
    ensures RulesFor(ReplaceReturn(chain, ip, limit), other)
            == if other == ip then ReplaceReturn(RulesFor(chain, ip), ip, limit) else RulesFor(chain, other)
  {
    if chain != [] {
      var rest := ReplaceReturn(chain[1..], ip, limit);
      assert ReplaceReturn(chain, ip, limit)[1..] == rest;
      RulesForReplace(chain[1..], ip, limit, other);
      if other == ip && chain[0].ip == ip {
        assert RulesFor(chain, ip)[1..] == RulesFor(chain[1..], ip);
      }
    }
  }

  lemma {:induction false} RulesForMember(chain: seq<Rule>, rule: Rule)
    ensures rule in chain <==> rule in RulesFor(chain, rule.ip)
  {
    if chain != [] {
      RulesForMember(chain[1..], rule);
      assert chain == [chain[0]] + chain[1..];
    }
  }

  /** An installed rule is visible in the view of its own address, and only there. */
  lemma InstalledIffInView(fw: Chains, rule: Rule)
    ensures Installed(fw, rule) <==> Installed(View(fw, rule.ip), rule)
  {
    RulesForMember(fw.outgoing, rule);
    RulesForMember(fw.uploadRate, rule);
    RulesForMember(fw.incoming, rule);
    RulesForMember(fw.downloadRate, rule);
  }

  /** Authenticating touches one address only; there it puts the mark rules first and, in both
      rate chains, the return rule before the drop rule and after everything already there. */
  lemma ViewAuthenticate(fw: Chains, ip: string, mac: string, other: string)
    ensures View(Authenticate(fw, ip, mac), other)
            == if other == ip then Authenticate(View(fw, ip), ip, mac) else View(fw, other)
  {
    RulesForConcat([Rule(ip, Some(mac), SetMark, None)], fw.outgoing, other);
    RulesForConcat([Rule(ip, None, SetMark, None)], fw.incoming, other);
    var r, d := [Rule(ip, None, Return, None)], [Rule(ip, None, Drop, None)];
    RulesForConcat(fw.uploadRate + r, d, other);
    RulesForConcat(fw.uploadRate, r, other);
    RulesForConcat(fw.downloadRate + r, d, other);
    RulesForConcat(fw.downloadRate, r, other);
  }

  lemma ViewDeauthenticate(fw: Chains, ip: string, other: string)
    ensures View(Deauthenticate(fw, ip), other) == if other == ip then EMPTY else View(fw, other)
  {
    RulesForWithout(fw.outgoing, ip, other);
    RulesForWithout(fw.uploadRate, ip, other);
    RulesForWithout(fw.incoming, ip, other);
    RulesForWithout(fw.downloadRate, ip, other);
  }

  lemma ViewReplaceDownload(fw: Chains, ip: string, limit: Option<Limit>, other: string)
    ensures View(ReplaceDownload(fw, ip, limit), other)
            == if other == ip then ReplaceDownload(View(fw, ip), ip, limit) else View(fw, other)
  {
    RulesForReplace(fw.downloadRate, ip, limit, other);
  }

  lemma ViewReplaceUpload(fw: Chains, ip: string, limit: Option<Limit>, other: string)
    ensures View(ReplaceUpload(fw, ip, limit), other)
            == if other == ip then ReplaceUpload(View(fw, ip), ip, limit) else View(fw, other)
  {
    RulesForReplace(fw.uploadRate, ip, limit, other);
  }
}
