/** The trusted MAC list of conf.c: a linked list relinked in place, and the set it stands for. */
module TrustedMacs {
  import opened Clients
  import opened MacLists

  // ---- the list as a value ----------------------------------------------------------------------

  /** The position of a MAC on the list, compared without case, or the list's length. */
  function Find(macs: seq<string>, mac: string): (i: nat)
    ensures i <= |macs|
    ensures i < |macs| ==> Lower(macs[i]) == Lower(mac)
    ensures forall j :: 0 <= j < i ==> Lower(macs[j]) != Lower(mac)
  {
    if macs == [] then 0 else if Lower(macs[0]) == Lower(mac) then 0 else 1 + Find(macs[1..], mac)
  }

  lemma FindUnique(macs: seq<string>, mac: string, i: nat)
    requires i <= |macs|
    requires i < |macs| ==> Lower(macs[i]) == Lower(mac)
    requires forall j :: 0 <= j < i ==> Lower(macs[j]) != Lower(mac)
    ensures Find(macs, mac) == i
  {
  }

  /** `add_to_trusted_mac_list`: a new MAC goes to the head, in lower case. */
  function Add(macs: seq<string>, mac: string): (seq<string>, int) {
    if !MacFormat(mac) || Find(macs, mac) < |macs| then (macs, 1) else ([Lower(mac)] + macs, 0)
  }

  /** `remove_from_trusted_mac_list` */
  function Remove(macs: seq<string>, mac: string): (seq<string>, int) {
    var i := Find(macs, mac);
    if !MacFormat(mac) || i == |macs| then (macs, -1) else (macs[..i] + macs[i + 1..], 0)
  }

  // ---- the linked list --------------------------------------------------------------------------

  class Node {
    const mac: string
    var next: Node?

    constructor (mac: string, next: Node?)
      ensures this.mac == mac && this.next == next
    {
      this.mac, this.next := mac, next;
    }
  }

  class Config {
    var trustedmaclist: Node?
    ghost var nodes: seq<Node>

    ghost predicate Valid()
      reads this, nodes
    {
      && (forall i, j :: 0 <= i < j < |nodes| ==> nodes[i] != nodes[j])
      && trustedmaclist == At(0)
      && forall i :: 0 <= i < |nodes| ==> nodes[i].next == At(i + 1)
    }

    ghost function At(i: nat): Node?
      reads this
    {
      if i < |nodes| then nodes[i] else null
    }

    ghost function Macs(): (r: seq<string>)
      reads this
      ensures |r| == |nodes| && forall i :: 0 <= i < |nodes| ==> r[i] == nodes[i].mac
    {
      seq(|nodes|, i requires 0 <= i < |nodes| reads this => nodes[i].mac)
    }

    constructor ()
      ensures Valid() && Macs() == []
    {
      trustedmaclist := null;
      nodes := [];
    }

    /** `check_mac_format` */
    static method CheckMacFormat(possiblemac: string) returns (ok: bool)
      ensures ok <==> MacFormat(possiblemac)
    {
      if |possiblemac| != 17 {
        return false;
      }
      for i := 0 to 17
        invariant forall j :: 0 <= j < i ==> if j % 3 == 2 then possiblemac[j] == ':' else IsHexDigit(possiblemac[j])
      {
        if i % 3 == 2 {
          if possiblemac[i] != ':' {
            return false;
          }
        } else if !IsHexDigit(possiblemac[i]) {
          return false;
        }
      }
      return true;
    }

    /** Add MAC to head of list. */
    method Link(mac: string)
      requires Valid()
      modifies this
      ensures Valid() && Macs() == [mac] + old(Macs())
    {
      var p := new Node(mac, trustedmaclist);
      trustedmaclist := p;
      nodes := [p] + nodes;
      assert forall i :: 0 < i < |nodes| ==> nodes[i] == old(nodes)[i - 1];
    }

    lemma Next(k: nat)
      requires Valid() && k < |nodes|
      ensures |Macs()| == |nodes| && nodes[k].mac == Macs()[k] && nodes[k].next == At(k + 1)
    {
    }

    method AddToTrustedMacList(possiblemac: string) returns (rc: int)
      requires Valid()
      modifies this
      ensures Valid() && (Macs(), rc) == Add(old(Macs()), possiblemac)
    {
      hide MacFormat, Valid, Macs, Lower;
      var ok := CheckMacFormat(possiblemac);
      if !ok {
        return 1;
      }
      var mac := Lower(possiblemac);
      LowerIdempotent(possiblemac);
      var p := First();
      ghost var k := 0;
      while p != null
        invariant Valid() && nodes == old(nodes) && Macs() == old(Macs())
        invariant k <= |nodes| == |Macs()| && p == At(k)
        invariant forall j :: 0 <= j < k ==> Lower(Macs()[j]) != Lower(possiblemac)
        decreases |nodes| - k
      {
        Next(k);
        if Lower(p.mac) == Lower(mac) {
          FindUnique(Macs(), possiblemac, k);
          return 1;
        }
        p := p.next;
        k := k + 1;
      }
      FindUnique(Macs(), possiblemac, k);
      Link(mac);
      return 0;
    }

    method First() returns (p: Node?)
      requires Valid()
      ensures p == trustedmaclist == At(0) && |Macs()| == |nodes|
    {
      p := trustedmaclist;
    }

    /** `*p = del->next`: the link that led to `del`, in the node before it or in the list head, leads past it. */
    method Unlink(prev: Node?, del: Node, ghost k: nat)
      requires Valid() && k < |nodes| && del == nodes[k] && prev == if k == 0 then null else nodes[k - 1]
      modifies this, nodes
      ensures Valid() && k < |old(Macs())| && Macs() == old(Macs())[..k] + old(Macs())[k + 1..]
    {
      ghost var was, macs := nodes, Macs();
      if prev == null {
        trustedmaclist := del.next;
      } else {
        prev.next := del.next;
      }
      nodes := was[..k] + was[k + 1..];
      Shape(was, k);
      assert Valid();
      Spliced(was, macs, k);
    }

    lemma Shape(was: seq<Node>, k: nat)
      requires k < |was| && nodes == was[..k] + was[k + 1..]
      ensures |nodes| == |was| - 1
      ensures forall i :: 0 <= i < |nodes| ==> nodes[i] == was[if i < k then i else i + 1]
    {
    }

    lemma Spliced(was: seq<Node>, macs: seq<string>, k: nat)
      requires k < |was| == |macs| && nodes == was[..k] + was[k + 1..]
      requires forall i :: 0 <= i < |was| ==> macs[i] == was[i].mac
      ensures Macs() == macs[..k] + macs[k + 1..]
    {
      Shape(was, k);
    }

    /** The pointer-to-pointer walk: `prev` is the node whose link is looked at, or null for the list head. */
    method RemoveFromTrustedMacList(possiblemac: string) returns (rc: int)
      requires Valid()
      modifies this, nodes
      ensures Valid() && (Macs(), rc) == Remove(old(Macs()), possiblemac)
    {
      hide MacFormat, Valid, Macs, Lower;
      var ok := CheckMacFormat(possiblemac);
      if !ok {
        return -1;
      }
      var prev: Node? := null;
      var del := First();
      if del == null {
        FindUnique(Macs(), possiblemac, 0);
        return -1;
      }
      ghost var k := 0;
      while del != null
        invariant Valid() && nodes == old(nodes) && Macs() == old(Macs())
        invariant k <= |nodes| == |Macs()| && del == At(k) && prev == if k == 0 then null else nodes[k - 1]
        invariant forall j :: 0 <= j < k ==> Lower(Macs()[j]) != Lower(possiblemac)
        decreases |nodes| - k
      {
        Next(k);
        if Lower(del.mac) == Lower(possiblemac) {
          FindUnique(Macs(), possiblemac, k);
          Unlink(prev, del, k);
          return 0;
        }
        prev := del;
        del := del.next;
        k := k + 1;
      }
      FindUnique(Macs(), possiblemac, k);
      return -1;
    }

    method IsTrustedMac(mac: string) returns (found: bool)
      requires Valid()
      ensures found <==> IsTrusted(Macs(), mac)
    {
      var trustMac := trustedmaclist;
      found := false;
      ghost var k := 0;
      while trustMac != null
        invariant k <= |nodes| && trustMac == At(k) && !found
        invariant forall j :: 0 <= j < k ==> Lower(Macs()[j]) != Lower(mac)
        decreases |nodes| - k
      {
        if Lower(trustMac.mac) == Lower(mac) {
          assert Lower(Macs()[k]) == Lower(mac);
          return true;
        }
        trustMac := trustMac.next;
        k := k + 1;
      }
    }
  }

  // ---- what the list stands for -----------------------------------------------------------------

  datatype Op = AddOp(mac: string) | RemoveOp(mac: string)

  function Step(macs: seq<string>, op: Op): (seq<string>, int) {
    match op
    case AddOp(mac) => Add(macs, mac)
    case RemoveOp(mac) => Remove(macs, mac)
  }

  function Run(ops: seq<Op>): seq<string> {
    if ops == [] then [] else Step(Run(ops[..|ops| - 1]), ops[|ops| - 1]).0
  }

  /** The set of trusted MACs, in lower case. */
  function Trusted(macs: seq<string>): set<string> {
    set i | 0 <= i < |macs| :: Lower(macs[i])
  }

  /** Well-formed lower-case MACs, none of them twice. */
  predicate Tidy(macs: seq<string>) {
    && (forall i :: 0 <= i < |macs| ==> MacFormat(macs[i]) && Lower(macs[i]) == macs[i])
    && forall i, j :: 0 <= i < j < |macs| ==> macs[i] != macs[j]
  }

  lemma LowerFormat(mac: string)
    requires MacFormat(mac)
    ensures MacFormat(Lower(mac))
  {
  }

  lemma StepTidy(macs: seq<string>, op: Op)
    requires Tidy(macs)
    ensures Tidy(Step(macs, op).0)
  {
    LowerIdempotent(op.mac);
    if op.AddOp? && MacFormat(op.mac) {
      LowerFormat(op.mac);
    }
  }

  /** No run of additions and removals lists a MAC twice, in any case. */
  lemma {:induction false} RunTidy(ops: seq<Op>)
    ensures Tidy(Run(ops))
  {
    if ops != [] {
      RunTidy(ops[..|ops| - 1]);
      StepTidy(Run(ops[..|ops| - 1]), ops[|ops| - 1]);
    }
  }

  /** On a reachable list the operations are those of a set: the result is 0 exactly when the set changes, a
      malformed MAC changes nothing, and the test is membership. */
  lemma SetRefinement(ops: seq<Op>, op: Op)
    ensures var macs := Run(ops);
            var (next, rc) := Step(macs, op);
            && Trusted(next) == (if !MacFormat(op.mac) then Trusted(macs)
                                 else if op.AddOp? then Trusted(macs) + {Lower(op.mac)}
                                 else Trusted(macs) - {Lower(op.mac)})
            && (rc == 0 <==> Trusted(next) != Trusted(macs))
            && (rc != 0 ==> next == macs)
  {
    var macs := Run(ops);
    RunTidy(ops);
    LowerIdempotent(op.mac);
    var i := Find(macs, op.mac);
    if op.AddOp? {
      AddedSet(macs, Lower(op.mac));
    } else if i < |macs| {
      RemovedSet(macs, i);
    }
    Membership(macs, op.mac);
  }

  lemma AddedSet(macs: seq<string>, mac: string)
    requires Lower(mac) == mac
    ensures Trusted([mac] + macs) == Trusted(macs) + {mac}
  {
    var next := [mac] + macs;
    assert next[0] == mac;
    forall x | x in Trusted(macs)
      ensures x in Trusted(next)
    {
      var i :| 0 <= i < |macs| && Lower(macs[i]) == x;
      assert next[i + 1] == macs[i];
    }
  }

  lemma RemovedSet(macs: seq<string>, i: nat)
    requires Tidy(macs) && i < |macs|
    ensures Trusted(macs[..i] + macs[i + 1..]) == Trusted(macs) - {macs[i]}
  {
    hide MacFormat, Lower;
    var next := macs[..i] + macs[i + 1..];
    forall x | x in Trusted(macs) - {macs[i]}
      ensures x in Trusted(next)
    {
      var k :| 0 <= k < |macs| && Lower(macs[k]) == x;
      assert next[if k < i then k else k - 1] == macs[k];
    }
    forall x | x in Trusted(next)
      ensures x in Trusted(macs) && x != macs[i]
    {
      var k :| 0 <= k < |next| && Lower(next[k]) == x;
      assert next[k] == macs[if k < i then k else k + 1];
    }
  }

  lemma Membership(macs: seq<string>, mac: string)
    ensures IsTrusted(macs, mac) <==> Lower(mac) in Trusted(macs)
    ensures IsTrusted(macs, mac) <==> Find(macs, mac) < |macs|
  {
  }

  /** Removing a MAC just added, spelled in any case, restores the list; the other MACs never change places. */
  lemma RemoveUndoesAdd(macs: seq<string>, mac: string, again: string)
    requires Add(macs, mac).1 == 0 && Lower(again) == Lower(mac) && MacFormat(again)
    ensures Remove(Add(macs, mac).0, again) == (macs, 0)
  {
    LowerIdempotent(mac);
    var next := [Lower(mac)] + macs;
    FindUnique(next, again, 0);
    assert next[..0] + next[1..] == macs;
  }
}
