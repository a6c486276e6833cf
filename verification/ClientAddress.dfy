/** Which address a request is attributed to when it came through proxies. */
module ClientAddress {
  import opened Text

  /**
   * How addresses are read and trusted: parse gives the canonical text of an address, or None for
   * anything else, and trusted tells of a canonical text whether the configuration lists it.
   */
  datatype Network = Network(parse: string -> Option<string>, trusted: string -> bool)
  {
    /** Reading a canonical text gives the same text. */
    ghost predicate Valid() {
      forall s :: parse(s).Some? ==> parse(parse(s).value) == parse(s)
    }

    predicate Trusts(address: string) { parse(address).Some? && trusted(parse(address).value) }
  }

  /** The headers of a request that matter here, and the peer of its socket. */
  datatype Request = Request(peer: string, forwarded: string, realIp: string)

  /** Where the walk from the right stops: at the first hop that is malformed or not trusted. */
  function StopAt(net: Network, hops: seq<string>): (i: int)
    ensures -1 <= i < |hops|
    ensures i >= 0 ==> !GoesOn(net, hops[i])
    ensures forall j :: i < j < |hops| ==> GoesOn(net, hops[j])
  {
    if hops == [] then -1
    else if !GoesOn(net, hops[|hops| - 1]) then |hops| - 1
    else StopAt(net, hops[..|hops| - 1])
  }

  function ParseHop(net: Network, hop: string): Option<string> { net.parse(TrimSpace(hop)) }

  /** The hop is a trusted proxy, so the one before it is to be believed. */
  predicate GoesOn(net: Network, hop: string) {
    ParseHop(net, hop).Some? && net.trusted(ParseHop(net, hop).value)
  }

  /** What the hop the walk stops at stands for. */
  function Landed(net: Network, peer: string, hop: string): string {
    if ParseHop(net, hop).None? then peer else ParseHop(net, hop).value
  }

  /** The rightmost hop that is not a trusted proxy, the peer if it is malformed, the leftmost hop if there is none. */
  function Walked(net: Network, peer: string, hops: seq<string>): string
    requires hops != []
  {
    var i := StopAt(net, hops);
    if i < 0 then ParseHop(net, hops[0]).value else Landed(net, peer, hops[i])
  }

  function Attributed(net: Network, r: Request): string {
    if !net.Trusts(r.peer) then r.peer
    else if r.forwarded != "" then Walked(net, r.peer, Split(r.forwarded, ','))
    else if ParseHop(net, r.realIp).Some? then ParseHop(net, r.realIp).value
    else r.peer
  }

  method ClientIp(net: Network, r: Request) returns (address: string)
    requires net.Valid()
    ensures address == Attributed(net, r)
    ensures !net.Trusts(r.peer) ==> address == r.peer
  {
    if !net.Trusts(r.peer) { return r.peer; }
    if r.forwarded != "" {
      var hops := Split(r.forwarded, ',');
      var current, i := r.peer, |hops| - 1;
      while i >= 0 && net.Trusts(current)
        invariant -1 <= i < |hops|
        invariant i == |hops| - 1 ==> current == r.peer
        invariant i < |hops| - 1 ==> ParseHop(net, hops[i + 1]) == Some(current)
        invariant forall j :: i + 1 < j < |hops| ==> GoesOn(net, hops[j])
      {
        var hop := ParseHop(net, hops[i]);
        if hop.None? {
          StopIs(net, hops, i);
          return r.peer;
        }
        current := hop.value;
        i := i - 1;
      }
      if i == -1 && net.Trusts(current) {
        StopIs(net, hops, -1);
      } else {
        StopIs(net, hops, i + 1);
      }
      return current;
    }
    var direct := ParseHop(net, r.realIp);
    if direct.Some? { return direct.value; }
    return r.peer;
  }

  /** The stop is the only place with trusted hops to its right and none at it. */
  lemma StopIs(net: Network, hops: seq<string>, i: int)
    requires -1 <= i < |hops| && (i >= 0 ==> !GoesOn(net, hops[i]))
    requires forall j :: i < j < |hops| ==> GoesOn(net, hops[j])
    ensures StopAt(net, hops) == i
  {
    var k := StopAt(net, hops);
    assert k >= 0 ==> !GoesOn(net, hops[k]);
    assert i >= 0 ==> !GoesOn(net, hops[i]);
  }

  /** Hops put in front shift the stop and change nothing else, once there is a stop. */
  lemma StopShifts(net: Network, front: seq<string>, hops: seq<string>)
    requires StopAt(net, hops) >= 0
    ensures StopAt(net, front + hops) == |front| + StopAt(net, hops)
  {
    var i, all := StopAt(net, hops), front + hops;
    assert all[|front| + i] == hops[i];
    forall j | |front| + i < j < |all|
      ensures GoesOn(net, all[j])
    {
      assert all[j] == hops[j - |front|];
    }
    StopIs(net, all, |front| + i);
  }

  lemma WalkIgnoresFront(net: Network, peer: string, front: seq<string>, hops: seq<string>)
    requires hops != [] && StopAt(net, hops) >= 0
    ensures Walked(net, peer, front + hops) == Walked(net, peer, hops)
  {
    StopShifts(net, front, hops);
    var i, all := StopAt(net, hops), front + hops;
    assert all[|front| + i] == hops[i];
    assert Walked(net, peer, all) == Landed(net, peer, all[|front| + i]);
    assert Walked(net, peer, hops) == Landed(net, peer, hops[i]);
  }

  /**
   * What a client writes in front of the forwarded header cannot influence the address, exactly when the
   * walk stops inside the header; stranger is any address that is not trusted.
   */
  lemma PrefixIsIgnoredExactlyWhen(net: Network, r: Request, stranger: string)
    requires net.Valid() && net.Trusts(r.peer) && r.forwarded != ""
    requires ',' !in stranger && ParseHop(net, stranger).Some? && !GoesOn(net, stranger)
    ensures (forall front: string :: Attributed(net, r.(forwarded := front + "," + r.forwarded)) == Attributed(net, r))
            <==> StopAt(net, Split(r.forwarded, ',')) >= 0
  {
    if StopAt(net, Split(r.forwarded, ',')) >= 0 {
      forall front: string
        ensures Attributed(net, r.(forwarded := front + "," + r.forwarded)) == Attributed(net, r)
      {
        PrefixIsIgnored(net, r, front);
      }
    } else {
      StrangerGetsThrough(net, r, stranger);
    }
  }

  lemma PrefixIsIgnored(net: Network, r: Request, front: string)
    requires net.Trusts(r.peer) && r.forwarded != "" && StopAt(net, Split(r.forwarded, ',')) >= 0
    ensures Attributed(net, r.(forwarded := front + "," + r.forwarded)) == Attributed(net, r)
  {
    SplitCut(front, r.forwarded, ',');
    assert front + [','] + r.forwarded == front + "," + r.forwarded;
    WalkIgnoresFront(net, r.peer, Split(front, ','), Split(r.forwarded, ','));
  }

  lemma StrangerGetsThrough(net: Network, r: Request, stranger: string)
    requires net.Valid() && net.Trusts(r.peer) && r.forwarded != "" && StopAt(net, Split(r.forwarded, ',')) < 0
    requires ',' !in stranger && ParseHop(net, stranger).Some? && !GoesOn(net, stranger)
    ensures Attributed(net, r.(forwarded := stranger + "," + r.forwarded)) != Attributed(net, r)
  {
    var hops := Split(r.forwarded, ',');
    SplitCut(stranger, r.forwarded, ',');
    SplitOfJoin([stranger], ',');
    var all := [stranger] + hops;
    assert Split(stranger + "," + r.forwarded, ',') == all;
    assert GoesOn(net, hops[0]);
    forall j | 0 < j < |all|
      ensures GoesOn(net, all[j])
    {
      assert all[j] == hops[j - 1];
    }
    StopIs(net, all, 0);
  }

  // --- The address, hop by hop -----------------------------------------------------------------------------

  /** The hop is an address the configuration trusts. */
  predicate Believed(net: Network, hop: string) {
    net.parse(TrimSpace(hop)).Some? && net.trusted(net.parse(TrimSpace(hop)).value)
  }

  /** Without a forwarded header, a trusted peer's other header counts if it is an address, in its canonical form. */
  lemma DirectAddress(net: Network, r: Request)
    requires net.parse(r.peer).Some? && net.trusted(net.parse(r.peer).value) && r.forwarded == ""
    ensures Attributed(net, r) == if net.parse(TrimSpace(r.realIp)).Some? then net.parse(TrimSpace(r.realIp)).value else r.peer
  {}

  /** The rightmost hop that is no trusted proxy is the address, in its canonical form, or if it is none the peer is. */
  lemma ForwardedAddress(net: Network, r: Request, i: nat)
    requires net.parse(r.peer).Some? && net.trusted(net.parse(r.peer).value) && r.forwarded != ""
    requires i < |Split(r.forwarded, ',')|
    requires var hops := Split(r.forwarded, ',');
             !Believed(net, hops[i]) && forall j :: i < j < |hops| ==> Believed(net, hops[j])
    ensures var hop := net.parse(TrimSpace(Split(r.forwarded, ',')[i]));
            Attributed(net, r) == if hop.Some? then hop.value else r.peer
  {
    var hops := Split(r.forwarded, ',');
    forall j | i < j < |hops|
      ensures GoesOn(net, hops[j])
    {
      assert Believed(net, hops[j]);
    }
    assert !GoesOn(net, hops[i]);
    StopIs(net, hops, i);
  }

  predicate EachBelieved(net: Network, hops: seq<string>) {
    forall j :: 0 <= j < |hops| ==> Believed(net, hops[j])
  }

  /** When every hop is a trusted proxy, the leftmost is the address. */
  lemma AllBelieved(net: Network, r: Request)
    requires net.parse(r.peer).Some? && net.trusted(net.parse(r.peer).value) && r.forwarded != ""
    requires EachBelieved(net, Split(r.forwarded, ','))
    ensures Attributed(net, r) == net.parse(TrimSpace(Split(r.forwarded, ',')[0])).value
  {
    var hops := Split(r.forwarded, ',');
    forall j | 0 <= j < |hops|
      ensures GoesOn(net, hops[j])
    {
      assert Believed(net, hops[j]);
    }
    StopIs(net, hops, -1);
  }
}
