/** The resolver's three entry points, `impl HostHooks for InnernetHost` in
    src/lib.rs: listing every host, and looking one up by address or by name,
    each answered with one of the four outcomes of the response contract. */
module InnernetHost {
  import opened Wrappers
  import opened Seqs
  import opened Strings
  import opened Net
  import opened Nss
  import opened Innernet

  /** How a per-network answer reads in the response contract: a host is a
      success, no host is "not found", and an unreadable data file makes the
      lookup unavailable. */
  function ToResponse(r: Result<Option<Host>, Error>): Response<Host>
  {
    match r
    case Ok(Some(h)) => Success(h)
    case Ok(None) => NotFound
    case Err(_) => Unavail
  }

  // ---- get_all_entries ----

  /** What `collect_hosts` appends for a network, as a function value. */
  function CollectedFrom(fs: FileSystem): Network -> seq<Host>
  {
    net => NetworkHosts(net, fs)
  }

  /** The hosts of `nets`, network after network, each contributing what
      `collect_hosts` appends for it. */
  function HostsOfNetworks(nets: seq<Network>, fs: FileSystem): seq<Host>
  {
    FlatMap(CollectedFrom(fs), nets)
  }

  /** The answer of `get_all_entries`: unavailable only when the configuration
      directory cannot be listed, and otherwise a success, even an empty one. */
  function AllEntries(fs: FileSystem): (r: Response<seq<Host>>)
    ensures r.Success? <==> fs.confDir.Ok?
    ensures !r.Success? ==> r == Unavail
  {
    match ListNetworks(fs)
    case Err(_) => Unavail
    case Ok(nets) => Success(HostsOfNetworks(nets, fs))
  }

  /** `get_all_entries`. */
  method GetAllEntries(fs: FileSystem) returns (r: Response<seq<Host>>)
    ensures r == AllEntries(fs)
  {
    var networks := GetNetworks(fs);
    match networks
    case Err(_) =>
      r := Unavail;
    case Ok(nets) =>
      var hosts := [];
      for i := 0 to |nets|
        invariant hosts == HostsOfNetworks(nets[..i], fs)
      {
        assert nets[..i + 1][..i] == nets[..i];
        assert CollectedFrom(fs)(nets[i]) == NetworkHosts(nets[i], fs);
        hosts := CollectHosts(nets[i], fs, hosts);
      }
      assert nets[..|nets|] == nets;
      r := Success(hosts);
  }

  /** A host is listed exactly when one of the networks collects it. */
  lemma HostsOfNetworksMember(nets: seq<Network>, fs: FileSystem, h: Host)
    ensures h in HostsOfNetworks(nets, fs) <==> exists k :: 0 <= k < |nets| && h in NetworkHosts(nets[k], fs)
  {
    FlatMapMember(CollectedFrom(fs), nets, h);
    if k :| 0 <= k < |nets| && h in NetworkHosts(nets[k], fs) {
      assert h in CollectedFrom(fs)(nets[k]);
    }
  }

  /** Listing is best effort: a network whose data file cannot be read or
      parsed contributes no host and leaves the hosts of the others, before
      and after it, in place. */
  lemma HostsOfNetworksSkipsUnreadable(nets: seq<Network>, fs: FileSystem, k: nat)
    requires k < |nets| && ReadConfig(nets[k], fs).Err?
    ensures HostsOfNetworks(nets, fs) == HostsOfNetworks(nets[..k], fs) + HostsOfNetworks(nets[k + 1..], fs)
  {
    var collected := CollectedFrom(fs);
    assert nets == nets[..k] + [nets[k]] + nets[k + 1..];
    FlatMapAppend(collected, nets[..k] + [nets[k]], nets[k + 1..]);
    FlatMapAppend(collected, nets[..k], [nets[k]]);
    assert FlatMap(collected, [nets[k]]) == [] by {
      assert [nets[k]][..0] == [];
      assert collected(nets[k]) == [];
    }
  }

  // ---- get_host_by_addr ----

  /** The loop of `get_host_by_addr`, over any per-network lookup `ask`: the
      items are asked in order, the first host found is the answer and the
      first error makes the lookup unavailable, so nothing after either is
      asked; when every item answers "no host", the answer is "not found". */
  function FirstSettled<A, T, E>(xs: seq<A>, ask: A -> Result<Option<T>, E>): (r: Response<T>)
    ensures r != TryAgain
  {
    if xs == [] then NotFound
    else
      match ask(xs[0])
      case Ok(Some(v)) => Success(v)
      case Ok(None) => FirstSettled(xs[1..], ask)
      case Err(_) => Unavail
  }

  /** A success is the value of the first item that has one, provided every
      earlier item answered "no host". */
  lemma {:induction false} FirstSettledSuccess<A, T, E>(xs: seq<A>, ask: A -> Result<Option<T>, E>, v: T)
    ensures FirstSettled(xs, ask) == Success(v) <==>
      exists k :: 0 <= k < |xs| && ask(xs[k]) == Ok(Some(v)) && forall j :: 0 <= j < k ==> ask(xs[j]) == Ok(None)
    decreases |xs|
  {
    if xs != [] && ask(xs[0]) == Ok(None) {
      var tail := xs[1..];
      FirstSettledSuccess(tail, ask, v);
      if k :| (0 <= k < |tail| && ask(tail[k]) == Ok(Some(v)) && forall j :: 0 <= j < k ==> ask(tail[j]) == Ok(None)) {
        assert ask(xs[k + 1]) == Ok(Some(v));
        assert forall j :: 1 <= j < k + 1 ==> xs[j] == tail[j - 1];
      }
      if k :| (0 <= k < |xs| && ask(xs[k]) == Ok(Some(v)) && forall j :: 0 <= j < k ==> ask(xs[j]) == Ok(None)) {
        assert k > 0;
        assert ask(tail[k - 1]) == Ok(Some(v));
        assert forall j :: 0 <= j < k - 1 ==> tail[j] == xs[j + 1];
      }
    } else if xs != [] {
      if k :| (0 <= k < |xs| && ask(xs[k]) == Ok(Some(v)) && forall j :: 0 <= j < k ==> ask(xs[j]) == Ok(None)) {
        assert k == 0;
      }
    }
  }

  /** "Unavailable" is an error met before any success. */
  lemma {:induction false} FirstSettledUnavail<A, T, E>(xs: seq<A>, ask: A -> Result<Option<T>, E>)
    ensures FirstSettled(xs, ask) == Unavail <==>
      exists k :: 0 <= k < |xs| && ask(xs[k]).Err? && forall j :: 0 <= j < k ==> ask(xs[j]) == Ok(None)
    decreases |xs|
  {
    if xs != [] && ask(xs[0]) == Ok(None) {
      var tail := xs[1..];
      FirstSettledUnavail(tail, ask);
      if k :| (0 <= k < |tail| && ask(tail[k]).Err? && forall j :: 0 <= j < k ==> ask(tail[j]) == Ok(None)) {
        assert ask(xs[k + 1]).Err?;
        assert forall j :: 1 <= j < k + 1 ==> xs[j] == tail[j - 1];
      }
      if k :| (0 <= k < |xs| && ask(xs[k]).Err? && forall j :: 0 <= j < k ==> ask(xs[j]) == Ok(None)) {
        assert k > 0;
        assert ask(tail[k - 1]).Err?;
        assert forall j :: 0 <= j < k - 1 ==> tail[j] == xs[j + 1];
      }
    } else if xs != [] {
      if k :| (0 <= k < |xs| && ask(xs[k]).Err? && forall j :: 0 <= j < k ==> ask(xs[j]) == Ok(None)) {
        assert k == 0;
      }
    }
  }

  /** "Not found" means every item answered "no host". */
  lemma {:induction false} FirstSettledNotFound<A, T, E>(xs: seq<A>, ask: A -> Result<Option<T>, E>)
    ensures FirstSettled(xs, ask) == NotFound <==> forall k :: 0 <= k < |xs| ==> ask(xs[k]) == Ok(None)
    decreases |xs|
  {
    if xs != [] && ask(xs[0]) == Ok(None) {
      var tail := xs[1..];
      FirstSettledNotFound(tail, ask);
      assert forall k :: 1 <= k < |xs| ==> xs[k] == tail[k - 1];
    }
  }

  /** `host_by_addr` of each network, as a function value for the loop. */
  function AskByAddr(addr: IpAddr, fs: FileSystem): Network -> Result<Option<Host>, Error>
  {
    net => HostByAddr(net, addr, fs)
  }

  /** The answer of `get_host_by_addr`: unavailable when the configuration
      directory cannot be listed, otherwise the first settled answer of the
      networks in listing order. */
  function ResolveAddr(addr: IpAddr, fs: FileSystem): Response<Host>
  {
    match ListNetworks(fs)
    case Err(_) => Unavail
    case Ok(nets) => FirstSettled(nets, AskByAddr(addr, fs))
  }

  /** `get_host_by_addr`. */
  method GetHostByAddr(addr: IpAddr, fs: FileSystem) returns (r: Response<Host>)
    ensures r == ResolveAddr(addr, fs)
  {
    var networks := GetNetworks(fs);
    if networks.Err? {
      return Unavail;
    }
    var nets := networks.value;
    ghost var ask := AskByAddr(addr, fs);
    for i := 0 to |nets|
      invariant FirstSettled(nets, ask) == FirstSettled(nets[i..], ask)
    {
      assert nets[i..][0] == nets[i] && nets[i..][1..] == nets[i + 1..];
      assert ask(nets[i]) == HostByAddr(nets[i], addr, fs);
      match HostByAddr(nets[i], addr, fs)
      case Ok(Some(host)) =>
        return Success(host);
      case Ok(None) =>
      case Err(_) =>
        return Unavail;
    }
    assert nets[|nets|..] == [];
    return NotFound;
  }

  /** A host found by address carries exactly that address; in particular a
      lookup by an IPv6 address never succeeds, because only IPv4 literals
      make hosts. */
  lemma ResolveAddrFindsOwner(addr: IpAddr, fs: FileSystem, h: Host)
    requires ResolveAddr(addr, fs) == Success(h)
    ensures addr.V4? && h.addresses == Addresses.V4([addr.v4])
  {
    var nets := ListNetworks(fs).value;
    var ask := AskByAddr(addr, fs);
    FirstSettledSuccess(nets, ask, h);
    var k :| 0 <= k < |nets| && ask(nets[k]) == Ok(Some(h)) && forall j :: 0 <= j < k ==> ask(nets[j]) == Ok(None);
    var net := nets[k];
    FindByAddrSound(net, Peers(ReadConfig(net, fs).value), addr, h);
  }

  // ---- get_host_by_name ----

  /** The answer of `get_host_by_name`: the name must split on '.' into
      exactly a peer label, a network label and "wg", or the lookup is
      unavailable; that check comes first, then any family but IPv4 is "not
      found" whatever the data says; otherwise the named network is searched
      for the named peer. */
  function ResolveName(name: string, family: AddressFamily, fs: FileSystem): Response<Host>
  {
    var labels := Split(name, '.');
    if |labels| != 3 || labels[2] != Tld then Unavail
    else if family != IPv4 then NotFound
    else ToResponse(HostByName(Network(labels[1]), labels[0], fs))
  }

  /** The state of the iterator `str::split` returns: the text not yet
      consumed, and whether its last piece has been handed out. */
  class SplitIter {
    const sep: char
    var rest: string
    var finished: bool

    /** The pieces still to come. */
    function Remaining(): seq<string>
      reads this
    {
      if finished then [] else Split(rest, sep)
    }

    constructor (s: string, sep: char)
      ensures this.sep == sep && Remaining() == Split(s, sep)
    {
      this.sep := sep;
      rest := s;
      finished := false;
    }

    /** `next`: the next piece, or `None` once every piece has been handed out. */
    method Next() returns (piece: Option<string>)
      modifies this
      ensures old(Remaining()) == [] ==> piece == None && Remaining() == []
      ensures old(Remaining()) != [] ==> piece == Some(old(Remaining())[0]) && Remaining() == old(Remaining())[1..]
    {
      if finished {
        return None;
      }
      var i := 0;
      while i < |rest| && rest[i] != sep
        invariant i <= |rest|
        invariant forall j :: 0 <= j < i ==> rest[j] != sep
      {
        i := i + 1;
      }
      assert i == IndexOf(rest, sep);
      if i == |rest| {
        piece := Some(rest);
        finished := true;
      } else {
        piece := Some(rest[..i]);
        rest := rest[i + 1..];
      }
    }
  }

  /** `get_host_by_name`. */
  method GetHostByName(name: string, family: AddressFamily, fs: FileSystem) returns (r: Response<Host>)
    ensures r == ResolveName(name, family, fs)
  {
    var split := new SplitIter(name, '.');
    var host := split.Next();
    if host.None? {
      return Unavail;
    }
    var network := split.Next();
    if network.None? {
      return Unavail;
    }
    var third := split.Next();
    if third != Some(Tld) {
      return Unavail;
    }
    var fourth := split.Next();
    if fourth != None {
      return Unavail;
    } else if family != IPv4 {
      return NotFound;
    }
    var net := Network(network.value);
    match HostByName(net, host.value, fs)
    case Ok(Some(h)) =>
      r := Success(h);
    case Ok(None) =>
      r := NotFound;
    case Err(_) =>
      r := Unavail;
  }

  /** A name made of labels without dots is unavailable unless it has exactly
      three labels ending in "wg", whatever the family and the data. */
  lemma ResolveNameMalformed(labels: seq<string>, family: AddressFamily, fs: FileSystem)
    requires |labels| >= 1 && forall k :: 0 <= k < |labels| ==> '.' !in labels[k]
    requires |labels| != 3 || labels[2] != Tld
    ensures ResolveName(Join(labels, '.'), family, fs) == Unavail
  {
    SplitJoin(labels, '.');
  }

  /** The label check comes before the family check: a well formed name asked
      for any family but IPv4 is "not found", whatever the data. */
  lemma ResolveNameOtherFamily(peer: string, network: string, family: AddressFamily, fs: FileSystem)
    requires family != IPv4
    requires '.' !in peer && '.' !in network
    ensures ResolveName(HostName(peer, network), family, fs) == NotFound
  {
    HostNameLabels(peer, network);
  }

  /** A well formed IPv4 lookup in a network whose data file cannot be read or
      parsed is unavailable, never "not found". */
  lemma ResolveNameUnreadable(peer: string, network: string, fs: FileSystem)
    requires '.' !in peer && '.' !in network
    requires ReadConfig(Network(network), fs).Err?
    ensures ResolveName(HostName(peer, network), IPv4, fs) == Unavail
  {
    HostNameLabels(peer, network);
  }

  /** Round trip: the host made from the first peer of a network that bears
      a given name is found again under its own host name, as long as the
      peer and network names hold no dot. */
  lemma ResolveNameRoundTrip(net: Network, fs: FileSystem, i: nat, peer: string, h: Host)
    requires ReadConfig(net, fs).Ok?
    requires var peers := Peers(ReadConfig(net, fs).value);
      && i < |peers| && PeerName(peers[i]) == Some(peer)
      && (forall j :: 0 <= j < i ==> PeerName(peers[j]) != Some(peer))
      && HostFromPeer(net, peers[i]) == Some(h)
    requires '.' !in peer && '.' !in net.name
    ensures ResolveName(h.name, IPv4, fs) == Success(h)
  {
    var peers := Peers(ReadConfig(net, fs).value);
    HostNameLabels(peer, net.name);
    FirstIndexAt(peers, NameIs(peer), i);
  }
}
