/** The per-network half of the resolver: discovering the configured
    networks, reading a network's data file, turning its peers into hosts, and
    the three per-network queries (src/lib.rs, `impl Network` and
    `get_networks`). The filesystem is an input value: the listing of the
    configuration directory and, per network name, what reading and parsing
    its data file gives. */
module Innernet {
  import opened Wrappers
  import opened Seqs
  import opened Strings
  import opened Json
  import opened Net
  import opened Nss

  /** `std::io::Error` as the resolver meets it: a file or directory that
      cannot be opened or read, or a data file that is not valid JSON (the
      parser's error is turned into an I/O error by `?`). */
  datatype Error = IoError | InvalidJson

  /** One item of the iterator `read_dir` returns: an entry that could not be
      read, or an entry with whether its path is a regular file (following
      links) and its file name, `None` when the name is not valid UTF-8. */
  datatype DirEntry = Unreadable | Entry(isFile: bool, fileName: Option<string>)

  /** What the resolver can see of the disk during one call: the listing of
      `/etc/innernet` (or why it could not be listed) and, keyed by network
      name, the outcome of opening and parsing `/var/lib/innernet/<name>.json`.
      A name with no entry stands for a file that cannot be opened. */
  datatype FileSystem = FileSystem(confDir: Result<seq<DirEntry>, Error>, dataFiles: map<string, Result<Json, Error>>)

  datatype Network = Network(name: string)

  /** The extension of the files in the configuration directory. */
  const ConfSuffix: string := ".conf"

  /** The last label of every host name. */
  const Tld: string := "wg"

  // ---- reading a network's data ----

  /** `read_config_from_file`. */
  function ReadConfig(net: Network, fs: FileSystem): Result<Json, Error>
  {
    if net.name in fs.dataFiles then fs.dataFiles[net.name] else Err(IoError)
  }

  /** `info["peers"].as_array()`, with an absent or non-array member read as
      no peers at all. */
  function Peers(info: Json): seq<Json>
  {
    AsArray(Index(info, "peers")).GetOr([])
  }

  function PeerName(peer: Json): Option<string>
  {
    AsStr(Index(peer, "name"))
  }

  function PeerIp(peer: Json): Option<string>
  {
    AsStr(Index(peer, "ip"))
  }

  /** The address a peer's `ip` member denotes, read as either family; a
      missing or non-string member reads as the empty text, which is no
      address. */
  function PeerAddr(peer: Json): Option<IpAddr>
  {
    ParseIpAddr(PeerIp(peer).GetOr(""))
  }

  // ---- peer to host ----

  /** The name a peer is published under: `<peer>.<network>.wg`. */
  function HostName(peer: string, network: string): string
  {
    peer + "." + network + "." + Tld
  }

  /** Host names decode back into their labels, as long as neither the peer
      nor the network name holds a dot. */
  lemma HostNameLabels(peer: string, network: string)
    requires '.' !in peer && '.' !in network
    ensures Split(HostName(peer, network), '.') == [peer, network, Tld]
  {
    var labels := [peer, network, Tld];
    assert labels[1..][1..] == [Tld];
    assert Join(labels[1..], '.') == network + "." + Tld;
    assert HostName(peer, network) == Join(labels, '.');
    SplitJoin([peer, network, Tld], '.');
  }

  /** `host_from_peer`: a peer gives a host exactly when its `ip` member is a
      string holding an IPv4 literal; the host is then named after the peer's
      `name` member (the empty name if that is not a string) and the network,
      has that one address and no aliases. */
  function HostFromPeer(net: Network, peer: Json): (host: Option<Host>)
    ensures host.Some? <==> PeerIp(peer).Some? && ParseIpv4(PeerIp(peer).value).Some?
    ensures host.Some? ==>
      && host.value.name == HostName(PeerName(peer).GetOr(""), net.name)
      && host.value.addresses == Addresses.V4([ParseIpv4(PeerIp(peer).value).value])
      && host.value.aliases == []
  {
    match PeerIp(peer)
    case None => None
    case Some(ipstr) =>
      match ParseIpv4(ipstr)
      case None => None
      case Some(ip) => Some(Host(HostName(PeerName(peer).GetOr(""), net.name), Addresses.V4([ip]), []))
  }

  /** A peer whose `ip` member is the text of an IPv4 address becomes a host
      with exactly that address. */
  lemma HostFromPeerWithAddress(net: Network, peer: Json, ip: Ipv4Addr)
    requires Index(peer, "ip") == Str(FormatIpv4(ip))
    ensures HostFromPeer(net, peer) == Some(Host(HostName(PeerName(peer).GetOr(""), net.name), Addresses.V4([ip]), []))
  {
    ParseFormatIpv4(ip);
  }

  /** `host_from_peer` of one network, as a function value for the scans. */
  function PeerHost(net: Network): Json -> Option<Host>
  {
    peer => HostFromPeer(net, peer)
  }

  // ---- collect_hosts ----

  /** The hosts `collect_hosts` appends for a network: those of its peers, in
      order, and none at all when its data file cannot be read or parsed. */
  function NetworkHosts(net: Network, fs: FileSystem): seq<Host>
  {
    match ReadConfig(net, fs)
    case Ok(info) => FilterMap(PeerHost(net), Peers(info))
    case Err(_) => []
  }

  /** `collect_hosts`: pushes the hosts of the network's peers onto the
      caller's vector, which is passed in as `out` and returned extended. */
  method CollectHosts(net: Network, fs: FileSystem, out: seq<Host>) returns (extended: seq<Host>)
    ensures extended == out + NetworkHosts(net, fs)
  {
    extended := out;
    var info := ReadConfig(net, fs);
    if info.Ok? {
      var peers := Peers(info.value);
      for i := 0 to |peers|
        invariant extended == out + FilterMap(PeerHost(net), peers[..i])
      {
        assert peers[..i + 1][..i] == peers[..i];
        var host := HostFromPeer(net, peers[i]);
        if host.Some? {
          extended := extended + [host.value];
        }
      }
      assert peers[..|peers|] == peers;
    }
  }

  /** A host is collected for a network exactly when its data file reads and
      one of its peers synthesises to that host. */
  lemma NetworkHostsMember(net: Network, fs: FileSystem, h: Host)
    ensures h in NetworkHosts(net, fs) <==>
      ReadConfig(net, fs).Ok? && exists i :: 0 <= i < |Peers(ReadConfig(net, fs).value)| && HostFromPeer(net, Peers(ReadConfig(net, fs).value)[i]) == Some(h)
  {
    if ReadConfig(net, fs).Ok? {
      var peers := Peers(ReadConfig(net, fs).value);
      FilterMapMember(PeerHost(net), peers, h);
    }
  }

  /** Every collected host carries its network in its name, one IPv4 address
      and no aliases. */
  lemma NetworkHostsWellFormed(net: Network, fs: FileSystem, h: Host)
    requires h in NetworkHosts(net, fs)
    ensures exists peer :: h.name == HostName(peer, net.name)
    ensures h.addresses.V4? && |h.addresses.v4s| == 1 && h.aliases == []
  {
    NetworkHostsMember(net, fs, h);
    var peers := Peers(ReadConfig(net, fs).value);
    var i :| 0 <= i < |peers| && HostFromPeer(net, peers[i]) == Some(h);
    assert h.name == HostName(PeerName(peers[i]).GetOr(""), net.name);
  }

  // ---- host_by_name ----

  /** Whether a peer's `name` member is the string `name`. */
  function NameIs(name: string): Json -> bool
  {
    peer => PeerName(peer) == Some(name)
  }

  /** The loop of `host_by_name`: the first peer whose `name` member is the
      string `name` decides, through `host_from_peer`, even when that peer
      yields no host and a later one would; no such peer means no host. */
  function FindByName(net: Network, peers: seq<Json>, name: string): (host: Option<Host>)
    ensures var i := FirstIndex(peers, NameIs(name));
      host == if i < |peers| then HostFromPeer(net, peers[i]) else None
  {
    if peers == [] then None
    else if PeerName(peers[0]) == Some(name) then HostFromPeer(net, peers[0])
    else FindByName(net, peers[1..], name)
  }

  /** `host_by_name`: an unreadable data file is an error, otherwise the
      first-match search over its peers. */
  function HostByName(net: Network, name: string, fs: FileSystem): Result<Option<Host>, Error>
  {
    match ReadConfig(net, fs)
    case Err(e) => Err(e)
    case Ok(info) => Ok(FindByName(net, Peers(info), name))
  }

  // ---- host_by_addr ----

  /** Whether a peer's `ip` member parses, as either family, to `addr`. */
  function AddrIs(addr: IpAddr): Json -> bool
  {
    peer => PeerAddr(peer) == Some(addr)
  }

  /** The loop of `host_by_addr`: the first peer whose `ip` member parses (as
      either family) to `addr` decides, through `host_from_peer`; no such peer
      means no host. */
  function FindByAddr(net: Network, peers: seq<Json>, addr: IpAddr): (host: Option<Host>)
    ensures var i := FirstIndex(peers, AddrIs(addr));
      host == if i < |peers| then HostFromPeer(net, peers[i]) else None
  {
    if peers == [] then None
    else if PeerAddr(peers[0]) == Some(addr) then HostFromPeer(net, peers[0])
    else FindByAddr(net, peers[1..], addr)
  }

  /** A host found by address has exactly that address, so it is always an
      IPv4 one: a peer matched by an IPv6 address has no IPv4 literal and
      yields no host. */
  lemma {:induction false} FindByAddrSound(net: Network, peers: seq<Json>, addr: IpAddr, h: Host)
    requires FindByAddr(net, peers, addr) == Some(h)
    ensures addr.V4? && h.addresses == Addresses.V4([addr.v4])
    decreases |peers|
  {
    if PeerAddr(peers[0]) != Some(addr) {
      FindByAddrSound(net, peers[1..], addr, h);
    }
  }

  /** `host_by_addr`: an unreadable data file is an error, otherwise the
      first-match search over its peers. */
  function HostByAddr(net: Network, addr: IpAddr, fs: FileSystem): Result<Option<Host>, Error>
  {
    match ReadConfig(net, fs)
    case Err(e) => Err(e)
    case Ok(info) => Ok(FindByAddr(net, Peers(info), addr))
  }

  // ---- get_networks ----

  /** The network a directory entry stands for: only readable entries that
      are regular files with a UTF-8 name count, named after the file with
      every trailing ".conf" removed. */
  function NetworkOf(entry: DirEntry): Option<Network>
  {
    match entry
    case Entry(true, Some(fileName)) => Some(Network(TrimEndMatches(fileName, ConfSuffix)))
    case _ => None
  }

  /** What `get_networks` returns: one network per usable entry, in listing
      order, or the error that kept the directory from being listed. */
  function ListNetworks(fs: FileSystem): Result<seq<Network>, Error>
  {
    match fs.confDir
    case Err(e) => Err(e)
    case Ok(entries) => Ok(FilterMap(NetworkOf, entries))
  }

  /** `get_networks`. */
  method GetNetworks(fs: FileSystem) returns (r: Result<seq<Network>, Error>)
    ensures r == ListNetworks(fs)
  {
    if fs.confDir.Err? {
      return Err(fs.confDir.error);
    }
    var entries := fs.confDir.value;
    var networks := [];
    for i := 0 to |entries|
      invariant networks == FilterMap(NetworkOf, entries[..i])
    {
      assert entries[..i + 1][..i] == entries[..i];
      var entry := entries[i];
      if entry.Entry? && entry.isFile && entry.fileName.Some? {
        networks := networks + [Network(TrimEndMatches(entry.fileName.value, ConfSuffix))];
      }
    }
    assert entries[..|entries|] == entries;
    return Ok(networks);
  }

  /** A listed network is exactly the trimmed name of some regular file with a
      UTF-8 name, and no listed name still ends in ".conf". */
  lemma ListNetworksMember(entries: seq<DirEntry>, net: Network)
    ensures net in FilterMap(NetworkOf, entries) <==>
      exists i :: 0 <= i < |entries| && entries[i].Entry? && entries[i].isFile && entries[i].fileName.Some? &&
        net.name == TrimEndMatches(entries[i].fileName.value, ConfSuffix)
    ensures net in FilterMap(NetworkOf, entries) ==> !EndsWith(net.name, ConfSuffix)
  {
    FilterMapMember(NetworkOf, entries, net);
    if net in FilterMap(NetworkOf, entries) {
      var i :| 0 <= i < |entries| && NetworkOf(entries[i]) == Some(net);
      assert net.name == TrimEndMatches(entries[i].fileName.value, ConfSuffix);
    }
  }

  /** Listing keeps order: the networks of two runs of entries are those of
      the first run followed by those of the second. */
  lemma ListNetworksAppend(entries1: seq<DirEntry>, entries2: seq<DirEntry>)
    ensures FilterMap(NetworkOf, entries1 + entries2) == FilterMap(NetworkOf, entries1) + FilterMap(NetworkOf, entries2)
  {
    FilterMapAppend(NetworkOf, entries1, entries2);
  }

  /** A file named `<base>` followed by any number of ".conf" stands for the
      network `<base>`. */
  lemma NetworkOfConfFile(base: string, k: nat)
    requires !EndsWith(base, ConfSuffix)
    ensures NetworkOf(Entry(true, Some(base + Repeat(ConfSuffix, k)))) == Some(Network(base))
  {
    TrimEndMatchesOfRepeats(base, ConfSuffix, k);
  }
}
