# libnss-innernet resolver, modelled in Dafny

libnss-innernet is a Name Service Switch plugin. It answers host lookups for
innernet overlay networks. A host name has the form `<peer>.<network>.wg`.
The plugin works in three steps:

- it finds the configured networks by listing `/etc/innernet`. Every regular
  file with a UTF-8 name is one network, named after the file with any
  trailing ".conf" repetitions removed. A file without that extension is a
  network too, under its whole name;
- it reads each network's peers from the JSON file
  `/var/lib/innernet/<network>.json`;
- it turns every peer with an IPv4 `ip` member into a host that has exactly
  that address.

The project models the whole resolver in `src/lib.rs`:

- the three host hooks: listing all hosts, lookup by address and lookup by
  name;
- the per-network operations `host_from_peer`, `collect_hosts`,
  `host_by_name` and `host_by_addr`;
- `get_networks`.

The filesystem is an input value called `FileSystem`. It holds the outcome of
listing the configuration directory. It also holds, per network name, the
outcome of reading and parsing that network's data file.

Files:

- `wrappers.dfy`: `Option` and `Result`.
- `seqs.dfy`: the generic scans the resolver is built from (`FilterMap`,
  `FlatMap`, `FirstIndex`) and their lemmas.
- `strings.dfy`: `str::split` on a character and its inverse `Join`, and
  `trim_end_matches`.
- `net.dfy`: IPv4 and IPv6 addresses, simplified parsers for them, and the
  IPv4 formatter with its round-trip lemma.
- `json.dfy`: the JSON value and `serde_json`'s indexing.
- `nss.dfy`: the NSS types `Response`, `AddressFamily`, `Addresses` and
  `Host`.
- `innernet.dfy`: `impl Network` and `get_networks`.
- `innernet_host.dfy`: `impl HostHooks for InnernetHost`, including the split
  iterator as a class.

The source has three loops that accumulate state. Each one is a method with a
loop and its invariants:

- `collect_hosts` is `CollectHosts`;
- `get_networks` is `GetNetworks`;
- `get_all_entries` is `GetAllEntries`.

`get_host_by_addr` is the method `GetHostByAddr`, a loop with early returns.
`get_host_by_name` has no loop. It makes four straight-line `next()` calls on
a `split('.')` iterator. The model mirrors those calls in the method
`GetHostByName`, on the class `SplitIter`, which stands in for std's splitter.
The separator scan inside `SplitIter.Next` is the only loop there.

Each method is proved equal to a specification function, and the lemmas
state the properties of those functions. `host_by_name` and `host_by_addr`
are first-match searches with an early return, so they are recursive
functions. Their contracts name the first matching peer through `FirstIndex`.

## Model

| member | source | states |
|---|---|---|
| Innernet.HostFromPeer | src/lib.rs:88-99 | A peer gives a host exactly when its `ip` member is a string that parses as IPv4. The host is then named (`name` member, or "" if that is not a string) + "." + network + ".wg", has exactly the parsed address as `V4`, and has no aliases. |
| Innernet.HostFromPeerWithAddress | src/lib.rs:89-95 | A peer whose `ip` member is the dotted text of an address becomes the host with exactly that address. |
| Innernet.HostNameLabels | src/lib.rs:92 | When neither the peer name nor the network name contains '.', a synthesised host name splits on '.' into exactly [peer, network, "wg"]. |
| Innernet.CollectHosts | src/lib.rs:101-111 | Only appends to `out`: the result is the old contents followed by the hosts of the network's peers in array order. Nothing is appended when the data file cannot be read. |
| Innernet.NetworkHostsMember | src/lib.rs:101-111 | A host is collected for a network exactly when the data file reads and some peer synthesises to that host. |
| Innernet.NetworkHostsWellFormed | src/lib.rs:91-94 | Every collected host is named `<peer>.<network>.wg`, has one IPv4 address and has no aliases. |
| Innernet.FindByName | src/lib.rs:115-122 | The result is `host_from_peer` of the first peer whose `name` is the target string. A later peer with the same name is never consulted, even when the first one gives no host. No matching peer gives no host. |
| Innernet.FindByAddr | src/lib.rs:127-135 | The result is `host_from_peer` of the first peer whose `ip` parses (as either family) to the target. A missing or unparsable `ip` never matches. No matching peer gives no host. |
| Innernet.FindByAddrSound | src/lib.rs:90-93 | A host found by address has exactly the searched address as its single IPv4 address. An IPv6 target therefore never finds a host. |
| Innernet.GetNetworks | src/lib.rs:139-153 | The loop over the listing gives the networks of its regular files with UTF-8 names, in listing order. Only a failed listing is an error. |
| Innernet.ListNetworksMember | src/lib.rs:142-147 | A network is listed exactly when some readable entry is a regular file with a UTF-8 name whose trimmed name is the network's name. No listed name still ends in ".conf". |
| Innernet.ListNetworksAppend | src/lib.rs:141-151 | Networks are discovered entry by entry: the listing of concatenated entries is the concatenation of the listings. |
| Innernet.NetworkOfConfFile | src/lib.rs:146 | A regular file named `<base>` followed by any number of ".conf" repetitions is the network `<base>`, provided `<base>` does not itself end in ".conf". |
| InnernetHost.GetAllEntries | src/lib.rs:22-33 | The loop calling `collect_hosts` on every network gives the specification `AllEntries`. |
| InnernetHost.AllEntries | src/lib.rs:22-33 | Listing succeeds exactly when the configuration directory can be listed, and is otherwise `Unavail`. |
| InnernetHost.HostsOfNetworksMember | src/lib.rs:26-28 | A host is listed exactly when it is collected for one of the networks. |
| InnernetHost.HostsOfNetworksSkipsUnreadable | src/lib.rs:102 | A network whose data file cannot be read contributes nothing, and the hosts of the networks around it stay in order. |
| InnernetHost.GetHostByAddr | src/lib.rs:35-49 | The loop with early returns gives the specification `ResolveAddr`, which is `FirstSettled` over the networks, or `Unavail` when the directory cannot be listed. |
| InnernetHost.FirstSettled | src/lib.rs:38-45 | The by-address dispatch never answers `TryAgain`. |
| InnernetHost.FirstSettledSuccess | src/lib.rs:38-41 | The answer is `Success(v)` exactly when some network answers `Ok(Some(v))` and every earlier network answers `Ok(None)`. |
| InnernetHost.FirstSettledUnavail | src/lib.rs:38-44 | The answer is `Unavail` exactly when some network's lookup fails and every earlier network answers `Ok(None)`, even if a later network would match. |
| InnernetHost.FirstSettledNotFound | src/lib.rs:38-45 | The answer is `NotFound` exactly when every network answers `Ok(None)`. |
| InnernetHost.ResolveAddrFindsOwner | src/lib.rs:35-49 | A successful address lookup returns a host whose only address is the IPv4 address asked for. |
| InnernetHost.SplitIter.constructor | src/lib.rs:52 | The iterator begins with the pieces of `name.split('.')` still to come. |
| InnernetHost.SplitIter.Next | src/lib.rs:53-61 | `next()` hands out the first remaining piece and drops it. After the last piece it gives `None`. |
| InnernetHost.GetHostByName | src/lib.rs:51-75 | The step-by-step iterator walk and the checks give the specification `ResolveName`. |
| InnernetHost.ResolveNameMalformed | src/lib.rs:52-62 | A name that does not split into exactly three labels, or whose third label is not "wg", is `Unavail` whatever the family and the data. |
| InnernetHost.ResolveNameOtherFamily | src/lib.rs:61-65 | The label check comes first: a well-formed name `<peer>.<network>.wg` asked for any family but IPv4 is `NotFound`, whatever the data. |
| InnernetHost.ResolveNameUnreadable | src/lib.rs:70-73 | A well-formed name in a network whose data file cannot be read is `Unavail`. |
| InnernetHost.ResolveNameRoundTrip | src/lib.rs:92 | Take the host made from the first peer of a network with a given name, where neither name contains '.'. Looking up that host's own name for IPv4 returns `Success` of that host. |
| Net.ParseIpAddr | src/lib.rs:129 | Text is read as IPv4 first. The result is IPv4 exactly when the IPv4 parser accepts the text. Otherwise it is the IPv6 address the text spells, or no address when neither parser accepts it. The empty string is no address. |
| Net.ParseFormatIpv4 | src/lib.rs:90 | Every IPv4 address, written in dotted decimal, parses back to itself. |
| Strings.SplitJoin | src/lib.rs:52 | Splitting on '.' the join of labels that contain no '.' gives back those labels. |
| Strings.JoinSplit | src/lib.rs:52 | Joining the pieces of a split gives back the original text. |
| Strings.TrimEndMatches | src/lib.rs:146 | The trimmed name is a prefix of the file name and no longer ends in the suffix. |
| Strings.TrimEndMatchesRemovesRepeats | src/lib.rs:146 | The file name is the trimmed name followed by whole repetitions of the suffix. |
| Strings.TrimEndMatchesOfRepeats | src/lib.rs:146 | Trimming a base that does not end in the suffix, followed by any number of repetitions of the suffix, gives back the base. |

## Left out

- The filesystem calls (`File::open`, `BufReader`, `read_dir`, `is_file`) are not modelled as effects. Their outcomes are the `FileSystem` input. The hard-coded directories `/etc/innernet` and `/var/lib/innernet` are only the keys of that input. `read_dir` errors are not distinguished by kind.
- `serde_json::from_reader` is not part of this model. The parsed document is the `Json` datatype, and a parse failure is the error `InvalidJson` in the input. JSON numbers are integers only, since floating point plays no part in the resolver.
- Net.ParseIpv4: models std's `Ipv4Addr` grammar only as a dotted quad of 1-3 digit fields with no leading zero, each below 256. This is the grammar std accepts, but std's own parser is not verified here.
- Net.ParseIpv6: a stand-in for std's IPv6 parser, with no round-trip lemma. The resolver never formats an IPv6 address, and an IPv6 match cannot be observed (see the next line).
- Net.ParseIpAddr: for IPv6 it accepts only the full form of eight groups of 1-4 hexadecimal digits. `::` compression and embedded IPv4 are not modelled, so such peers never match an IPv6 target. This changes nothing observable, because an IPv6 match gives no host anyway (`host_from_peer` parses only IPv4).
- The NSS and C interop glue is not modelled: `libnss_host_hooks!`, `libc`, `lazy_static` and the `extern crate` lines. It only registers the plugin.
- `Response::TryAgain` is part of the type but the resolver never produces it. `FirstSettled` proves that for the by-address lookup.
- Innernet.CollectHosts: the caller's `&mut Vec<Host>` is a sequence passed in and returned extended, so aliasing of that vector is not modelled.
- InnernetHost.GetHostByName: keeps the `None` branch after the first `next()` (src/lib.rs:55), but that branch is unreachable because `split` always yields at least one piece (`Strings.Split` ensures it).
- Concurrency and caching are not modelled; the resolver has none, and each call is independent.
