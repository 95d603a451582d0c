/** The types of the name-service switch's host interface that the resolver
    answers with. */
module Nss {
  import opened Net

  /** The four outcomes a lookup hands back to the name-service switch. */
  datatype Response<T> = Success(value: T) | NotFound | Unavail | TryAgain

  datatype AddressFamily = IPv4 | IPv6 | Unspecified

  datatype Addresses = V4(v4s: seq<Ipv4Addr>) | V6(v6s: seq<Ipv6Addr>)

  /** A resolved host: its name, its addresses of one family, its aliases. */
  datatype Host = Host(name: string, addresses: Addresses, aliases: seq<string>)
}
