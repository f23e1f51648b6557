/** IP addresses and parsed CIDR networks, as the Go `net` package gives them
    to the macvlan driver once text has been parsed. */
module IPAddr {

  /** An IP address as its bits, most significant first. */
  type Address = seq<bool>

  /** A `net.IPNet`: an address and the number of leading ones of its
      canonical mask (what `Mask.Size()` reports first). For an endpoint
      address and a configured gateway, `ip` is the address as written, as
      the first result of `net.ParseCIDR` gives it; for a configured subnet
      it is the network address, the second result, with the host bits
      cleared. */
  datatype IPNet = IPNet(ip: Address, ones: nat)

  /** `net.IPNet.Contains`: the address has the network's family and agrees
      with the network address on the first `ones` bits. */
  predicate Contains(n: IPNet, a: Address) {
    |a| == |n.ip| && n.ones <= |a| && a[..n.ones] == n.ip[..n.ones]
  }
}
