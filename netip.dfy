/**
 * IP addresses as Go's net package represents them: a byte slice of length 4 or 16, an
 * IPv4 address often stored in its 16-byte IPv4-mapped IPv6 form. Parsing a textual
 * address and enumerating the host's interfaces are outside the model; the server
 * receives them through a Resolver and as a list of interface addresses.
 */
module NetIP {
  import opened Base

  newtype byte = x: int | 0 <= x < 256

  type IP = seq<byte>

  /** The 12-byte prefix that turns an IPv4 address into an IPv4-mapped IPv6 address. */
  const V4InV6Prefix: seq<byte> := [0, 0, 0, 0, 0, 0, 0, 0, 0, 0, 0xff, 0xff]

  /** net.IPv4: the 16-byte form of a.b.c.d. */
  function IPv4(a: byte, b: byte, c: byte, d: byte): (ip: IP)
    ensures |ip| == 16 && Equal(ip, [a, b, c, d])
    ensures Canonical(ip) == Canonical([a, b, c, d])
  {
    V4InV6Prefix + [a, b, c, d]
  }

  /** ::1 */
  const IPv6Loopback: IP := [0, 0, 0, 0, 0, 0, 0, 0, 0, 0, 0, 0, 0, 0, 0, 1]

  /** The 16-byte form of a 4-byte address; every other address is its own form. */
  function Canonical(ip: IP): IP
  {
    if |ip| == 4 then V4InV6Prefix + ip else ip
  }

  /**
   * net.IP.Equal: addresses of one length are equal when their bytes are; a 4-byte and a
   * 16-byte address are equal when the latter is the IPv4-mapped form of the former.
   */
  predicate Equal(a: IP, b: IP)
  {
    if |a| == |b| then a == b
    else if |a| == 4 && |b| == 16 then b[..12] == V4InV6Prefix && b[12..] == a
    else if |a| == 16 && |b| == 4 then a[..12] == V4InV6Prefix && a[12..] == b
    else false
  }

  /** Equal is byte-for-byte equality of the canonical forms. */
  lemma EqualIffSameCanonical(a: IP, b: IP)
    ensures Equal(a, b) <==> Canonical(a) == Canonical(b)
  {
    if |a| == 4 && |b| == 16 {
      assert b == b[..12] + b[12..];
      assert (V4InV6Prefix + a)[..12] == V4InV6Prefix && (V4InV6Prefix + a)[12..] == a;
    } else if |a| == 16 && |b| == 4 {
      assert a == a[..12] + a[12..];
      assert (V4InV6Prefix + b)[..12] == V4InV6Prefix && (V4InV6Prefix + b)[12..] == b;
    } else if |a| == 4 && |b| != 4 {
      assert |Canonical(a)| == 16;
    } else if |b| == 4 && |a| != 4 {
      assert |Canonical(b)| == 16;
    }
  }

  /** Equal is an equivalence: symmetric and transitive (reflexivity is immediate). */
  lemma EqualIsEquivalence(a: IP, b: IP, c: IP)
    ensures Equal(a, a)
    ensures Equal(a, b) ==> Equal(b, a)
    ensures Equal(a, b) && Equal(b, c) ==> Equal(a, c)
  {
    EqualIffSameCanonical(a, b);
    EqualIffSameCanonical(b, a);
    EqualIffSameCanonical(b, c);
    EqualIffSameCanonical(a, c);
  }

  /** The IPv4 and IPv6 loopback addresses are distinct, in either IPv4 form. */
  lemma LoopbacksDistinct()
    ensures !Equal(IPv4(127, 0, 0, 1), IPv6Loopback)
    ensures !Equal([127, 0, 0, 1], IPv6Loopback)
    ensures Equal([127, 0, 0, 1], IPv4(127, 0, 0, 1))
  {
    assert IPv4(127, 0, 0, 1)[10] != IPv6Loopback[10];
    assert IPv6Loopback[..12] != V4InV6Prefix by { assert IPv6Loopback[10] != V4InV6Prefix[10]; }
  }

  /** The dynamic types of the net.Addr values net.InterfaceAddrs returns. */
  datatype Addr =
    | IPNet(ip: IP, mask: seq<byte>)   // *net.IPNet
    | IPAddr(ip: IP)                   // *net.IPAddr
    | OtherAddr(network: string, text: string)

  /** net.SplitHostPort and net.ParseIP, which the model does not define. */
  datatype Resolver = Resolver(
    splitHostPort: string -> Result<(string, string)>,
    parseIP: string -> Option<IP>)
}
