/** IP addresses as net/netip has them: an invalid zero value, IPv4, and IPv6 with a zone. */
module Address {

  newtype byte = x: int | 0 <= x < 256

  datatype Addr = Invalid | V4(octets: seq<byte>) | V6(octets: seq<byte>, zone: string) {

    predicate IsValid() {
      !Invalid?
    }

    /** The lengths a netip.Addr always has. */
    predicate WellFormed() {
      && (V4? ==> |octets| == 4)
      && (V6? ==> |octets| == 16)
    }

    /** An IPv6 address that only wraps an IPv4 one. */
    predicate IsMapped() {
      V6? && |octets| == 16 && octets[..12] == MAPPED_PREFIX
    }

    /** The wrapped IPv4 address; any other address is left as it is. */
    function Unmap(): Addr {
      if IsMapped() then V4(octets[12..]) else this
    }
  }

  const MAPPED_PREFIX: seq<byte> := [0, 0, 0, 0, 0, 0, 0, 0, 0, 0, 255, 255]

  /**
   * The last four octets, exactly for an address of ten zeros and two octets of ones in front of them;
   * without its zone.
   */
  lemma UnmapIs(addr: Addr, a: byte, b: byte, c: byte, d: byte, zone: string)
    ensures V6([0, 0, 0, 0, 0, 0, 0, 0, 0, 0, 255, 255, a, b, c, d], zone).Unmap() == V4([a, b, c, d])
    ensures addr.WellFormed() && addr.Unmap() != addr ==>
      addr.V6? && addr.Unmap().V4? && addr.octets == [0, 0, 0, 0, 0, 0, 0, 0, 0, 0, 255, 255] + addr.Unmap().octets
  {
    var octets: seq<byte> := [0, 0, 0, 0, 0, 0, 0, 0, 0, 0, 255, 255, a, b, c, d];
    assert octets[..12] == MAPPED_PREFIX && octets[12..] == [a, b, c, d];
  }
}
