/**
 Socket addresses and contacts (nodex-kademlia/src/node.rs). Time stamps are
 numbers handed in by the caller.
 */
module Contacts {
  import opened Bytes
  import opened NodeIds

  datatype IpAddr =
    | V4(octets4: seq<byte>)
    | V6(octets6: seq<byte>)
  {
    predicate WellFormed() {
      match this
      case V4(o) => |o| == 4
      case V6(o) => |o| == 16
    }

    predicate IsUnspecified() {
      match this
      case V4(o) => o == [0, 0, 0, 0]
      case V6(o) => o == seq(16, _ => 0)
    }

    /** 224.0.0.0/4 and ff00::/8. */
    predicate IsMulticast()
      requires WellFormed()
    {
      match this
      case V4(o) => 224 <= o[0] <= 239
      case V6(o) => o[0] == 255
    }

    /** Only IPv4 has a broadcast address. */
    predicate IsBroadcast() {
      V4? && octets4 == [255, 255, 255, 255]
    }
  }

  type Ip = a: IpAddr | a.WellFormed() witness V4([0, 0, 0, 0])

  type u16 = n: int | 0 <= n < 0x1_0000

  datatype SocketAddr = SocketAddr(ip: Ip, port: u16)

  datatype Contact = Contact(id: Id, addr: SocketAddr, lastSeen: nat)
}
