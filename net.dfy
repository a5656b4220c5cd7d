/** The optional value used for every field the controller may not know yet, and the
    associativity of concatenation that the in-place steps use to extend their logs. */
module Wrappers {

  datatype Option<+T> = None | Some(value: T)

  lemma AppendAssoc<T>(a: seq<T>, b: seq<T>, c: seq<T>)
    ensures a + b + c == a + (b + c)
  {
  }
}

/**
 * Wire-level values of the camera-fleet controller: octets, IPv4 addresses,
 * the one-byte multicast commands, the MAC key carried by a heartbeat reply,
 * and the static description of one switch link.
 */
module Net {

  import opened Wrappers

  type byte = x: int | 0 <= x < 256

  /** An IPv4 address as its four octets, most significant first. */
  type Addr = a: seq<byte> | |a| == 4 witness [0, 0, 0, 0]

  /** The last octet the controller takes for its own address on a switch's subnet. */
  const HostOctet: byte := 200

  /** One entry of the static switch list: the controller-side interface, the
      switch's operational management address and the controller's address on that link. */
  datatype SwitchConfig = SwitchConfig(iface: string, switchAddress: Addr, hostAddress: Addr)

  /** `addressEnd`: the address with its last octet replaced by `end`. */
  function AddressEnd(address: Addr, end: byte): (r: Addr)
    ensures r[..3] == address[..3] && r[3] == end
  {
    address[..3] + [end]
  }

  /** Two addresses get the same replacement exactly when they share their first three octets. */
  lemma AddressEndAgrees(a: Addr, b: Addr, end: byte)
    ensures AddressEnd(a, end) == AddressEnd(b, end) <==> a[..3] == b[..3]
  {
    if AddressEnd(a, end) == AddressEnd(b, end) {
      assert AddressEnd(a, end)[..3] == AddressEnd(b, end)[..3];
    }
  }

  /** Replacing the last octet twice keeps only the second replacement. */
  lemma AddressEndOverrides(a: Addr, e1: byte, e2: byte)
    ensures AddressEnd(AddressEnd(a, e1), e2) == AddressEnd(a, e2)
  {
  }

  // ---------------------------------------------------------------------------
  // Commands sent to the camera multicast group

  datatype Command = Ping | Shoot

  function CommandCode(c: Command): byte
  {
    match c
    case Ping => 0
    case Shoot => 1
  }

  /** How a camera reads a command datagram: one byte, 0 is ping and 1 is shoot. */
  function DecodeCommand(p: seq<byte>): (c: Option<Command>)
    ensures c.Some? ==> |p| == 1
  {
    if |p| != 1 then None
    else if p[0] == 0 then Some(Ping)
    else if p[0] == 1 then Some(Shoot)
    else None
  }

  /** `sendCmd`: the datagram is the command code as a single byte, and a camera reads the command back. */
  function Payload(c: Command): (p: seq<byte>)
    ensures |p| == 1
    ensures DecodeCommand(p) == Some(c)
  {
    [CommandCode(c)]
  }

  /** `send.ping` sends [0] and `send.shoot` sends [1]; different commands never share a datagram. */
  lemma PayloadBytes(c: Command, d: Command)
    ensures Payload(Ping) == [0] && Payload(Shoot) == [1]
    ensures Payload(c) == Payload(d) ==> c == d
  {
    if Payload(c) == Payload(d) {
      assert DecodeCommand(Payload(c)) == DecodeCommand(Payload(d));
    }
  }

  // ---------------------------------------------------------------------------
  // The MAC address carried by a heartbeat reply

  /** A heartbeat reply names its camera in its first 17 bytes. */
  const MacLength: nat := 17

  predicate IsAscii(s: string)
  {
    forall i :: 0 <= i < |s| ==> s[i] as int < 128
  }

  /** Node's "ascii" decoding of bytes [0, 17): its end is clamped to the
      message length and the high bit of every byte is cleared. */
  function MacOf(message: seq<byte>): (mac: string)
    ensures |mac| == (if |message| < MacLength then |message| else MacLength)
    ensures IsAscii(mac)
    ensures forall i :: 0 <= i < |mac| ==> mac[i] as int == message[i] % 128
  {
    var n := if |message| < MacLength then |message| else MacLength;
    seq(n, i requires 0 <= i < n => (message[i] % 128) as char)
  }

  /** The bytes a camera sends for an ASCII string. */
  function AsciiBytes(s: string): (b: seq<byte>)
    requires IsAscii(s)
    ensures |b| == |s|
  {
    if s == [] then [] else [s[0] as int] + AsciiBytes(s[1..])
  }

  lemma {:induction false} AsciiBytesAt(s: string, i: nat)
    requires IsAscii(s) && i < |s|
    ensures AsciiBytes(s)[i] == s[i] as int
  {
    if i > 0 {
      AsciiBytesAt(s[1..], i - 1);
    }
  }

  /** A reply that starts with a 17-character ASCII MAC is keyed by exactly that MAC,
      whatever bytes follow it. */
  lemma MacRoundTrip(mac: string, rest: seq<byte>)
    requires |mac| == MacLength && IsAscii(mac)
    ensures MacOf(AsciiBytes(mac) + rest) == mac
  {
    var m := MacOf(AsciiBytes(mac) + rest);
    forall i | 0 <= i < |mac|
      ensures m[i] == mac[i]
    {
      AsciiBytesAt(mac, i);
      assert (AsciiBytes(mac) + rest)[i] == AsciiBytes(mac)[i];
    }
  }
}
