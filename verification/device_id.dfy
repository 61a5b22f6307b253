/**
  The device identifier: the station MAC address padded with two zero
  bytes on the right and read as a big-endian unsigned 64-bit integer.
 */
module DeviceId {
  import opened Numeric
  import opened BigEndian

  /** A 6-byte link-layer (MAC) address. */
  type Mac = s: seq<byte> | |s| == 6 witness [0, 0, 0, 0, 0, 0]

  /** The 8-byte buffer: zero-initialised, then the MAC copied over its
      first six bytes. */
  function PadMac(mac: Mac): (buf: seq<byte>)
    ensures buf == mac + [0, 0]
  {
    seq(8, i requires 0 <= i < 8 => if i < 6 then mac[i] else 0)
  }

  /** The identifier derived from a MAC address. It fits in 64 bits, its
      low two bytes are zero, and above them sits the MAC's own value. */
  function CreateIdFromMac(mac: Mac): (id: u64)
    ensures id == FromBeBytes(mac) * 65536
    ensures id % 65536 == 0
    ensures ToBeBytes(id, 8) == mac + [0, 0]
  {
    var buf := PadMac(mac);
    assert buf[..7] == mac + [0] && buf[..7][..6] == mac;
    Pow256Of8();
    ToBeBytesOfFromBeBytes(buf);
    FromBeBytes(buf)
  }

  /** The identifier as an explicit positional sum: the byte at index i
      of the padded buffer weighs 256^(7-i). */
  lemma CreateIdIsPositionalSum(mac: Mac)
    ensures CreateIdFromMac(mac) ==
      mac[0] * Pow(256, 7) + mac[1] * Pow(256, 6) + mac[2] * Pow(256, 5) +
      mac[3] * Pow(256, 4) + mac[4] * Pow(256, 3) + mac[5] * Pow(256, 2)
  {
    var buf := PadMac(mac);
    FromBeBytesIsWeightedSum(buf);
    assert WeightedSum(buf[7..]) == 0 by { assert buf[7..][1..] == []; }
    assert WeightedSum(buf[6..]) == 0 by { assert buf[6..][1..] == buf[7..]; }
    assert WeightedSum(buf[5..]) == mac[5] * Pow(256, 2) + WeightedSum(buf[6..]) by { assert buf[5..][1..] == buf[6..]; }
    assert WeightedSum(buf[4..]) == mac[4] * Pow(256, 3) + WeightedSum(buf[5..]) by { assert buf[4..][1..] == buf[5..]; }
    assert WeightedSum(buf[3..]) == mac[3] * Pow(256, 4) + WeightedSum(buf[4..]) by { assert buf[3..][1..] == buf[4..]; }
    assert WeightedSum(buf[2..]) == mac[2] * Pow(256, 5) + WeightedSum(buf[3..]) by { assert buf[2..][1..] == buf[3..]; }
    assert WeightedSum(buf[1..]) == mac[1] * Pow(256, 6) + WeightedSum(buf[2..]) by { assert buf[1..][1..] == buf[2..]; }
  }

  /** Distinct MAC addresses give distinct identifiers. */
  lemma CreateIdInjective(a: Mac, b: Mac)
    ensures CreateIdFromMac(a) == CreateIdFromMac(b) <==> a == b
  {
    if CreateIdFromMac(a) == CreateIdFromMac(b) {
      assert (a + [0, 0])[..6] == a;
      assert (b + [0, 0])[..6] == b;
    }
  }

  /** The MAC can be recovered from the identifier: it is the first six
      bytes of the identifier's big-endian encoding. */
  function MacOfId(id: u64): (mac: Mac)
    requires id % 65536 == 0
    ensures CreateIdFromMac(mac) == id
  {
    Pow256Of8();
    var bytes := ToBeBytes(id, 8);
    var mac := bytes[..6];
    var buf := mac + [0, 0];
    assert buf[..7] == mac + [0] && buf[..7][..6] == mac;
    assert bytes[..7][..6] == mac;
    assert FromBeBytes(bytes) == FromBeBytes(bytes[..7]) * 256 + bytes[7];
    assert FromBeBytes(bytes[..7]) == FromBeBytes(mac) * 256 + bytes[6];
    assert id == (FromBeBytes(mac) * 256 + bytes[6]) * 256 + bytes[7];
    assert bytes[6] * 256 + bytes[7] == 0;
    mac
  }

  lemma MacOfIdRoundTrip(mac: Mac)
    ensures MacOfId(CreateIdFromMac(mac)) == mac
  {
  }
}
