/** node_id_to_ip and ip_to_node_id of scratch/topology.h, in 32-bit arithmetic. */
module Addressing {
  import opened Words

  function Wrap32(x: nat): U32 { x % U32_SIZE }

  function NodeIdToIp(id: U32): U32 {
    Wrap32(Wrap32(0x0b000001 + Wrap32(id / 256 * 0x00010000)) + Wrap32(id % 256 * 0x00000100))
  }

  function IpToNodeId(ip: U32): U32 { ip / 256 % 0x10000 }

  // The /24 prefix of an address.
  function Prefix24(ip: U32): U32 { ip / 256 }

  // Dividing by a positive number has one quotient and one remainder.
  lemma DivModUnique(x: nat, d: nat, q: nat, r: nat)
    requires x == q * d + r && r < d
    ensures x / d == q && x % d == r
  {
    var e := x / d;
    assert x == e * d + x % d;
    assert (q - e) * d == x % d - r;
    if q > e {
      AtLeastFactor(q - e, d);
    } else if q < e {
      AtLeastFactor(e - q, d);
    }
  }

  lemma AtLeastFactor(k: nat, d: nat)
    requires k > 0
    ensures k * d >= d
  {
  }

  lemma Wrap32Add(x: nat, y: nat)
    ensures Wrap32(Wrap32(x) + y) == Wrap32(x + y)
  {
    var k, z := x / U32_SIZE, Wrap32(x) + y;
    DivModUnique(x + y, U32_SIZE, k + z / U32_SIZE, z % U32_SIZE);
  }

  lemma AddressForm(id: U32)
    ensures NodeIdToIp(id) == Wrap32(0x0b000001 + 256 * id)
  {
    hide Wrap32;
    var a, b := id / 256 * 0x10000, id % 256 * 0x100;
    assert a + b == 256 * id by { assert id == id / 256 * 256 + id % 256; }
    Wrap32Add(a, 0x0b000001);
    Wrap32Add(0x0b000001 + a, Wrap32(b));
    Wrap32Add(b, 0x0b000001 + a);
    assert Wrap32(b) + (0x0b000001 + a) == 0x0b000001 + a + Wrap32(b);
  }

  // The prefix counts 0x0b0000 + id, modulo 2^24; the last byte is 1.
  lemma PrefixForm(id: U32)
    ensures Prefix24(NodeIdToIp(id)) == (0x0b0000 + id) % 0x100_0000
    ensures NodeIdToIp(id) % 256 == 1
  {
    AddressForm(id);
    var k, r := (0x0b0000 + id) / 0x100_0000, (0x0b0000 + id) % 0x100_0000;
    assert 0x0b0000 + id == 0x100_0000 * k + r;
    DivModUnique(0x0b000001 + 256 * id, U32_SIZE, k, 256 * r + 1);
    DivModUnique(256 * r + 1, 256, r, 1);
  }

  // Decoding an address gives the low 16 bits of the id it was made from ...
  lemma RoundTrip(id: U32)
    ensures IpToNodeId(NodeIdToIp(id)) == id % 0x10000
  {
    hide NodeIdToIp;
    PrefixForm(id);
    var x := 0x0b0000 + id;
    DivModUnique(x, 0x10000, 0x0b + id / 0x10000, id % 0x10000);
    var k, r := x / 0x100_0000, x % 0x100_0000;
    DivModUnique(x, 0x10000, k * 0x100 + r / 0x10000, r % 0x10000);
  }

  // ... so it gives the id back exactly for ids below 2^16.
  lemma RoundTripExactIff(id: U32)
    ensures IpToNodeId(NodeIdToIp(id)) == id <==> id < 0x10000
  {
    hide NodeIdToIp;
    RoundTrip(id);
  }

  lemma PrefixResidue(id: U32)
    ensures var r := id % 0x100_0000;
            Prefix24(NodeIdToIp(id)) == if r < 0xf5_0000 then r + 0x0b_0000 else r - 0xf5_0000
  {
    hide NodeIdToIp;
    PrefixForm(id);
    var k, r := id / 0x100_0000, id % 0x100_0000;
    var p := if r < 0xf5_0000 then r + 0x0b_0000 else r - 0xf5_0000;
    DivModUnique(0x0b_0000 + id, 0x100_0000, if r < 0xf5_0000 then k else k + 1, p);
  }

  // Two nodes share an address (and then a /24) exactly when their ids agree modulo 2^24.
  lemma CollisionIff(a: U32, b: U32)
    ensures NodeIdToIp(a) == NodeIdToIp(b) <==> a % 0x100_0000 == b % 0x100_0000
    ensures Prefix24(NodeIdToIp(a)) == Prefix24(NodeIdToIp(b)) <==> a % 0x100_0000 == b % 0x100_0000
  {
    hide NodeIdToIp;
    PrefixForm(a);
    PrefixForm(b);
    PrefixResidue(a);
    PrefixResidue(b);
    var pa, pb := NodeIdToIp(a), NodeIdToIp(b);
    assert pa == pa / 256 * 256 + 1 && pb == pb / 256 * 256 + 1;
  }

  // An address lies in 11.0.0.0/8 exactly when the id, modulo 2^24, is below 2^16.
  lemma InElevenIff(id: U32)
    ensures NodeIdToIp(id) / 0x100_0000 == 11 <==> id % 0x100_0000 < 0x10000
  {
    hide NodeIdToIp;
    PrefixResidue(id);
    assert NodeIdToIp(id) / 0x100_0000 == Prefix24(NodeIdToIp(id)) / 0x10000;
  }

  // Written as four bytes the address is 11 + id / 2^16, id / 2^8, id and 1, each modulo 2^8.
  lemma DottedForm(id: U32)
    ensures var ip := NodeIdToIp(id);
            && ip / 0x100_0000 == (11 + id / 0x10000) % 256 && ip / 0x10000 % 256 == id / 256 % 256
            && ip / 256 % 256 == id % 256 && ip % 256 == 1
  {
    hide NodeIdToIp;
    PrefixForm(id);
    var ip, x := NodeIdToIp(id), 0x0b0000 + id;
    UpperBytes(ip, x % 0x100_0000);
    ShiftedBytes(id);
    BytesModulo(x);
  }

  lemma UpperBytes(ip: nat, p: nat)
    requires ip / 256 == p && ip % 256 == 1
    ensures ip / 0x100_0000 == p / 0x10000 && ip / 0x10000 == p / 256
  {
    DivModUnique(ip, 0x10000, p / 256, p % 256 * 256 + 1);
    DivModUnique(ip, 0x100_0000, p / 0x10000, p % 0x10000 * 256 + 1);
  }

  lemma ShiftedBytes(id: nat)
    ensures var x := 0x0b0000 + id;
            x / 256 == 0x0b00 + id / 256 && x / 0x10000 == 11 + id / 0x10000 && x % 256 == id % 256
            && x / 256 % 256 == id / 256 % 256
  {
    var x, y := 0x0b0000 + id, id / 256;
    DivModUnique(x, 256, 0x0b00 + y, id % 256);
    DivModUnique(x, 0x10000, 11 + id / 0x10000, id % 0x10000);
    DivModUnique(0x0b00 + y, 256, 0x0b + y / 256, y % 256);
  }

  lemma BytesModulo(x: nat)
    ensures var p := x % 0x100_0000;
            p % 256 == x % 256 && p / 256 % 256 == x / 256 % 256 && p / 0x10000 == x / 0x10000 % 256
  {
    var k, p := x / 0x100_0000, x % 0x100_0000;
    DivModUnique(x, 256, k * 0x10000 + p / 256, p % 256);
    DivModUnique(x, 0x10000, k * 256 + p / 0x10000, p % 0x10000);
    DivModUnique(x / 256, 256, k * 256 + p / 0x10000, p / 256 % 256);
    DivModUnique(x / 0x10000, 256, k, p / 0x10000);
  }
}
