/**
The same-network test of network_utils.py on literal addresses: `get_subnet_mask_for_ip`, `check_ip_in_system_subnet`
and `are_in_same_network`.

The prefix length depends on each address, so it is not evident that the test is an equivalence.  Which addresses
count as private is the Python library's matter and a parameter here.
*/
module Network {

  import opened Options

  /** An address as the integer its bits spell. */
  datatype Ip = V4(value: nat) | V6(value: nat)

  /** What the program knows: the system's own IPv4 address, if any, and which IPv4 addresses are private. */
  datatype Setting = Setting(system: Option<nat>, isPrivate: nat -> bool)

  predicate Valid(ip: Ip) {
    match ip
    case V4(value) => value < 0x1_0000_0000
    case V6(value) => value < 0x1_00000000_00000000_00000000_00000000
  }

  /** The network part of an IPv4 address for a prefix of 8, 16 or 24 bits. */
  function Prefix4(value: nat, bits: nat): nat {
    if bits == 8 then value / 0x100_0000 else if bits == 16 then value / 0x1_0000 else value / 0x100
  }

  /** The network part of an IPv6 address for a prefix of 64 or 128 bits. */
  function Prefix6(value: nat, bits: nat): nat {
    if bits == 128 then value else value / 0x1_0000_0000_0000_0000
  }

  predicate Loopback4(value: nat) {
    Prefix4(value, 8) == 127
  }

  /** `check_ip_in_system_subnet` */
  predicate InSystemSubnet(setting: Setting, value: nat, bits: nat) {
    setting.system.Some? && Prefix4(value, bits) == Prefix4(setting.system.value, bits)
  }

  /** `get_subnet_mask_for_ip`, as the number of bits */
  function MaskBits(setting: Setting, ip: Ip): nat {
    match ip
    case V4(value) =>
      if Loopback4(value) then 8
      else if setting.isPrivate(value) then
        if InSystemSubnet(setting, value, 24) then 24
        else if InSystemSubnet(setting, value, 16) then 16
        else 24
      else 24
    case V6(value) => if value == 1 then 128 else 64
  }

  /** `are_in_same_network` on two hosts that are literal addresses: the longer of the two prefixes decides. */
  predicate SameNetwork(setting: Setting, a: Ip, b: Ip) {
    var bits := if MaskBits(setting, a) >= MaskBits(setting, b) then MaskBits(setting, a) else MaskBits(setting, b);
    match (a, b)
    case (V4(x), V4(y)) => Prefix4(x, bits) == Prefix4(y, bits)
    case (V6(x), V6(y)) => Prefix6(x, bits) == Prefix6(y, bits)
    case _ => false
  }

  // ----- Prefixes -----

  /** A shared long prefix implies a shared short one. */
  lemma PrefixesNest(x: nat, y: nat)
    ensures Prefix4(x, 24) == Prefix4(y, 24) ==> Prefix4(x, 16) == Prefix4(y, 16)
    ensures Prefix4(x, 16) == Prefix4(y, 16) ==> Prefix4(x, 8) == Prefix4(y, 8)
  {
    assert x / 0x1_0000 == x / 0x100 / 0x100 && y / 0x1_0000 == y / 0x100 / 0x100;
    assert x / 0x100_0000 == x / 0x1_0000 / 0x100 && y / 0x100_0000 == y / 0x1_0000 / 0x100;
  }

  // ----- When the test is an equivalence -----

  lemma SameNetworkIsReflexive(setting: Setting, a: Ip)
    ensures SameNetwork(setting, a, a)
  {
  }

  lemma SameNetworkIsSymmetric(setting: Setting, a: Ip, b: Ip)
    ensures SameNetwork(setting, a, b) <==> SameNetwork(setting, b, a)
  {
  }

  ghost predicate Transitive(setting: Setting) {
    forall a, b, c :: Valid(a) && Valid(b) && Valid(c) && SameNetwork(setting, a, b) && SameNetwork(setting, b, c)
                      ==> SameNetwork(setting, a, c)
  }

  /** An address that gets the system's wide prefix if it is private. */
  predicate NearSystem(setting: Setting, value: nat) {
    && Valid(V4(value)) && !Loopback4(value)
    && InSystemSubnet(setting, value, 16) && !InSystemSubnet(setting, value, 24)
  }

  /** Near the system, the block of x holds both private addresses and others, and another block holds a private one. */
  predicate SplitBlock(setting: Setting, x: nat, y: nat, z: nat) {
    && NearSystem(setting, x) && NearSystem(setting, y) && NearSystem(setting, z)
    && setting.isPrivate(x) && !setting.isPrivate(y) && setting.isPrivate(z)
    && Prefix4(x, 24) == Prefix4(y, 24) && Prefix4(z, 24) != Prefix4(x, 24)
  }

  /** Two addresses of one network that get different prefixes lie in one /24 near the system, of which one is
      private. */
  lemma DifferentMasks(setting: Setting, x: nat, y: nat)
    requires Valid(V4(x)) && Valid(V4(y))
    requires SameNetwork(setting, V4(x), V4(y)) && MaskBits(setting, V4(x)) < MaskBits(setting, V4(y))
    ensures Prefix4(x, 24) == Prefix4(y, 24)
    ensures NearSystem(setting, x) && NearSystem(setting, y) && setting.isPrivate(x) && !setting.isPrivate(y)
  {
    PrefixesNest(x, y);
  }

  lemma NearSystemIsWide(setting: Setting, x: nat)
    requires Valid(V4(x))
    ensures MaskBits(setting, V4(x)) == 16 <==> NearSystem(setting, x) && setting.isPrivate(x)
  {
  }

  /** The step of transitivity that can fail: two addresses with the wide prefix, then one with the narrow prefix. */
  lemma WideThenNarrow(setting: Setting, x: nat, y: nat, z: nat)
    requires Valid(V4(x)) && Valid(V4(y)) && Valid(V4(z))
    requires MaskBits(setting, V4(x)) == MaskBits(setting, V4(y)) < MaskBits(setting, V4(z))
    requires SameNetwork(setting, V4(x), V4(y)) && SameNetwork(setting, V4(y), V4(z))
    requires !SplitBlock(setting, y, z, x)
    ensures SameNetwork(setting, V4(x), V4(z))
  {
    DifferentMasks(setting, y, z);
    NearSystemIsWide(setting, x);
    NearSystemIsWide(setting, y);
  }

  lemma TransitiveStep(setting: Setting, x: nat, y: nat, z: nat)
    requires Valid(V4(x)) && Valid(V4(y)) && Valid(V4(z))
    requires SameNetwork(setting, V4(x), V4(y)) && SameNetwork(setting, V4(y), V4(z))
    requires !SplitBlock(setting, y, z, x) && !SplitBlock(setting, y, x, z)
    ensures SameNetwork(setting, V4(x), V4(z))
  {
    var mx, my, mz := MaskBits(setting, V4(x)), MaskBits(setting, V4(y)), MaskBits(setting, V4(z));
    PrefixesNest(x, y);
    PrefixesNest(y, z);
    if mx == my < mz {
      WideThenNarrow(setting, x, y, z);
    } else if mx > my == mz {
      WideThenNarrow(setting, z, y, x);
    } else if mx != my || my != mz {
      if mx < my { DifferentMasks(setting, x, y); }
      if my < mx { DifferentMasks(setting, y, x); }
      if mz < my { DifferentMasks(setting, z, y); }
      if my < mz { DifferentMasks(setting, y, z); }
    }
  }

  /** On literal addresses the test is transitive, and so an equivalence, exactly when no /24 near the system is split
      between private and other addresses while another /24 near it holds a private address. */
  lemma TransitiveExactly(setting: Setting)
    ensures Transitive(setting) <==> forall x, y, z :: !SplitBlock(setting, x, y, z)
  {
    if forall x, y, z :: !SplitBlock(setting, x, y, z) {
      forall a, b, c | Valid(a) && Valid(b) && Valid(c) && SameNetwork(setting, a, b) && SameNetwork(setting, b, c)
        ensures SameNetwork(setting, a, c)
      {
        if a.V4? {
          TransitiveStep(setting, a.value, b.value, c.value);
        }
      }
    }
    if exists x, y, z :: SplitBlock(setting, x, y, z) {
      var x, y, z :| SplitBlock(setting, x, y, z);
      SplitBreaksTransitivity(setting, x, y, z);
    }
  }

  lemma SplitBreaksTransitivity(setting: Setting, x: nat, y: nat, z: nat)
    requires SplitBlock(setting, x, y, z)
    ensures SameNetwork(setting, V4(z), V4(x)) && SameNetwork(setting, V4(x), V4(y))
            && !SameNetwork(setting, V4(z), V4(y))
    ensures !Transitive(setting)
  {
    NearSystemIsWide(setting, x);
    NearSystemIsWide(setting, z);
    assert Valid(V4(x)) && Valid(V4(y)) && Valid(V4(z));
  }

  /** Where no block is split at all, two addresses of one network always get the same prefix. */
  lemma SharedNetworkSharesMask(setting: Setting, a: Ip, b: Ip)
    requires forall x, y :: Prefix4(x, 24) == Prefix4(y, 24) ==> setting.isPrivate(x) == setting.isPrivate(y)
    requires Valid(a) && Valid(b) && SameNetwork(setting, a, b)
    ensures MaskBits(setting, a) == MaskBits(setting, b)
  {
    if a.V4? {
      if MaskBits(setting, a) < MaskBits(setting, b) {
        DifferentMasks(setting, a.value, b.value);
      } else if MaskBits(setting, b) < MaskBits(setting, a) {
        DifferentMasks(setting, b.value, a.value);
      }
    }
  }

  // ----- What the test answers -----

  /** The address is private and lies in the system's /16 but not in its /24. */
  predicate Wide(setting: Setting, value: nat) {
    && setting.system.Some? && setting.isPrivate(value)
    && value / 0x1_0000 == setting.system.value / 0x1_0000 && value / 0x100 != setting.system.value / 0x100
  }

  /** Two literal IPv4 addresses are in one network exactly when both are loopback addresses, when both are wide, or
      when they share their first 24 bits. */
  lemma SameNetwork4Exactly(setting: Setting, x: nat, y: nat)
    requires Valid(V4(x)) && Valid(V4(y))
    ensures SameNetwork(setting, V4(x), V4(y)) <==>
            || (x / 0x100_0000 == 127 && y / 0x100_0000 == 127)
            || (x / 0x100_0000 != 127 && y / 0x100_0000 != 127 && Wide(setting, x) && Wide(setting, y))
            || x / 0x100 == y / 0x100
  {
    PrefixesNest(x, y);
    if setting.system.Some? {
      PrefixesNest(x, setting.system.value);
      PrefixesNest(y, setting.system.value);
    }
  }

  /** Two literal IPv6 addresses are in one network exactly when they are equal, or neither is ::1 and they share
      their first 64 bits.  Addresses of different versions never are. */
  lemma SameNetwork6Exactly(setting: Setting, x: nat, y: nat)
    ensures SameNetwork(setting, V6(x), V6(y)) <==>
            x == y || (x != 1 && y != 1 && x / 0x1_0000_0000_0000_0000 == y / 0x1_0000_0000_0000_0000)
    ensures !SameNetwork(setting, V4(x), V6(y)) && !SameNetwork(setting, V6(x), V4(y))
  {
  }

  function Quad(a: nat, b: nat, c: nat, d: nat): nat {
    ((a * 0x100 + b) * 0x100 + c) * 0x100 + d
  }

  /** The special-purpose address registry does split a block: 192.0.0.1 is private and 192.0.0.9 is not, while
      192.0.2.1 is private again.  For a system at 192.0.1.5 the test is therefore not transitive. */
  lemma RegistryBreaksTransitivity(setting: Setting)
    requires setting.system == Some(Quad(192, 0, 1, 5))
    requires setting.isPrivate(Quad(192, 0, 0, 1)) && !setting.isPrivate(Quad(192, 0, 0, 9))
             && setting.isPrivate(Quad(192, 0, 2, 1))
    ensures !Transitive(setting)
  {
    SplitBreaksTransitivity(setting, Quad(192, 0, 0, 1), Quad(192, 0, 0, 9), Quad(192, 0, 2, 1));
  }
}
