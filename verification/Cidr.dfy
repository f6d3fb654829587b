/** `SimpleCidr` membership by bit masks (src/storage/cidr.rs), and CIDR blocks as sets of addresses. */
module Cidr {
  import opened Bits
  import opened Wrappers

  newtype u128 = x: int | 0 <= x < 0x1_0000_0000_0000_0000_0000_0000_0000_0000

  datatype IpAddr = V4(v4: u32) | V6(v6: u128) {
    function Value(): nat {
      match this
      case V4(a) => a as nat
      case V6(a) => a as nat
    }
  }

  datatype SimpleCidr = SimpleCidr(base: nat, mask: nat) {
    predicate Contains(ip: IpAddr) {
      And(ip.Value(), mask) == And(base, mask)
    }
  }

  datatype CidrError = PrefixOver32 | PrefixOver128

  /** The part of `parse_cidr` after the text has been split: range check and mask construction. */
  function ParseCidr(ip: IpAddr, prefix: nat): Result<SimpleCidr, CidrError> {
    match ip
    case V4(a) =>
      if prefix > 32 then Err(PrefixOver32)
      else Ok(SimpleCidr(a as nat, if prefix == 0 then 0 else OnesShiftedLeft(32, 32 - prefix)))
    case V6(a) =>
      if prefix > 128 then Err(PrefixOver128)
      else Ok(SimpleCidr(a as nat, if prefix == 0 then 0 else OnesShiftedLeft(128, 128 - prefix)))
  }

  /** An IPv4 block in prefix notation, as `range_to_cidrs` prints it. */
  datatype Block = Block(base: u32, prefix: nat) {
    ghost predicate Valid() {
      prefix <= 32 && Aligned(base as nat, Bits()) && End() <= 0x1_0000_0000
    }

    ghost function Bits(): nat {
      if prefix <= 32 then 32 - prefix else 0
    }

    /** One past the last address. */
    ghost function End(): nat {
      base as nat + Pow2(Bits())
    }

    ghost predicate Has(x: nat) {
      base as nat <= x < End()
    }

    ghost predicate Inside(lo: nat, hi: nat) {
      lo <= base as nat && End() <= hi
    }
  }

  lemma MaskAgrees(width: nat, s: nat, x: nat, b: nat)
    requires s <= width && b < Pow2(width)
    ensures var m := OnesShiftedLeft(width, s);
            And(x, m) == And(b, m) <==> (x % Pow2(width)) / Pow2(s) == b / Pow2(s)
  {
    OnesShiftedLeftValue(width, s);
    AndMask(x, width, s);
    AndMask(b, width, s);
    ModMod(x, s, width);
    ModSmall(b, Pow2(width));
    SameQuotient(x % Pow2(width), b, Pow2(s));
  }

  lemma {:induction false} ModMod(x: nat, s: nat, width: nat)
    requires s <= width
    ensures (x % Pow2(width)) % Pow2(s) == x % Pow2(s)
    decreases width
  {
    var y := x % Pow2(width);
    if s > 0 {
      ModHalve(x, Pow2(width - 1));
      ModHalve(x, Pow2(s - 1));
      ModHalve(y, Pow2(s - 1));
      ModMod(x / 2, s - 1, width - 1);
      assert y / 2 == (x / 2) % Pow2(width - 1) && y % 2 == x % 2;
    }
  }

  lemma WordSizes()
    ensures Pow2(32) == 0x1_0000_0000
    ensures Pow2(128) == 0x1_0000_0000_0000_0000_0000_0000_0000_0000
  {
    Pow2Values();
    Pow2Add(32, 32);
    Pow2Add(64, 64);
  }

  /** A parsed block contains an address of its own family exactly when the two agree on the prefix bits. */
  lemma ContainsIsPrefixAgreement(base: IpAddr, prefix: nat, ip: IpAddr)
    requires base.V4? == ip.V4?
    ensures ParseCidr(base, prefix).Ok? <==> prefix <= if base.V4? then 32 else 128
    ensures ParseCidr(base, prefix).Ok? ==>
              var width := if base.V4? then 32 else 128;
              ParseCidr(base, prefix).value.Contains(ip)
              <==> ip.Value() / Pow2(width - prefix) == base.Value() / Pow2(width - prefix)
  {
    WordSizes();
    var width := if base.V4? then 32 else 128;
    ModSmall(ip.Value(), Pow2(width));
    if prefix == 0 {
      DivSmall(ip.Value(), Pow2(width));
      DivSmall(base.Value(), Pow2(width));
    } else if prefix <= width {
      MaskAgrees(width, width - prefix, ip.Value(), base.Value());
    }
  }

  /** `contains` never compares families: an IPv4 block looks only at the low 32 bits of an IPv6 address,
      so it accepts IPv6 addresses whose low word lies in the block. */
  lemma MixedFamilyContains(base: u32, prefix: nat, ip: u128)
    requires prefix <= 32
    ensures ParseCidr(V4(base), prefix).value.Contains(V6(ip))
            <==> ParseCidr(V4(base), prefix).value.Contains(V4((ip % 0x1_0000_0000) as u32))
  {
    WordSizes();
    if prefix > 0 {
      var x := ip as nat;
      MaskAgrees(32, 32 - prefix, x, base as nat);
      MaskAgrees(32, 32 - prefix, x % Pow2(32), base as nat);
      ModMod(x, 32, 32);
    } else {
      assert And(ip as nat, 0) == And(base as nat, 0) == 0;
    }
  }

  /** So 10.0.0.0/8 contains the IPv6 address ::a00:1. */
  lemma PrivateBlockContainsV6()
    ensures ParseCidr(V4(0x0A00_0000), 8).value.Contains(V6(0x0A00_0001))
  {
    Pow2Values();
    SharedPrefixContains(0x0A00_0000, 8, 0x0A00_0001);
  }

  lemma SharedPrefixContains(base: u32, prefix: nat, ip: u32)
    requires prefix <= 32 && ip as nat / Pow2(32 - prefix) == base as nat / Pow2(32 - prefix)
    ensures ParseCidr(V4(base), prefix).value.Contains(V6(ip as u128))
  {
    ContainsIsPrefixAgreement(V4(base), prefix, V4(ip));
    assert V4(ip).Value() == V6(ip as u128).Value();
  }

  /** And an IPv6 block takes an IPv4 address for the 128-bit number it is. */
  lemma MixedFamilyContainsV6(base: u128, prefix: nat, ip: u32)
    requires prefix <= 128
    ensures ParseCidr(V6(base), prefix).value.Contains(V4(ip))
            <==> ip as nat / Pow2(128 - prefix) == base as nat / Pow2(128 - prefix)
  {
    ContainsIsPrefixAgreement(V6(base), prefix, V6(ip as u128));
    assert V4(ip).Value() == V6(ip as u128).Value();
  }

  /** For an aligned block the mask test is membership in the address interval. */
  lemma ContainsIsInterval(b: Block, x: u32)
    requires b.Valid()
    ensures ParseCidr(V4(b.base), b.prefix).Ok?
    ensures ParseCidr(V4(b.base), b.prefix).value.Contains(V4(x)) <==> b.Has(x as nat)
  {
    ContainsIsPrefixAgreement(V4(b.base), b.prefix, V4(x));
    SameQuotientAligned(x as nat, b.base as nat, Pow2(b.Bits()));
  }
}
