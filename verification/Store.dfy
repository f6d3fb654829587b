/** What the policy engine keeps on disk (src/storage), as values: each table is the list its reader returns. */
module Store {
  import opened Bits
  import opened Cidr
  import opened Wrappers

  /** An active ban: the stored address, and what its target text parses to. */
  datatype Ban = Ban(ip: Option<IpAddr>, targetIp: Option<IpAddr>) {
    function Address(): Option<IpAddr> {
      if ip.Some? then ip else targetIp
    }
  }

  /** `whitelist` lists what each entry parses to. */
  datatype Tables = Tables(whitelist: seq<Option<IpAddr>>, bans: seq<Ban>, blockedAsns: seq<u32>,
                           restrictedAsns: seq<u32>, allowedRegions: seq<string>, blockedCategories: seq<string>)

  /** The IPv4 addresses of a list of bans, in order. */
  function V4Addresses(bans: seq<Ban>): seq<u32> {
    if bans == [] then []
    else
      var a, rest := bans[0].Address(), V4Addresses(bans[1..]);
      if a.Some? && a.value.V4? then [a.value.v4] + rest else rest
  }

  lemma {:induction false} V4AddressesAreBanned(bans: seq<Ban>, ip: u32)
    ensures ip in V4Addresses(bans) <==> exists b :: b in bans && b.Address() == Some(V4(ip))
  {
    if bans != [] {
      V4AddressesAreBanned(bans[1..], ip);
      assert bans == [bans[0]] + bans[1..];
    }
  }

  /** They come in the order of the bans, one for each ban that has one. */
  lemma {:induction false} V4AddressesInOrder(bans: seq<Ban>, more: seq<Ban>)
    ensures V4Addresses(bans + more) == V4Addresses(bans) + V4Addresses(more)
  {
    if bans == [] {
      assert bans + more == more;
    } else {
      assert (bans + more)[1..] == bans[1..] + more;
      V4AddressesInOrder(bans[1..], more);
    }
  }

  lemma V4AddressesOfOne(ban: Ban)
    ensures V4Addresses([ban])
         == if ban.Address().Some? && ban.Address().value.V4? then [ban.Address().value.v4] else []
  {
    assert [ban][1..] == [];
  }
}
