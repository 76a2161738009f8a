/** Target-network selection for CloudEndure Manager projects: which subnet of the
    target VPC a blueprint uses, which private addresses it may take, and which
    security groups are meant for which machine. */
module CemNetwork {
  import opened Common
  import opened CemBlueprints

  // ---------------------------------------------------------------------------
  // Subnet classification

  datatype Route = Route(gatewayId: Option<string>)
  datatype RouteTable = RouteTable(routes: seq<Route>)

  /** A subnet of the project's VPC, with the route tables associated with it
      (what `describeRouteTables` answers for an association filter on its id). */
  datatype Subnet = Subnet(subnetId: string, cidrBlock: string, routeTables: seq<RouteTable>)

  /** A route to an internet gateway: a gateway id that starts with `igw-`. */
  predicate IsIgwRoute(r: Route)
  {
    r.gatewayId.Some? && StartsWith(r.gatewayId.value, "igw-")
  }

  /** A subnet is public when some associated route table routes to an internet
      gateway; with no table, or no such route, it is private. */
  predicate IsPublic(s: Subnet)
  {
    exists t, k :: 0 <= t < |s.routeTables| && 0 <= k < |s.routeTables[t].routes| && IsIgwRoute(s.routeTables[t].routes[k])
  }

  /** The first subnet, in listing order, of the requested visibility. */
  function FirstMatching(subnets: seq<Subnet>, publicSubnet: bool): (r: Option<Subnet>)
    ensures r.Some? ==>
      (exists i :: 0 <= i < |subnets| && subnets[i] == r.value
         && IsPublic(r.value) == publicSubnet
         && forall j :: 0 <= j < i ==> IsPublic(subnets[j]) != publicSubnet)
    ensures r.None? <==> forall i :: 0 <= i < |subnets| ==> IsPublic(subnets[i]) != publicSubnet
  {
    if subnets == [] then None
    else if IsPublic(subnets[0]) == publicSubnet then Some(subnets[0])
    else
      var r := FirstMatching(subnets[1..], publicSubnet);
      assert forall i :: 1 <= i < |subnets| ==> subnets[i] == subnets[1..][i - 1];
      r
  }

  /** The first match of a concatenation is the first match of its front part, or else of its back part. */
  lemma {:induction false} FirstMatchingAppend(a: seq<Subnet>, b: seq<Subnet>, publicSubnet: bool)
    ensures FirstMatching(a + b, publicSubnet)
      == if FirstMatching(a, publicSubnet).Some? then FirstMatching(a, publicSubnet) else FirstMatching(b, publicSubnet)
  {
    if a != [] {
      assert (a + b)[1..] == a[1..] + b;
      FirstMatchingAppend(a[1..], b, publicSubnet);
    } else {
      assert a + b == b;
    }
  }

  /** The body of one page of `findSubnet`: walk the subnets and return the first one
      of the requested visibility. */
  method ScanSubnets(subnets: seq<Subnet>, publicSubnet: bool) returns (r: Option<Subnet>)
    ensures r == FirstMatching(subnets, publicSubnet)
  {
    var i := 0;
    while i < |subnets|
      invariant 0 <= i <= |subnets|
      invariant FirstMatching(subnets, publicSubnet) == FirstMatching(subnets[i..], publicSubnet)
    {
      var subnet := subnets[i];
      assert subnets[i..][1..] == subnets[i + 1..];
      var matches := CheckSubnet(subnet, publicSubnet);
      if matches {
        return Some(subnet);
      }
      i := i + 1;
    }
    return None;
  }

  /** The test `findSubnet` applies to one subnet: with no route table it is private;
      otherwise every route of every table is read, and a route to an internet gateway
      makes it public (a public search stops at the first such route). */
  method CheckSubnet(subnet: Subnet, publicSubnet: bool) returns (matches: bool)
    ensures matches <==> IsPublic(subnet) == publicSubnet
  {
    var tables := subnet.routeTables;
    if |tables| == 0 {
      return !publicSubnet;
    }
    var routeIgw := false;
    var t := 0;
    while t < |tables|
      invariant 0 <= t <= |tables|
      invariant routeIgw <==> exists t', k :: 0 <= t' < t && 0 <= k < |tables[t'].routes| && IsIgwRoute(tables[t'].routes[k])
      invariant routeIgw ==> !publicSubnet
    {
      var routes := tables[t].routes;
      var k := 0;
      while k < |routes|
        invariant 0 <= k <= |routes|
        invariant routeIgw <==>
          (exists t', k' :: 0 <= t' < t && 0 <= k' < |tables[t'].routes| && IsIgwRoute(tables[t'].routes[k']))
          || (exists k' :: 0 <= k' < k && IsIgwRoute(routes[k']))
        invariant routeIgw ==> !publicSubnet
      {
        var gateway := routes[k].gatewayId;
        if gateway.Some? && StartsWith(gateway.value, "igw-") {
          routeIgw := true;
          if publicSubnet {
            assert IsIgwRoute(subnet.routeTables[t].routes[k]);
            return true;
          }
        }
        k := k + 1;
      }
      t := t + 1;
    }
    return !routeIgw && !publicSubnet;
  }

  /** `findSubnet` with the pagination it evidently intends: every page of the
      listing is read until a subnet of the requested visibility turns up. */
  function FindSubnetSpec(pages: seq<Page<Subnet>>, publicSubnet: bool): Result<Subnet>
  {
    match FirstMatching(Flatten(pages), publicSubnet)
    case Some(s) => Ok(s)
    case None => Err(NoMatchingSubnet(publicSubnet))
  }

  /** `findSubnet(project, publicSubnet)`, reading pages while a continuation token is
      present (the corrected loop condition). */
  method FindSubnet(pages: seq<Page<Subnet>>, publicSubnet: bool) returns (r: Result<Subnet>)
    requires WellFormed(pages)
    ensures r == FindSubnetSpec(pages, publicSubnet)
  {
    var k := 0;
    var done := false;
    while !done
      invariant 0 <= k <= |pages|
      invariant done <==> (k > 0 && pages[k - 1].nextToken.None?)
      invariant FirstMatching(Flatten(pages[..k]), publicSubnet).None?
      decreases |pages| - k
    {
      var page := pages[k];
      var found := ScanSubnets(page.items, publicSubnet);
      assert FirstMatching(Flatten(pages[..k + 1]), publicSubnet) == found by {
        FlattenStep(pages, k);
        FirstMatchingAppend(Flatten(pages[..k]), page.items, publicSubnet);
      }
      if found.Some? {
        assert FirstMatching(Flatten(pages), publicSubnet) == found by {
          FlattenTail(pages, k + 1);
          FirstMatchingAppend(Flatten(pages[..k + 1]), Flatten(pages[k + 1..]), publicSubnet);
        }
        return Ok(found.value);
      }
      k := k + 1;
      done := page.nextToken.None?;
    }
    assert pages[..k] == pages;
    return Err(NoMatchingSubnet(publicSubnet));
  }

  /** What `findSubnet` does as written. Its loop runs `while (nextToken == null)`: a
      first page that has a token ends the search after that one page, and a first
      page without a token is asked for again and again (the request token is reset
      to null, which names the first page), so the call never returns. */
  datatype SubnetSearch = Found(subnet: Subnet) | Exhausted | Diverges

  /** `findSubnet` as written: only the first page is ever searched. */
  function FindSubnetAsWritten(pages: seq<Page<Subnet>>, publicSubnet: bool): (r: SubnetSearch)
    requires WellFormed(pages)
    ensures r.Found? ==> IsPublic(r.subnet) == publicSubnet && r.subnet in pages[0].items
    ensures r.Diverges? <==> |pages| == 1 && FirstMatching(pages[0].items, publicSubnet).None?
  {
    match FirstMatching(pages[0].items, publicSubnet)
    case Some(s) => Found(s)
    case None => if pages[0].nextToken.Some? then Exhausted else Diverges
  }

  /** A public subnet on the second page is never found as written, while the
      corrected search finds it. */
  lemma SecondPageMissed()
    ensures var priv := Subnet("subnet-a", "10.0.0.0/24", []);
      var pub := Subnet("subnet-b", "10.0.1.0/24", [RouteTable([Route(Some("igw-1"))])]);
      var pages := [Page([priv], Some("next")), Page([pub], None)];
      WellFormed(pages)
      && FindSubnetAsWritten(pages, true) == Exhausted
      && FindSubnetSpec(pages, true) == Ok(pub)
  {
    var priv := Subnet("subnet-a", "10.0.0.0/24", []);
    var pub := Subnet("subnet-b", "10.0.1.0/24", [RouteTable([Route(Some("igw-1"))])]);
    var pages := [Page([priv], Some("next")), Page([pub], None)];
    assert IsIgwRoute(pub.routeTables[0].routes[0]);
    assert IsPublic(pub);
    assert !IsPublic(priv);
    assert pages[..1] == [pages[0]];
    assert pages[..1][..0] == [];
    assert Flatten(pages[..1]) == [priv];
    assert pages[..|pages| - 1] == pages[..1];
    assert Flatten(pages) == [priv, pub];
    assert [priv, pub][1..] == [pub];
  }

  /** A single page without a match makes the written loop request that page forever. */
  lemma SinglePageWithoutMatchDiverges(s: Subnet)
    requires IsPublic(s)
    ensures FindSubnetAsWritten([Page([s], None)], false) == Diverges
    ensures FindSubnetSpec([Page([s], None)], false) == Err(NoMatchingSubnet(false))
  {
    var pages := [Page([s], None)];
    assert pages[..0] == [];
    assert Flatten(pages) == [s];
  }

  /** The corrected search returns a listed subnet of the requested kind, and fails
      exactly when no subnet on any page is of that kind. */
  lemma FindSubnetSpecCorrect(pages: seq<Page<Subnet>>, publicSubnet: bool)
    ensures FindSubnetSpec(pages, publicSubnet).Ok? ==>
      IsPublic(FindSubnetSpec(pages, publicSubnet).value) == publicSubnet
      && FindSubnetSpec(pages, publicSubnet).value in Flatten(pages)
    ensures FindSubnetSpec(pages, publicSubnet).Err? <==>
      forall i, j :: 0 <= i < |pages| && 0 <= j < |pages[i].items| ==> IsPublic(pages[i].items[j]) != publicSubnet
  {
    var all := Flatten(pages);
    if FindSubnetSpec(pages, publicSubnet).Err? {
      forall i, j | 0 <= i < |pages| && 0 <= j < |pages[i].items|
        ensures IsPublic(pages[i].items[j]) != publicSubnet
      {
        FlattenMember(pages, pages[i].items[j]);
      }
    } else {
      var s := FindSubnetSpec(pages, publicSubnet).value;
      FlattenMember(pages, s);
    }
  }

  // ---------------------------------------------------------------------------
  // Free private addresses

  /** A CIDR block, seen through `getSize` and `findAddress`: its host addresses by index. */
  datatype Cidr = Cidr(hosts: seq<string>)

  /** Every random draw names an address of the block (`findAddress(nextInt(size))`). */
  predicate DrawsInBlock(cidr: Cidr, draws: seq<string>)
  {
    forall i :: 0 <= i < |draws| ==> draws[i] in cidr.hosts
  }

  /** The addresses a sequence of random draws accepts: each drawn address that is not
      in `used` (and, when `distinct` is set, not accepted before) is kept, in draw order. */
  function Picks(draws: seq<string>, used: seq<string>, distinct: bool): (r: seq<string>)
    ensures |r| <= |draws|
  {
    if draws == [] then []
    else
      var prefix := Picks(draws[..|draws| - 1], used, distinct);
      var address := draws[|draws| - 1];
      if address in used || (distinct && address in prefix) then prefix else prefix + [address]
  }

  /** Every address in `r` is a drawn address that is not in use. */
  predicate Free(draws: seq<string>, r: seq<string>, used: seq<string>)
  {
    forall j :: 0 <= j < |r| ==> r[j] !in used && r[j] in draws
  }

  /** Every drawn address is in use or in `r`. */
  predicate Covers(draws: seq<string>, used: seq<string>, r: seq<string>)
  {
    forall i :: 0 <= i < |draws| ==> draws[i] in used || draws[i] in r
  }

  predicate NoRepeats(r: seq<string>)
  {
    forall i, j :: 0 <= i < j < |r| ==> r[i] != r[j]
  }

  /** Every accepted address was drawn and is not in use; every drawn address that was
      free was accepted; with `distinct`, nothing is accepted twice. */
  lemma {:induction false} PicksSound(draws: seq<string>, used: seq<string>, distinct: bool)
    ensures Free(draws, Picks(draws, used, distinct), used)
    ensures Covers(draws, used, Picks(draws, used, distinct))
    ensures distinct ==> NoRepeats(Picks(draws, used, distinct))
  {
    if draws != [] {
      var n := |draws| - 1;
      var pre := draws[..n];
      PicksSound(pre, used, distinct);
      var prefix := Picks(pre, used, distinct);
      var address := draws[n];
      var r := Picks(draws, used, distinct);
      var skipped := address in used || (distinct && address in prefix);
      assert r == if skipped then prefix else prefix + [address];
      assert forall x :: x in prefix ==> x in r;
      assert forall x :: x in pre ==> x in draws;
      forall j | 0 <= j < |r| ensures r[j] !in used && r[j] in draws {
        if j < |prefix| {
          assert r[j] == prefix[j];
          assert prefix[j] !in used && prefix[j] in pre;
        } else {
          assert r[j] == address;
        }
      }
      forall i | 0 <= i < |draws| ensures draws[i] in used || draws[i] in r {
        if i < n {
          assert draws[i] == pre[i];
        }
      }
      if distinct && !skipped {
        forall i, j | 0 <= i < j < |r| ensures r[i] != r[j] {
          if j == |prefix| {
            assert r[i] == prefix[i];
          }
        }
      }
    }
  }

  /** What the first `n` draws accept is a prefix of what all of them accept. */
  lemma {:induction false} PicksPrefix(draws: seq<string>, used: seq<string>, distinct: bool, n: nat)
    requires n <= |draws|
    ensures var p := Picks(draws[..n], used, distinct);
      var q := Picks(draws, used, distinct);
      |p| <= |q| && q[..|p|] == p
    decreases |draws|
  {
    if n < |draws| {
      var m := |draws| - 1;
      PicksPrefix(draws[..m], used, distinct, n);
      assert draws[..m][..n] == draws[..n];
    } else {
      assert draws[..n] == draws;
    }
  }

  /** One more draw: the address it names is accepted unless it is in use (or, with
      `distinct`, already accepted). */
  lemma PicksStep(draws: seq<string>, used: seq<string>, distinct: bool, i: nat)
    requires i < |draws|
    ensures var p := Picks(draws[..i], used, distinct);
      Picks(draws[..i + 1], used, distinct)
        == if draws[i] in used || (distinct && draws[i] in p) then p else p + [draws[i]]
  {
    assert draws[..i + 1][..i] == draws[..i];
  }

  /** Once the search holds `count + 1` addresses after `i` draws, it holds the first
      `count + 1` of what all the draws accept. */
  lemma PicksStop(draws: seq<string>, used: seq<string>, distinct: bool, i: nat, count: nat)
    requires i <= |draws|
    requires |Picks(draws[..i], used, distinct)| == count + 1
    ensures Take(Picks(draws, used, distinct), count + 1) == Picks(draws[..i], used, distinct)
  {
    PicksPrefix(draws, used, distinct, i);
  }

  /** The first `n` elements of `s`, or all of them. */
  function Take<T>(s: seq<T>, n: nat): (r: seq<T>)
    ensures |r| <= n && |r| <= |s| && r == s[..|r|]
    ensures |s| <= n ==> r == s
  {
    if |s| <= n then s else s[..n]
  }

  /** What a free-address search returns: at most `count + 1` addresses and at most one
      per draw, none of them in use, each an address of the block; with `distinct`, no
      address twice. */
  lemma UnusedAddressBounds(cidr: Cidr, draws: seq<string>, used: seq<string>, distinct: bool, count: nat)
    requires |draws| >= |cidr.hosts| && DrawsInBlock(cidr, draws)
    ensures var r := Take(Picks(draws[..|cidr.hosts|], used, distinct), count + 1);
      && |r| <= count + 1 && |r| <= |cidr.hosts|
      && (forall j :: 0 <= j < |r| ==> r[j] !in used && r[j] in cidr.hosts)
      && (distinct ==> NoRepeats(r))
  {
    var ds := draws[..|cidr.hosts|];
    var p := Picks(ds, used, distinct);
    PicksSound(ds, used, distinct);
    var r := Take(p, count + 1);
    forall j | 0 <= j < |r| ensures r[j] !in used && r[j] in cidr.hosts {
      assert r[j] == p[j];
      var k :| 0 <= k < |ds| && ds[k] == p[j];
      assert ds[k] == draws[k];
    }
  }

  /** `findUnusedAddress(cidr, addresses, count)`: `size` draws at most; a drawn address
      already in use is skipped, any other is accepted, and the search stops as soon as
      `count + 1` addresses are held. The random draws are the addresses in `draws`. */
  method FindUnusedAddress(cidr: Cidr, used: seq<string>, count: nat, draws: seq<string>)
    returns (unused: seq<string>)
    requires |draws| >= |cidr.hosts|
    ensures unused == Take(Picks(draws[..|cidr.hosts|], used, false), count + 1)
  {
    var size := |cidr.hosts|;
    var ds := draws[..size];
    unused := [];
    var i := 0;
    while i < size
      invariant 0 <= i <= size
      invariant unused == Picks(ds[..i], used, false)
      invariant |unused| <= count
    {
      var address := ds[i];
      PicksStep(ds, used, false, i);
      if address in used {
        i := i + 1;
        continue;
      }
      unused := unused + [address];
      if |unused| > count {
        PicksStop(ds, used, false, i + 1, count);
        return;
      }
      i := i + 1;
    }
    assert ds[..i] == ds;
  }

  /** Two draws of the same address accept it twice: the written search can hand two
      machines one address. */
  lemma DuplicatePicks()
    ensures var cidr := Cidr(["10.0.0.4", "10.0.0.5"]);
      var draws := ["10.0.0.4", "10.0.0.4"];
      DrawsInBlock(cidr, draws)
      && Take(Picks(draws, [], false), 2) == ["10.0.0.4", "10.0.0.4"]
      && Take(Picks(draws, [], true), 2) == ["10.0.0.4"]
  {
    var draws := ["10.0.0.4", "10.0.0.4"];
    assert draws[..1] == ["10.0.0.4"];
    assert draws[..1][..0] == [];
  }

  /** The corrected search: an address already accepted in this call is skipped like a
      used one, so the result holds no address twice. */
  method FindUnusedAddressDistinct(cidr: Cidr, used: seq<string>, count: nat, draws: seq<string>)
    returns (unused: seq<string>)
    requires |draws| >= |cidr.hosts|
    ensures unused == Take(Picks(draws[..|cidr.hosts|], used, true), count + 1)
  {
    var size := |cidr.hosts|;
    var ds := draws[..size];
    unused := [];
    var i := 0;
    while i < size
      invariant 0 <= i <= size
      invariant unused == Picks(ds[..i], used, true)
      invariant |unused| <= count
    {
      var address := ds[i];
      PicksStep(ds, used, true, i);
      if address in used || address in unused {
        i := i + 1;
        continue;
      }
      unused := unused + [address];
      if |unused| > count {
        PicksStop(ds, used, true, i + 1, count);
        return;
      }
      i := i + 1;
    }
    assert ds[..i] == ds;
  }

  /** `findIpAddress(project, subnet, count)`: the primary private address of each
      network interface of the VPC, across all pages, counts as used (an interface's
      secondary private addresses are not collected); then the free-address search runs
      over the subnet's CIDR block. `interfaces` lists one primary address per
      interface. */
  method FindIpAddress(interfaces: seq<Page<string>>, cidr: Cidr, count: nat, draws: seq<string>)
    returns (r: seq<string>)
    requires WellFormed(interfaces)
    requires |draws| >= |cidr.hosts|
    ensures r == Take(Picks(draws[..|cidr.hosts|], Flatten(interfaces), false), count + 1)
  {
    var addresses: seq<string> := [];
    var k := 0;
    var done := false;
    while !done
      invariant 0 <= k <= |interfaces|
      invariant done <==> (k > 0 && interfaces[k - 1].nextToken.None?)
      invariant addresses == Flatten(interfaces[..k])
      decreases |interfaces| - k
    {
      var page := interfaces[k];
      FlattenStep(interfaces, k);
      addresses := addresses + page.items;
      k := k + 1;
      done := page.nextToken.None?;
    }
    assert interfaces[..k] == interfaces;
    r := FindUnusedAddress(cidr, addresses, count, draws);
  }

  // ---------------------------------------------------------------------------
  // Security groups per machine

  /** A security group of the VPC with its tags. */
  datatype GroupInfo = GroupInfo(groupId: string, groupName: string, tags: seq<Tag>)

  function AsSecurityGroup(g: GroupInfo): SecurityGroup
  {
    SecurityGroup(g.groupId, g.groupName)
  }

  /** The machine names a group is tagged for: the comma-split values of its tags whose
      key is the machine tag, in tag order. */
  function MachineNames(tags: seq<Tag>, tagMachine: string): seq<string>
  {
    if tags == [] then []
    else
      MachineNames(tags[..|tags| - 1], tagMachine)
      + (if tags[|tags| - 1].key == tagMachine then JavaSplit(tags[|tags| - 1].value, ',') else [])
  }

  /** The (machine name, group) pairs one group contributes. */
  function PairsOf(g: GroupInfo, tagMachine: string): seq<(string, SecurityGroup)>
  {
    var names := MachineNames(g.tags, tagMachine);
    seq(|names|, i requires 0 <= i < |names| => (names[i], AsSecurityGroup(g)))
  }

  /** A group pairs itself with exactly the names its machine tags list. */
  lemma PairsOfMember(g: GroupInfo, tagMachine: string, name: string, group: SecurityGroup)
    ensures (name, group) in PairsOf(g, tagMachine) <==>
      name in MachineNames(g.tags, tagMachine) && group == AsSecurityGroup(g)
  {
    var names := MachineNames(g.tags, tagMachine);
    var r := PairsOf(g, tagMachine);
    if name in names {
      var i :| 0 <= i < |names| && names[i] == name;
      assert r[i] == (name, AsSecurityGroup(g));
    }
  }

  /** The pairs of every group of a listing, in listing order. */
  function AllPairs(groups: seq<GroupInfo>, tagMachine: string): seq<(string, SecurityGroup)>
  {
    if groups == [] then []
    else AllPairs(groups[..|groups| - 1], tagMachine) + PairsOf(groups[|groups| - 1], tagMachine)
  }

  /** `Collectors.groupingBy(name, mapping(group, toList()))`: each name maps to the
      groups paired with it, in encounter order. */
  function GroupBy(pairs: seq<(string, SecurityGroup)>): map<string, seq<SecurityGroup>>
  {
    if pairs == [] then map[]
    else
      var m := GroupBy(pairs[..|pairs| - 1]);
      var (name, group) := pairs[|pairs| - 1];
      m[name := (if name in m then m[name] else []) + [group]]
  }

  /** `groupingBy`: a name is a key exactly when some pair carries it, and its groups are the pairs' groups for it, in pair order. */
  lemma {:induction false} GroupByMember(pairs: seq<(string, SecurityGroup)>, name: string, group: SecurityGroup)
    ensures name in GroupBy(pairs) <==> exists g :: (name, g) in pairs
    ensures name in GroupBy(pairs) ==> (group in GroupBy(pairs)[name] <==> (name, group) in pairs)
  {
    if pairs != [] {
      var n := |pairs| - 1;
      GroupByMember(pairs[..n], name, group);
      assert pairs == pairs[..n] + [pairs[n]];
      var (last, _) := pairs[n];
      if name in GroupBy(pairs[..n]) {
        var g :| (name, g) in pairs[..n];
        assert (name, g) in pairs;
      }
    }
  }

  /** A pair is collected exactly when some listed group yields it. */
  lemma {:induction false} AllPairsMember(groups: seq<GroupInfo>, tagMachine: string, name: string, group: SecurityGroup)
    ensures (name, group) in AllPairs(groups, tagMachine) <==>
      exists g :: g in groups && name in MachineNames(g.tags, tagMachine) && group == AsSecurityGroup(g)
  {
    if groups != [] {
      var n := |groups| - 1;
      AllPairsMember(groups[..n], tagMachine, name, group);
      PairsOfMember(groups[n], tagMachine, name, group);
      assert groups == groups[..n] + [groups[n]];
      if exists g :: g in groups && name in MachineNames(g.tags, tagMachine) && group == AsSecurityGroup(g) {
        var g :| g in groups && name in MachineNames(g.tags, tagMachine) && group == AsSecurityGroup(g);
        if g != groups[n] {
          assert g in groups[..n];
        }
      }
    }
  }

  /** One more group appends its pairs at the end. */
  lemma AllPairsSnoc(groups: seq<GroupInfo>, g: GroupInfo, tagMachine: string)
    ensures AllPairs(groups + [g], tagMachine) == AllPairs(groups, tagMachine) + PairsOf(g, tagMachine)
  {
    assert (groups + [g])[..|groups|] == groups;
  }

  /** `findSecurityGroups(project)`: collects the pairs of every group across all
      pages of the VPC's security groups, then groups them by machine name. */
  method FindSecurityGroups(pages: seq<Page<GroupInfo>>, tagMachine: string)
    returns (r: map<string, seq<SecurityGroup>>)
    requires WellFormed(pages)
    ensures r == GroupBy(AllPairs(Flatten(pages), tagMachine))
  {
    var pairs: seq<(string, SecurityGroup)> := [];
    var k := 0;
    var done := false;
    while !done
      invariant 0 <= k <= |pages|
      invariant done <==> (k > 0 && pages[k - 1].nextToken.None?)
      invariant pairs == AllPairs(Flatten(pages[..k]), tagMachine)
      decreases |pages| - k
    {
      var page := pages[k];
      FlattenStep(pages, k);
      pairs := AddPagePairs(pairs, Flatten(pages[..k]), page.items, tagMachine);
      k := k + 1;
      done := page.nextToken.None?;
    }
    assert pages[..k] == pages;
    r := GroupBy(pairs);
  }

  /** The inner loop of `findSecurityGroups`: the pairs of each group of one page are
      appended in turn. */
  method AddPagePairs(pairs: seq<(string, SecurityGroup)>, seen: seq<GroupInfo>, items: seq<GroupInfo>,
                      tagMachine: string)
    returns (r: seq<(string, SecurityGroup)>)
    requires pairs == AllPairs(seen, tagMachine)
    ensures r == AllPairs(seen + items, tagMachine)
  {
    r := pairs;
    var j := 0;
    assert seen + items[..0] == seen;
    while j < |items|
      invariant 0 <= j <= |items|
      invariant r == AllPairs(seen + items[..j], tagMachine)
    {
      var group := items[j];
      assert seen + items[..j + 1] == (seen + items[..j]) + [group];
      AllPairsSnoc(seen + items[..j], group, tagMachine);
      r := r + PairsOf(group, tagMachine);
      j := j + 1;
    }
    assert items[..j] == items;
  }

  /** A machine name maps to a group exactly when that group carries a machine tag
      whose comma-split value names the machine; groups without one contribute nothing. */
  lemma SecurityGroupMembership(pages: seq<Page<GroupInfo>>, tagMachine: string, name: string, group: SecurityGroup)
    ensures var r := GroupBy(AllPairs(Flatten(pages), tagMachine));
      (name in r && group in r[name]) <==>
      exists g :: g in Flatten(pages) && name in MachineNames(g.tags, tagMachine) && group == AsSecurityGroup(g)
    ensures var r := GroupBy(AllPairs(Flatten(pages), tagMachine));
      name in r <==> exists g :: g in Flatten(pages) && name in MachineNames(g.tags, tagMachine)
  {
    var pairs := AllPairs(Flatten(pages), tagMachine);
    GroupByMember(pairs, name, group);
    AllPairsMember(Flatten(pages), tagMachine, name, group);
    if name in GroupBy(pairs) {
      var g0 :| (name, g0) in pairs;
      AllPairsMember(Flatten(pages), tagMachine, name, g0);
    }
    if exists g :: g in Flatten(pages) && name in MachineNames(g.tags, tagMachine) {
      var g :| g in Flatten(pages) && name in MachineNames(g.tags, tagMachine);
      AllPairsMember(Flatten(pages), tagMachine, name, AsSecurityGroup(g));
      GroupByMember(pairs, name, AsSecurityGroup(g));
    }
  }

  /** Tags with another key contribute no machine name. */
  lemma {:induction false} UntaggedGroupNamesNothing(tags: seq<Tag>, tagMachine: string)
    requires forall i :: 0 <= i < |tags| ==> tags[i].key != tagMachine
    ensures MachineNames(tags, tagMachine) == []
  {
    if tags != [] {
      UntaggedGroupNamesNothing(tags[..|tags| - 1], tagMachine);
    }
  }
}
