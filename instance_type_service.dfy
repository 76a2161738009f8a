/** The per-region cache of the instance types EC2 offers, and the check that maps a
    requested type onto an offered one or a fallback. */
module InstanceTypeCache {
  import opened Common

  /** The answer `mapType` gives once the region's offered types are known. */
  function Choose(offered: set<string>, requested: string, fallback: string): (r: string)
    ensures r == requested || r == fallback
    ensures requested in offered ==> r == requested
    ensures requested !in offered ==> r == fallback
  {
    if requested in offered then requested else fallback
  }

  /** The instance-type service: `typeMap` memoises, per region, the names of every
      instance type the region's EC2 listing returned; `describeCalls` counts the
      listing requests sent to EC2. */
  class InstanceTypeService {
    var typeMap: map<string, set<string>>
    var describeCalls: nat

    constructor ()
      ensures typeMap == map[] && describeCalls == 0
    {
      typeMap := map[];
      describeCalls := 0;
    }

    /** `mapType(targetEc2, region, type, defaultType)`. `listing` is what EC2's
        `describeInstanceTypes` returns for `region`, page by page; it is read only
        on a cache miss, and then to its last page. */
    method MapType(listing: seq<Page<string>>, region: string, requested: string, fallback: string)
      returns (r: string)
      requires WellFormed(listing)
      modifies this
      ensures region in typeMap
      ensures forall other :: other != region ==>
        (other in typeMap <==> other in old(typeMap)) && (other in typeMap ==> typeMap[other] == old(typeMap)[other])
      ensures region in old(typeMap) ==> typeMap == old(typeMap) && describeCalls == old(describeCalls)
      ensures region !in old(typeMap) ==>
        typeMap == old(typeMap)[region := set t | t in Flatten(listing)]
        && describeCalls == old(describeCalls) + |listing|
      ensures r == Choose(typeMap[region], requested, fallback)
    {
      var typeSet: set<string>;
      if region in typeMap {
        typeSet := typeMap[region];
      } else {
        var instanceTypes: seq<string> := [];
        var k := 0;
        var done := false;
        while !done
          invariant 0 <= k <= |listing|
          invariant done <==> (k > 0 && listing[k - 1].nextToken.None?)
          invariant instanceTypes == Flatten(listing[..k])
          invariant describeCalls == old(describeCalls) + k
          invariant typeMap == old(typeMap)
          decreases |listing| - k
        {
          var page := listing[k];
          describeCalls := describeCalls + 1;
          FlattenStep(listing, k);
          instanceTypes := instanceTypes + page.items;
          k := k + 1;
          done := page.nextToken.None?;
        }
        assert listing[..k] == listing;
        typeSet := set t | t in instanceTypes;
        typeMap := typeMap[region := typeSet];
      }
      r := if requested in typeSet then requested else fallback;
    }
  }

  /** Two calls for the same region: the second is answered from the cache, sends no
      listing request, and agrees with the first. */
  method MapTypeTwice(service: InstanceTypeService, listing: seq<Page<string>>, region: string,
                      requested: string, fallback: string)
    returns (first: string, second: string)
    requires WellFormed(listing)
    modifies service
    ensures first == second
    ensures service.describeCalls == old(service.describeCalls) + (if region in old(service.typeMap) then 0 else |listing|)
  {
    first := service.MapType(listing, region, requested, fallback);
    var calls := service.describeCalls;
    second := service.MapType(listing, region, requested, fallback);
    assert service.describeCalls == calls;
  }
}
