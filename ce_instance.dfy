/** The instances of a region a CloudEndure project may replicate: those whose instance
    profile carries the Systems Manager policy and which run in the project's VPC. */
module CloudEndureInstances {
  import opened Common

  /** What `describeInstances` tells about an instance. */
  datatype Ec2Instance = Ec2Instance(instanceId: string, vpcId: string, profileArn: Option<string>)

  /** What IAM answers: the roles of each instance profile, by profile name, and the
      names of the policies attached to each role, by role name. A name that is not a
      key does not exist. */
  datatype Iam = Iam(profileRoles: map<string, seq<string>>, rolePolicies: map<string, seq<string>>)

  /** The IAM requests `isQualified` sends. */
  datatype IamCall = GetInstanceProfile(profileName: string) | ListAttachedRolePolicies(roleName: string)

  /** The policy that lets the replication agent be installed through Systems Manager. */
  const SsmPolicy: string := "AmazonSSMManagedInstanceCore"

  /** The verdict of `isQualified` (an exception when IAM does not know the profile or
      the role, or the profile has no role) and the IAM requests it sent, in order. */
  datatype Qualification = Qualification(verdict: Result<bool>, calls: seq<IamCall>)

  /** `isQualified(instance, vpcId, iam)`: the checks run in order and the first that
      fails decides: an instance profile, a `/` in its ARN, the Systems Manager policy
      on the profile's first role, then the VPC when one is given. */
  function IsQualified(instance: Ec2Instance, vpcId: Option<string>, iam: Iam): Qualification
  {
    if instance.profileArn.None? then Qualification(Ok(false), [])
    else
      var arn := instance.profileArn.value;
      if LastIndexOf(arn, '/') == -1 then Qualification(Ok(false), [])
      else
        var name := AfterLast(arn, '/');
        if name !in iam.profileRoles || iam.profileRoles[name] == [] then
          Qualification(Err(IamLookupFailed(name)), [GetInstanceProfile(name)])
        else
          var role := iam.profileRoles[name][0];
          var calls := [GetInstanceProfile(name), ListAttachedRolePolicies(role)];
          if role !in iam.rolePolicies then Qualification(Err(IamLookupFailed(role)), calls)
          else if SsmPolicy !in iam.rolePolicies[role] then Qualification(Ok(false), calls)
          else if vpcId.Some? && instance.vpcId != vpcId.value then Qualification(Ok(false), calls)
          else Qualification(Ok(true), calls)
  }

  /** The instance passes exactly when every check passes. */
  lemma QualifiedIff(instance: Ec2Instance, vpcId: Option<string>, iam: Iam)
    ensures IsQualified(instance, vpcId, iam).verdict == Ok(true) <==>
      && instance.profileArn.Some?
      && '/' in instance.profileArn.value
      && var name := AfterLast(instance.profileArn.value, '/');
         && name in iam.profileRoles && iam.profileRoles[name] != []
         && iam.profileRoles[name][0] in iam.rolePolicies
         && SsmPolicy in iam.rolePolicies[iam.profileRoles[name][0]]
         && (vpcId.None? || instance.vpcId == vpcId.value)
  {
    if instance.profileArn.Some? {
      var arn := instance.profileArn.value;
      assert LastIndexOf(arn, '/') == -1 <==> '/' !in arn by {
        if '/' in arn {
          var i :| 0 <= i < |arn| && arn[i] == '/';
        }
      }
    }
  }

  /** Without a profile, or with an ARN without `/`, the instance is rejected and IAM
      is never asked. */
  lemma NoIamCallWithoutProfileName(instance: Ec2Instance, vpcId: Option<string>, iam: Iam)
    requires instance.profileArn.None? || '/' !in instance.profileArn.value
    ensures IsQualified(instance, vpcId, iam) == Qualification(Ok(false), [])
  {
  }

  /** The profile is looked up before the role's policies, and each at most once. */
  lemma IamCallOrder(instance: Ec2Instance, vpcId: Option<string>, iam: Iam)
    ensures var calls := IsQualified(instance, vpcId, iam).calls;
      |calls| <= 2
      && (|calls| >= 1 ==> calls[0].GetInstanceProfile?)
      && (|calls| == 2 ==> calls[1].ListAttachedRolePolicies?)
  {
  }

  /** Without a VPC the instance's VPC does not matter. */
  lemma NoVpcSkipsCheck(instance: Ec2Instance, otherVpc: string, iam: Iam)
    ensures IsQualified(instance, None, iam) == IsQualified(instance.(vpcId := otherVpc), None, iam)
  {
  }

  /** With a VPC, an instance outside it is never qualified. */
  lemma OtherVpcRejected(instance: Ec2Instance, vpcId: string, iam: Iam)
    requires instance.vpcId != vpcId
    ensures IsQualified(instance, Some(vpcId), iam).verdict != Ok(true)
  {
  }

  // ---------------------------------------------------------------------------
  // The listing

  /** An instance as the portal lists it, stamped with the region it was found in. */
  datatype AwsInstance = AwsInstance(instance: Ec2Instance, region: string)

  /** All instances of a sequence of reservations, reservation after reservation. */
  function AllInstances(reservations: seq<seq<Ec2Instance>>): seq<Ec2Instance>
  {
    if reservations == [] then []
    else AllInstances(reservations[..|reservations| - 1]) + reservations[|reservations| - 1]
  }

  /** The instances of a concatenation of reservations are those of each part, in order. */
  lemma {:induction false} AllInstancesAppend(a: seq<seq<Ec2Instance>>, b: seq<seq<Ec2Instance>>)
    ensures AllInstances(a + b) == AllInstances(a) + AllInstances(b)
    decreases |b|
  {
    if b == [] {
      assert a + b == a;
    } else {
      var n := |b| - 1;
      var m := |a + b| - 1;
      assert (a + b)[..m] == a + b[..n];
      assert (a + b)[m] == b[n];
      AllInstancesAppend(a, b[..n]);
    }
  }

  /** The instances of a listing, page after page. */
  function Listed(pages: seq<Page<seq<Ec2Instance>>>): seq<Ec2Instance>
  {
    AllInstances(Flatten(pages))
  }

  /** What the listing has collected after `instances`, starting from `acc`: each
      qualified instance is appended with its region, the others are skipped, and the
      first exception ends the listing. */
  function Collect(acc: Result<seq<AwsInstance>>, instances: seq<Ec2Instance>, vpcId: Option<string>, iam: Iam,
                   region: string): Result<seq<AwsInstance>>
  {
    if instances == [] then acc
    else
      var prefix := Collect(acc, instances[..|instances| - 1], vpcId, iam, region);
      var last := instances[|instances| - 1];
      if prefix.Err? then prefix
      else
        match IsQualified(last, vpcId, iam).verdict
        case Err(e) => Err(e)
        case Ok(qualified) => if qualified then Ok(prefix.value + [AwsInstance(last, region)]) else prefix
  }

  /** Collecting over a concatenation collects over the front part, then over the back part. */
  lemma {:induction false} CollectAppend(acc: Result<seq<AwsInstance>>, a: seq<Ec2Instance>, b: seq<Ec2Instance>,
                                         vpcId: Option<string>, iam: Iam, region: string)
    ensures Collect(acc, a + b, vpcId, iam, region) == Collect(Collect(acc, a, vpcId, iam, region), b, vpcId, iam, region)
    decreases |b|
  {
    if b == [] {
      assert a + b == a;
    } else {
      var n := |b| - 1;
      var m := |a + b| - 1;
      assert (a + b)[..m] == a + b[..n];
      assert (a + b)[m] == b[n];
      CollectAppend(acc, a, b[..n], vpcId, iam, region);
    }
  }

  /** A failure already raised is kept: later instances are not looked at. */
  lemma {:induction false} CollectErr(e: Error, instances: seq<Ec2Instance>, vpcId: Option<string>, iam: Iam, region: string)
    ensures Collect(Err(e), instances, vpcId, iam, region) == Err(e)
  {
    if instances != [] {
      CollectErr(e, instances[..|instances| - 1], vpcId, iam, region);
    }
  }

  /** The listing succeeds exactly when no instance raises; then it holds exactly the
      qualified instances, each stamped with the region; otherwise its error is that of
      the first instance that raises. */
  lemma {:induction false} CollectSpec(instances: seq<Ec2Instance>, vpcId: Option<string>, iam: Iam, region: string)
    ensures var r := Collect(Ok([]), instances, vpcId, iam, region);
      && (r.Ok? <==> forall i :: 0 <= i < |instances| ==> IsQualified(instances[i], vpcId, iam).verdict.Ok?)
      && (r.Ok? ==>
           && |r.value| <= |instances|
           && (forall x :: x in r.value <==>
                x.region == region && x.instance in instances && IsQualified(x.instance, vpcId, iam).verdict == Ok(true)))
      && (r.Err? ==>
           exists i :: 0 <= i < |instances| && IsQualified(instances[i], vpcId, iam).verdict == Err(r.error)
             && forall j :: 0 <= j < i ==> IsQualified(instances[j], vpcId, iam).verdict.Ok?)
  {
    if instances != [] {
      var n := |instances| - 1;
      CollectSpec(instances[..n], vpcId, iam, region);
      assert instances == instances[..n] + [instances[n]];
      assert forall i :: 0 <= i < n ==> instances[..n][i] == instances[i];
    }
  }

  /** The loop over the instances of one reservation. */
  method CollectReservation(acc: seq<AwsInstance>, reservation: seq<Ec2Instance>, vpcId: Option<string>, iam: Iam,
                            region: string)
    returns (r: Result<seq<AwsInstance>>)
    ensures r == Collect(Ok(acc), reservation, vpcId, iam, region)
  {
    var instances := acc;
    for m := 0 to |reservation|
      invariant Collect(Ok(acc), reservation[..m], vpcId, iam, region) == Ok(instances)
    {
      var instance := reservation[m];
      assert reservation[..m + 1][..m] == reservation[..m];
      var q := IsQualified(instance, vpcId, iam);
      if q.verdict.Err? {
        CollectAppend(Ok(acc), reservation[..m + 1], reservation[m + 1..], vpcId, iam, region);
        assert reservation[..m + 1] + reservation[m + 1..] == reservation;
        CollectErr(q.verdict.error, reservation[m + 1..], vpcId, iam, region);
        return Err(q.verdict.error);
      }
      if !q.verdict.value {
        continue;
      }
      instances := instances + [AwsInstance(instance, region)];
    }
    assert reservation[..|reservation|] == reservation;
    return Ok(instances);
  }

  /** The loop over the reservations of one page. */
  method CollectPage(acc: seq<AwsInstance>, reservations: seq<seq<Ec2Instance>>, vpcId: Option<string>, iam: Iam,
                     region: string)
    returns (r: Result<seq<AwsInstance>>)
    ensures r == Collect(Ok(acc), AllInstances(reservations), vpcId, iam, region)
  {
    var instances := acc;
    for j := 0 to |reservations|
      invariant Collect(Ok(acc), AllInstances(reservations[..j]), vpcId, iam, region) == Ok(instances)
    {
      assert reservations[..j + 1] == reservations[..j] + [reservations[j]];
      AllInstancesAppend(reservations[..j], [reservations[j]]);
      assert AllInstances([reservations[j]]) == reservations[j] by {
        assert [reservations[j]][..0] == [];
      }
      CollectAppend(Ok(acc), AllInstances(reservations[..j]), reservations[j], vpcId, iam, region);
      var step := CollectReservation(instances, reservations[j], vpcId, iam, region);
      if step.Err? {
        assert reservations[..j + 1] + reservations[j + 1..] == reservations;
        AllInstancesAppend(reservations[..j + 1], reservations[j + 1..]);
        CollectAppend(Ok(acc), AllInstances(reservations[..j + 1]), AllInstances(reservations[j + 1..]), vpcId, iam, region);
        CollectErr(step.error, AllInstances(reservations[j + 1..]), vpcId, iam, region);
        return step;
      }
      instances := step.value;
    }
    assert reservations[..|reservations|] == reservations;
    return Ok(instances);
  }

  /** Reading one more page continues the collection with that page's instances. */
  lemma CollectNextPage(pages: seq<Page<seq<Ec2Instance>>>, k: nat, acc: Result<seq<AwsInstance>>,
                        vpcId: Option<string>, iam: Iam, region: string)
    requires k < |pages|
    ensures Collect(acc, Listed(pages[..k + 1]), vpcId, iam, region)
      == Collect(Collect(acc, Listed(pages[..k]), vpcId, iam, region), AllInstances(pages[k].items), vpcId, iam, region)
  {
    FlattenStep(pages, k);
    AllInstancesAppend(Flatten(pages[..k]), pages[k].items);
    CollectAppend(acc, Listed(pages[..k]), AllInstances(pages[k].items), vpcId, iam, region);
  }

  /** An exception raised on the first `k` pages is the outcome of the whole listing. */
  lemma CollectStopsAtError(pages: seq<Page<seq<Ec2Instance>>>, k: nat, e: Error,
                            vpcId: Option<string>, iam: Iam, region: string)
    requires k <= |pages|
    requires Collect(Ok([]), Listed(pages[..k]), vpcId, iam, region) == Err(e)
    ensures Collect(Ok([]), Listed(pages), vpcId, iam, region) == Err(e)
  {
    var rest := AllInstances(Flatten(pages[k..]));
    assert Listed(pages) == Listed(pages[..k]) + rest by {
      FlattenTail(pages, k);
      AllInstancesAppend(Flatten(pages[..k]), Flatten(pages[k..]));
    }
    CollectAppend(Ok([]), Listed(pages[..k]), rest, vpcId, iam, region);
    CollectErr(e, rest, vpcId, iam, region);
  }

  /** `findAllQualifiedInstances(region, credential, vpcId)`: every page of reservations
      is read while a continuation token is returned, and the qualified instances are
      collected in listing order. */
  method FindAllQualifiedInstances(pages: seq<Page<seq<Ec2Instance>>>, vpcId: Option<string>, iam: Iam, region: string)
    returns (r: Result<seq<AwsInstance>>)
    requires WellFormed(pages)
    ensures r == Collect(Ok([]), Listed(pages), vpcId, iam, region)
  {
    var instances: seq<AwsInstance> := [];
    var k := 0;
    var done := false;
    while !done
      invariant 0 <= k <= |pages|
      invariant done <==> (k > 0 && pages[k - 1].nextToken.None?)
      invariant Collect(Ok([]), Listed(pages[..k]), vpcId, iam, region) == Ok(instances)
      decreases |pages| - k
    {
      var page := pages[k];
      var step := CollectPage(instances, page.items, vpcId, iam, region);
      CollectNextPage(pages, k, Ok([]), vpcId, iam, region);
      if step.Err? {
        CollectStopsAtError(pages, k + 1, step.error, vpcId, iam, region);
        return step;
      }
      instances := step.value;
      k := k + 1;
      done := page.nextToken.None?;
    }
    assert pages[..k] == pages;
    return Ok(instances);
  }
}
