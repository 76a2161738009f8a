/** Blueprint configuration for a CloudEndure project: the ids of an instance's subnet
    and security groups are translated between the source and the target side through
    the VPC table, and the launch settings are assembled into the payload of the
    blueprint-configuration Lambda function. */
module CloudEndureBlueprints {
  import opened Common
  import opened CemBlueprints
  import opened CloudEndureNetwork
  import opened InstanceTypeCache

  // ---------------------------------------------------------------------------
  // Id translation

  /** The id a source resource was replicated to: the target id of the LAST row for it,
      whatever its regions. */
  function LastTargetId(table: seq<VpcRecord>, id: string): Result<string>
  {
    if table == [] then Err(TargetIdNotFound(id))
    else if table[|table| - 1].id == id then Ok(table[|table| - 1].targetId)
    else LastTargetId(table[..|table| - 1], id)
  }

  /** The answer is the target id of the last row for `id`; there is none exactly when
      no row is for `id`, and then the error names `id`. */
  lemma {:induction false} LastTargetIdSpec(table: seq<VpcRecord>, id: string)
    ensures var r := LastTargetId(table, id);
      && (r.Err? <==> forall k :: 0 <= k < |table| ==> table[k].id != id)
      && (r.Err? ==> r.error == TargetIdNotFound(id))
      && (r.Ok? ==>
           exists k :: 0 <= k < |table| && table[k].id == id && table[k].targetId == r.value
             && forall j :: k < j < |table| ==> table[j].id != id)
  {
    if table != [] {
      var n := |table| - 1;
      var pre := table[..n];
      var r := LastTargetId(table, id);
      if table[n].id == id {
        assert r == Ok(table[n].targetId);
      } else {
        assert r == LastTargetId(pre, id);
        LastTargetIdSpec(pre, id);
        assert (r.Err? <==> forall k :: 0 <= k < |table| ==> table[k].id != id) by {
          assert forall k :: 0 <= k < n ==> pre[k] == table[k];
        }
        if r.Ok? {
          var k :| 0 <= k < n && pre[k].id == id && pre[k].targetId == r.value
                   && forall j :: k < j < n ==> pre[j].id != id;
          assert table[k] == pre[k];
          forall j | k < j < |table| ensures table[j].id != id {
            if j < n {
              assert pre[j] == table[j];
            }
          }
        }
      }
    }
  }

  /** The source resource a target id came from: the id of the LAST row whose target
      id it is. */
  function LastSourceId(table: seq<VpcRecord>, id: string): Result<string>
  {
    if table == [] then Err(SourceIdNotFound(id))
    else if table[|table| - 1].targetId == id then Ok(table[|table| - 1].id)
    else LastSourceId(table[..|table| - 1], id)
  }

  /** The answer is the source id of the last row whose target id is `id`; there is
      none exactly when no row has that target id, and then the error names `id`. */
  lemma {:induction false} LastSourceIdSpec(table: seq<VpcRecord>, id: string)
    ensures var r := LastSourceId(table, id);
      && (r.Err? <==> forall k :: 0 <= k < |table| ==> table[k].targetId != id)
      && (r.Err? ==> r.error == SourceIdNotFound(id))
      && (r.Ok? ==>
           exists k :: 0 <= k < |table| && table[k].targetId == id && table[k].id == r.value
             && forall j :: k < j < |table| ==> table[j].targetId != id)
  {
    if table != [] {
      var n := |table| - 1;
      var pre := table[..n];
      var r := LastSourceId(table, id);
      if table[n].targetId == id {
        assert r == Ok(table[n].id);
      } else {
        assert r == LastSourceId(pre, id);
        LastSourceIdSpec(pre, id);
        assert (r.Err? <==> forall k :: 0 <= k < |table| ==> table[k].targetId != id) by {
          assert forall k :: 0 <= k < n ==> pre[k] == table[k];
        }
        if r.Ok? {
          var k :| 0 <= k < n && pre[k].targetId == id && pre[k].id == r.value
                   && forall j :: k < j < n ==> pre[j].targetId != id;
          assert table[k] == pre[k];
          forall j | k < j < |table| ensures table[j].targetId != id {
            if j < n {
              assert pre[j] == table[j];
            }
          }
        }
      }
    }
  }

  /** `table.scan("target_id = :id")`: the rows whose target id is `id`, in table order. */
  function ScanTarget(table: seq<VpcRecord>, id: string): (r: seq<VpcRecord>)
    ensures |r| <= |table|
  {
    if table == [] then []
    else if table[0].targetId == id then [table[0]] + ScanTarget(table[1..], id)
    else ScanTarget(table[1..], id)
  }

  /** The scan of a concatenation is the concatenation of the scans. */
  lemma {:induction false} ScanTargetAppend(a: seq<VpcRecord>, b: seq<VpcRecord>, id: string)
    ensures ScanTarget(a + b, id) == ScanTarget(a, id) + ScanTarget(b, id)
  {
    if a == [] {
      assert a + b == b;
    } else {
      assert (a + b)[0] == a[0];
      assert (a + b)[1..] == a[1..] + b;
      ScanTargetAppend(a[1..], b, id);
      if a[0].targetId == id {
        assert [a[0]] + (ScanTarget(a[1..], id) + ScanTarget(b, id)) == ([a[0]] + ScanTarget(a[1..], id)) + ScanTarget(b, id);
      }
    }
  }

  /** The last queried row is the row `LastTargetId` picks. */
  lemma {:induction false} QueryLast(table: seq<VpcRecord>, id: string)
    ensures var q := Query(table, id);
      (q == [] <==> LastTargetId(table, id).Err?)
      && (q != [] ==> LastTargetId(table, id) == Ok(q[|q| - 1].targetId))
  {
    if table != [] {
      var n := |table| - 1;
      QueryLast(table[..n], id);
      assert table == table[..n] + [table[n]];
      QueryAppend(table[..n], [table[n]], id);
      assert [table[n]][1..] == [];
    }
  }

  /** The last scanned row is the row `LastSourceId` picks. */
  lemma {:induction false} ScanLast(table: seq<VpcRecord>, id: string)
    ensures var q := ScanTarget(table, id);
      (q == [] <==> LastSourceId(table, id).Err?)
      && (q != [] ==> LastSourceId(table, id) == Ok(q[|q| - 1].id))
  {
    if table != [] {
      var n := |table| - 1;
      ScanLast(table[..n], id);
      assert table == table[..n] + [table[n]];
      ScanTargetAppend(table[..n], [table[n]], id);
      assert [table[n]][1..] == [];
    }
  }

  /** `findTargetId(table, id)`: every queried row overwrites the result, so the last
      one answers; no row is an error. */
  method FindTargetId(table: seq<VpcRecord>, id: string) returns (r: Result<string>)
    ensures r == LastTargetId(table, id)
  {
    var items := Query(table, id);
    var result: Option<VpcRecord> := None;
    for i := 0 to |items|
      invariant result == if i == 0 then None else Some(items[i - 1])
    {
      result := Some(items[i]);
    }
    QueryLast(table, id);
    LastTargetIdSpec(table, id);
    if result.None? {
      return Err(TargetIdNotFound(id));
    }
    return Ok(result.value.targetId);
  }

  /** `findSourceId(table, id)`: every scanned row overwrites the result, so the last
      one answers; no row is an error. */
  method FindSourceId(table: seq<VpcRecord>, id: string) returns (r: Result<string>)
    ensures r == LastSourceId(table, id)
  {
    var items := ScanTarget(table, id);
    var result: Option<VpcRecord> := None;
    for i := 0 to |items|
      invariant result == if i == 0 then None else Some(items[i - 1])
    {
      result := Some(items[i]);
    }
    ScanLast(table, id);
    LastSourceIdSpec(table, id);
    if result.None? {
      return Err(SourceIdNotFound(id));
    }
    return Ok(result.value.id);
  }

  /** When every target id comes from one source id, translating a source id to the
      target side and back gives it again. */
  lemma TranslateRoundTrip(table: seq<VpcRecord>, id: string)
    requires forall i, j :: 0 <= i < |table| && 0 <= j < |table| && table[i].targetId == table[j].targetId ==>
               table[i].id == table[j].id
    requires LastTargetId(table, id).Ok?
    ensures LastSourceId(table, LastTargetId(table, id).value) == Ok(id)
  {
    LastTargetIdSpec(table, id);
    var t := LastTargetId(table, id).value;
    LastSourceIdSpec(table, t);
    var k :| 0 <= k < |table| && table[k].id == id && table[k].targetId == t
      && forall j :: k < j < |table| ==> table[j].id != id;
    assert table[k].targetId == t;
    var s := LastSourceId(table, t);
    var k' :| 0 <= k' < |table| && table[k'].targetId == t && table[k'].id == s.value
      && forall j :: k' < j < |table| ==> table[j].targetId != t;
  }

  /** The lookup ignores the regions of the rows: a later row for the same id from
      another region pair wins over the row of the requested pair, which the
      region-aware VPC lookup would have answered. */
  lemma FindTargetIdIgnoresRegions()
    ensures var table := [VpcRecord("subnet-1", "subnet-a", "us-east-1", "cn-north-1"),
                          VpcRecord("subnet-1", "subnet-b", "eu-west-1", "cn-north-1")];
      LastTargetId(table, "subnet-1") == Ok("subnet-b")
      && TargetVpcId(table, "subnet-1", "us-east-1", "cn-north-1") == Some("subnet-a")
  {
    var a := VpcRecord("subnet-1", "subnet-a", "us-east-1", "cn-north-1");
    var b := VpcRecord("subnet-1", "subnet-b", "eu-west-1", "cn-north-1");
    var table := [a, b];
    assert table[1..] == [b];
    assert [b][1..] == [];
    assert Query(table, "subnet-1") == [a, b];
    assert "eu-west-1" != "us-east-1" by {
      assert "eu-west-1"[0] != "us-east-1"[0];
    }
  }

  /** The translation in the direction the side calls for: a source machine's ids are
      mapped to the target side, a target machine's ids back to the source side. */
  function Translate(table: seq<VpcRecord>, side: Side, id: string): Result<string>
  {
    if side == Source then LastTargetId(table, id) else LastSourceId(table, id)
  }

  /** Every id translated in order; the first failure is reported. */
  function TranslateAll(table: seq<VpcRecord>, side: Side, ids: seq<string>): (r: Result<seq<string>>)
    ensures r.Ok? ==> |r.value| == |ids|
  {
    if ids == [] then Ok([])
    else
      var n := |ids| - 1;
      var prefix := TranslateAll(table, side, ids[..n]);
      if prefix.Err? then prefix
      else
        match Translate(table, side, ids[n])
        case Err(e) => Err(e)
        case Ok(t) => Ok(prefix.value + [t])
  }

  /** The translation succeeds exactly when every id translates, and then its i-th
      element is the translation of the i-th id; otherwise the error is that of the
      first id that does not translate. */
  lemma {:induction false} TranslateAllSpec(table: seq<VpcRecord>, side: Side, ids: seq<string>)
    ensures var r := TranslateAll(table, side, ids);
      && (r.Ok? <==> forall i :: 0 <= i < |ids| ==> Translate(table, side, ids[i]).Ok?)
      && (r.Ok? ==> forall i :: 0 <= i < |ids| ==> Translate(table, side, ids[i]) == Ok(r.value[i]))
      && (r.Err? ==>
           exists i :: 0 <= i < |ids| && Translate(table, side, ids[i]) == Err(r.error)
             && forall j :: 0 <= j < i ==> Translate(table, side, ids[j]).Ok?)
  {
    if ids != [] {
      var n := |ids| - 1;
      TranslateAllSpec(table, side, ids[..n]);
      assert forall i :: 0 <= i < n ==> ids[..n][i] == ids[i];
    }
  }

  /** `configure`'s loop over the instance's security groups: each slot of the id array
      is filled with the translation of the group at that position; the first failed
      translation aborts. */
  method TranslateGroups(table: seq<VpcRecord>, side: Side, ids: seq<string>) returns (r: Result<seq<string>>)
    ensures r == TranslateAll(table, side, ids)
  {
    var securityGroups := new string[|ids|];
    for i := 0 to |ids|
      invariant TranslateAll(table, side, ids[..i]) == Ok(securityGroups[..i])
    {
      var group: Result<string>;
      if side == Source {
        group := FindTargetId(table, ids[i]);
      } else {
        group := FindSourceId(table, ids[i]);
      }
      assert ids[..i + 1][..i] == ids[..i];
      if group.Err? {
        TranslateAllPrefixErr(table, side, ids, i + 1);
        return Err(group.error);
      }
      securityGroups[i] := group.value;
      assert securityGroups[..i + 1] == securityGroups[..i] + [group.value];
    }
    assert ids[..|ids|] == ids;
    assert securityGroups[..|ids|] == securityGroups[..];
    return Ok(securityGroups[..]);
  }

  /** Once a prefix of the ids fails, the whole translation fails the same way. */
  lemma {:induction false} TranslateAllPrefixErr(table: seq<VpcRecord>, side: Side, ids: seq<string>, k: nat)
    requires k <= |ids| && TranslateAll(table, side, ids[..k]).Err?
    ensures TranslateAll(table, side, ids) == TranslateAll(table, side, ids[..k])
    decreases |ids|
  {
    if k < |ids| {
      var n := |ids| - 1;
      assert ids[..n][..k] == ids[..k];
      TranslateAllPrefixErr(table, side, ids[..n], k);
    } else {
      assert ids[..k] == ids;
    }
  }

  // ---------------------------------------------------------------------------
  // The payload

  /** What `describeInstances` tells about the instance behind a machine. */
  datatype Instance = Instance(
    subnetId: string,
    securityGroupIds: seq<string>,
    tags: seq<Tag>,
    iamInstanceProfileArn: Option<string>,
    instanceType: string,
    privateIpAddress: string,
    deviceNames: seq<string>)

  /** The payload of the blueprint-configuration function. `diskIops` and `diskType`
      are sent only by the CloudEndure Manager flow. */
  datatype LaunchPayload = LaunchPayload(
    projectId: string,
    machineId: string,
    subnetId: string,
    securityGroupIds: seq<string>,
    privateIp: string,
    instanceType: string,
    tags: seq<Tag>,
    disks: seq<string>,
    iamRole: string,
    diskIops: Option<int>,
    diskType: Option<DiskType>)

  /** A device name as the target expects it: every `/dev/sd` becomes `/dev/xvd`. */
  function DeviceName(name: string): string
  {
    ReplaceAll(name, "/dev/sd", "/dev/xvd")
  }

  /** A name with a `/dev/sd` prefix gets the `/dev/xvd` prefix, and the rest is
      rewritten the same way. */
  lemma DeviceNamePrefix(rest: string)
    ensures DeviceName("/dev/sd" + rest) == "/dev/xvd" + DeviceName(rest)
  {
    ReplaceAllFront("/dev/sd", rest, "/dev/xvd");
  }

  /** Names without `/dev/sd` are kept as they are. */
  lemma DeviceNameUnchanged(name: string)
    requires !Contains(name, "/dev/sd")
    ensures DeviceName(name) == name
  {
    ReplaceAllAbsent(name, "/dev/sd", "/dev/xvd");
  }

  /** The root and data volume names of a typical instance. */
  lemma DeviceNameExamples()
    ensures DeviceName("/dev/sda1") == "/dev/xvda1"
    ensures DeviceName("/dev/sdf") == "/dev/xvdf"
  {
    DeviceNamePrefix("a1");
    assert "/dev/sd" + "a1" == "/dev/sda1";
    assert "/dev/xvd" + "a1" == "/dev/xvda1";
    DeviceNamePrefix("f");
    assert "/dev/sd" + "f" == "/dev/sdf";
    assert "/dev/xvd" + "f" == "/dev/xvdf";
  }

  /** The role name of an instance profile: the text after the last `/` of its ARN, or
      the empty string when there is no profile or no `/`. */
  function IamRole(profile: Option<string>): (r: string)
    ensures '/' !in r
    ensures profile.None? || '/' !in profile.value ==> r == ""
    ensures profile.Some? && '/' in profile.value ==> exists prefix :: profile.value == prefix + "/" + r
  {
    if profile.Some? && LastIndexOf(profile.value, '/') != -1 then AfterLast(profile.value, '/') else ""
  }

  /** The translated subnet id and security-group ids of an instance: the subnet is
      translated first, then the groups in order; a missing instance or the first
      failed translation is the error. */
  function Translated(instance: Option<Instance>, instanceId: string, side: Side, table: seq<VpcRecord>)
    : Result<(string, seq<string>)>
  {
    if instance.None? then Err(InstanceNotFound(instanceId))
    else
      match Translate(table, side, instance.value.subnetId)
      case Err(e) => Err(e)
      case Ok(subnetId) =>
        match TranslateAll(table, side, instance.value.securityGroupIds)
        case Err(e) => Err(e)
        case Ok(groups) => Ok((subnetId, groups))
  }

  /** A missing instance, or any subnet or group id that does not translate in the
      side's direction, makes the translation fail (the subnet's failure first); when
      it succeeds, the subnet id is the subnet's translation and the group ids are the
      groups' translations, one per group, in group order. */
  lemma TranslatedSpec(instance: Option<Instance>, instanceId: string, side: Side, table: seq<VpcRecord>)
    ensures var r := Translated(instance, instanceId, side, table);
      && (instance.None? ==> r == Err(InstanceNotFound(instanceId)))
      && (r.Ok? <==>
           instance.Some? && Translate(table, side, instance.value.subnetId).Ok?
           && forall i :: 0 <= i < |instance.value.securityGroupIds| ==>
                Translate(table, side, instance.value.securityGroupIds[i]).Ok?)
      && (instance.Some? && Translate(table, side, instance.value.subnetId).Err? ==>
           r == Err(Translate(table, side, instance.value.subnetId).error))
      && (r.Ok? ==>
           Translate(table, side, instance.value.subnetId) == Ok(r.value.0)
           && |r.value.1| == |instance.value.securityGroupIds|
           && forall i :: 0 <= i < |r.value.1| ==>
                Translate(table, side, instance.value.securityGroupIds[i]) == Ok(r.value.1[i]))
  {
    if instance.Some? {
      TranslateAllSpec(table, side, instance.value.securityGroupIds);
    }
  }

  /** The payload sent for an instance whose ids translated to `subnetId` and `groupIds`. */
  function Assemble(instance: Instance, subnetId: string, groupIds: seq<string>, machineId: string,
                    itemId: string, instanceType: string, tag: Tag): LaunchPayload
  {
    LaunchPayload(
      itemId, machineId, subnetId, groupIds, instance.privateIpAddress, instanceType,
      instance.tags + [tag],
      seq(|instance.deviceNames|, i requires 0 <= i < |instance.deviceNames| => DeviceName(instance.deviceNames[i])),
      IamRole(instance.iamInstanceProfileArn),
      None, None)
  }

  /** The payload keeps the instance's tags in order and adds one blueprint tag at the
      end; it has one disk per device, in device order, each renamed. */
  lemma AssembleTagsAndDisks(instance: Instance, subnetId: string, groupIds: seq<string>, machineId: string,
                             itemId: string, instanceType: string, tagBlueprint: string, timestamp: string)
    ensures var p := Assemble(instance, subnetId, groupIds, machineId, itemId, instanceType, Tag(tagBlueprint, timestamp));
      && |p.tags| == |instance.tags| + 1
      && p.tags[..|instance.tags|] == instance.tags
      && p.tags[|instance.tags|] == Tag(tagBlueprint, timestamp)
      && |p.disks| == |instance.deviceNames|
      && (forall i :: 0 <= i < |p.disks| ==> p.disks[i] == DeviceName(instance.deviceNames[i]))
  {
    var p := Assemble(instance, subnetId, groupIds, machineId, itemId, instanceType, Tag(tagBlueprint, timestamp));
    assert p.tags[..|instance.tags|] == instance.tags;
  }

  /** `configure(project, side, machineId, instanceId)`. `instance` is what
      `describeInstances` found (none when the lookup failed); `listing`, `region` and
      `defaultType` feed the instance-type cache; `replyReadable` says whether the
      function's reply parses. `sent` is the payload handed to the function, none when
      the call aborts before the invoke; `failure` is the exception thrown, if any. */
  method Configure(service: InstanceTypeService, instance: Option<Instance>, instanceId: string, side: Side,
                   machineId: string, itemId: string, table: seq<VpcRecord>,
                   listing: seq<Page<string>>, region: string, defaultType: string,
                   tagBlueprint: string, timestamp: string, replyReadable: bool)
    returns (sent: Option<LaunchPayload>, failure: Option<Error>)
    requires WellFormed(listing)
    modifies service
    ensures var t := Translated(instance, instanceId, side, table);
      t.Err? ==>
        sent.None? && failure == Some(t.error)
        && service.typeMap == old(service.typeMap) && service.describeCalls == old(service.describeCalls)
    ensures var t := Translated(instance, instanceId, side, table);
      t.Ok? ==>
        && region in service.typeMap
        && (region in old(service.typeMap) ==> service.typeMap == old(service.typeMap))
        && (region !in old(service.typeMap) ==> service.typeMap == old(service.typeMap)[region := set n | n in Flatten(listing)])
        && service.describeCalls == old(service.describeCalls) + (if region in old(service.typeMap) then 0 else |listing|)
        && sent == Some(Assemble(instance.value, t.value.0, t.value.1, machineId, itemId,
                                 Choose(service.typeMap[region], instance.value.instanceType, defaultType),
                                 Tag(tagBlueprint, timestamp)))
        && failure == (if replyReadable then None else Some(UnparsableReply("DRPCloudEndureConfigureBlueprint")))
  {
    if instance.None? {
      return None, Some(InstanceNotFound(instanceId));
    }
    var inst := instance.value;
    var subnetId: Result<string>;
    if side == Source {
      subnetId := FindTargetId(table, inst.subnetId);
    } else {
      subnetId := FindSourceId(table, inst.subnetId);
    }
    if subnetId.Err? {
      return None, Some(subnetId.error);
    }

    var securityGroups := TranslateGroups(table, side, inst.securityGroupIds);
    if securityGroups.Err? {
      return None, Some(securityGroups.error);
    }

    var tags := inst.tags + [Tag(tagBlueprint, timestamp)];
    var instanceType := service.MapType(listing, region, inst.instanceType, defaultType);
    var disks := seq(|inst.deviceNames|, i requires 0 <= i < |inst.deviceNames| => DeviceName(inst.deviceNames[i]));
    var payload := LaunchPayload(itemId, machineId, subnetId.value, securityGroups.value, inst.privateIpAddress,
                                 instanceType, tags, disks, IamRole(inst.iamInstanceProfileArn), None, None);
    sent := Some(payload);
    failure := if replyReadable then None else Some(UnparsableReply("DRPCloudEndureConfigureBlueprint"));
  }
}
