/** The CloudEndure project service: the gate in front of a cutback, the machine
    listing the portal shows, and the agent installation with its peer route. */
module CloudEndureProjects {
  import opened Common

  const PeerRouteFunction: string := "DRPCommonAddPeerRoute"

  /** A CloudEndure launch blueprint, reduced to its machine and its tags. */
  datatype CeBlueprint = CeBlueprint(machineId: string, tags: seq<Tag>)

  /** Replication progress of one machine; the time of the last consistent snapshot is
      null until there is one. */
  datatype ReplicationInfo = ReplicationInfo(
    replicatedStorageBytes: int,
    totalStorageBytes: int,
    lastConsistencyDateTime: Option<string>)

  /** A CloudEndure machine; `region` and `blueprintConfigured` are filled in for the
      portal's listing. */
  datatype CeMachine = CeMachine(
    id: string,
    replicationInfo: ReplicationInfo,
    region: Option<string>,
    blueprintConfigured: bool)

  /** The cutover item of a project, with the machines and the blueprints the machine
      and blueprint services list under its id. A project without one has `None`. */
  datatype CutoverItem = CutoverItem(id: string, machines: seq<CeMachine>, blueprints: seq<CeBlueprint>)

  /** `Collectors.toMap(getMachineId)`: the blueprints by machine, failing on the first
      machine id that occurs a second time. */
  function ToBlueprintMap(bs: seq<CeBlueprint>): Result<map<string, CeBlueprint>>
    decreases |bs|
  {
    if |bs| == 0 then Ok(map[])
    else
      var n := |bs| - 1;
      var prev := ToBlueprintMap(bs[..n]);
      if prev.Err? then prev
      else if bs[n].machineId in prev.value then Err(DuplicateKey(bs[n].machineId))
      else Ok(prev.value[bs[n].machineId := bs[n]])
  }

  /** The map is built exactly when the machine ids are distinct. */
  lemma {:induction false} ToBlueprintMapOk(bs: seq<CeBlueprint>)
    ensures ToBlueprintMap(bs).Ok? <==> forall i, j :: 0 <= i < j < |bs| ==> bs[i].machineId != bs[j].machineId
    decreases |bs|
  {
    if |bs| > 0 {
      var n := |bs| - 1;
      var pre := bs[..n];
      var prev := ToBlueprintMap(pre);
      ToBlueprintMapOk(pre);
      assert forall i :: 0 <= i < n ==> pre[i] == bs[i];
      if prev.Ok? {
        ToBlueprintMapDomain(pre);
        if bs[n].machineId in prev.value {
          var i :| 0 <= i < |pre| && pre[i].machineId == bs[n].machineId;
          assert bs[i].machineId == bs[n].machineId;
        } else {
          forall i, j | 0 <= i < j < |bs| ensures bs[i].machineId != bs[j].machineId {
            if j == n {
              assert pre[i].machineId in prev.value;
            }
          }
        }
      } else {
        var i, j :| 0 <= i < j < |pre| && pre[i].machineId == pre[j].machineId;
        assert bs[i] == pre[i] && bs[j] == pre[j];
      }
    }
  }

  /** A built map has a key for every machine id in the list and no other key. */
  lemma {:induction false} ToBlueprintMapDomain(bs: seq<CeBlueprint>)
    requires ToBlueprintMap(bs).Ok?
    ensures forall m :: m in ToBlueprintMap(bs).value <==> exists i :: 0 <= i < |bs| && bs[i].machineId == m
    decreases |bs|
  {
    if |bs| > 0 {
      var n := |bs| - 1;
      var pre := bs[..n];
      var prev := ToBlueprintMap(pre);
      var m0 := ToBlueprintMap(bs).value;
      assert prev.Ok? && m0 == prev.value[bs[n].machineId := bs[n]];
      ToBlueprintMapDomain(pre);
      forall m ensures m in m0 <==> exists i :: 0 <= i < |bs| && bs[i].machineId == m {
        if m != bs[n].machineId {
          if m in prev.value {
            var i :| 0 <= i < |pre| && pre[i].machineId == m;
            assert bs[i] == pre[i];
          }
          if exists i :: 0 <= i < |bs| && bs[i].machineId == m {
            var i :| 0 <= i < |bs| && bs[i].machineId == m;
            assert pre[i] == bs[i];
          }
        }
      }
    }
  }

  /** A built map holds every blueprint under its own machine id. */
  lemma {:induction false} ToBlueprintMapKeys(bs: seq<CeBlueprint>)
    requires ToBlueprintMap(bs).Ok?
    ensures forall i :: 0 <= i < |bs| ==>
      bs[i].machineId in ToBlueprintMap(bs).value && ToBlueprintMap(bs).value[bs[i].machineId] == bs[i]
    decreases |bs|
  {
    if |bs| > 0 {
      var n := |bs| - 1;
      var pre := bs[..n];
      var prev := ToBlueprintMap(pre);
      var m0 := ToBlueprintMap(bs).value;
      assert prev.Ok? && bs[n].machineId !in prev.value && m0 == prev.value[bs[n].machineId := bs[n]];
      ToBlueprintMapKeys(pre);
      ToBlueprintMapDomain(pre);
      forall i | 0 <= i < |bs| ensures bs[i].machineId in m0 && m0[bs[i].machineId] == bs[i] {
        if i < n {
          assert pre[i] == bs[i] && pre[i].machineId in prev.value;
        }
      }
    }
  }

  /** A failed build names a machine id that occurs twice. */
  lemma {:induction false} ToBlueprintMapDuplicate(bs: seq<CeBlueprint>)
    requires ToBlueprintMap(bs).Err?
    ensures exists i, j :: 0 <= i < j < |bs| && bs[i].machineId == bs[j].machineId
                           && ToBlueprintMap(bs).error == DuplicateKey(bs[j].machineId)
    decreases |bs|
  {
    var n := |bs| - 1;
    var pre := bs[..n];
    var prev := ToBlueprintMap(pre);
    if prev.Err? {
      ToBlueprintMapDuplicate(pre);
      var i, j :| 0 <= i < j < |pre| && pre[i].machineId == pre[j].machineId
                  && prev.error == DuplicateKey(pre[j].machineId);
      assert bs[i] == pre[i] && bs[j] == pre[j];
    } else {
      ToBlueprintMapDomain(pre);
      var i :| 0 <= i < |pre| && pre[i].machineId == bs[n].machineId;
      assert bs[i] == pre[i];
    }
  }

  /** Some tag of the blueprint has the blueprint tag's key. */
  predicate Configured(b: CeBlueprint, tagBlueprint: string)
  {
    exists i :: 0 <= i < |b.tags| && b.tags[i].key == tagBlueprint
  }

  /** `1.0 * replicated / total < 0.9`, in exact arithmetic. With a total of zero the
      double quotient is NaN (nothing replicated), positive infinity (something
      replicated) or negative infinity (a negative count); only negative infinity is
      below nine tenths. */
  predicate ReplicationBehind(info: ReplicationInfo)
  {
    var r := info.replicatedStorageBytes;
    var t := info.totalStorageBytes;
    (t > 0 && 10 * r < 9 * t) || (t < 0 && 10 * r > 9 * t) || (t == 0 && r < 0)
  }

  /** Why a machine blocks the cutback. */
  datatype Cause =
    | BlueprintNotConfigured(machineId: string)
    | ReplicationIncomplete(machineId: string)
    | NoConsistencyTime(machineId: string)

  /** The message the cutback is refused with. */
  function Message(c: Cause): (r: string)
    ensures StartsWith(r, c.machineId)
  {
    match c
    case BlueprintNotConfigured(id) => id + " 启动蓝图没有配置"
    case ReplicationIncomplete(id) => id + " 数据复制尚未完成"
    case NoConsistencyTime(id) => id + " 还没有数据一致时间"
  }

  /** The three checks for one machine, in order: its blueprint carries the tag, its
      replication is at least nine tenths done, and it has a consistency time. A
      machine without a blueprint fails on the null dereference. */
  function CheckMachine(m: CeMachine, blueprints: map<string, CeBlueprint>, tagBlueprint: string): Result<Option<Cause>>
  {
    if m.id !in blueprints then Err(MissingBlueprint(m.id))
    else if !Configured(blueprints[m.id], tagBlueprint) then Ok(Some(BlueprintNotConfigured(m.id)))
    else if ReplicationBehind(m.replicationInfo) then Ok(Some(ReplicationIncomplete(m.id)))
    else if m.replicationInfo.lastConsistencyDateTime.None? then Ok(Some(NoConsistencyTime(m.id)))
    else Ok(None)
  }

  /** A machine that clears all three checks. */
  predicate Ready(m: CeMachine, blueprints: map<string, CeBlueprint>, tagBlueprint: string)
  {
    && m.id in blueprints
    && Configured(blueprints[m.id], tagBlueprint)
    && !ReplicationBehind(m.replicationInfo)
    && m.replicationInfo.lastConsistencyDateTime.Some?
  }

  /** The loop over the machines: the first machine that fails stops it. */
  function FirstCause(machines: seq<CeMachine>, blueprints: map<string, CeBlueprint>, tagBlueprint: string): Result<Option<Cause>>
    decreases |machines|
  {
    if |machines| == 0 then Ok(None)
    else
      var c := CheckMachine(machines[0], blueprints, tagBlueprint);
      if c.Err? || c.value.Some? then c
      else FirstCause(machines[1..], blueprints, tagBlueprint)
  }

  /** `checkCutbackPrecondition`: the cause that blocks the cutback, or none. */
  function CheckCutbackPrecondition(cutover: Option<CutoverItem>, tagBlueprint: string): Result<Option<Cause>>
  {
    if cutover.None? then Err(MissingCutover)
    else
      var bm := ToBlueprintMap(cutover.value.blueprints);
      if bm.Err? then Err(bm.error) else FirstCause(cutover.value.machines, bm.value, tagBlueprint)
  }

  /** `checkCutbackPrecondition(project)`: a project without a cutover item fails; the
      item's blueprints are mapped by machine id, then its machines are checked in order
      and the first cause found is returned. */
  method CheckCutback(cutover: Option<CutoverItem>, tagBlueprint: string)
    returns (r: Result<Option<Cause>>)
    ensures r == CheckCutbackPrecondition(cutover, tagBlueprint)
  {
    if cutover.None? {
      return Err(MissingCutover);
    }
    var machines := cutover.value.machines;
    var blueprintMap := ToBlueprintMap(cutover.value.blueprints);
    if blueprintMap.Err? {
      return Err(blueprintMap.error);
    }
    assert machines[0..] == machines;
    for i := 0 to |machines|
      invariant FirstCause(machines[i..], blueprintMap.value, tagBlueprint)
        == FirstCause(machines, blueprintMap.value, tagBlueprint)
    {
      assert machines[i..][1..] == machines[i + 1..];
      var cause := CheckMachine(machines[i], blueprintMap.value, tagBlueprint);
      if cause.Err? || cause.value.Some? {
        return cause;
      }
    }
    return Ok(None);
  }

  /** The scan finds no cause exactly when every machine is ready; otherwise the cause
      (or the missing blueprint) belongs to the first machine that is not, and is the
      first of its checks that fails. */
  lemma {:induction false} FirstCauseSpec(machines: seq<CeMachine>, blueprints: map<string, CeBlueprint>, tagBlueprint: string)
    ensures var r := FirstCause(machines, blueprints, tagBlueprint);
      && (r == Ok(None) <==> forall i :: 0 <= i < |machines| ==> Ready(machines[i], blueprints, tagBlueprint))
      && (r != Ok(None) ==> exists i :: (0 <= i < |machines|
            && (forall j :: 0 <= j < i ==> Ready(machines[j], blueprints, tagBlueprint))
            && !Ready(machines[i], blueprints, tagBlueprint)
            && r == CheckMachine(machines[i], blueprints, tagBlueprint)))
    decreases |machines|
  {
    if |machines| > 0 {
      var rest := machines[1..];
      FirstCauseSpec(rest, blueprints, tagBlueprint);
      assert forall i :: 0 <= i < |rest| ==> rest[i] == machines[i + 1];
      var c := CheckMachine(machines[0], blueprints, tagBlueprint);
      CheckMachineOrder(machines[0], blueprints, tagBlueprint);
      if c.Ok? && c.value.None? {
        var r := FirstCause(rest, blueprints, tagBlueprint);
        if r == Ok(None) {
          forall i | 0 <= i < |machines| ensures Ready(machines[i], blueprints, tagBlueprint) {
            if i > 0 {
              assert machines[i] == rest[i - 1];
            }
          }
        } else {
          var i :| 0 <= i < |rest|
            && (forall j :: 0 <= j < i ==> Ready(rest[j], blueprints, tagBlueprint))
            && !Ready(rest[i], blueprints, tagBlueprint)
            && r == CheckMachine(rest[i], blueprints, tagBlueprint);
          forall j | 0 <= j < i + 1 ensures Ready(machines[j], blueprints, tagBlueprint) {
            if j > 0 {
              assert machines[j] == rest[j - 1];
            }
          }
        }
      }
    }
  }

  /** A machine's check reports something exactly when the machine is not ready, and the
      checks are tried in the order tag, replication, consistency. */
  lemma CheckMachineOrder(m: CeMachine, blueprints: map<string, CeBlueprint>, tagBlueprint: string)
    ensures CheckMachine(m, blueprints, tagBlueprint) == Ok(None) <==> Ready(m, blueprints, tagBlueprint)
    ensures CheckMachine(m, blueprints, tagBlueprint) == Ok(Some(ReplicationIncomplete(m.id))) ==>
      Configured(blueprints[m.id], tagBlueprint)
    ensures CheckMachine(m, blueprints, tagBlueprint) == Ok(Some(NoConsistencyTime(m.id))) ==>
      Configured(blueprints[m.id], tagBlueprint) && !ReplicationBehind(m.replicationInfo)
    ensures CheckMachine(m, blueprints, tagBlueprint).Ok? && CheckMachine(m, blueprints, tagBlueprint).value.Some? ==>
      CheckMachine(m, blueprints, tagBlueprint).value.value.machineId == m.id
  {
  }

  /** With a total of zero the check blocks exactly when the replicated count is
      negative: the quotient is then negative infinity, and otherwise NaN or positive
      infinity, neither of which is below nine tenths. */
  lemma ZeroTotalStorage(info: ReplicationInfo)
    requires info.totalStorageBytes == 0
    ensures ReplicationBehind(info) <==> info.replicatedStorageBytes < 0
  {
  }

  /** Below nine tenths of a positive total the replication check fails, from nine tenths
      up it passes. */
  lemma ReplicationThreshold(total: int)
    requires total >= 10
    ensures ReplicationBehind(ReplicationInfo((9 * total) / 10 - 1, total, None))
    ensures !ReplicationBehind(ReplicationInfo(total - total / 10, total, None))
  {
  }

  /** The cutback is allowed exactly when the project has a cutover item, its blueprints
      are keyed by distinct machines and every one of its machines is ready. Without a
      cutover item the gate fails before any machine is looked at. */
  lemma CutbackAllowedIff(cutover: Option<CutoverItem>, tagBlueprint: string)
    ensures CheckCutbackPrecondition(cutover, tagBlueprint) == Ok(None)
      <==> && cutover.Some?
           && ToBlueprintMap(cutover.value.blueprints).Ok?
           && forall i :: 0 <= i < |cutover.value.machines| ==>
                Ready(cutover.value.machines[i], ToBlueprintMap(cutover.value.blueprints).value, tagBlueprint)
    ensures CheckCutbackPrecondition(cutover, tagBlueprint) == Err(MissingCutover) <==> cutover.None?
  {
    if cutover.Some? {
      var bm := ToBlueprintMap(cutover.value.blueprints);
      if bm.Ok? {
        FirstCauseSpec(cutover.value.machines, bm.value, tagBlueprint);
      } else {
        ToBlueprintMapDuplicate(cutover.value.blueprints);
      }
    }
  }

  // ---------------------------------------------------------------------------
  // getMachines

  /** One machine as listed: stamped with the region and with whether its blueprint
      carries the tag. */
  function Stamp(m: CeMachine, region: string, b: CeBlueprint, tagBlueprint: string): CeMachine
  {
    m.(region := Some(region), blueprintConfigured := Configured(b, tagBlueprint))
  }

  /** The listing flag is the negation of the cutback gate's tag check. */
  lemma StampAgreesWithGate(m: CeMachine, region: string, blueprints: map<string, CeBlueprint>, tagBlueprint: string)
    requires m.id in blueprints
    ensures Stamp(m, region, blueprints[m.id], tagBlueprint).blueprintConfigured
      <==> CheckMachine(m, blueprints, tagBlueprint) != Ok(Some(BlueprintNotConfigured(m.id)))
    ensures Stamp(m, region, blueprints[m.id], tagBlueprint).(region := m.region, blueprintConfigured := m.blueprintConfigured) == m
  {
  }

  /** The position of the first machine without a blueprint, or the length when all
      have one. */
  function FirstMissing(ms: seq<CeMachine>, blueprints: map<string, CeBlueprint>): (r: nat)
    ensures r <= |ms|
    ensures forall j :: 0 <= j < r ==> ms[j].id in blueprints
    ensures r < |ms| ==> ms[r].id !in blueprints
    decreases |ms|
  {
    if |ms| == 0 then 0
    else if ms[0].id !in blueprints then 0
    else
      var rest := FirstMissing(ms[1..], blueprints);
      assert forall j :: 1 <= j < 1 + rest ==> ms[j] == ms[1..][j - 1];
      1 + rest
  }

  /** `getMachines`: every machine in the array is replaced, in place and in order, by
      its stamped copy; a machine without a blueprint stops the loop, leaving the
      machines before it stamped and the rest as they were. */
  method GetMachines(region: string, machines: array<CeMachine>, blueprints: seq<CeBlueprint>, tagBlueprint: string)
    returns (failure: Option<Error>)
    modifies machines
    ensures ToBlueprintMap(blueprints).Err? ==>
      failure == Some(ToBlueprintMap(blueprints).error) && machines[..] == old(machines[..])
    ensures ToBlueprintMap(blueprints).Ok? ==>
      var bm := ToBlueprintMap(blueprints).value;
      var k := FirstMissing(old(machines[..]), bm);
      && (forall j :: 0 <= j < k ==> machines[j] == Stamp(old(machines[j]), region, bm[old(machines[j]).id], tagBlueprint))
      && machines[k..] == old(machines[k..])
      && failure == (if k < machines.Length then Some(MissingBlueprint(old(machines[k]).id)) else None)
  {
    var bm := ToBlueprintMap(blueprints);
    if bm.Err? {
      return Some(bm.error);
    }
    var blueprintMap := bm.value;
    ghost var k := FirstMissing(machines[..], blueprintMap);
    failure := None;
    for i := 0 to machines.Length
      invariant i <= k
      invariant forall j :: 0 <= j < i ==> machines[j] == Stamp(old(machines[j]), region, blueprintMap[old(machines[j]).id], tagBlueprint)
      invariant machines[i..] == old(machines[i..])
    {
      var machine := machines[i];
      assert machine == old(machines[..])[i];
      if machine.id !in blueprintMap {
        return Some(MissingBlueprint(machine.id));
      }
      machines[i] := Stamp(machine, region, blueprintMap[machine.id], tagBlueprint);
      assert machines[i + 1..] == machines[i..][1..];
    }
  }

  // ---------------------------------------------------------------------------
  // installAgent and addPeerRoute

  /** `addPeerRoute`: the outcome for the function's reply. A reply that does not parse
      is an I/O failure; a parsed reply with an `errorMessage` becomes a portal error
      carrying that message; anything else, a null map included, is success. */
  function AddPeerRoute(reply: MapReply): (r: Option<Error>)
    ensures r.None? <==> reply.MapReply? && reply.errorMessage.None?
    ensures reply.MapReply? && reply.errorMessage.Some? ==> r == Some(PortalError(reply.errorMessage.value))
    ensures reply.UnreadableMapReply? ==> r == Some(UnparsableReply(PeerRouteFunction))
  {
    match reply
    case UnreadableMapReply => Some(UnparsableReply(PeerRouteFunction))
    case MapReply(message) => if message.Some? then Some(PortalError(message.value)) else None
  }

  /** `Boolean.parseBoolean`: the text is "true" in any mix of upper and lower case. */
  predicate ParseBoolean(s: string)
  {
    && |s| == 4
    && s[0] in {'t', 'T'} && s[1] in {'r', 'R'} && s[2] in {'u', 'U'} && s[3] in {'e', 'E'}
  }

  /** A letter in lower case; every other character is kept. */
  function LowerCase(c: char): char
  {
    if 'A' <= c <= 'Z' then (c as int - 'A' as int + 'a' as int) as char else c
  }

  /** A reply counts exactly when it has four characters that, in lower case, spell
      "true": `"true".equalsIgnoreCase(s)`, and nothing else. */
  lemma ParseBooleanIff(s: string)
    ensures ParseBoolean(s) <==> |s| == 4 && forall i :: 0 <= i < 4 ==> LowerCase(s[i]) == "true"[i]
  {
  }

  /** Which replies count as a successful installation. */
  lemma ParseBooleanExamples()
    ensures ParseBoolean("true") && ParseBoolean("TRUE") && ParseBoolean("True")
    ensures !ParseBoolean("false") && !ParseBoolean("") && !ParseBoolean("\"true\"") && !ParseBoolean("true ")
  {
  }

  /** The functions `installAgent` invokes. */
  datatype AgentCall =
    | AddPeerRouteCall(sourceVpcId: string, sourceRegion: string, targetRegion: string,
                       instanceIds: seq<string>, projectId: string)
    | InstallAgentCall(side: Side, projectId: string, instanceIds: seq<string>)

  /** The project fields `installAgent` reads. */
  datatype AgentProject = AgentProject(
    id: string, publicNetwork: bool, sourceVpcId: string, sourceRegion: string, targetRegion: string)

  /** What `installAgent` did: the functions it invoked, in order, and how it ended. */
  datatype AgentRun = AgentRun(calls: seq<AgentCall>, failure: Option<Error>)

  /** `installAgent`, given the replies of the two functions: on a private network the
      peer route is added first and a failure there stops everything; then the agent is
      installed, and a reply other than "true" is a failed installation. */
  function InstallAgent(project: AgentProject, side: Side, instanceIds: seq<string>,
                        peerReply: MapReply, installReply: string): AgentRun
  {
    var peer := AddPeerRouteCall(project.sourceVpcId, project.sourceRegion, project.targetRegion, instanceIds, project.id);
    var install := InstallAgentCall(side, project.id, instanceIds);
    var outcome := if ParseBoolean(installReply) then None else Some(InstallAgentFailed);
    if project.publicNetwork then AgentRun([install], outcome)
    else if AddPeerRoute(peerReply).Some? then AgentRun([peer], AddPeerRoute(peerReply))
    else AgentRun([peer, install], outcome)
  }

  /** The peer route is requested, before anything else, exactly when the network is
      private; the agent is installed unless the peer route failed; and the run
      succeeds exactly when every invoked function answered well. */
  lemma InstallAgentSpec(project: AgentProject, side: Side, instanceIds: seq<string>,
                         peerReply: MapReply, installReply: string)
    ensures var r := InstallAgent(project, side, instanceIds, peerReply, installReply);
      && 1 <= |r.calls| <= 2
      && (r.calls[0].AddPeerRouteCall? <==> !project.publicNetwork)
      && (forall i :: 0 < i < |r.calls| ==> r.calls[i].InstallAgentCall?)
      && ((InstallAgentCall(side, project.id, instanceIds) in r.calls)
          <==> (project.publicNetwork || AddPeerRoute(peerReply).None?))
      && (r.failure.None? <==> (project.publicNetwork || AddPeerRoute(peerReply).None?) && ParseBoolean(installReply))
      && (r.failure == Some(InstallAgentFailed) <==>
            (project.publicNetwork || AddPeerRoute(peerReply).None?) && !ParseBoolean(installReply))
  {
  }
}
