/** The CloudEndure project lifecycle: creating, deleting, cutting back and running the
    wizard, each an ordered sequence of calls on the secret store, the network
    functions and the workflow executor. The service records the calls it makes. */
module CloudEndureStateMachines {
  import opened Common
  import opened CloudEndureNetwork
  import opened CloudEndureProjects

  /** A call the service makes on one of its collaborators. */
  datatype Call =
    | SaveSecret(credential: Option<Credential>)
    | InvokePeerVpc(payload: ProjectRequest)
    | InvokeFindStagingSubnet(payload: ProjectRequest)
    | ExecuteCreate(request: ProjectRequest)
    | ExecuteDelete(projectId: string)
    | DeleteSecret(secretId: string)
    | DeleteTempSecrets
    | ExecuteCutback(terminate: bool, side: Side, projectId: string)
    | ExecuteRunWizard(request: ProjectRequest)

  /** The calls one operation made, in order, and the failure it ended with. */
  datatype Run = Run(calls: seq<Call>, failure: Option<Error>)

  /** `create`, given the id the secret store returns and the replies of the two
      network functions. */
  function CreateRun(request: ProjectRequest, secretId: string, peerReply: MapReply, subnetReply: StringReply): Run
  {
    var save := SaveSecret(request.sourceCredential);
    var peer := if request.publicNetwork then [] else [InvokePeerVpc(PeerVpcPayload(request, secretId))];
    var lookup := InvokeFindStagingSubnet(PeerVpcPayload(request, secretId));
    if !request.publicNetwork && PeerVpc(peerReply).Some? then Run([save] + peer, PeerVpc(peerReply))
    else
      var subnet := FindStagingSubnetId(subnetReply);
      if subnet.Err? then Run([save] + peer + [lookup], Some(subnet.error))
      else Run([save] + peer + [lookup, ExecuteCreate(StripCredential(request, secretId).(stagingSubnetId := subnet.value))], None)
  }

  /** Every call after saving the secret that carries the request carries the secret
      id in place of the credential. */
  predicate UsesSecret(c: Call, secretId: string)
  {
    match c
    case InvokePeerVpc(p) => p.sourceCredential.None? && p.sourceCredentialId == Some(secretId)
    case InvokeFindStagingSubnet(p) => p.sourceCredential.None? && p.sourceCredentialId == Some(secretId)
    case ExecuteCreate(p) => p.sourceCredential.None? && p.sourceCredentialId == Some(secretId)
    case ExecuteRunWizard(p) => p.sourceCredential.None? && p.sourceCredentialId == Some(secretId)
    case _ => true
  }

  /** `create` saves the secret first; it peers the VPCs, second, exactly when the
      network is private; the staging subnet is looked up only after a successful
      peering; the create workflow runs last and only when nothing failed, with the
      staging subnet the lookup found; every later call carries the saved secret's id;
      and a failure undoes nothing. */
  lemma CreateOrder(request: ProjectRequest, secretId: string, peerReply: MapReply, subnetReply: StringReply)
    ensures var r := CreateRun(request, secretId, peerReply, subnetReply);
      && |r.calls| >= 1 && r.calls[0] == SaveSecret(request.sourceCredential)
      && (!request.publicNetwork <==> |r.calls| >= 2 && r.calls[1] == InvokePeerVpc(PeerVpcPayload(request, secretId)))
      && (forall i :: 1 <= i < |r.calls| ==> UsesSecret(r.calls[i], secretId))
      && (forall i :: 0 <= i < |r.calls| ==> !r.calls[i].DeleteSecret? && !r.calls[i].DeleteTempSecrets?)
      && (r.failure.None? <==> r.calls[|r.calls| - 1].ExecuteCreate?)
      && (r.failure.None? ==> r.calls[|r.calls| - 1].request.stagingSubnetId == FindStagingSubnetId(subnetReply).value)
      && (r.failure.None? <==> (request.publicNetwork || PeerVpc(peerReply).None?) && FindStagingSubnetId(subnetReply).Ok?)
  {
  }

  /** `delete`: the delete workflow, then the source secret, then the temporary
      secrets. */
  function DeleteRun(projectId: string, sourceSecretId: string): (r: Run)
    ensures r.failure.None? && |r.calls| == 3
    ensures r.calls[0] == ExecuteDelete(projectId)
    ensures r.calls[1] == DeleteSecret(sourceSecretId)
    ensures r.calls[2] == DeleteTempSecrets
  {
    Run([ExecuteDelete(projectId), DeleteSecret(sourceSecretId), DeleteTempSecrets], None)
  }

  /** `cutback`: the gate's verdict decides between one cutback workflow on the source
      side and a portal error carrying the gate's message; an exception of the gate
      ends the operation before anything is submitted. */
  function CutbackRun(projectId: string, terminate: bool, cutover: Option<CutoverItem>, tagBlueprint: string): Run
  {
    var cause := CheckCutbackPrecondition(cutover, tagBlueprint);
    if cause.Err? then Run([], Some(cause.error))
    else if cause.value.None? then Run([ExecuteCutback(terminate, Source, projectId)], None)
    else Run([], Some(PortalError(Message(cause.value.value))))
  }

  /** The cutback workflow is submitted, exactly once and for the source side with the
      flag as given, exactly when the project has a cutover item and every machine passes
      the gate; otherwise nothing is submitted and the failure names the first machine
      that does not. A project without a cutover item submits nothing and fails. */
  lemma CutbackOnceIff(projectId: string, terminate: bool, cutover: Option<CutoverItem>, tagBlueprint: string)
    ensures var r := CutbackRun(projectId, terminate, cutover, tagBlueprint);
      && (r.calls == [ExecuteCutback(terminate, Source, projectId)] <==>
            && cutover.Some?
            && ToBlueprintMap(cutover.value.blueprints).Ok?
            && forall i :: 0 <= i < |cutover.value.machines| ==>
                 Ready(cutover.value.machines[i], ToBlueprintMap(cutover.value.blueprints).value, tagBlueprint))
      && (r.calls != [] <==> r.failure.None?)
      && (cutover.None? <==> r == Run([], Some(MissingCutover)))
      && (r.failure.Some? && r.failure.value.PortalError? ==>
            exists i :: 0 <= i < |cutover.value.machines| && StartsWith(r.failure.value.message, cutover.value.machines[i].id))
  {
    CutbackAllowedIff(cutover, tagBlueprint);
    var cause := CheckCutbackPrecondition(cutover, tagBlueprint);
    if cutover.None? {
      return;
    }
    var machines := cutover.value.machines;
    var blueprints := cutover.value.blueprints;
    if cause.Ok? && cause.value.Some? {
      FirstCauseSpec(machines, ToBlueprintMap(blueprints).value, tagBlueprint);
      var i :| 0 <= i < |machines|
        && (forall j :: 0 <= j < i ==> Ready(machines[j], ToBlueprintMap(blueprints).value, tagBlueprint))
        && !Ready(machines[i], ToBlueprintMap(blueprints).value, tagBlueprint)
        && cause == CheckMachine(machines[i], ToBlueprintMap(blueprints).value, tagBlueprint);
      CheckMachineOrder(machines[i], ToBlueprintMap(blueprints).value, tagBlueprint);
      assert cause.value.value.machineId == machines[i].id;
      var r := CutbackRun(projectId, terminate, cutover, tagBlueprint);
      assert r.failure == Some(PortalError(Message(cause.value.value)));
      assert StartsWith(r.failure.value.message, machines[i].id);
    } else if cause.Err? {
      if ToBlueprintMap(blueprints).Err? {
        ToBlueprintMapDuplicate(blueprints);
      } else {
        FirstCauseSpec(machines, ToBlueprintMap(blueprints).value, tagBlueprint);
      }
    }
  }

  /** `runWizard`: save the secret, then run the wizard with the credential replaced by
      the secret id and the target VPC the replication table gives, if any. */
  function RunWizardRun(request: ProjectRequest, secretId: string, vpcTable: seq<VpcRecord>): Run
  {
    var target := TargetVpcId(vpcTable, request.sourceVpcId, request.sourceRegion, request.targetRegion);
    Run([SaveSecret(request.sourceCredential),
         ExecuteRunWizard(StripCredential(request, secretId).(targetVpcId := target))], None)
  }

  /** The wizard request differs from the caller's only in the credential, which becomes
      the saved secret's id, and in the target VPC, which comes from the replication
      table and is absent when no replicated row matches the regions. */
  lemma RunWizardRequest(request: ProjectRequest, secretId: string, vpcTable: seq<VpcRecord>)
    ensures var r := RunWizardRun(request, secretId, vpcTable);
      && |r.calls| == 2 && r.calls[0] == SaveSecret(request.sourceCredential)
      && r.calls[1].ExecuteRunWizard? && UsesSecret(r.calls[1], secretId)
      && r.calls[1].request.(sourceCredential := request.sourceCredential,
                             sourceCredentialId := request.sourceCredentialId,
                             targetVpcId := request.targetVpcId) == request
      && (r.calls[1].request.targetVpcId.None? <==>
            forall i :: 0 <= i < |vpcTable| && vpcTable[i].id == request.sourceVpcId ==>
              !InRegions(vpcTable[i], request.sourceRegion, request.targetRegion))
  {
    TargetVpcIdFirst(vpcTable, request.sourceVpcId, request.sourceRegion, request.targetRegion);
  }

  /** The service with the calls it has made so far. */
  class CloudEndureStateMachineService {
    var trace: seq<Call>

    constructor()
      ensures trace == []
    {
      trace := [];
    }

    /** `create`. */
    method Create(request: ProjectRequest, secretId: string, peerReply: MapReply, subnetReply: StringReply)
      returns (failure: Option<Error>)
      modifies this
      ensures trace == old(trace) + CreateRun(request, secretId, peerReply, subnetReply).calls
      ensures failure == CreateRun(request, secretId, peerReply, subnetReply).failure
    {
      trace := trace + [SaveSecret(request.sourceCredential)];
      var payload := PeerVpcPayload(request, secretId);
      if !request.publicNetwork {
        trace := trace + [InvokePeerVpc(payload)];
        failure := PeerVpc(peerReply);
        if failure.Some? {
          return;
        }
      }
      trace := trace + [InvokeFindStagingSubnet(payload)];
      var subnet := FindStagingSubnetId(subnetReply);
      if subnet.Err? {
        return Some(subnet.error);
      }
      trace := trace + [ExecuteCreate(StripCredential(request, secretId).(stagingSubnetId := subnet.value))];
      failure := None;
    }

    /** `delete`. */
    method Delete(projectId: string, sourceSecretId: string)
      modifies this
      ensures trace == old(trace) + DeleteRun(projectId, sourceSecretId).calls
    {
      trace := trace + [ExecuteDelete(projectId)];
      trace := trace + [DeleteSecret(sourceSecretId)];
      trace := trace + [DeleteTempSecrets];
    }

    /** `cutback`. */
    method Cutback(projectId: string, terminate: bool, cutover: Option<CutoverItem>, tagBlueprint: string)
      returns (failure: Option<Error>)
      modifies this
      ensures trace == old(trace) + CutbackRun(projectId, terminate, cutover, tagBlueprint).calls
      ensures failure == CutbackRun(projectId, terminate, cutover, tagBlueprint).failure
    {
      var cause := CheckCutback(cutover, tagBlueprint);
      if cause.Err? {
        return Some(cause.error);
      }
      if cause.value.None? {
        trace := trace + [ExecuteCutback(terminate, Source, projectId)];
        failure := None;
      } else {
        failure := Some(PortalError(Message(cause.value.value)));
      }
    }

    /** `runWizard`. */
    method RunWizard(request: ProjectRequest, secretId: string, vpcTable: seq<VpcRecord>)
      modifies this
      ensures trace == old(trace) + RunWizardRun(request, secretId, vpcTable).calls
    {
      trace := trace + [SaveSecret(request.sourceCredential)];
      var target := FindTargetVpcId(vpcTable, request.sourceVpcId, request.sourceRegion, request.targetRegion);
      trace := trace + [ExecuteRunWizard(StripCredential(request, secretId).(targetVpcId := target))];
    }
  }
}
