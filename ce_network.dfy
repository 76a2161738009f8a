/** The CloudEndure network service: the VPC table that pairs each source VPC with the
    target VPC it was replicated to, the VPC pairs offered to a new project, and the
    replies of the peering and staging-subnet Lambda functions. */
module CloudEndureNetwork {
  import opened Common

  // ---------------------------------------------------------------------------
  // The VPC table

  /** One row of the VPC table: the source VPC id (hash key), the target VPC id, and the
      regions of the two VPCs. */
  datatype VpcRecord = VpcRecord(id: string, targetId: string, sourceRegion: string, targetRegion: string)

  /** `table.query(KEY_ID, id)`: the rows with that source VPC id, in table order. */
  function Query(table: seq<VpcRecord>, id: string): (r: seq<VpcRecord>)
    ensures |r| <= |table|
  {
    if table == [] then []
    else if table[0].id == id then [table[0]] + Query(table[1..], id)
    else Query(table[1..], id)
  }

  /** The query answers exactly the rows with the id. */
  lemma {:induction false} QueryMember(table: seq<VpcRecord>, id: string, x: VpcRecord)
    ensures x in Query(table, id) <==> x in table && x.id == id
  {
    if table != [] {
      QueryMember(table[1..], id, x);
      assert table == [table[0]] + table[1..];
    }
  }

  predicate InRegions(rec: VpcRecord, sourceRegion: string, targetRegion: string)
  {
    rec.sourceRegion == sourceRegion && rec.targetRegion == targetRegion
  }

  /** The target id of the first record of the region pair, or none. */
  function FirstInRegions(records: seq<VpcRecord>, sourceRegion: string, targetRegion: string): (r: Option<string>)
    ensures r.None? <==> forall i :: 0 <= i < |records| ==> !InRegions(records[i], sourceRegion, targetRegion)
    ensures r.Some? ==>
      (exists i :: 0 <= i < |records| && InRegions(records[i], sourceRegion, targetRegion)
         && records[i].targetId == r.value
         && forall j :: 0 <= j < i ==> !InRegions(records[j], sourceRegion, targetRegion))
  {
    if records == [] then None
    else if InRegions(records[0], sourceRegion, targetRegion) then Some(records[0].targetId)
    else
      var r := FirstInRegions(records[1..], sourceRegion, targetRegion);
      assert forall i :: 1 <= i < |records| ==> records[i] == records[1..][i - 1];
      r
  }

  /** What `findTargetVpcId(sourceVpcId, sourceRegion, targetRegion)` answers. */
  function TargetVpcId(table: seq<VpcRecord>, sourceVpcId: string, sourceRegion: string, targetRegion: string): Option<string>
  {
    FirstInRegions(Query(table, sourceVpcId), sourceRegion, targetRegion)
  }

  /** `findTargetVpcId`: the queried rows are read in order and the first one of the
      region pair answers; none answers with null. */
  method FindTargetVpcId(table: seq<VpcRecord>, sourceVpcId: string, sourceRegion: string, targetRegion: string)
    returns (r: Option<string>)
    ensures r == TargetVpcId(table, sourceVpcId, sourceRegion, targetRegion)
  {
    var items := Query(table, sourceVpcId);
    var i := 0;
    while i < |items|
      invariant 0 <= i <= |items|
      invariant FirstInRegions(items[i..], sourceRegion, targetRegion) == FirstInRegions(items, sourceRegion, targetRegion)
    {
      if items[i].sourceRegion == sourceRegion && items[i].targetRegion == targetRegion {
        return Some(items[i].targetId);
      }
      assert items[i..][1..] == items[i + 1..];
      i := i + 1;
    }
    return None;
  }

  /** In table terms: the answer is the target id of the first row with the source VPC
      id and the region pair, and there is no answer exactly when no such row exists. */
  lemma {:induction false} TargetVpcIdFirst(table: seq<VpcRecord>, id: string, sourceRegion: string, targetRegion: string)
    ensures var r := TargetVpcId(table, id, sourceRegion, targetRegion);
      && (r.None? <==> forall k :: 0 <= k < |table| && table[k].id == id ==> !InRegions(table[k], sourceRegion, targetRegion))
      && (r.Some? ==>
           exists k :: 0 <= k < |table| && table[k].id == id && InRegions(table[k], sourceRegion, targetRegion)
             && table[k].targetId == r.value
             && forall j :: 0 <= j < k && table[j].id == id ==> !InRegions(table[j], sourceRegion, targetRegion))
  {
    if table != [] {
      var rest := table[1..];
      var r := TargetVpcId(table, id, sourceRegion, targetRegion);
      TargetVpcIdCons(table, id, sourceRegion, targetRegion);
      if !(table[0].id == id && InRegions(table[0], sourceRegion, targetRegion)) {
        assert r == TargetVpcId(rest, id, sourceRegion, targetRegion);
        TargetVpcIdFirst(rest, id, sourceRegion, targetRegion);
        assert forall k :: 1 <= k < |table| ==> table[k] == rest[k - 1];
        if r.Some? {
          var k :| 0 <= k < |rest| && rest[k].id == id && InRegions(rest[k], sourceRegion, targetRegion)
            && rest[k].targetId == r.value
            && forall j :: 0 <= j < k && rest[j].id == id ==> !InRegions(rest[j], sourceRegion, targetRegion);
          assert table[k + 1] == rest[k];
        }
      }
    }
  }

  /** The answer for a non-empty table: its first row if that row is for the VPC and the
      region pair, otherwise the answer for the remaining rows. */
  lemma TargetVpcIdCons(table: seq<VpcRecord>, id: string, sourceRegion: string, targetRegion: string)
    requires table != []
    ensures TargetVpcId(table, id, sourceRegion, targetRegion)
         == if table[0].id == id && InRegions(table[0], sourceRegion, targetRegion) then Some(table[0].targetId)
            else TargetVpcId(table[1..], id, sourceRegion, targetRegion)
  {
    var q := Query(table[1..], id);
    if table[0].id == id {
      assert Query(table, id) == [table[0]] + q;
      assert ([table[0]] + q)[1..] == q;
    }
  }

  /** The query of a concatenation is the concatenation of the queries. */
  lemma {:induction false} QueryAppend(a: seq<VpcRecord>, b: seq<VpcRecord>, id: string)
    ensures Query(a + b, id) == Query(a, id) + Query(b, id)
  {
    if a == [] {
      assert a + b == b;
    } else {
      assert (a + b)[0] == a[0];
      assert (a + b)[1..] == a[1..] + b;
      QueryAppend(a[1..], b, id);
      if a[0].id == id {
        assert [a[0]] + (Query(a[1..], id) + Query(b, id)) == ([a[0]] + Query(a[1..], id)) + Query(b, id);
      }
    }
  }

  /** The first record of the region pair in a concatenation comes from its front part when that has one. */
  lemma {:induction false} FirstInRegionsAppend(a: seq<VpcRecord>, b: seq<VpcRecord>, sourceRegion: string, targetRegion: string)
    ensures FirstInRegions(a + b, sourceRegion, targetRegion)
      == if FirstInRegions(a, sourceRegion, targetRegion).Some? then FirstInRegions(a, sourceRegion, targetRegion)
         else FirstInRegions(b, sourceRegion, targetRegion)
  {
    if a == [] {
      assert a + b == b;
    } else {
      assert (a + b)[1..] == a[1..] + b;
      FirstInRegionsAppend(a[1..], b, sourceRegion, targetRegion);
    }
  }

  /** A row for another source VPC, or for the right VPC but another region pair, can be
      removed from the table anywhere without changing the answer. */
  lemma OtherRowIgnored(a: seq<VpcRecord>, rec: VpcRecord, b: seq<VpcRecord>, id: string, sourceRegion: string, targetRegion: string)
    requires rec.id != id || !InRegions(rec, sourceRegion, targetRegion)
    ensures TargetVpcId(a + [rec] + b, id, sourceRegion, targetRegion) == TargetVpcId(a + b, id, sourceRegion, targetRegion)
  {
    QueryAppend(a + [rec], b, id);
    QueryAppend(a, [rec], id);
    QueryAppend(a, b, id);
    assert [rec][1..] == [];
    var qa, qb := Query(a, id), Query(b, id);
    FirstInRegionsAppend(qa, qb, sourceRegion, targetRegion);
    FirstInRegionsAppend(qa + Query([rec], id), qb, sourceRegion, targetRegion);
    FirstInRegionsAppend(qa, Query([rec], id), sourceRegion, targetRegion);
  }

  // ---------------------------------------------------------------------------
  // VPC pairs offered to a new project

  /** An EC2 VPC of the source or target region. */
  datatype Vpc = Vpc(vpcId: string, cidrBlock: string)

  /** A source VPC together with the id of the target VPC it is paired with. */
  datatype AwsVpc = AwsVpc(vpc: Vpc, peerVpcId: string)

  function VpcIds(vpcs: seq<Vpc>): set<string>
  {
    set v | v in vpcs :: v.vpcId
  }

  /** A row is kept when its target VPC exists in the target region and its region
      pair is the requested one. */
  predicate Kept(rec: VpcRecord, targetVpcIds: set<string>, sourceRegion: string, targetRegion: string)
  {
    rec.targetId in targetVpcIds && InRegions(rec, sourceRegion, targetRegion)
  }

  /** The pairs one source VPC contributes, in row order. */
  function PairsFor(vpc: Vpc, items: seq<VpcRecord>, targetVpcIds: set<string>, sourceRegion: string, targetRegion: string)
    : seq<AwsVpc>
  {
    if items == [] then []
    else
      var last := items[|items| - 1];
      PairsFor(vpc, items[..|items| - 1], targetVpcIds, sourceRegion, targetRegion)
      + (if Kept(last, targetVpcIds, sourceRegion, targetRegion) then [AwsVpc(vpc, last.targetId)] else [])
  }

  /** The pairs of every source VPC, source VPC by source VPC. */
  function Candidates(sourceVpcs: seq<Vpc>, table: seq<VpcRecord>, targetVpcIds: set<string>,
                      sourceRegion: string, targetRegion: string): seq<AwsVpc>
  {
    if sourceVpcs == [] then []
    else
      var last := sourceVpcs[|sourceVpcs| - 1];
      Candidates(sourceVpcs[..|sourceVpcs| - 1], table, targetVpcIds, sourceRegion, targetRegion)
      + PairsFor(last, Query(table, last.vpcId), targetVpcIds, sourceRegion, targetRegion)
  }

  /** `findAllAwsVpcs(request)`: for every source VPC, every row of the VPC table for it
      is checked and the kept ones become pairs. */
  method FindAllAwsVpcs(sourceVpcs: seq<Vpc>, targetVpcs: seq<Vpc>, table: seq<VpcRecord>,
                        sourceRegion: string, targetRegion: string)
    returns (r: seq<AwsVpc>)
    ensures r == Candidates(sourceVpcs, table, VpcIds(targetVpcs), sourceRegion, targetRegion)
  {
    var targetVpcIds := set v | v in targetVpcs :: v.vpcId;
    r := [];
    var i := 0;
    while i < |sourceVpcs|
      invariant 0 <= i <= |sourceVpcs|
      invariant r == Candidates(sourceVpcs[..i], table, targetVpcIds, sourceRegion, targetRegion)
    {
      var sourceVpc := sourceVpcs[i];
      var items := Query(table, sourceVpc.vpcId);
      var before := r;
      var j := 0;
      while j < |items|
        invariant 0 <= j <= |items|
        invariant r == before + PairsFor(sourceVpc, items[..j], targetVpcIds, sourceRegion, targetRegion)
      {
        var item := items[j];
        assert items[..j + 1][..j] == items[..j];
        if item.targetId in targetVpcIds && sourceRegion == item.sourceRegion && targetRegion == item.targetRegion {
          r := r + [AwsVpc(sourceVpc, item.targetId)];
        }
        j := j + 1;
      }
      assert items[..j] == items;
      assert sourceVpcs[..i + 1][..i] == sourceVpcs[..i];
      i := i + 1;
    }
    assert sourceVpcs[..i] == sourceVpcs;
  }

  /** The pairs one source VPC contributes from a run of rows: one per row whose target VPC exists and whose region pair matches. */
  lemma {:induction false} PairsForMember(vpc: Vpc, items: seq<VpcRecord>, targetVpcIds: set<string>,
                                          sourceRegion: string, targetRegion: string, x: AwsVpc)
    ensures x in PairsFor(vpc, items, targetVpcIds, sourceRegion, targetRegion) <==>
      exists rec :: rec in items && Kept(rec, targetVpcIds, sourceRegion, targetRegion) && x == AwsVpc(vpc, rec.targetId)
  {
    if items != [] {
      var n := |items| - 1;
      PairsForMember(vpc, items[..n], targetVpcIds, sourceRegion, targetRegion, x);
      assert items == items[..n] + [items[n]];
      if exists rec :: rec in items && Kept(rec, targetVpcIds, sourceRegion, targetRegion) && x == AwsVpc(vpc, rec.targetId) {
        var rec :| rec in items && Kept(rec, targetVpcIds, sourceRegion, targetRegion) && x == AwsVpc(vpc, rec.targetId);
        if rec != items[n] {
          assert rec in items[..n];
        }
      }
    }
  }

  /** The table offers the pair (`vpc`, `peer`): some row for the VPC is kept and names
      `peer` as its target. */
  ghost predicate Offered(table: seq<VpcRecord>, targetVpcIds: set<string>, sourceRegion: string, targetRegion: string,
                          vpc: Vpc, peer: string)
  {
    exists rec :: rec in table && rec.id == vpc.vpcId && Kept(rec, targetVpcIds, sourceRegion, targetRegion)
                  && rec.targetId == peer
  }

  /** The pairs one source VPC contributes are exactly the ones the table offers for it. */
  lemma PairsForQuery(v: Vpc, table: seq<VpcRecord>, targetVpcIds: set<string>,
                      sourceRegion: string, targetRegion: string, x: AwsVpc)
    ensures x in PairsFor(v, Query(table, v.vpcId), targetVpcIds, sourceRegion, targetRegion) <==>
      x.vpc == v && Offered(table, targetVpcIds, sourceRegion, targetRegion, v, x.peerVpcId)
  {
    var items := Query(table, v.vpcId);
    PairsForMember(v, items, targetVpcIds, sourceRegion, targetRegion, x);
    if x in PairsFor(v, items, targetVpcIds, sourceRegion, targetRegion) {
      var rec :| rec in items && Kept(rec, targetVpcIds, sourceRegion, targetRegion) && x == AwsVpc(v, rec.targetId);
      QueryMember(table, v.vpcId, rec);
    }
    if x.vpc == v && Offered(table, targetVpcIds, sourceRegion, targetRegion, v, x.peerVpcId) {
      var rec :| rec in table && rec.id == v.vpcId && Kept(rec, targetVpcIds, sourceRegion, targetRegion)
                 && rec.targetId == x.peerVpcId;
      QueryMember(table, v.vpcId, rec);
    }
  }

  /** A pair is produced exactly when some source VPC has a row in the table whose
      target VPC exists in the target region and whose region pair matches; every other
      row is dropped. */
  lemma {:induction false} CandidatesMember(sourceVpcs: seq<Vpc>, table: seq<VpcRecord>, targetVpcIds: set<string>,
                                            sourceRegion: string, targetRegion: string, x: AwsVpc)
    ensures x in Candidates(sourceVpcs, table, targetVpcIds, sourceRegion, targetRegion) <==>
      x.vpc in sourceVpcs && Offered(table, targetVpcIds, sourceRegion, targetRegion, x.vpc, x.peerVpcId)
  {
    if sourceVpcs != [] {
      var n := |sourceVpcs| - 1;
      var pre, last := sourceVpcs[..n], sourceVpcs[n];
      var offered := Offered(table, targetVpcIds, sourceRegion, targetRegion, x.vpc, x.peerVpcId);
      assert x in Candidates(pre, table, targetVpcIds, sourceRegion, targetRegion) <==> x.vpc in pre && offered by {
        CandidatesMember(pre, table, targetVpcIds, sourceRegion, targetRegion, x);
      }
      assert x in PairsFor(last, Query(table, last.vpcId), targetVpcIds, sourceRegion, targetRegion) <==>
             x.vpc == last && offered by {
        PairsForQuery(last, table, targetVpcIds, sourceRegion, targetRegion, x);
      }
      assert x.vpc in sourceVpcs <==> x.vpc in pre || x.vpc == last by {
        assert sourceVpcs == pre + [last];
      }
    }
  }

  /** One more source VPC appends its pairs at the end. */
  lemma CandidatesSnoc(s: seq<Vpc>, v: Vpc, table: seq<VpcRecord>, targetVpcIds: set<string>,
                       sourceRegion: string, targetRegion: string)
    ensures Candidates(s + [v], table, targetVpcIds, sourceRegion, targetRegion)
      == Candidates(s, table, targetVpcIds, sourceRegion, targetRegion)
         + PairsFor(v, Query(table, v.vpcId), targetVpcIds, sourceRegion, targetRegion)
  {
    assert (s + [v])[..|s|] == s;
  }

  /** The output is ordered by source VPC: the pairs of a prefix of the source VPCs
      come first, and those of the rest follow. */
  lemma {:induction false} CandidatesAppend(a: seq<Vpc>, b: seq<Vpc>, table: seq<VpcRecord>, targetVpcIds: set<string>,
                                            sourceRegion: string, targetRegion: string)
    ensures Candidates(a + b, table, targetVpcIds, sourceRegion, targetRegion)
      == Candidates(a, table, targetVpcIds, sourceRegion, targetRegion) + Candidates(b, table, targetVpcIds, sourceRegion, targetRegion)
    decreases |b|
  {
    if b == [] {
      assert a + b == a;
    } else {
      var n := |b| - 1;
      var m := |a + b| - 1;
      assert (a + b)[..m] == a + b[..n];
      assert (a + b)[m] == b[n];
      var ca := Candidates(a, table, targetVpcIds, sourceRegion, targetRegion);
      var cf := Candidates(b[..n], table, targetVpcIds, sourceRegion, targetRegion);
      var pv := PairsFor(b[n], Query(table, b[n].vpcId), targetVpcIds, sourceRegion, targetRegion);
      CandidatesAppend(a, b[..n], table, targetVpcIds, sourceRegion, targetRegion);
      assert (ca + cf) + pv == ca + (cf + pv);
    }
  }

  // ---------------------------------------------------------------------------
  // Lambda replies

  /** The login the portal was given for the source account. */
  datatype Credential = Credential(accessKeyId: string, secretAccessKey: string)

  /** A request to create a CloudEndure project (also the base of a wizard request). */
  datatype ProjectRequest = ProjectRequest(
    sourceCredential: Option<Credential>,
    sourceCredentialId: Option<string>,
    publicNetwork: bool,
    sourceVpcId: string,
    sourceRegion: string,
    targetRegion: string,
    stagingSubnetId: Option<string>,
    targetVpcId: Option<string>)

  /** The request as it leaves the portal: the credential itself is dropped and only
      the id of the secret that holds it is sent. */
  function StripCredential(request: ProjectRequest, secretId: string): (r: ProjectRequest)
    ensures r.sourceCredential.None? && r.sourceCredentialId == Some(secretId)
    ensures r.(sourceCredential := request.sourceCredential, sourceCredentialId := request.sourceCredentialId) == request
  {
    request.(sourceCredential := None, sourceCredentialId := Some(secretId))
  }

  /** The payload sent to the peering function and to the staging-subnet function. */
  function PeerVpcPayload(request: ProjectRequest, secretId: string): ProjectRequest
  {
    StripCredential(request, secretId)
  }

  /** `peerVpc`: the outcome for the function's reply. A reply that does not parse is an
      I/O failure; a parsed reply with an `errorMessage` becomes a portal error carrying
      that message; anything else (a null map included) is success. */
  function PeerVpc(reply: MapReply): (r: Option<Error>)
    ensures r.None? <==> reply.MapReply? && reply.errorMessage.None?
    ensures reply.MapReply? && reply.errorMessage.Some? ==> r == Some(PortalError(reply.errorMessage.value))
    ensures reply.UnreadableMapReply? ==> r.Some? && r.value.UnparsableReply?
  {
    match reply
    case UnreadableMapReply => Some(UnparsableReply("DRPCommonPeerVpc"))
    case MapReply(message) => if message.Some? then Some(PortalError(message.value)) else None
  }

  /** The reply of the staging-subnet function: a JSON string (possibly null) or
      something that does not parse as one. */
  datatype StringReply = StringReply(value: Option<string>) | UnreadableStringReply

  /** `findStagingSubnetId`: the parsed string, or an I/O failure. */
  function FindStagingSubnetId(reply: StringReply): (r: Result<Option<string>>)
    ensures reply.StringReply? <==> r.Ok?
    ensures reply.StringReply? ==> r.value == reply.value
  {
    match reply
    case UnreadableStringReply => Err(UnparsableReply("DRPCommonFindCommonSubnet"))
    case StringReply(v) => Ok(v)
  }
}
