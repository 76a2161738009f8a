/** The CloudEndure Manager service: the blueprint table it keeps for each project, how
    it fills that table from the machines CloudEndure replicates, how a request edits
    rows, and the launch configuration it sends to CloudEndure for each blueprint. */
module CemServices {
  import opened Common
  import opened InstanceTypes
  import opened InstanceTypeCache
  import opened CemBlueprints
  import opened CloudEndureBlueprints
  import CemNetwork

  /** One gibibyte: CloudEndure reports a machine's memory in bytes. */
  const GB: int := 1024 * 1024 * 1024
  const Economy: string := "economy"
  const Business: string := "business"
  const Customized: string := "customized"
  /** The type a blueprint falls back to when its own type is not offered. */
  const T2LargeName: string := "t2.large"
  /** The function that applies one blueprint in CloudEndure. */
  const ConfigureFunction: string := "DRPCloudEndureConfigureBlueprint"
  /** The IOPS every new blueprint starts with. */
  const DefaultIops: int := 3000

  /** What CloudEndure reports about a replicated machine: the cores of each CPU, the
      memory in bytes, the host name, the operating system and the disk names. */
  datatype SourceProperties = SourceProperties(
    cpuCores: seq<int>, memory: int, name: string, os: string, disks: seq<string>)

  datatype Machine = Machine(id: string, properties: SourceProperties)

  /** `SetBlueprintRequest`: each `intact` flag keeps one group of fields as it is. */
  datatype SetBlueprintRequest = SetBlueprintRequest(
    publicSubnet: bool,
    diskIntact: bool,
    instanceIntact: bool,
    subnetIntact: bool,
    machineIds: seq<string>,
    diskType: string,
    instanceType: string)

  /** The table after a run of per-machine saves, and the failure that stopped it. */
  datatype Saved = Saved(table: map<BlueprintKey, CemBlueprint>, failure: Option<Error>)

  /** Every row is stored under its own key. */
  ghost predicate Keyed(table: map<BlueprintKey, CemBlueprint>)
  {
    forall k :: k in table ==> Key(table[k]) == k
  }

  /** `getBlueprints` followed by `toMap(getMachineId)`: the project's rows by machine id.
      The table holds one row per key, so no machine id occurs twice. */
  function GetBlueprints(table: map<BlueprintKey, CemBlueprint>, projectId: string): (r: map<string, CemBlueprint>)
    ensures forall m :: m in r <==> BlueprintKey(projectId, m) in table
    ensures forall m :: m in r ==> r[m] == table[BlueprintKey(projectId, m)]
  {
    map k | k in table && k.projectId == projectId :: k.machineId := table[k]
  }

  /** `Map.get` on the groups by machine name: no entry reads as null. */
  function Lookup(groups: map<string, seq<SecurityGroup>>, name: string): Option<seq<SecurityGroup>>
  {
    if name in groups then Some(groups[name]) else None
  }

  /** The CPU count of a new blueprint: the first CPU's cores, or 1 when none is reported. */
  function SourceCpus(p: SourceProperties): int
  {
    if |p.cpuCores| == 0 then 1 else p.cpuCores[0]
  }

  /** A blueprint for a machine that has none yet. */
  function NewBlueprint(projectId: string, m: Machine, subnetId: string,
                        groups: map<string, seq<SecurityGroup>>, address: string): CemBlueprint
  {
    var p := m.properties;
    var cpus := SourceCpus(p);
    SetSecurityGroups(
      CemBlueprint(projectId, m.id, cpus, p.memory, false, p.name, p.os, None,
                   GetName(Find(true, cpus, JavaDiv(p.memory, GB))), subnetId, address,
                   p.disks, DefaultIops, Some(Standard), []),
      Lookup(groups, p.name))
  }

  /** A new blueprint is the project's row for the machine, on a private subnet, with
      no IAM role, 3000 IOPS on standard disks and an economy type: never larger than
      `t2.large`. */
  lemma NewBlueprintDefaults(projectId: string, m: Machine, subnetId: string,
                             groups: map<string, seq<SecurityGroup>>, address: string)
    ensures var b := NewBlueprint(projectId, m, subnetId, groups, address);
      && Key(b) == BlueprintKey(projectId, m.id)
      && !b.publicSubnet && b.iamRole.None?
      && b.diskIops == DefaultIops && b.diskType == Some(Standard)
      && b.subnetId == subnetId && b.ipAddress == address
      && (|m.properties.cpuCores| == 0 ==> b.cpus == 1)
      && (|m.properties.cpuCores| > 0 ==> b.cpus == m.properties.cpuCores[0])
      && b.securityGroups == (if m.properties.name in groups then groups[m.properties.name] else [])
      && exists t :: Ordinal(t) <= Ordinal(T2Large) && b.instanceType == GetName(t)
  {
    var p := m.properties;
    EconomyCeiling(SourceCpus(p), JavaDiv(p.memory, GB));
  }

  /** The blueprint the loading loop keeps for machine `i`: an existing row with its
      groups refreshed by name, or a new one that takes the `i`-th address. */
  function LoadOne(table: map<BlueprintKey, CemBlueprint>, projectId: string, machines: seq<Machine>, i: nat,
                   subnetId: string, groups: map<string, seq<SecurityGroup>>, addresses: seq<string>): Result<CemBlueprint>
    requires i < |machines|
  {
    var key := BlueprintKey(projectId, machines[i].id);
    if key in table then
      Ok(SetSecurityGroups(table[key], Lookup(groups, table[key].name)))
    else if i < |addresses| then
      Ok(NewBlueprint(projectId, machines[i], subnetId, groups, addresses[i]))
    else
      Err(AddressIndexOutOfBounds(i))
  }

  /** What the loading loop makes of each machine, in order. */
  function LoadAll(table: map<BlueprintKey, CemBlueprint>, projectId: string, machines: seq<Machine>,
                   subnetId: string, groups: map<string, seq<SecurityGroup>>, addresses: seq<string>)
    : (r: seq<Result<CemBlueprint>>)
    ensures |r| == |machines|
  {
    seq(|machines|, i requires 0 <= i < |machines| => LoadOne(table, projectId, machines, i, subnetId, groups, addresses))
  }

  /** The list `loadBlueprints` hands to the batch save, or the failure that stops it. */
  function Loaded(table: map<BlueprintKey, CemBlueprint>, projectId: string, machines: seq<Machine>,
                  subnetId: string, groups: map<string, seq<SecurityGroup>>, addresses: seq<string>): Result<seq<CemBlueprint>>
  {
    AllOk(LoadAll(table, projectId, machines, subnetId, groups, addresses))
  }

  /** Machine `i` can be loaded: it has a row, or there is an address for it. */
  predicate Placeable(table: map<BlueprintKey, CemBlueprint>, projectId: string, m: Machine, i: int, addresses: seq<string>)
  {
    BlueprintKey(projectId, m.id) in table || i < |addresses|
  }

  /** A machine fails to load exactly when it has neither a row nor an address, and the failure names its position. */
  lemma LoadOneOk(table: map<BlueprintKey, CemBlueprint>, projectId: string, machines: seq<Machine>, i: nat,
                  subnetId: string, groups: map<string, seq<SecurityGroup>>, addresses: seq<string>)
    requires i < |machines|
    ensures LoadOne(table, projectId, machines, i, subnetId, groups, addresses).Ok?
        <==> Placeable(table, projectId, machines[i], i, addresses)
    ensures LoadOne(table, projectId, machines, i, subnetId, groups, addresses).Err?
        ==> LoadOne(table, projectId, machines, i, subnetId, groups, addresses).error == AddressIndexOutOfBounds(i)
  {
  }

  /** Loading succeeds exactly when every machine without a row has an address. */
  lemma LoadedOkIff(table: map<BlueprintKey, CemBlueprint>, projectId: string, machines: seq<Machine>,
                    subnetId: string, groups: map<string, seq<SecurityGroup>>, addresses: seq<string>)
    ensures Loaded(table, projectId, machines, subnetId, groups, addresses).Ok?
        <==> forall i :: 0 <= i < |machines| ==> Placeable(table, projectId, machines[i], i, addresses)
  {
    var all := LoadAll(table, projectId, machines, subnetId, groups, addresses);
    AllOkIff(all);
    forall i | 0 <= i < |machines|
      ensures all[i].Ok? <==> Placeable(table, projectId, machines[i], i, addresses)
    {
      LoadOneOk(table, projectId, machines, i, subnetId, groups, addresses);
    }
  }

  /** A successful load yields one blueprint per machine, in order. */
  lemma LoadedValue(table: map<BlueprintKey, CemBlueprint>, projectId: string, machines: seq<Machine>,
                    subnetId: string, groups: map<string, seq<SecurityGroup>>, addresses: seq<string>)
    requires Loaded(table, projectId, machines, subnetId, groups, addresses).Ok?
    ensures var bs := Loaded(table, projectId, machines, subnetId, groups, addresses).value;
      && |bs| == |machines|
      && forall i :: 0 <= i < |machines| ==>
           LoadOne(table, projectId, machines, i, subnetId, groups, addresses).Ok? &&
           bs[i] == LoadOne(table, projectId, machines, i, subnetId, groups, addresses).value
  {
    var all := LoadAll(table, projectId, machines, subnetId, groups, addresses);
    AllOkValue(all);
    assert forall i :: 0 <= i < |machines| ==> all[i] == LoadOne(table, projectId, machines, i, subnetId, groups, addresses);
  }

  /** A failed load names the first machine that has neither a row nor an address. */
  lemma LoadedError(table: map<BlueprintKey, CemBlueprint>, projectId: string, machines: seq<Machine>,
                    subnetId: string, groups: map<string, seq<SecurityGroup>>, addresses: seq<string>)
    requires Loaded(table, projectId, machines, subnetId, groups, addresses).Err?
    ensures exists i :: (0 <= i < |machines|
      && !Placeable(table, projectId, machines[i], i, addresses)
      && Loaded(table, projectId, machines, subnetId, groups, addresses).error == AddressIndexOutOfBounds(i)
      && forall j :: 0 <= j < i ==> Placeable(table, projectId, machines[j], j, addresses))
  {
    var all := LoadAll(table, projectId, machines, subnetId, groups, addresses);
    AllOkError(all);
    var i :| 0 <= i < |all| && all[i].Err? && AllOk(all).error == all[i].error
             && forall j :: 0 <= j < i ==> all[j].Ok?;
    LoadOneOk(table, projectId, machines, i, subnetId, groups, addresses);
    forall j | 0 <= j < i ensures Placeable(table, projectId, machines[j], j, addresses) {
      assert all[j].Ok? && all[j] == LoadOne(table, projectId, machines, j, subnetId, groups, addresses);
      LoadOneOk(table, projectId, machines, j, subnetId, groups, addresses);
    }
  }

  /** The batch save: each blueprint is written under its key, a later one over an
      earlier one. */
  function SaveAll(table: map<BlueprintKey, CemBlueprint>, bs: seq<CemBlueprint>): map<BlueprintKey, CemBlueprint>
    decreases |bs|
  {
    if |bs| == 0 then table
    else
      var n := |bs| - 1;
      SaveAll(table, bs[..n])[Key(bs[n]) := bs[n]]
  }

  /** After a batch save a key holds a row exactly when it held one before or one of the
      saved blueprints has it. */
  lemma {:induction false} SaveAllDomain(table: map<BlueprintKey, CemBlueprint>, bs: seq<CemBlueprint>, k: BlueprintKey)
    ensures k in SaveAll(table, bs) <==> k in table || exists i :: 0 <= i < |bs| && Key(bs[i]) == k
    decreases |bs|
  {
    if |bs| > 0 {
      var n := |bs| - 1;
      SaveAllDomain(table, bs[..n], k);
      assert forall i :: 0 <= i < n ==> bs[..n][i] == bs[i];
    }
  }

  /** A key none of the saved blueprints has keeps its row. */
  lemma {:induction false} SaveAllUntouched(table: map<BlueprintKey, CemBlueprint>, bs: seq<CemBlueprint>, k: BlueprintKey)
    requires k in table
    requires forall i :: 0 <= i < |bs| ==> Key(bs[i]) != k
    ensures k in SaveAll(table, bs) && SaveAll(table, bs)[k] == table[k]
    decreases |bs|
  {
    if |bs| > 0 {
      var n := |bs| - 1;
      assert forall i :: 0 <= i < n ==> bs[..n][i] == bs[i];
      SaveAllUntouched(table, bs[..n], k);
    }
  }

  /** The key of a saved blueprint holds one of the saved blueprints with that key. */
  lemma {:induction false} SaveAllHolds(table: map<BlueprintKey, CemBlueprint>, bs: seq<CemBlueprint>, i: nat)
    requires i < |bs|
    ensures Key(bs[i]) in SaveAll(table, bs)
    ensures exists j :: 0 <= j < |bs| && Key(bs[j]) == Key(bs[i]) && SaveAll(table, bs)[Key(bs[i])] == bs[j]
    decreases |bs|
  {
    var n := |bs| - 1;
    var r := SaveAll(table, bs);
    if Key(bs[i]) == Key(bs[n]) {
      assert r[Key(bs[i])] == bs[n];
    } else {
      var pre := bs[..n];
      assert pre[i] == bs[i];
      SaveAllHolds(table, pre, i);
      var j :| 0 <= j < |pre| && Key(pre[j]) == Key(pre[i]) && SaveAll(table, pre)[Key(pre[i])] == pre[j];
      assert bs[j] == pre[j];
    }
  }

  /** Saving blueprints that already are the rows under their keys changes nothing. */
  lemma {:induction false} SaveAllExisting(table: map<BlueprintKey, CemBlueprint>, bs: seq<CemBlueprint>)
    requires forall i :: 0 <= i < |bs| ==> Key(bs[i]) in table && table[Key(bs[i])] == bs[i]
    ensures SaveAll(table, bs) == table
    decreases |bs|
  {
    if |bs| > 0 {
      var n := |bs| - 1;
      forall i | 0 <= i < n ensures Key(bs[..n][i]) in table && table[Key(bs[..n][i])] == bs[..n][i] {
        assert bs[..n][i] == bs[i];
      }
      SaveAllExisting(table, bs[..n]);
    }
  }

  /** A batch save of blueprints stored under their own keys keeps every row under its
      own key. */
  lemma SaveAllKeyed(table: map<BlueprintKey, CemBlueprint>, bs: seq<CemBlueprint>)
    requires Keyed(table)
    ensures Keyed(SaveAll(table, bs))
  {
    var r := SaveAll(table, bs);
    forall k | k in r ensures Key(r[k]) == k {
      SaveAllDomain(table, bs, k);
      if i :| 0 <= i < |bs| && Key(bs[i]) == k {
        SaveAllHolds(table, bs, i);
      } else {
        SaveAllUntouched(table, bs, k);
      }
    }
  }

  /** A blueprint whose groups are what the groups by name give for its host name. */
  ghost predicate GroupsMatch(b: CemBlueprint, groups: map<string, seq<SecurityGroup>>)
  {
    b.securityGroups == (if b.name in groups then groups[b.name] else [])
  }

  /** Every loaded blueprint is the project's row for its machine, and carries the groups
      its host name is tagged with. */
  lemma LoadOneFacts(table: map<BlueprintKey, CemBlueprint>, projectId: string, machines: seq<Machine>, i: nat,
                     subnetId: string, groups: map<string, seq<SecurityGroup>>, addresses: seq<string>)
    requires Keyed(table) && i < |machines|
    requires LoadOne(table, projectId, machines, i, subnetId, groups, addresses).Ok?
    ensures var b := LoadOne(table, projectId, machines, i, subnetId, groups, addresses).value;
      Key(b) == BlueprintKey(projectId, machines[i].id) && GroupsMatch(b, groups)
  {
    if BlueprintKey(projectId, machines[i].id) !in table {
      NewBlueprintDefaults(projectId, machines[i], subnetId, groups, addresses[i]);
    }
  }

  /** Loading twice with the same groups stores the same table as loading once: a second
      run finds every machine's row and only refreshes groups that already match. */
  lemma LoadTwice(table: map<BlueprintKey, CemBlueprint>, projectId: string, machines: seq<Machine>,
                  subnetId: string, groups: map<string, seq<SecurityGroup>>, addresses: seq<string>,
                  subnetId2: string, addresses2: seq<string>)
    requires Keyed(table)
    requires Loaded(table, projectId, machines, subnetId, groups, addresses).Ok?
    ensures var once := SaveAll(table, Loaded(table, projectId, machines, subnetId, groups, addresses).value);
      var again := Loaded(once, projectId, machines, subnetId2, groups, addresses2);
      again.Ok? && SaveAll(once, again.value) == once
  {
    var bs := Loaded(table, projectId, machines, subnetId, groups, addresses).value;
    LoadedValue(table, projectId, machines, subnetId, groups, addresses);
    var once := SaveAll(table, bs);
    forall i | 0 <= i < |machines|
      ensures Key(bs[i]) == BlueprintKey(projectId, machines[i].id)
      ensures GroupsMatch(bs[i], groups)
    {
      LoadOneFacts(table, projectId, machines, i, subnetId, groups, addresses);
    }
    forall i | 0 <= i < |machines|
      ensures BlueprintKey(projectId, machines[i].id) in once
      ensures GroupsMatch(once[BlueprintKey(projectId, machines[i].id)], groups)
    {
      SaveAllHolds(table, bs, i);
    }
    LoadedOkIff(once, projectId, machines, subnetId2, groups, addresses2);
    LoadedValue(once, projectId, machines, subnetId2, groups, addresses2);
    var again := Loaded(once, projectId, machines, subnetId2, groups, addresses2);
    SaveAllKeyed(table, bs);
    forall i | 0 <= i < |machines|
      ensures Key(again.value[i]) in once && once[Key(again.value[i])] == again.value[i]
    {
      var key := BlueprintKey(projectId, machines[i].id);
      assert again.value[i] == SetSecurityGroups(once[key], Lookup(groups, once[key].name));
    }
    SaveAllExisting(once, again.value);
  }

  // ---------------------------------------------------------------------------
  // setBlueprint and selectSecurityGroup

  /** The disk type a request names, or the current one for a name it does not know. */
  function DiskChoice(name: string, current: Option<DiskType>): (r: Option<DiskType>)
  {
    if name == Economy then Some(Standard)
    else if name == Business then Some(Ssd)
    else if name == Customized then Some(ProvisionedSsd)
    else current
  }

  /** The three tiers map to three different disk types, and only the tiers change it. */
  lemma DiskChoiceSpec(name: string, current: Option<DiskType>)
    ensures DiskChoice(name, current) != current ==> name in {Economy, Business, Customized}
    ensures DiskChoice(name, current).Some? && DiskChoice(name, current).value in {Gp3, ProvisionedIo2}
            ==> DiskChoice(name, current) == current
    ensures DiskChoice(Economy, current) != DiskChoice(Business, current)
    ensures DiskChoice(Business, current) != DiskChoice(Customized, current)
    ensures DiskChoice(Economy, current) != DiskChoice(Customized, current)
  {
  }

  /** The instance type a request names: the first fit among the economy or business
      ladder for an economy or business tier, the tier's own name for `customized`, and
      the current type otherwise. */
  function InstanceChoice(name: string, b: CemBlueprint): string
  {
    if name == Economy || name == Business then
      GetName(Find(name == Economy, b.cpus, JavaDiv(b.memory, GB)))
    else if name == Customized then name
    else b.instanceType
  }

  /** One row as `setBlueprint` edits it. */
  function Update(b: CemBlueprint, request: SetBlueprintRequest, subnetId: string, address: string): CemBlueprint
  {
    var withSubnet :=
      if request.subnetIntact then b
      else b.(publicSubnet := request.publicSubnet, subnetId := subnetId, ipAddress := address);
    var withDisk :=
      if request.diskIntact then withSubnet
      else withSubnet.(diskType := DiskChoice(request.diskType, withSubnet.diskType));
    if request.instanceIntact then withDisk
    else withDisk.(instanceType := InstanceChoice(request.instanceType, withDisk))
  }

  /** An edit changes only the placement, the disk type and the instance type, and each
      only when its flag is down. */
  lemma UpdateFrame(b: CemBlueprint, request: SetBlueprintRequest, subnetId: string, address: string)
    ensures var u := Update(b, request, subnetId, address);
      && u.(publicSubnet := b.publicSubnet, subnetId := b.subnetId, ipAddress := b.ipAddress,
            diskType := b.diskType, instanceType := b.instanceType) == b
      && (request.subnetIntact ==>
            u.publicSubnet == b.publicSubnet && u.subnetId == b.subnetId && u.ipAddress == b.ipAddress)
      && (!request.subnetIntact ==>
            u.publicSubnet == request.publicSubnet && u.subnetId == subnetId && u.ipAddress == address)
      && u.diskType == (if request.diskIntact then b.diskType else DiskChoice(request.diskType, b.diskType))
      && (request.instanceIntact ==> u.instanceType == b.instanceType)
  {
  }

  /** An economy edit never gives a type larger than `t2.large`. */
  lemma EconomyEditCeiling(b: CemBlueprint, request: SetBlueprintRequest, subnetId: string, address: string)
    requires !request.instanceIntact && request.instanceType == Economy
    ensures exists t :: Ordinal(t) <= Ordinal(T2Large) && Update(b, request, subnetId, address).instanceType == GetName(t)
  {
    EconomyCeiling(b.cpus, JavaDiv(b.memory, GB));
  }

  /** The `customized` tier stores the word "customized" as the instance type, which is
      the name of no instance type. */
  lemma CustomizedStoresTierName(b: CemBlueprint, request: SetBlueprintRequest, subnetId: string, address: string)
    requires !request.instanceIntact && request.instanceType == Customized
    ensures Update(b, request, subnetId, address).instanceType == "customized"
    ensures forall t :: GetName(t) != Update(b, request, subnetId, address).instanceType
  {
    forall t ensures GetName(t) != "customized" {
      assert EnumName(t)[0] == 't' || EnumName(t)[0] == 'm';
      assert GetName(t)[0] != "customized"[0];
    }
  }

  /** `setBlueprint`'s loop: each listed row is loaded, edited and saved in turn; a
      missing row or a missing address stops it with the earlier saves kept. */
  function SetAll(table: map<BlueprintKey, CemBlueprint>, projectId: string, ids: seq<string>,
                  request: SetBlueprintRequest, subnetId: string, addresses: seq<string>): Saved
    decreases |ids|
  {
    if |ids| == 0 then Saved(table, None)
    else
      var n := |ids| - 1;
      var prev := SetAll(table, projectId, ids[..n], request, subnetId, addresses);
      var key := BlueprintKey(projectId, ids[n]);
      if prev.failure.Some? then prev
      else if key !in prev.table then Saved(prev.table, Some(MissingBlueprint(ids[n])))
      else if !request.subnetIntact && n >= |addresses| then Saved(prev.table, Some(AddressIndexOutOfBounds(n)))
      else
        var address := if request.subnetIntact then "" else addresses[n];
        Saved(prev.table[key := Update(prev.table[key], request, subnetId, address)], None)
  }

  /** One more machine of the loop, after the earlier ones all succeeded. */
  lemma SetAllNext(table: map<BlueprintKey, CemBlueprint>, projectId: string, ids: seq<string>,
                   request: SetBlueprintRequest, subnetId: string, addresses: seq<string>, i: nat,
                   current: map<BlueprintKey, CemBlueprint>)
    requires i < |ids|
    requires SetAll(table, projectId, ids[..i], request, subnetId, addresses) == Saved(current, None)
    ensures var key := BlueprintKey(projectId, ids[i]);
      SetAll(table, projectId, ids[..i + 1], request, subnetId, addresses)
      == if key !in current then Saved(current, Some(MissingBlueprint(ids[i])))
         else if !request.subnetIntact && i >= |addresses| then Saved(current, Some(AddressIndexOutOfBounds(i)))
         else Saved(current[key := Update(current[key], request, subnetId,
                                          if request.subnetIntact then "" else addresses[i])], None)
  {
    assert ids[..i + 1][..i] == ids[..i];
  }

  /** Editing never moves a row to another key. */
  lemma UpdateKeepsKey(b: CemBlueprint, request: SetBlueprintRequest, subnetId: string, address: string)
    ensures Key(Update(b, request, subnetId, address)) == Key(b)
  {
  }

  /** Editing keeps every row under its own key. */
  lemma {:induction false} SetAllKeyed(table: map<BlueprintKey, CemBlueprint>, projectId: string, ids: seq<string>,
                                       request: SetBlueprintRequest, subnetId: string, addresses: seq<string>)
    requires Keyed(table)
    ensures Keyed(SetAll(table, projectId, ids, request, subnetId, addresses).table)
    decreases |ids|
  {
    if |ids| > 0 {
      SetAllKeyed(table, projectId, ids[..|ids| - 1], request, subnetId, addresses);
    }
  }

  /** When the listed machines are distinct, all have rows and (for a placement edit) all
      have addresses, every listed row ends up as the edit of its old value with its own
      address. */
  lemma {:induction false} SetAllSuccess(table: map<BlueprintKey, CemBlueprint>, projectId: string, ids: seq<string>,
                                         request: SetBlueprintRequest, subnetId: string, addresses: seq<string>)
    requires forall i :: 0 <= i < |ids| ==> BlueprintKey(projectId, ids[i]) in table
    requires forall i, j :: 0 <= i < j < |ids| ==> ids[i] != ids[j]
    requires request.subnetIntact || |ids| <= |addresses|
    ensures var r := SetAll(table, projectId, ids, request, subnetId, addresses);
      && r.failure.None?
      && forall i :: 0 <= i < |ids| ==>
           BlueprintKey(projectId, ids[i]) in r.table &&
           r.table[BlueprintKey(projectId, ids[i])]
             == Update(table[BlueprintKey(projectId, ids[i])], request, subnetId,
                       if request.subnetIntact then "" else addresses[i])
    decreases |ids|
  {
    if |ids| > 0 {
      var n := |ids| - 1;
      var pre := ids[..n];
      SetAllSuccess(table, projectId, pre, request, subnetId, addresses);
      var prev := SetAll(table, projectId, pre, request, subnetId, addresses);
      assert prev.table.Keys == table.Keys by {
        SetAllKeys(table, projectId, pre, request, subnetId, addresses);
      }
      var key := BlueprintKey(projectId, ids[n]);
      assert prev.table[key] == table[key] by {
        SetAllUntouched(table, projectId, pre, request, subnetId, addresses, key);
        forall i | 0 <= i < n ensures key != BlueprintKey(projectId, pre[i]) {
          assert pre[i] == ids[i];
        }
      }
      var address := if request.subnetIntact then "" else addresses[n];
      var t := prev.table[key := Update(table[key], request, subnetId, address)];
      assert SetAll(table, projectId, ids, request, subnetId, addresses) == Saved(t, None) by {
        assert ids[..n + 1] == ids;
        SetAllNext(table, projectId, ids, request, subnetId, addresses, n, prev.table);
      }
      forall i | 0 <= i < |ids|
        ensures BlueprintKey(projectId, ids[i]) in t
        ensures t[BlueprintKey(projectId, ids[i])]
             == Update(table[BlueprintKey(projectId, ids[i])], request, subnetId,
                       if request.subnetIntact then "" else addresses[i])
      {
        if i < n {
          assert pre[i] == ids[i];
          assert BlueprintKey(projectId, ids[i]) != key;
        }
      }
    }
  }

  /** Editing never adds or removes a row. */
  lemma {:induction false} SetAllKeys(table: map<BlueprintKey, CemBlueprint>, projectId: string, ids: seq<string>,
                                      request: SetBlueprintRequest, subnetId: string, addresses: seq<string>)
    ensures SetAll(table, projectId, ids, request, subnetId, addresses).table.Keys == table.Keys
    decreases |ids|
  {
    if |ids| > 0 {
      SetAllKeys(table, projectId, ids[..|ids| - 1], request, subnetId, addresses);
    }
  }

  /** A key nobody listed keeps its row. */
  lemma {:induction false} SetAllUntouched(table: map<BlueprintKey, CemBlueprint>, projectId: string, ids: seq<string>,
                                           request: SetBlueprintRequest, subnetId: string, addresses: seq<string>,
                                           key: BlueprintKey)
    requires key in table
    requires forall i :: 0 <= i < |ids| ==> key != BlueprintKey(projectId, ids[i])
    ensures key in SetAll(table, projectId, ids, request, subnetId, addresses).table
    ensures SetAll(table, projectId, ids, request, subnetId, addresses).table[key] == table[key]
    decreases |ids|
  {
    if |ids| > 0 {
      var n := |ids| - 1;
      SetAllKeys(table, projectId, ids[..n], request, subnetId, addresses);
      forall i | 0 <= i < n ensures key != BlueprintKey(projectId, ids[..n][i]) {
        assert ids[..n][i] == ids[i];
      }
      SetAllUntouched(table, projectId, ids[..n], request, subnetId, addresses, key);
    }
  }

  /** Once the loop has failed, later machines change nothing. */
  lemma {:induction false} SetAllPrefixFailure(table: map<BlueprintKey, CemBlueprint>, projectId: string, ids: seq<string>,
                                               request: SetBlueprintRequest, subnetId: string, addresses: seq<string>, k: nat)
    requires k <= |ids|
    requires SetAll(table, projectId, ids[..k], request, subnetId, addresses).failure.Some?
    ensures SetAll(table, projectId, ids, request, subnetId, addresses)
         == SetAll(table, projectId, ids[..k], request, subnetId, addresses)
    decreases |ids| - k
  {
    if k < |ids| {
      assert ids[..k + 1][..k] == ids[..k];
      SetAllPrefixFailure(table, projectId, ids, request, subnetId, addresses, k + 1);
    } else {
      assert ids[..k] == ids;
    }
  }

  /** `selectSecurityGroup`'s loop: each listed row gets the chosen groups and is saved;
      a missing row stops it with the earlier saves kept. */
  function SelectAll(table: map<BlueprintKey, CemBlueprint>, projectId: string, ids: seq<string>,
                     groups: seq<SecurityGroup>): Saved
    decreases |ids|
  {
    if |ids| == 0 then Saved(table, None)
    else
      var n := |ids| - 1;
      var prev := SelectAll(table, projectId, ids[..n], groups);
      var key := BlueprintKey(projectId, ids[n]);
      if prev.failure.Some? then prev
      else if key !in prev.table then Saved(prev.table, Some(MissingBlueprint(ids[n])))
      else Saved(prev.table[key := SetSecurityGroups(prev.table[key], Some(groups))], None)
  }

  /** Selecting groups never adds or removes a row and changes nothing but groups. */
  lemma {:induction false} SelectAllFrame(table: map<BlueprintKey, CemBlueprint>, projectId: string, ids: seq<string>,
                                          groups: seq<SecurityGroup>)
    ensures var r := SelectAll(table, projectId, ids, groups);
      && r.table.Keys == table.Keys
      && (forall k :: k in table ==> r.table[k].(securityGroups := table[k].securityGroups) == table[k])
    decreases |ids|
  {
    if |ids| > 0 {
      var n := |ids| - 1;
      var prev := SelectAll(table, projectId, ids[..n], groups);
      var key := BlueprintKey(projectId, ids[n]);
      SelectAllFrame(table, projectId, ids[..n], groups);
      if prev.failure.None? && key in prev.table {
        var t := prev.table[key := SetSecurityGroups(prev.table[key], Some(groups))];
        assert SelectAll(table, projectId, ids, groups).table == t;
        forall k | k in table ensures t[k].(securityGroups := table[k].securityGroups) == table[k] {
          if k == key {
            assert t[k].(securityGroups := prev.table[k].securityGroups) == prev.table[k];
          }
        }
      }
    }
  }

  /** When selecting succeeds every listed row has exactly the chosen groups, and it
      fails exactly when some listed machine has no row. */
  lemma {:induction false} SelectAllOutcome(table: map<BlueprintKey, CemBlueprint>, projectId: string, ids: seq<string>,
                                            groups: seq<SecurityGroup>)
    ensures var r := SelectAll(table, projectId, ids, groups);
      && (r.failure.None? ==> forall i :: 0 <= i < |ids| ==>
            BlueprintKey(projectId, ids[i]) in table && BlueprintKey(projectId, ids[i]) in r.table
            && r.table[BlueprintKey(projectId, ids[i])].securityGroups == groups)
      && (r.failure.Some? <==> exists i :: 0 <= i < |ids| && BlueprintKey(projectId, ids[i]) !in table)
    decreases |ids|
  {
    if |ids| > 0 {
      var n := |ids| - 1;
      var pre := ids[..n];
      var prev := SelectAll(table, projectId, pre, groups);
      var r := SelectAll(table, projectId, ids, groups);
      var key := BlueprintKey(projectId, ids[n]);
      assert prev.table.Keys == table.Keys by {
        SelectAllFrame(table, projectId, pre, groups);
      }
      SelectAllOutcome(table, projectId, pre, groups);
      if prev.failure.Some? {
        var i :| 0 <= i < n && BlueprintKey(projectId, pre[i]) !in table;
        assert ids[i] == pre[i];
      } else if key !in prev.table {
        assert r.failure.Some? && key !in table;
      } else {
        var t := prev.table[key := SetSecurityGroups(prev.table[key], Some(groups))];
        assert r.table == t;
        forall i | 0 <= i < |ids|
          ensures BlueprintKey(projectId, ids[i]) in table && BlueprintKey(projectId, ids[i]) in r.table
                  && r.table[BlueprintKey(projectId, ids[i])].securityGroups == groups
        {
          var k := BlueprintKey(projectId, ids[i]);
          if k == key {
            assert t[k] == SetSecurityGroups(prev.table[key], Some(groups));
          } else {
            assert ids[i] == pre[i];
            assert t[k] == prev.table[k];
          }
        }
      }
    }
  }

  /** Once the loop has failed, later machines change nothing. */
  lemma {:induction false} SelectAllPrefixFailure(table: map<BlueprintKey, CemBlueprint>, projectId: string, ids: seq<string>,
                                                  groups: seq<SecurityGroup>, k: nat)
    requires k <= |ids|
    requires SelectAll(table, projectId, ids[..k], groups).failure.Some?
    ensures SelectAll(table, projectId, ids, groups) == SelectAll(table, projectId, ids[..k], groups)
    decreases |ids| - k
  {
    if k < |ids| {
      assert ids[..k + 1][..k] == ids[..k];
      SelectAllPrefixFailure(table, projectId, ids, groups, k + 1);
    } else {
      assert ids[..k] == ids;
    }
  }

  // ---------------------------------------------------------------------------
  // configureBlueprint

  /** The launch configuration sent for one blueprint, with the type already mapped. */
  function BlueprintPayload(b: CemBlueprint, itemId: string, instanceType: string, tag: Tag): LaunchPayload
  {
    LaunchPayload(itemId, b.machineId, b.subnetId, seq(|b.securityGroups|, i requires 0 <= i < |b.securityGroups| => b.securityGroups[i].id),
                  b.ipAddress, instanceType, [tag], b.disks, "", Some(b.diskIops), b.diskType)
  }

  /** The configurations sent for a run of blueprints, in request order. */
  function Payloads(bs: seq<CemBlueprint>, itemId: string, offered: set<string>, tag: Tag): (r: seq<LaunchPayload>)
    ensures |r| == |bs|
    decreases |bs|
  {
    if |bs| == 0 then []
    else
      var n := |bs| - 1;
      Payloads(bs[..n], itemId, offered, tag) + [BlueprintPayload(bs[n], itemId, Choose(offered, bs[n].instanceType, T2LargeName), tag)]
  }

  /** The `i`-th configuration is the `i`-th blueprint's: its machine, placement, groups,
      disks and IOPS, the shared blueprint tag alone, an empty IAM role, and its own type
      when the region offers it, `t2.large` otherwise. */
  lemma {:induction false} PayloadsSpec(bs: seq<CemBlueprint>, itemId: string, offered: set<string>, tag: Tag)
    ensures var r := Payloads(bs, itemId, offered, tag);
      forall i :: 0 <= i < |bs| ==>
        && r[i].projectId == itemId && r[i].machineId == bs[i].machineId
        && r[i].subnetId == bs[i].subnetId && r[i].privateIp == bs[i].ipAddress
        && |r[i].securityGroupIds| == |bs[i].securityGroups|
        && (forall j :: 0 <= j < |bs[i].securityGroups| ==> r[i].securityGroupIds[j] == bs[i].securityGroups[j].id)
        && r[i].tags == [tag] && r[i].iamRole == ""
        && r[i].disks == bs[i].disks && r[i].diskIops == Some(bs[i].diskIops) && r[i].diskType == bs[i].diskType
        && (bs[i].instanceType in offered ==> r[i].instanceType == bs[i].instanceType)
        && (bs[i].instanceType !in offered ==> r[i].instanceType == T2LargeName)
    decreases |bs|
  {
    if |bs| > 0 {
      var n := |bs| - 1;
      PayloadsSpec(bs[..n], itemId, offered, tag);
      forall i | 0 <= i < n ensures bs[..n][i] == bs[i] {
      }
    }
  }

  /** How many configurations are sent when the replies come back with the given
      readability: up to and including the first unreadable one. */
  function SentCount(readable: seq<bool>): (r: nat)
    ensures 0 < r <= |readable| || (r == 0 && |readable| == 0)
    decreases |readable|
  {
    if |readable| == 0 then 0
    else if !readable[0] then 1
    else 1 + SentCount(readable[1..])
  }

  /** With an unreadable reply, the configurations up to and including the first one
      are sent. */
  lemma {:induction false} SentCountFirstUnreadable(readable: seq<bool>, i: nat)
    requires i < |readable| && !readable[i]
    requires forall j :: 0 <= j < i ==> readable[j]
    ensures SentCount(readable) == i + 1
    decreases i
  {
    if i > 0 {
      assert readable[0];
      var rest := readable[1..];
      assert rest[i - 1] == readable[i];
      forall j | 0 <= j < i - 1 ensures rest[j] {
        assert rest[j] == readable[j + 1];
      }
      SentCountFirstUnreadable(rest, i - 1);
    }
  }

  /** With every reply readable, every configuration is sent. */
  lemma {:induction false} SentCountAllReadable(readable: seq<bool>)
    requires forall j :: 0 <= j < |readable| ==> readable[j]
    ensures SentCount(readable) == |readable|
    decreases |readable|
  {
    if |readable| > 0 {
      var rest := readable[1..];
      forall j | 0 <= j < |rest| ensures rest[j] {
        assert rest[j] == readable[j + 1];
      }
      SentCountAllReadable(rest);
    }
  }

  /** One more blueprint appends its configuration at the end. */
  lemma PayloadsSnoc(bs: seq<CemBlueprint>, i: nat, itemId: string, offered: set<string>, tag: Tag)
    requires i < |bs|
    ensures Payloads(bs[..i + 1], itemId, offered, tag)
         == Payloads(bs[..i], itemId, offered, tag) + [BlueprintPayload(bs[i], itemId, Choose(offered, bs[i].instanceType, T2LargeName), tag)]
  {
    assert bs[..i + 1][..i] == bs[..i];
  }

  /** The service: the blueprint table and the configurations sent to CloudEndure. */
  class CemService {
    var table: map<BlueprintKey, CemBlueprint>
    var invocations: seq<LaunchPayload>

    ghost predicate Valid()
      reads this
    {
      Keyed(table)
    }

    constructor()
      ensures Valid()
      ensures table == map[] && invocations == []
    {
      table := map[];
      invocations := [];
    }

    /** `loadBlueprints`, given what the network service found: the private subnet (or
        the failure to find one), the groups by machine name and the free addresses. */
    method LoadBlueprints(projectId: string, machines: seq<Machine>, subnet: Result<CemNetwork.Subnet>,
                          groups: map<string, seq<SecurityGroup>>, addresses: seq<string>)
      returns (failure: Option<Error>)
      requires Valid()
      modifies this
      ensures Valid()
      ensures invocations == old(invocations)
      ensures subnet.Err? ==> failure == Some(subnet.error) && table == old(table)
      ensures subnet.Ok? ==>
        var loaded := Loaded(old(table), projectId, machines, subnet.value.subnetId, groups, addresses);
        && (loaded.Err? ==> failure == Some(loaded.error) && table == old(table))
        && (loaded.Ok? ==> failure.None? && table == SaveAll(old(table), loaded.value))
    {
      failure := None;
      if subnet.Err? {
        return Some(subnet.error);
      }
      var subnetId := subnet.value.subnetId;
      var blueprintMap := GetBlueprints(table, projectId);
      ghost var all := LoadAll(table, projectId, machines, subnetId, groups, addresses);
      var newBlueprints: seq<CemBlueprint> := [];
      for i := 0 to |machines|
        invariant AllOk(all[..i]) == Ok(newBlueprints)
        invariant table == old(table) && invocations == old(invocations)
      {
        AllOkStep(all, i);
        assert all[i] == LoadOne(table, projectId, machines, i, subnetId, groups, addresses);
        var blueprint: CemBlueprint;
        if machines[i].id in blueprintMap {
          blueprint := SetSecurityGroups(blueprintMap[machines[i].id], Lookup(groups, blueprintMap[machines[i].id].name));
        } else {
          if i >= |addresses| {
            AllOkPrefixErr(all, i + 1);
            return Some(AddressIndexOutOfBounds(i));
          }
          var p := machines[i].properties;
          var cpus := if |p.cpuCores| == 0 then 1 else p.cpuCores[0];
          var instanceType := FindType(true, cpus, JavaDiv(p.memory, GB));
          blueprint := CemBlueprint(projectId, machines[i].id, cpus, p.memory, false, p.name, p.os, None,
                                    GetName(instanceType), subnetId, addresses[i],
                                    p.disks, DefaultIops, Some(Standard), []);
          blueprint := SetSecurityGroups(blueprint, Lookup(groups, p.name));
        }
        newBlueprints := newBlueprints + [blueprint];
      }
      assert all[..|machines|] == all;
      SaveAllKeyed(table, newBlueprints);
      table := SaveAll(table, newBlueprints);
    }

    /** `setBlueprint`, given the subnet id and addresses the network service found for
        a placement edit (or its failure); they are not consulted when the placement
        stays intact. */
    method SetBlueprint(projectId: string, request: SetBlueprintRequest, network: Result<(string, seq<string>)>)
      returns (failure: Option<Error>)
      requires Valid()
      modifies this
      ensures Valid()
      ensures invocations == old(invocations)
      ensures !request.subnetIntact && network.Err? ==> failure == Some(network.error) && table == old(table)
      ensures request.subnetIntact ==>
        var r := SetAll(old(table), projectId, request.machineIds, request, "", []);
        table == r.table && failure == r.failure
      ensures !request.subnetIntact && network.Ok? ==>
        var r := SetAll(old(table), projectId, request.machineIds, request, network.value.0, network.value.1);
        table == r.table && failure == r.failure
    {
      if request.subnetIntact {
        failure := SaveEdits(projectId, request, "", []);
      } else if network.Err? {
        failure := Some(network.error);
      } else {
        failure := SaveEdits(projectId, request, network.value.0, network.value.1);
      }
    }

    /** `setBlueprint`'s loop: load, edit and save each listed row in turn. */
    method SaveEdits(projectId: string, request: SetBlueprintRequest, subnetId: string, addresses: seq<string>)
      returns (failure: Option<Error>)
      requires Valid()
      modifies this
      ensures Valid()
      ensures invocations == old(invocations)
      ensures var r := SetAll(old(table), projectId, request.machineIds, request, subnetId, addresses);
        table == r.table && failure == r.failure
    {
      failure := None;
      ghost var start := table;
      var ids := request.machineIds;
      for i := 0 to |ids|
        invariant SetAll(start, projectId, ids[..i], request, subnetId, addresses) == Saved(table, None)
        invariant Keyed(table) && invocations == old(invocations)
      {
        SetAllNext(start, projectId, ids, request, subnetId, addresses, i, table);
        var key := BlueprintKey(projectId, ids[i]);
        if key !in table {
          SetAllPrefixFailure(start, projectId, ids, request, subnetId, addresses, i + 1);
          return Some(MissingBlueprint(ids[i]));
        }
        var blueprint := table[key];
        var address := "";
        if !request.subnetIntact {
          if i >= |addresses| {
            SetAllPrefixFailure(start, projectId, ids, request, subnetId, addresses, i + 1);
            return Some(AddressIndexOutOfBounds(i));
          }
          address := addresses[i];
        }
        UpdateKeepsKey(blueprint, request, subnetId, address);
        blueprint := Update(blueprint, request, subnetId, address);
        table := table[key := blueprint];
      }
      assert ids[..|ids|] == ids;
    }

    /** `selectSecurityGroup`: the chosen groups go to every listed machine's row. */
    method SelectSecurityGroup(projectId: string, ids: seq<string>, groups: seq<SecurityGroup>)
      returns (failure: Option<Error>)
      requires Valid()
      modifies this
      ensures Valid()
      ensures invocations == old(invocations)
      ensures var r := SelectAll(old(table), projectId, ids, groups);
        table == r.table && failure == r.failure
    {
      failure := None;
      ghost var start := table;
      for i := 0 to |ids|
        invariant SelectAll(start, projectId, ids[..i], groups) == Saved(table, None)
        invariant Keyed(table) && invocations == old(invocations)
      {
        assert ids[..i + 1][..i] == ids[..i];
        var key := BlueprintKey(projectId, ids[i]);
        if key !in table {
          SelectAllPrefixFailure(start, projectId, ids, groups, i + 1);
          return Some(MissingBlueprint(ids[i]));
        }
        table := table[key := SetSecurityGroups(table[key], Some(groups))];
      }
      assert ids[..|ids|] == ids;
    }

    /** `configureBlueprint`: one configuration per requested blueprint, in order, all
        with the same blueprint tag; the first reply that cannot be read stops the run
        after its configuration was sent. */
    method ConfigureBlueprint(types: InstanceTypeService, blueprints: seq<CemBlueprint>, itemId: string,
                              listing: seq<Page<string>>, region: string, tagBlueprint: string, timestamp: string,
                              readable: seq<bool>)
      returns (failure: Option<Error>)
      requires WellFormed(listing)
      requires |readable| == |blueprints|
      modifies this, types
      ensures table == old(table)
      ensures |blueprints| == 0 ==> invocations == old(invocations) && types.typeMap == old(types.typeMap)
      ensures types.describeCalls == old(types.describeCalls)
        + (if |blueprints| == 0 || region in old(types.typeMap) then 0 else |listing|)
      ensures |blueprints| > 0 ==>
        && types.typeMap == Mapped(old(types.typeMap), region, listing)
        && invocations == old(invocations)
             + Payloads(blueprints[..SentCount(readable)], itemId, types.typeMap[region], Tag(tagBlueprint, timestamp))
      ensures failure.None? <==> forall i :: 0 <= i < |readable| ==> readable[i]
      ensures failure.Some? ==> failure == Some(UnparsableReply(ConfigureFunction))
    {
      failure := None;
      var tag := Tag(tagBlueprint, timestamp);
      ghost var mapped := Mapped(types.typeMap, region, listing);
      ghost var before := invocations;
      for i := 0 to |blueprints|
        invariant i == 0 ==> invocations == before && types.typeMap == old(types.typeMap)
        invariant i > 0 ==> types.typeMap == mapped
        invariant types.describeCalls == old(types.describeCalls)
          + (if i == 0 || region in old(types.typeMap) then 0 else |listing|)
        invariant i > 0 ==> invocations == before + Payloads(blueprints[..i], itemId, mapped[region], tag)
        invariant forall j :: 0 <= j < i ==> readable[j]
        invariant table == old(table)
      {
        SendBlueprint(types, blueprints[i], itemId, listing, region, tag);
        assert types.typeMap == mapped
               && invocations == before + Payloads(blueprints[..i + 1], itemId, mapped[region], tag) by {
          PayloadsSnoc(blueprints, i, itemId, mapped[region], tag);
        }
        if !readable[i] {
          SentCountFirstUnreadable(readable, i);
          return Some(UnparsableReply(ConfigureFunction));
        }
      }
      SentCountAllReadable(readable);
      assert blueprints[..|blueprints|] == blueprints;
    }

    /** One step of `configureBlueprint`: map the blueprint's type for the region, then
        send its configuration. */
    method SendBlueprint(types: InstanceTypeService, b: CemBlueprint, itemId: string,
                         listing: seq<Page<string>>, region: string, tag: Tag)
      requires WellFormed(listing)
      modifies this, types
      ensures table == old(table)
      ensures types.typeMap == Mapped(old(types.typeMap), region, listing)
      ensures types.describeCalls == old(types.describeCalls) + (if region in old(types.typeMap) then 0 else |listing|)
      ensures invocations == old(invocations)
        + [BlueprintPayload(b, itemId, Choose(types.typeMap[region], b.instanceType, T2LargeName), tag)]
    {
      var instanceType := types.MapType(listing, region, b.instanceType, T2LargeName);
      invocations := invocations + [BlueprintPayload(b, itemId, instanceType, tag)];
    }
  }

  /** The type table after the first mapping for a region: unchanged when the region was
      already listed, otherwise with the region's listed types added. */
  function Mapped(typeMap: map<string, set<string>>, region: string, listing: seq<Page<string>>): (r: map<string, set<string>>)
    ensures region in r
  {
    if region in typeMap then typeMap else typeMap[region := set t | t in Flatten(listing)]
  }

  /** Mapping a region a second time leaves the table as the first mapping left it. */
  lemma MappedIdempotent(typeMap: map<string, set<string>>, region: string, listing: seq<Page<string>>)
    ensures Mapped(Mapped(typeMap, region, listing), region, listing) == Mapped(typeMap, region, listing)
  {
  }
}
