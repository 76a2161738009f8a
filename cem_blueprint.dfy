/** The CloudEndure Manager blueprint record: one row of the blueprint table per
    (project, machine), and the converter that stores its disk type as a string. */
module CemBlueprints {
  import opened Common

  /** The disk types, in declaration order. */
  datatype DiskType = Standard | Ssd | Gp3 | ProvisionedSsd | ProvisionedIo2

  /** `DiskTypeConverter.convert`: the constant's name. */
  function Convert(t: DiskType): string
  {
    match t
    case Standard => "STANDARD"
    case Ssd => "SSD"
    case Gp3 => "GP3"
    case ProvisionedSsd => "PROVISIONED_SSD"
    case ProvisionedIo2 => "PROVISIONED_IO2"
  }

  /** `DiskTypeConverter.unconvert`: `DiskType.valueOf`, which rejects any string that
      is not exactly the name of a constant. */
  function Unconvert(value: string): Result<DiskType>
  {
    if value == "STANDARD" then Ok(Standard)
    else if value == "SSD" then Ok(Ssd)
    else if value == "GP3" then Ok(Gp3)
    else if value == "PROVISIONED_SSD" then Ok(ProvisionedSsd)
    else if value == "PROVISIONED_IO2" then Ok(ProvisionedIo2)
    else Err(UnknownEnumName(value))
  }

  /** Reading back what was written gives the original disk type. */
  lemma ConvertRoundTrip(t: DiskType)
    ensures Unconvert(Convert(t)) == Ok(t)
  {
  }

  /** A string that reads back successfully is the name that would be written. */
  lemma UnconvertRoundTrip(value: string, t: DiskType)
    requires Unconvert(value) == Ok(t)
    ensures Convert(t) == value
  {
  }

  /** `convert` is injective. */
  lemma ConvertInjective(a: DiskType, b: DiskType)
    requires Convert(a) == Convert(b)
    ensures a == b
  {
    ConvertRoundTrip(a);
    ConvertRoundTrip(b);
  }

  /** `unconvert` fails exactly on strings that are no constant's name. */
  lemma UnconvertFails(value: string)
    ensures Unconvert(value).Err? <==> forall t: DiskType :: Convert(t) != value
    ensures Unconvert(value).Err? ==> Unconvert(value).error == UnknownEnumName(value)
  {
    if Unconvert(value).Ok? {
      UnconvertRoundTrip(value, Unconvert(value).value);
    }
  }

  /** `AwsSecurityGroup`: a group id and its name. */
  datatype SecurityGroup = SecurityGroup(id: string, name: string)

  /** The table key: hash key `id` (the project id) and range key `machineId`. */
  datatype BlueprintKey = BlueprintKey(projectId: string, machineId: string)

  /** One blueprint row. The version and the two timestamps are managed by the
      table mapper and are not part of the model. */
  datatype CemBlueprint = CemBlueprint(
    id: string,
    machineId: string,
    cpus: int,
    memory: int,
    publicSubnet: bool,
    name: string,
    osName: string,
    iamRole: Option<string>,
    instanceType: string,
    subnetId: string,
    ipAddress: string,
    disks: seq<string>,
    diskIops: int,
    diskType: Option<DiskType>,
    securityGroups: seq<SecurityGroup>)

  /** The row a blueprint is stored in. */
  function Key(b: CemBlueprint): BlueprintKey
  {
    BlueprintKey(b.id, b.machineId)
  }

  /** `setSecurityGroups`: a null list is stored as the empty list, any other list as
      given; nothing else changes. */
  function SetSecurityGroups(b: CemBlueprint, groups: Option<seq<SecurityGroup>>): (r: CemBlueprint)
    ensures groups.None? ==> r.securityGroups == []
    ensures groups.Some? ==> r.securityGroups == groups.value
    ensures r.(securityGroups := b.securityGroups) == b
  {
    b.(securityGroups := if groups.Some? then groups.value else [])
  }

  /** Setting the groups never changes which row a blueprint is. */
  lemma SetSecurityGroupsKeepsKey(b: CemBlueprint, groups: Option<seq<SecurityGroup>>)
    ensures Key(SetSecurityGroups(b, groups)) == Key(b)
  {
  }

  /** Setting the same groups twice is the same as setting them once. */
  lemma SetSecurityGroupsIdempotent(b: CemBlueprint, groups: Option<seq<SecurityGroup>>)
    ensures SetSecurityGroups(SetSecurityGroups(b, groups), groups) == SetSecurityGroups(b, groups)
  {
  }
}
