# CloudEndure migration services: a Dafny model

This project models the decision logic of the portal services that drive
CloudEndure (server replication into AWS) and CloudEndure Manager (a blueprint
table in front of it). Every call the services make to EC2, IAM, DynamoDB,
Lambda or Step Functions is replaced by the data that call returns: page
listings, table rows, function replies. Where a service produces effects in a
given order, the model records them in a call trace. What remains is verified:

- `InstanceTypes`: the first-fit instance-type ladder with its economy ceiling
  at `t2.large`.
- `InstanceTypeCache`: the per-region cache of offered instance types, kept by
  `InstanceTypeService`.
- `CemBlueprints`: the blueprint row, keyed by (project id, machine id), and its
  disk-type converter.
- `CemNetwork`: the target-network choices of CloudEndure Manager. These are
  the public/private subnet search, the free-address picker and the
  security-group grouping by machine-name tag.
- `CloudEndureNetwork`: the VPC replication table lookups, the VPC candidates,
  and the peering and staging-subnet replies.
- `CloudEndureBlueprints`: the last-match id translations and the launch
  configuration `configure` sends.
- `CloudEndureInstances`: instance qualification (instance profile, Systems
  Manager policy, VPC) and the paged listing of qualified instances.
- `CemServices`: the blueprint table as a class, with `loadBlueprints`,
  `setBlueprint`, `selectSecurityGroup` and `configureBlueprint`.
- `CloudEndureProjects`: the cutback gate, the machine listing and the agent
  installation.
- `CloudEndureStateMachines`: the ordering of secret, peering and workflow
  calls in `create`, `delete`, `cutback` and `runWizard`.
- `Common`: results and errors, paged listings, and the Java string operations
  the services use.

The source's `for`, `while` and do-while loops are `method`s with loop
invariants. Each is proved equal to a recursive specification function, and
the properties are lemmas about that function. These are:

- `InstanceType.find` (`InstanceTypes.FindType`);
- `InstanceTypeService.mapType` (`MapType`);
- the loops of `CemNetworkService`: `findSubnet` (`ScanSubnets`, `FindSubnet`),
  the address search (`FindUnusedAddress`), `findIpAddress` and
  `findSecurityGroups` (`AddPagePairs`, `FindSecurityGroups`);
- `findTargetVpcId` and `findAllAwsVpcs` (`FindTargetVpcId`, `FindAllAwsVpcs`);
- `findTargetId`, `findSourceId` and the group translation of `configure`;
- `findAllQualifiedInstances` (`CollectReservation`, `CollectPage`,
  `FindAllQualifiedInstances`);
- `checkCutbackPrecondition` (`CheckCutback`) and `getMachines`
  (`GetMachines`);
- `loadBlueprints`, `setBlueprint`, `selectSecurityGroup` and
  `configureBlueprint` (methods of `CemServices.CemService`).

Operations without a loop stay functions. These are `isQualified`,
`installAgent` and the stream pipelines (`toMap`, `groupingBy`, `flatMap`,
`noneMatch`). `CloudEndureProjects.FirstCause` is the specification of
`CheckCutback`'s loop and is not itself a loop. State the source
keeps in fields is held in classes:

- the region cache (`InstanceTypeService.typeMap`);
- the blueprint table and the configurations sent (`CemService`);
- the trace of calls (`CloudEndureStateMachineService`).

`getMachines` rewrites its array in place. A thrown exception is an `Err` or a
`failure` value, and it carries the condition that caused it.

## Model

All source paths are below `main/java/aws/proserve/bcs/`; the table writes them in full.

| member | source | states |
|---|---|---|
| Common.Flatten | main/java/aws/proserve/bcs/ce/service/InstanceTypeService.java:32-36 | The items of a paged listing, page after page, as the do-while loops over `getNextToken()` gather them. `FlattenStep`, `FlattenMember` and `FlattenTail` state its properties. |
| Common.FlattenStep | main/java/aws/proserve/bcs/ce/service/InstanceTypeService.java:32-36 | Reading one more page of a paged listing appends that page's items after those of the earlier pages. |
| Common.FlattenMember | main/java/aws/proserve/bcs/cem/service/CemNetworkService.java:138-145 | An item is in the collected listing exactly when some page holds it. |
| Common.FlattenTail | main/java/aws/proserve/bcs/cem/service/CemNetworkService.java:74-106 | A listing's items are those of its first k pages followed by those of the remaining pages. This lets a paged search stop early. |
| Common.JavaDiv | main/java/aws/proserve/bcs/cem/service/CemService.java:147 | Java's integer `/`, as used on memory sizes at CemService.java lines 147 and 202. `JavaDivTruncates` states its properties. |
| Common.JavaDivTruncates | main/java/aws/proserve/bcs/cem/service/CemService.java:147 | The quotient rounds toward zero: the remainder has the dividend's sign and is smaller than the divisor, and negating the dividend negates the quotient (`-7 / 2` is `-3`, where Euclidean division gives `-4`). |
| Common.AllOk | main/java/aws/proserve/bcs/cem/service/CemService.java:133-159 | The outcome of a loop that collects one value per step and stops at the first exception. `AllOkStep`, `AllOkIff`, `AllOkValue`, `AllOkError` and `AllOkPrefixErr` state its properties. |
| Common.AllOkStep | main/java/aws/proserve/bcs/cem/service/CemService.java:133-159 | For a loop that collects values and stops at the first exception, one more step does one of three things: keeps an earlier failure, turns a new failure into the outcome, or appends the new value. |
| Common.AllOkIff | main/java/aws/proserve/bcs/cem/service/CemService.java:133-159 | The loop completes exactly when every step succeeds. |
| Common.AllOkValue | main/java/aws/proserve/bcs/cem/service/CemService.java:133-159 | A completed loop yields one value per step, in step order. |
| Common.AllOkError | main/java/aws/proserve/bcs/cem/service/CemService.java:133-159 | A failed loop fails with the error of the first failing step, and every earlier step succeeded. |
| Common.AllOkPrefixErr | main/java/aws/proserve/bcs/cem/service/CemService.java:133-159 | Once a prefix of the steps has failed, later steps do not change the outcome. |
| Common.ReplaceChar | main/java/aws/proserve/bcs/cem/service/InstanceType.java:45 | `String.replace(char, char)`: every occurrence of one character becomes the other. `ReplaceCharRemoves` and `InstanceTypes.GetName` state its properties. |
| Common.ReplaceCharRemoves | main/java/aws/proserve/bcs/cem/service/InstanceType.java:45 | `replace(from, to)` with a different replacement leaves no occurrence of `from`. |
| Common.ReplaceAll | main/java/aws/proserve/bcs/ce/service/CloudEndureBlueprintService.java:109 | `replaceAll` for a pattern without metacharacters. `ReplaceAllAbsent` and `ReplaceAllFront` state its properties. |
| Common.ReplaceAllAbsent | main/java/aws/proserve/bcs/ce/service/CloudEndureBlueprintService.java:109 | `replaceAll` leaves a string that does not contain the pattern unchanged. |
| Common.ReplaceAllFront | main/java/aws/proserve/bcs/ce/service/CloudEndureBlueprintService.java:109 | `replaceAll` rewrites an occurrence at the front and then resumes after it, so replacements go left to right without overlap. |
| Common.AfterLast | main/java/aws/proserve/bcs/ce/service/CloudEndureBlueprintService.java:112-113 | `substring(lastIndexOf(c) + 1)` has no `c` in it. When `c` occurs, the string is some prefix, then `c`, then the result; otherwise the result is the whole string. |
| Common.LastIndexOf | main/java/aws/proserve/bcs/ce/service/CloudEndureInstanceService.java:98 | `lastIndexOf(c)` is a position holding `c` with no `c` after it, or -1 when `c` does not occur. |
| Common.JavaSplit | main/java/aws/proserve/bcs/cem/service/CemNetworkService.java:56 | No piece of `split(",")` contains a comma. `JavaSplitJoin` states what the pieces are. |
| Common.SplitAll | main/java/aws/proserve/bcs/cem/service/CemNetworkService.java:56 | Cutting at every separator gives at least one piece, and no piece contains the separator. `SplitAllJoin` states that the pieces are exactly the text between the separators. |
| Common.Join | main/java/aws/proserve/bcs/cem/service/CemNetworkService.java:56 | The pieces with one separator between each two. `SplitAllJoin` and `JavaSplitJoin` state that it undoes the split. |
| Common.SplitAllJoin | main/java/aws/proserve/bcs/cem/service/CemNetworkService.java:56 | Joining the pieces of the cut with the separator gives back the string, so the pieces are exactly the text between the separators. |
| Common.JavaSplitJoin | main/java/aws/proserve/bcs/cem/service/CemNetworkService.java:56 | Without a separator `split` gives the string itself. Otherwise the kept pieces, followed by the empty pieces dropped at the end, join back to the string. |
| Common.DropTrailingEmpty | main/java/aws/proserve/bcs/cem/service/CemNetworkService.java:56 | Java's split drops only trailing empty pieces. The result is a prefix of the pieces, it does not end in an empty piece, and every dropped piece is empty. |
| InstanceTypes.Ordinal | main/java/aws/proserve/bcs/cem/service/InstanceType.java:6-20 | `ordinal()` is a position in the declaration order, and that position holds the constant. |
| InstanceTypes.GetName | main/java/aws/proserve/bcs/cem/service/InstanceType.java:44-46 | A type's name has the length of its identifier and contains no `_`. Every `_` of the identifier became `.`, and every other character is kept (`m5_2xlarge` gives `m5.2xlarge`). |
| InstanceTypes.FindFrom | main/java/aws/proserve/bcs/cem/service/InstanceType.java:23-33 | The loop of `find` from position i of `values()`. `FindFromFirstFit` and `EconomyFrom` state its properties. |
| InstanceTypes.Find | main/java/aws/proserve/bcs/cem/service/InstanceType.java:22-34 | `InstanceType.find(economy, cpus, memory)`. `FindFirstFit`, `FindNothingFits`, `EconomyCeiling`, `EconomyAgreement`, `EconomyOversizedRequest` and `NeverM5Large` state its properties. |
| InstanceTypes.FindType | main/java/aws/proserve/bcs/cem/service/InstanceType.java:22-34 | The `for` loop over `values()` with its two early returns and its fall-through returns exactly the answer of `Find`. |
| InstanceTypes.FindFromFirstFit | main/java/aws/proserve/bcs/cem/service/InstanceType.java:23-33 | The loop started at position i returns the first type at or after i with enough CPUs and memory. When no such type exists it returns the last declared type. |
| InstanceTypes.FindFirstFit | main/java/aws/proserve/bcs/cem/service/InstanceType.java:23-30 | Non-economy `find` returns a type that fits the request, and no type declared before it fits. |
| InstanceTypes.FindNothingFits | main/java/aws/proserve/bcs/cem/service/InstanceType.java:33 | Non-economy `find` returns `m5_24xlarge`, the last declared type, when no type fits. |
| InstanceTypes.EconomyFrom | main/java/aws/proserve/bcs/cem/service/InstanceType.java:23-30 | From any start up to `t2_large`, the economy loop gives the plain loop's answer when that answer is at or before `t2_large`, and gives `t2_large` otherwise. |
| InstanceTypes.EconomyCeiling | main/java/aws/proserve/bcs/cem/service/InstanceType.java:24-26 | Economy `find` never returns a type declared after `t2_large`. |
| InstanceTypes.EconomyAgreement | main/java/aws/proserve/bcs/cem/service/InstanceType.java:22-34 | Economy and non-economy `find` agree whenever the non-economy answer is at or before `t2_large`. Otherwise the economy answer is `t2_large`. |
| InstanceTypes.EconomyOversizedRequest | main/java/aws/proserve/bcs/cem/service/InstanceType.java:24-26 | An economy request for 4 CPUs gets `t2_large`, which has only 2 and does not satisfy it. |
| InstanceTypes.NeverM5Large | main/java/aws/proserve/bcs/cem/service/InstanceType.java:10-30 | `find` never returns `m5_large`, because `t2_large` has the same capacity and is declared first. |
| InstanceTypeCache.Choose | main/java/aws/proserve/bcs/ce/service/InstanceTypeService.java:44 | The answer is always the requested type or the default. It is the requested type exactly when the region offers it. |
| InstanceTypeCache.InstanceTypeService.constructor | main/java/aws/proserve/bcs/ce/service/InstanceTypeService.java:21 | The cache starts empty and no listing request has been made. |
| InstanceTypeCache.InstanceTypeService.MapType | main/java/aws/proserve/bcs/ce/service/InstanceTypeService.java:23-45 | After the call the cache holds the region, and other regions' entries are unchanged. On a hit nothing is listed and the cache is unchanged. On a miss every page is read and the stored set is the union of all listed type names. The answer is the type if the set holds it, else the default. |
| InstanceTypeCache.MapTypeTwice | main/java/aws/proserve/bcs/ce/service/InstanceTypeService.java:26-44 | A second call for the same region gives the same answer and sends no listing request. |
| CemBlueprints.Convert | main/java/aws/proserve/bcs/cem/CemBlueprint.java:212-214 | `DiskTypeConverter.convert`: a disk type is stored as its constant name. `ConvertRoundTrip` and `ConvertInjective` state its properties. |
| CemBlueprints.Unconvert | main/java/aws/proserve/bcs/cem/CemBlueprint.java:217-219 | `DiskTypeConverter.unconvert`: `DiskType.valueOf`, which fails on any other string. `UnconvertRoundTrip` and `UnconvertFails` state its properties. |
| CemBlueprints.ConvertRoundTrip | main/java/aws/proserve/bcs/cem/CemBlueprint.java:212-219 | `unconvert(convert(t)) == t` for all five disk types. |
| CemBlueprints.UnconvertRoundTrip | main/java/aws/proserve/bcs/cem/CemBlueprint.java:212-219 | A string that `unconvert` accepts is exactly what `convert` writes for the result. |
| CemBlueprints.ConvertInjective | main/java/aws/proserve/bcs/cem/CemBlueprint.java:212-214 | Different disk types are stored as different strings. |
| CemBlueprints.UnconvertFails | main/java/aws/proserve/bcs/cem/CemBlueprint.java:217-219 | `valueOf` fails exactly on strings that are not the name of a constant, and the error names the string. |
| CemBlueprints.SetSecurityGroups | main/java/aws/proserve/bcs/cem/CemBlueprint.java:176-178 | A null list is stored as the empty list, and a non-null list is stored unchanged. No other field changes. |
| CemBlueprints.SetSecurityGroupsKeepsKey | main/java/aws/proserve/bcs/cem/CemBlueprint.java:54-58 | Setting groups never changes the row's key: hash key `id`, range key `machineId`. |
| CemBlueprints.SetSecurityGroupsIdempotent | main/java/aws/proserve/bcs/cem/CemBlueprint.java:176-178 | Setting the same groups twice is the same as setting them once. |
| CemNetwork.IsPublic | main/java/aws/proserve/bcs/cem/service/CemNetworkService.java:79-98 | A subnet counts as public when some route of some route table associated with it has a gateway id starting `igw-`. `CheckSubnet` states how it decides the search. |
| CemNetwork.FirstMatching | main/java/aws/proserve/bcs/cem/service/CemNetworkService.java:78-104 | The first subnet of the requested visibility in listing order, with none before it. There is no result exactly when no subnet has that visibility. |
| CemNetwork.FirstMatchingAppend | main/java/aws/proserve/bcs/cem/service/CemNetworkService.java:74-106 | The first match across two runs of pages comes from the first run if it has one, and from the second run otherwise. |
| CemNetwork.ScanSubnets | main/java/aws/proserve/bcs/cem/service/CemNetworkService.java:78-105 | The loop over one page returns that page's first subnet of the requested visibility. |
| CemNetwork.CheckSubnet | main/java/aws/proserve/bcs/cem/service/CemNetworkService.java:79-103 | A subnet is taken exactly when its visibility is the requested one. It is public when some route of some table has a gateway starting `igw-`. It is private when it has no table or no such route. |
| CemNetwork.FindSubnetSpec | main/java/aws/proserve/bcs/cem/service/CemNetworkService.java:66-108 | `findSubnet` with the loop condition corrected to `!= null`: the first subnet of the requested kind over all pages, or the exception. `FindSubnetSpecCorrect` states its properties. |
| CemNetwork.FindSubnet | main/java/aws/proserve/bcs/cem/service/CemNetworkService.java:66-108 | With the corrected loop condition, the search returns the first subnet of the requested visibility across all pages, or fails when there is none. |
| CemNetwork.FindSubnetAsWritten | main/java/aws/proserve/bcs/cem/service/CemNetworkService.java:74-107 | As written, only a subnet on the first page is ever returned. The call runs forever exactly when the listing is a single page without a match. |
| CemNetwork.SecondPageMissed | main/java/aws/proserve/bcs/cem/service/CemNetworkService.java:106 | A public subnet on the second page is not found as written, and the corrected search finds it. |
| CemNetwork.SinglePageWithoutMatchDiverges | main/java/aws/proserve/bcs/cem/service/CemNetworkService.java:106 | A single page with only a public subnet makes the written private search loop forever, while the corrected search throws. |
| CemNetwork.FindSubnetSpecCorrect | main/java/aws/proserve/bcs/cem/service/CemNetworkService.java:66-108 | The corrected search returns a listed subnet of the requested visibility, and fails exactly when no subnet on any page has it. |
| CemNetwork.Picks | main/java/aws/proserve/bcs/cem/service/CemNetworkService.java:113-119 | At most one address is accepted per draw. |
| CemNetwork.PicksSound | main/java/aws/proserve/bcs/cem/service/CemNetworkService.java:114-119 | Every accepted address was drawn and is not in use, and every drawn address that is free is accepted. In the corrected variant no address is accepted twice. |
| CemNetwork.PicksPrefix | main/java/aws/proserve/bcs/cem/service/CemNetworkService.java:113-124 | What the first n draws accept is a prefix of what all draws accept. |
| CemNetwork.PicksStep | main/java/aws/proserve/bcs/cem/service/CemNetworkService.java:114-119 | A draw whose address is in use is skipped (`continue`). Any other draw is appended. |
| CemNetwork.PicksStop | main/java/aws/proserve/bcs/cem/service/CemNetworkService.java:121-123 | Stopping as soon as `count + 1` addresses are held returns the first `count + 1` that all the draws would accept. |
| CemNetwork.Take | main/java/aws/proserve/bcs/cem/service/CemNetworkService.java:121-125 | The early return keeps a prefix of at most `count + 1` addresses, and keeps everything when fewer were accepted. |
| CemNetwork.UnusedAddressBounds | main/java/aws/proserve/bcs/cem/service/CemNetworkService.java:110-126 | The picker returns at most `count + 1` addresses and at most `size` of them. None is in use and each is an address of the block. In the corrected variant there are no duplicates. |
| CemNetwork.FindUnusedAddress | main/java/aws/proserve/bcs/cem/service/CemNetworkService.java:110-126 | As written, the loop makes `size` draws, skips used addresses, and stops once `count + 1` are held. It returns the first `count + 1` accepted addresses, duplicates included. |
| CemNetwork.DuplicatePicks | main/java/aws/proserve/bcs/cem/service/CemNetworkService.java:115-119 | Two draws of the same free address give that address twice, so two machines can get one address. |
| CemNetwork.FindUnusedAddressDistinct | main/java/aws/proserve/bcs/cem/service/CemNetworkService.java:110-126 | The corrected picker also skips addresses it already accepted. It returns the first `count + 1` distinct free addresses drawn. |
| CemNetwork.FindIpAddress | main/java/aws/proserve/bcs/cem/service/CemNetworkService.java:128-147 | The primary private address of each network interface, on every page, counts as used before the picker runs over the subnet's block. |
| CemNetwork.MachineNames | main/java/aws/proserve/bcs/cem/service/CemNetworkService.java:55-56 | The machine names a group's tags carry: the comma-split values of the tags with the machine key. `UntaggedGroupNamesNothing` and `PairsOfMember` state its properties. |
| CemNetwork.AllPairs | main/java/aws/proserve/bcs/cem/service/CemNetworkService.java:49-61 | The (name, group) pairs of all listed groups, in listing order, as the `flatMap` builds them. `AllPairsMember` and `AllPairsSnoc` state its properties. |
| CemNetwork.GroupBy | main/java/aws/proserve/bcs/cem/service/CemNetworkService.java:62-63 | `Collectors.groupingBy` on the name, each list in pair order. `GroupByMember` states its properties. |
| CemNetwork.PairsOfMember | main/java/aws/proserve/bcs/cem/service/CemNetworkService.java:53-59 | A group is paired with a name exactly when one of its machine tags lists that name in its comma-split value. |
| CemNetwork.GroupByMember | main/java/aws/proserve/bcs/cem/service/CemNetworkService.java:62-63 | `groupingBy` has a key for a name exactly when some pair carries it, and maps it to exactly that name's groups. |
| CemNetwork.AllPairsMember | main/java/aws/proserve/bcs/cem/service/CemNetworkService.java:49-61 | A (name, group) pair is collected exactly when some listed group yields it. |
| CemNetwork.AllPairsSnoc | main/java/aws/proserve/bcs/cem/service/CemNetworkService.java:53-60 | Each group appends its pairs after those of earlier groups. |
| CemNetwork.FindSecurityGroups | main/java/aws/proserve/bcs/cem/service/CemNetworkService.java:39-64 | The paged loop collects the pairs of every group on every page, in listing order, and then groups them by name. |
| CemNetwork.AddPagePairs | main/java/aws/proserve/bcs/cem/service/CemNetworkService.java:53-60 | The loop over one page appends that page's pairs to those already collected. |
| CemNetwork.SecurityGroupMembership | main/java/aws/proserve/bcs/cem/service/CemNetworkService.java:39-64 | A name maps to a group exactly when that group carries a machine tag naming it. A name has an entry exactly when some group names it. |
| CemNetwork.UntaggedGroupNamesNothing | main/java/aws/proserve/bcs/cem/service/CemNetworkService.java:55 | Tags with another key contribute no machine name. |
| CloudEndureNetwork.Query | main/java/aws/proserve/bcs/ce/service/CloudEndureNetworkService.java:119 | The query returns no more rows than the table holds. |
| CloudEndureNetwork.QueryMember | main/java/aws/proserve/bcs/ce/service/CloudEndureNetworkService.java:119 | The query returns exactly the table's rows for the source VPC id. |
| CloudEndureNetwork.TargetVpcId | main/java/aws/proserve/bcs/ce/service/CloudEndureNetworkService.java:117-127 | `findTargetVpcId`: the target id of the first queried row of the region pair, or null. `TargetVpcIdFirst`, `TargetVpcIdCons` and `OtherRowIgnored` state its properties. |
| CloudEndureNetwork.FirstInRegions | main/java/aws/proserve/bcs/ce/service/CloudEndureNetworkService.java:119-126 | The result is the target id of the first row of the region pair, with no such row before it. It is null exactly when no row has the region pair. |
| CloudEndureNetwork.FindTargetVpcId | main/java/aws/proserve/bcs/ce/service/CloudEndureNetworkService.java:117-127 | The loop with its early return computes the first-match lookup. |
| CloudEndureNetwork.TargetVpcIdFirst | main/java/aws/proserve/bcs/ce/service/CloudEndureNetworkService.java:117-127 | The answer is the target id of the first table row with the VPC id and both regions. It is null, not an error, exactly when no such row exists. |
| CloudEndureNetwork.TargetVpcIdCons | main/java/aws/proserve/bcs/ce/service/CloudEndureNetworkService.java:119-124 | A leading row for the VPC and the region pair answers. Any other leading row is passed over. |
| CloudEndureNetwork.QueryAppend | main/java/aws/proserve/bcs/ce/service/CloudEndureNetworkService.java:119 | The query keeps table order across a concatenation. |
| CloudEndureNetwork.FirstInRegionsAppend | main/java/aws/proserve/bcs/ce/service/CloudEndureNetworkService.java:119-124 | Across a concatenation, the first match comes from the front part when that part has one. |
| CloudEndureNetwork.OtherRowIgnored | main/java/aws/proserve/bcs/ce/service/CloudEndureNetworkService.java:120-121 | Removing a row for another VPC, or for another region pair, anywhere in the table does not change the answer. |
| CloudEndureNetwork.Candidates | main/java/aws/proserve/bcs/ce/service/CloudEndureNetworkService.java:65-74 | The (VPC, peer VPC) pairs `findAllAwsVpcs` collects, source VPC by source VPC. `CandidatesMember`, `CandidatesSnoc` and `CandidatesAppend` state its properties. |
| CloudEndureNetwork.FindAllAwsVpcs | main/java/aws/proserve/bcs/ce/service/CloudEndureNetworkService.java:51-76 | The nested loops compute the candidate list for the source VPCs, the table and the set of target-region VPC ids. |
| CloudEndureNetwork.PairsForMember | main/java/aws/proserve/bcs/ce/service/CloudEndureNetworkService.java:66-73 | A row yields a pair exactly when its target VPC exists in the target region and both its regions match. |
| CloudEndureNetwork.PairsForQuery | main/java/aws/proserve/bcs/ce/service/CloudEndureNetworkService.java:66-73 | One source VPC contributes exactly the pairs the table offers for it. |
| CloudEndureNetwork.CandidatesMember | main/java/aws/proserve/bcs/ce/service/CloudEndureNetworkService.java:65-74 | A (VPC, peer) pair is produced exactly when the VPC is a source VPC and some row for it names an existing target VPC with the region pair. Every other row is dropped. |
| CloudEndureNetwork.CandidatesSnoc | main/java/aws/proserve/bcs/ce/service/CloudEndureNetworkService.java:65-74 | Each source VPC appends its pairs after those of earlier source VPCs. |
| CloudEndureNetwork.CandidatesAppend | main/java/aws/proserve/bcs/ce/service/CloudEndureNetworkService.java:65-75 | Output is ordered by source VPC: the pairs of a prefix of the source VPCs come before those of the rest. |
| CloudEndureNetwork.StripCredential | main/java/aws/proserve/bcs/ce/service/CloudEndureNetworkService.java:83-87 | The payload has no credential and carries the secret id. All other fields equal the request's. |
| CloudEndureNetwork.PeerVpc | main/java/aws/proserve/bcs/ce/service/CloudEndureNetworkService.java:78-98 | Peering succeeds exactly when the reply parses and has no `errorMessage`. An `errorMessage` becomes a portal error carrying it, and an unparsable reply is an I/O failure. |
| CloudEndureNetwork.FindStagingSubnetId | main/java/aws/proserve/bcs/ce/service/CloudEndureNetworkService.java:100-115 | The lookup succeeds exactly when the reply parses as a string, and then returns that string. |
| CloudEndureBlueprints.LastTargetId | main/java/aws/proserve/bcs/ce/service/CloudEndureBlueprintService.java:130-140 | `findTargetId`: the target id of the last queried row, or the exception. `LastTargetIdSpec` states its properties. |
| CloudEndureBlueprints.LastTargetIdSpec | main/java/aws/proserve/bcs/ce/service/CloudEndureBlueprintService.java:130-140 | The answer is the target id of the last row for the id, with no region filter. It fails exactly when no row has the id, and the error names the id. |
| CloudEndureBlueprints.LastSourceId | main/java/aws/proserve/bcs/ce/service/CloudEndureBlueprintService.java:142-153 | `findSourceId`: the source id of the last scanned row with that target id, or the exception. `LastSourceIdSpec` states its properties. |
| CloudEndureBlueprints.LastSourceIdSpec | main/java/aws/proserve/bcs/ce/service/CloudEndureBlueprintService.java:142-153 | The answer is the source id of the last row whose target id is the id. It fails exactly when no row has that target id, and the error names the id. |
| CloudEndureBlueprints.ScanTarget | main/java/aws/proserve/bcs/ce/service/CloudEndureBlueprintService.java:144-145 | The scan returns no more rows than the table holds. |
| CloudEndureBlueprints.ScanTargetAppend | main/java/aws/proserve/bcs/ce/service/CloudEndureBlueprintService.java:144-145 | The scan keeps table order across a concatenation. |
| CloudEndureBlueprints.QueryLast | main/java/aws/proserve/bcs/ce/service/CloudEndureBlueprintService.java:132-134 | The last row the query returns is the last table row for the id. |
| CloudEndureBlueprints.ScanLast | main/java/aws/proserve/bcs/ce/service/CloudEndureBlueprintService.java:144-147 | The last row the scan returns is the last table row with the target id. |
| CloudEndureBlueprints.FindTargetId | main/java/aws/proserve/bcs/ce/service/CloudEndureBlueprintService.java:130-140 | The overwrite loop computes the last-match translation, and throws when there is no row. |
| CloudEndureBlueprints.FindSourceId | main/java/aws/proserve/bcs/ce/service/CloudEndureBlueprintService.java:142-153 | The overwrite loop over the scan computes the last-match reverse translation, and throws when there is no row. |
| CloudEndureBlueprints.TranslateRoundTrip | main/java/aws/proserve/bcs/ce/service/CloudEndureBlueprintService.java:130-153 | When every target id comes from a single source id, translating to the target side and back gives the original id. |
| CloudEndureBlueprints.FindTargetIdIgnoresRegions | main/java/aws/proserve/bcs/ce/service/CloudEndureBlueprintService.java:130-140 | A later row from another region pair wins over the row of the project's own pair, which the region-aware lookup would return. |
| CloudEndureBlueprints.Translate | main/java/aws/proserve/bcs/ce/service/CloudEndureBlueprintService.java:79-87 | The side ternary: a source machine's ids go through `findTargetId`, a target machine's through `findSourceId`. `LastTargetIdSpec`, `LastSourceIdSpec` and `TranslateRoundTrip` state its properties. |
| CloudEndureBlueprints.TranslateAll | main/java/aws/proserve/bcs/ce/service/CloudEndureBlueprintService.java:83-88 | A successful translation has one id per group. |
| CloudEndureBlueprints.TranslateAllSpec | main/java/aws/proserve/bcs/ce/service/CloudEndureBlueprintService.java:83-88 | Translation succeeds exactly when every group id translates, and then element i is the translation of group i. Otherwise the error is that of the first group that does not translate. |
| CloudEndureBlueprints.TranslateGroups | main/java/aws/proserve/bcs/ce/service/CloudEndureBlueprintService.java:77-88 | The loop fills the id array slot by slot, in the side's direction, and aborts at the first failure. |
| CloudEndureBlueprints.TranslateAllPrefixErr | main/java/aws/proserve/bcs/ce/service/CloudEndureBlueprintService.java:83-88 | Once one group fails, the whole translation fails with that error. |
| CloudEndureBlueprints.DeviceName | main/java/aws/proserve/bcs/ce/service/CloudEndureBlueprintService.java:109 | A disk's device name with `/dev/sd` rewritten to `/dev/xvd`. `DeviceNamePrefix`, `DeviceNameUnchanged` and `DeviceNameExamples` state its properties. |
| CloudEndureBlueprints.DeviceNamePrefix | main/java/aws/proserve/bcs/ce/service/CloudEndureBlueprintService.java:107-110 | A leading `/dev/sd` becomes `/dev/xvd`, and the rest of the name is rewritten the same way. |
| CloudEndureBlueprints.DeviceNameUnchanged | main/java/aws/proserve/bcs/ce/service/CloudEndureBlueprintService.java:107-110 | Names without `/dev/sd` are kept unchanged. |
| CloudEndureBlueprints.DeviceNameExamples | main/java/aws/proserve/bcs/ce/service/CloudEndureBlueprintService.java:109 | `/dev/sda1` becomes `/dev/xvda1` and `/dev/sdf` becomes `/dev/xvdf`. |
| CloudEndureBlueprints.IamRole | main/java/aws/proserve/bcs/ce/service/CloudEndureBlueprintService.java:112-116 | The role is the text after the last `/` of the profile ARN. It is empty when there is no profile or no `/`. |
| CloudEndureBlueprints.Translated | main/java/aws/proserve/bcs/ce/service/CloudEndureBlueprintService.java:69-88 | The instance lookup and the subnet and group translations `configure` performs before building the payload. `TranslatedSpec` states its properties. |
| CloudEndureBlueprints.TranslatedSpec | main/java/aws/proserve/bcs/ce/service/CloudEndureBlueprintService.java:69-88 | Translation fails on a missing instance, or when the subnet or any group does not translate; the subnet's failure is reported first. On success the subnet is the subnet's translation and the groups are translated one by one, in order. |
| CloudEndureBlueprints.Assemble | main/java/aws/proserve/bcs/ce/service/CloudEndureBlueprintService.java:90-110 | The payload `configure` builds from the instance and its translated ids. `AssembleTagsAndDisks` states its properties. |
| CloudEndureBlueprints.AssembleTagsAndDisks | main/java/aws/proserve/bcs/ce/service/CloudEndureBlueprintService.java:90-110 | The payload tags are the instance's tags in order, followed by exactly one blueprint tag. The disks are the device names in order, each renamed. |
| CloudEndureBlueprints.Configure | main/java/aws/proserve/bcs/ce/service/CloudEndureBlueprintService.java:62-128 | A missing instance or a failed translation aborts before the invoke: no payload is sent and the cache is untouched. Otherwise the payload holds the translated ids, the mapped type, the role, and the tags and disks, and the listing is requested, page by page, only when the region was not cached. An unparsable reply is the failure. |
| CloudEndureInstances.IsQualified | main/java/aws/proserve/bcs/ce/service/CloudEndureInstanceService.java:87-124 | `isQualified`: its verdict and the IAM calls it makes. `QualifiedIff`, `NoIamCallWithoutProfileName`, `IamCallOrder`, `NoVpcSkipsCheck` and `OtherVpcRejected` state its properties. |
| CloudEndureInstances.QualifiedIff | main/java/aws/proserve/bcs/ce/service/CloudEndureInstanceService.java:87-124 | An instance qualifies exactly when all of these hold: it has a profile, the ARN has a `/`, the profile's first role has `AmazonSSMManagedInstanceCore` attached, and it runs in the VPC when one is given. |
| CloudEndureInstances.NoIamCallWithoutProfileName | main/java/aws/proserve/bcs/ce/service/CloudEndureInstanceService.java:91-101 | Without a profile, or with an ARN without `/`, the instance is rejected and IAM is never called. |
| CloudEndureInstances.IamCallOrder | main/java/aws/proserve/bcs/ce/service/CloudEndureInstanceService.java:103-112 | The profile is fetched before the role's policies are listed, and each call is made at most once. |
| CloudEndureInstances.NoVpcSkipsCheck | main/java/aws/proserve/bcs/ce/service/CloudEndureInstanceService.java:118-121 | With a null VPC id, the instance's VPC does not affect the verdict. |
| CloudEndureInstances.OtherVpcRejected | main/java/aws/proserve/bcs/ce/service/CloudEndureInstanceService.java:118-121 | With a VPC id, an instance in another VPC never qualifies. |
| CloudEndureInstances.AllInstancesAppend | main/java/aws/proserve/bcs/ce/service/CloudEndureInstanceService.java:70-71 | The instances of consecutive reservations appear in reservation order. |
| CloudEndureInstances.Collect | main/java/aws/proserve/bcs/ce/service/CloudEndureInstanceService.java:66-82 | What the listing has collected after some instances, stopping at the first exception. `CollectSpec`, `CollectAppend` and `CollectErr` state its properties. |
| CloudEndureInstances.CollectAppend | main/java/aws/proserve/bcs/ce/service/CloudEndureInstanceService.java:66-82 | Collecting over a concatenation collects over the front part and then over the back part, so listing order is kept. |
| CloudEndureInstances.CollectErr | main/java/aws/proserve/bcs/ce/service/CloudEndureInstanceService.java:72 | Once an exception is raised, later instances are not examined. |
| CloudEndureInstances.CollectSpec | main/java/aws/proserve/bcs/ce/service/CloudEndureInstanceService.java:66-84 | The listing succeeds exactly when no instance raises. It then holds exactly the qualified instances, each stamped with the region. Otherwise the error comes from the first instance that raised. |
| CloudEndureInstances.CollectReservation | main/java/aws/proserve/bcs/ce/service/CloudEndureInstanceService.java:71-80 | The loop over one reservation computes the collection over its instances. |
| CloudEndureInstances.CollectPage | main/java/aws/proserve/bcs/ce/service/CloudEndureInstanceService.java:70-81 | The loop over one page's reservations computes the collection over all their instances. |
| CloudEndureInstances.CollectNextPage | main/java/aws/proserve/bcs/ce/service/CloudEndureInstanceService.java:66-82 | Reading one more page continues the collection with that page's instances, after those of the earlier pages. |
| CloudEndureInstances.CollectStopsAtError | main/java/aws/proserve/bcs/ce/service/CloudEndureInstanceService.java:66-84 | An exception raised on the pages read so far is the outcome of the whole listing; later pages do not change it. |
| CloudEndureInstances.FindAllQualifiedInstances | main/java/aws/proserve/bcs/ce/service/CloudEndureInstanceService.java:52-85 | The paged loop collects over every instance of every page, in listing order. |
| CloudEndureProjects.ToBlueprintMap | main/java/aws/proserve/bcs/ce/service/CloudEndureProjectService.java:57-59 | `Collectors.toMap(getMachineId, i -> i)`, which throws on a duplicate key. `ToBlueprintMapOk`, `ToBlueprintMapDomain`, `ToBlueprintMapKeys` and `ToBlueprintMapDuplicate` state its properties. |
| CloudEndureProjects.ToBlueprintMapOk | main/java/aws/proserve/bcs/ce/service/CloudEndureProjectService.java:57-59 | `toMap(getMachineId)` succeeds exactly when the machine ids are distinct. |
| CloudEndureProjects.ToBlueprintMapDomain | main/java/aws/proserve/bcs/ce/service/CloudEndureProjectService.java:57-59 | The map's keys are exactly the blueprints' machine ids. |
| CloudEndureProjects.ToBlueprintMapKeys | main/java/aws/proserve/bcs/ce/service/CloudEndureProjectService.java:57-59 | Every blueprint is stored under its own machine id. |
| CloudEndureProjects.ToBlueprintMapDuplicate | main/java/aws/proserve/bcs/ce/service/CloudEndureProjectService.java:57-59 | A failed map names a machine id that occurs twice. |
| CloudEndureProjects.Message | main/java/aws/proserve/bcs/ce/service/CloudEndureProjectService.java:65-74 | Every refusal message starts with the blocking machine's id. |
| CloudEndureProjects.CheckMachine | main/java/aws/proserve/bcs/ce/service/CloudEndureProjectService.java:61-75 | The three checks on one machine, in the source's order. `CheckMachineOrder` states its properties. |
| CloudEndureProjects.ReplicationBehind | main/java/aws/proserve/bcs/ce/service/CloudEndureProjectService.java:69 | `1. * replicated / total < .9`, including the infinite and NaN quotients of a zero total. `ZeroTotalStorage` and `ReplicationThreshold` state its properties. |
| CloudEndureProjects.FirstCause | main/java/aws/proserve/bcs/ce/service/CloudEndureProjectService.java:61-77 | The loop over the machines, stopping at the first cause. `FirstCauseSpec` states its properties. |
| CloudEndureProjects.CheckCutbackPrecondition | main/java/aws/proserve/bcs/ce/service/CloudEndureProjectService.java:54-78 | `checkCutbackPrecondition`: a project without a cutover item fails at `requireNonNull`; otherwise the item's blueprint map, then the loop over its machines. `CutbackAllowedIff` states its properties. |
| CloudEndureProjects.CheckCutback | main/java/aws/proserve/bcs/ce/service/CloudEndureProjectService.java:54-78 | The null check on the cutover item, then the `for` loop over the machines with its early returns, gives exactly the cause `CheckCutbackPrecondition` specifies. |
| CloudEndureProjects.FirstCauseSpec | main/java/aws/proserve/bcs/ce/service/CloudEndureProjectService.java:61-77 | The scan returns null exactly when every machine passes. Otherwise the cause belongs to the first machine that fails, and every machine before it passes. |
| CloudEndureProjects.CheckMachineOrder | main/java/aws/proserve/bcs/ce/service/CloudEndureProjectService.java:62-75 | A machine passes exactly when all three checks hold. The checks run in the order tag, then ratio, then consistency time, and a reported cause names the machine. |
| CloudEndureProjects.ZeroTotalStorage | main/java/aws/proserve/bcs/ce/service/CloudEndureProjectService.java:69 | With a total of zero bytes the check blocks exactly when the replicated count is negative: the quotient is then negative infinity, and otherwise NaN or positive infinity. |
| CloudEndureProjects.ReplicationThreshold | main/java/aws/proserve/bcs/ce/service/CloudEndureProjectService.java:69-71 | Just below nine tenths replicated the check fails; from nine tenths up it passes. |
| CloudEndureProjects.CutbackAllowedIff | main/java/aws/proserve/bcs/ce/service/CloudEndureProjectService.java:54-78 | The gate returns null exactly when the project has a cutover item, its blueprints have distinct machine ids and every one of its machines passes all three checks. Without a cutover item, and only then, the gate fails with the null-pointer error. |
| CloudEndureProjects.Stamp | main/java/aws/proserve/bcs/ce/service/CloudEndureProjectService.java:88-95 | The region and `blueprintConfigured` flag `getMachines` sets on one machine. `StampAgreesWithGate` states its properties. |
| CloudEndureProjects.StampAgreesWithGate | main/java/aws/proserve/bcs/ce/service/CloudEndureProjectService.java:88-95 | `blueprintConfigured` is exactly the negation of the gate's tag-check failure. Only the region and that flag change. |
| CloudEndureProjects.FirstMissing | main/java/aws/proserve/bcs/ce/service/CloudEndureProjectService.java:86-96 | Gives the position of the first machine without a blueprint, where `get` returns null. Every machine before it has a blueprint. |
| CloudEndureProjects.GetMachines | main/java/aws/proserve/bcs/ce/service/CloudEndureProjectService.java:80-99 | The array keeps its length and order, and each machine is stamped in place. Stamping stops at the first machine without a blueprint and leaves the rest unchanged. A duplicate machine id fails before anything changes. |
| CloudEndureProjects.AddPeerRoute | main/java/aws/proserve/bcs/ce/service/CloudEndureProjectService.java:101-119 | A non-null `errorMessage` becomes a portal error carrying it, and an unparsable reply is an I/O failure. Anything else succeeds. |
| CloudEndureProjects.ParseBoolean | main/java/aws/proserve/bcs/ce/service/CloudEndureProjectService.java:134 | `"true".equalsIgnoreCase(s)`, as `Boolean.parseBoolean` does. `ParseBooleanIff` and `ParseBooleanExamples` state its properties. |
| CloudEndureProjects.ParseBooleanIff | main/java/aws/proserve/bcs/ce/service/CloudEndureProjectService.java:134 | A reply counts exactly when it has four characters that, in lower case, spell "true"; every other string is rejected. |
| CloudEndureProjects.ParseBooleanExamples | main/java/aws/proserve/bcs/ce/service/CloudEndureProjectService.java:134 | Three accepted replies ("true", "TRUE", "True") and four rejected ones ("false", "", a quoted "true", "true " with a trailing space). |
| CloudEndureProjects.InstallAgent | main/java/aws/proserve/bcs/ce/service/CloudEndureProjectService.java:121-141 | `installAgent`: the functions invoked and the outcome. `InstallAgentSpec` states its properties. |
| CloudEndureProjects.InstallAgentSpec | main/java/aws/proserve/bcs/ce/service/CloudEndureProjectService.java:121-141 | The peer route is added first exactly when the network is private. A failed peer route stops the run. The run succeeds exactly when every reply is good, and a reply other than true is the installation failure. |
| CemServices.GetBlueprints | main/java/aws/proserve/bcs/cem/service/CemService.java:119-131 | The project's rows by machine id: a machine id is present exactly when the table has the (project, machine) row. |
| CemServices.SourceCpus | main/java/aws/proserve/bcs/cem/service/CemService.java:137 | `p.getCpu().length == 0 ? 1 : p.getCpu()[0].getCores()`. `NewBlueprintDefaults` states it: 1 CPU when none is reported, otherwise the first CPU's cores. |
| CemServices.Lookup | main/java/aws/proserve/bcs/cem/service/CemService.java:150 | `securityGroups.get(name)`, null when the name has no entry (lines 150 and 155). `NewBlueprintDefaults` and `LoadOneFacts` state that a blueprint then gets the groups tagged for its host name, or none. |
| CemServices.NewBlueprint | main/java/aws/proserve/bcs/cem/service/CemService.java:135-153 | The blueprint `loadBlueprints` creates for a machine without a row. `NewBlueprintDefaults` states its properties. |
| CemServices.NewBlueprintDefaults | main/java/aws/proserve/bcs/cem/service/CemService.java:135-153 | A new blueprint has the project's key, a private subnet, no IAM role and the i-th address. It has 3000 IOPS on STANDARD disks, 1 CPU when none is reported and otherwise the first CPU's cores, the groups for its host name, and an economy type no larger than `t2.large`. |
| CemServices.LoadOne | main/java/aws/proserve/bcs/cem/service/CemService.java:134-156 | One pass of the `loadBlueprints` loop: the existing row with fresh groups, or a new blueprint. `LoadOneOk` and `LoadOneFacts` state its properties. |
| CemServices.Loaded | main/java/aws/proserve/bcs/cem/service/CemService.java:133-159 | The blueprints the loop collects, or its first exception. `LoadedOkIff`, `LoadedValue`, `LoadedError` and `LoadTwice` state its properties. |
| CemServices.LoadAll | main/java/aws/proserve/bcs/cem/service/CemService.java:133-159 | The loop yields one outcome per machine. |
| CemServices.LoadOneOk | main/java/aws/proserve/bcs/cem/service/CemService.java:134-154 | A machine loads exactly when it has a row or there is an address for it. Otherwise `addresses.get(i)` fails, naming position i. |
| CemServices.LoadedOkIff | main/java/aws/proserve/bcs/cem/service/CemService.java:133-159 | Loading completes exactly when every machine without a row has an address. |
| CemServices.LoadedValue | main/java/aws/proserve/bcs/cem/service/CemService.java:133-159 | A completed load has one blueprint per machine, in machine order. |
| CemServices.LoadedError | main/java/aws/proserve/bcs/cem/service/CemService.java:133-159 | A failed load names the first machine that has neither a row nor an address. |
| CemServices.SaveAll | main/java/aws/proserve/bcs/cem/service/CemService.java:160 | `batchSave`: each blueprint written under its key, in order. `SaveAllDomain`, `SaveAllUntouched`, `SaveAllHolds`, `SaveAllExisting` and `SaveAllKeyed` state its properties. |
| CemServices.SaveAllDomain | main/java/aws/proserve/bcs/cem/service/CemService.java:160 | After the batch save, a key has a row exactly when it had one before or a saved blueprint has that key. |
| CemServices.SaveAllUntouched | main/java/aws/proserve/bcs/cem/service/CemService.java:160 | A key that no saved blueprint has keeps its row. |
| CemServices.SaveAllHolds | main/java/aws/proserve/bcs/cem/service/CemService.java:160 | A saved blueprint's key holds one of the saved blueprints with that key. |
| CemServices.SaveAllExisting | main/java/aws/proserve/bcs/cem/service/CemService.java:160 | Saving rows that are already stored changes nothing. |
| CemServices.SaveAllKeyed | main/java/aws/proserve/bcs/cem/service/CemService.java:160 | The batch save keeps every row under its own key. |
| CemServices.LoadOneFacts | main/java/aws/proserve/bcs/cem/service/CemService.java:134-156 | Every loaded blueprint is the project's row for its machine, and its groups are those tagged for its host name. |
| CemServices.LoadTwice | main/java/aws/proserve/bcs/cem/service/CemService.java:125-161 | Loading again with the same groups finds every row and leaves the table as the first load left it. |
| CemServices.DiskChoice | main/java/aws/proserve/bcs/cem/service/CemService.java:182-196 | The disk switch of `setBlueprint`. `DiskChoiceSpec` states its properties. |
| CemServices.DiskChoiceSpec | main/java/aws/proserve/bcs/cem/service/CemService.java:182-196 | economy, business and customized give three different disk types. Any other string leaves the disk type unchanged. |
| CemServices.Update | main/java/aws/proserve/bcs/cem/service/CemService.java:174-210 | One blueprint as `setBlueprint` edits it. `UpdateFrame` and `UpdateKeepsKey` state its properties. |
| CemServices.UpdateFrame | main/java/aws/proserve/bcs/cem/service/CemService.java:174-210 | An edit changes only the placement, the disk type and the instance type, and each only when its `intact` flag is false. The placement is taken from the request, the subnet and the i-th address. |
| CemServices.InstanceChoice | main/java/aws/proserve/bcs/cem/service/CemService.java:198-210 | The instance-type switch of `setBlueprint`. `EconomyEditCeiling` and `CustomizedStoresTierName` state its properties. |
| CemServices.EconomyEditCeiling | main/java/aws/proserve/bcs/cem/service/CemService.java:199-204 | An economy instance edit never gives a type larger than `t2.large`. |
| CemServices.CustomizedStoresTierName | main/java/aws/proserve/bcs/cem/service/CemService.java:206-208 | The customized tier stores the string "customized" verbatim, which is the name of no instance type. |
| CemServices.SetAll | main/java/aws/proserve/bcs/cem/service/CemService.java:173-213 | The table and failure after the `setBlueprint` loop. `SetAllNext`, `SetAllKeyed`, `SetAllSuccess`, `SetAllKeys`, `SetAllUntouched` and `SetAllPrefixFailure` state its properties. |
| CemServices.SetAllNext | main/java/aws/proserve/bcs/cem/service/CemService.java:173-213 | One more listed machine does one of three things: fails on a missing row, fails on a missing address, or saves the edited row. |
| CemServices.UpdateKeepsKey | main/java/aws/proserve/bcs/cem/service/CemService.java:174-212 | An edit never moves a row to another key. |
| CemServices.SetAllKeyed | main/java/aws/proserve/bcs/cem/service/CemService.java:173-213 | Editing keeps every row under its own key. |
| CemServices.SetAllSuccess | main/java/aws/proserve/bcs/cem/service/CemService.java:173-213 | Suppose the listed machines are distinct, all have rows, and a placement edit has enough addresses. Then every listed row becomes the edit of its old value, each with its own address. |
| CemServices.SetAllKeys | main/java/aws/proserve/bcs/cem/service/CemService.java:173-213 | Editing never adds or removes a row. |
| CemServices.SetAllUntouched | main/java/aws/proserve/bcs/cem/service/CemService.java:173-213 | A row nobody listed is unchanged. |
| CemServices.SetAllPrefixFailure | main/java/aws/proserve/bcs/cem/service/CemService.java:173-213 | After a failure, later machines change nothing, and earlier saves are kept. |
| CemServices.SelectAll | main/java/aws/proserve/bcs/cem/service/CemService.java:216-223 | The table and failure after the `selectSecurityGroup` loop. `SelectAllFrame`, `SelectAllOutcome` and `SelectAllPrefixFailure` state its properties. |
| CemServices.SelectAllFrame | main/java/aws/proserve/bcs/cem/service/CemService.java:216-223 | Selecting groups adds and removes no row, and changes nothing except security groups. |
| CemServices.SelectAllOutcome | main/java/aws/proserve/bcs/cem/service/CemService.java:216-223 | On success every listed row has exactly the chosen groups. It fails exactly when some listed machine has no row. |
| CemServices.SelectAllPrefixFailure | main/java/aws/proserve/bcs/cem/service/CemService.java:218-222 | After a failure, later machines change nothing. |
| CemServices.BlueprintPayload | main/java/aws/proserve/bcs/cem/service/CemService.java:237-252 | The configuration `configureBlueprint` sends for one blueprint. `PayloadsSpec` states its properties. |
| CemServices.Payloads | main/java/aws/proserve/bcs/cem/service/CemService.java:236-264 | One configuration per blueprint. |
| CemServices.PayloadsSpec | main/java/aws/proserve/bcs/cem/service/CemService.java:237-252 | Configuration i carries blueprint i's machine, subnet, address, group ids in order, disks, IOPS and disk type. It has an empty IAM role and the shared single blueprint tag. Its type is blueprint i's own when the region offers it, and `t2.large` otherwise. |
| CemServices.SentCount | main/java/aws/proserve/bcs/cem/service/CemService.java:254-263 | At least one configuration is sent when there are blueprints, and no more than there are. |
| CemServices.SentCountFirstUnreadable | main/java/aws/proserve/bcs/cem/service/CemService.java:254-263 | The first unreadable reply stops the run right after its own configuration was sent. |
| CemServices.SentCountAllReadable | main/java/aws/proserve/bcs/cem/service/CemService.java:236-264 | With every reply readable, every configuration is sent. |
| CemServices.PayloadsSnoc | main/java/aws/proserve/bcs/cem/service/CemService.java:236-264 | Each blueprint's configuration is sent after those of earlier blueprints. |
| CemServices.CemService.constructor | main/java/aws/proserve/bcs/cem/service/CemService.java:72-89 | The service starts with an empty table and nothing sent. |
| CemServices.CemService.LoadBlueprints | main/java/aws/proserve/bcs/cem/service/CemService.java:125-161 | When no subnet is found, or some machine cannot be loaded, the table is unchanged. Otherwise exactly the loaded blueprints are batch-saved. Rows stay under their keys and nothing is sent. |
| CemServices.CemService.SetBlueprint | main/java/aws/proserve/bcs/cem/service/CemService.java:163-171 | The network is consulted only for a placement edit, and its failure leaves the table unchanged. Otherwise the table and the failure are those of the edit loop. |
| CemServices.CemService.SaveEdits | main/java/aws/proserve/bcs/cem/service/CemService.java:173-213 | The loop leaves the table and failure that the per-row load/edit/save sequence specifies, and keeps rows under their keys. |
| CemServices.CemService.SelectSecurityGroup | main/java/aws/proserve/bcs/cem/service/CemService.java:216-223 | The loop leaves the table and failure that the per-row group selection specifies. |
| CemServices.CemService.ConfigureBlueprint | main/java/aws/proserve/bcs/cem/service/CemService.java:225-265 | The sent configurations are, in request order, those of the blueprints up to the first unreadable reply, all sharing one tag. The table is untouched, and the run fails exactly when some reply is unreadable. The region's listing is requested, page by page, only when there is a blueprint and the region was not cached, and then only once. |
| CemServices.CemService.SendBlueprint | main/java/aws/proserve/bcs/cem/service/CemService.java:237-263 | One step maps the type through the region cache with `t2.large` as the default, then appends the blueprint's configuration. It sends a listing request per page only when the region was not cached. |
| CemServices.Mapped | main/java/aws/proserve/bcs/ce/service/InstanceTypeService.java:26-41 | After the first mapping, the cache always holds the region. |
| CemServices.MappedIdempotent | main/java/aws/proserve/bcs/ce/service/InstanceTypeService.java:26-41 | Mapping a region a second time leaves the cache as the first mapping left it. |
| CloudEndureStateMachines.CreateRun | main/java/aws/proserve/bcs/ce/service/CloudEndureStateMachineService.java:55-63 | The calls `create` makes and how it ends. `CreateOrder` states its properties. |
| CloudEndureStateMachines.CreateOrder | main/java/aws/proserve/bcs/ce/service/CloudEndureStateMachineService.java:55-63 | The secret is saved first. Peering is second exactly when the network is private, and every later call carries the secret id instead of the credential. The create workflow runs last, with the staging subnet found, exactly when nothing failed. Nothing is undone on failure. |
| CloudEndureStateMachines.DeleteRun | main/java/aws/proserve/bcs/ce/service/CloudEndureStateMachineService.java:66-70 | The delete workflow runs first, then the source secret is deleted, then the temporary secrets. |
| CloudEndureStateMachines.CutbackRun | main/java/aws/proserve/bcs/ce/service/CloudEndureStateMachineService.java:72-79 | The calls `cutback` makes and how it ends. `CutbackOnceIff` states its properties. |
| CloudEndureStateMachines.CutbackOnceIff | main/java/aws/proserve/bcs/ce/service/CloudEndureStateMachineService.java:72-79 | The cutback workflow (source side, flag as given) is submitted exactly once exactly when the project has a cutover item and every machine passes the gate. Otherwise nothing is submitted, and the portal error names a machine. Without a cutover item nothing is submitted and the run ends with the null-pointer error. |
| CloudEndureStateMachines.RunWizardRun | main/java/aws/proserve/bcs/ce/service/CloudEndureStateMachineService.java:81-84 | The calls `runWizard` makes. `RunWizardRequest` states its properties. |
| CloudEndureStateMachines.RunWizardRequest | main/java/aws/proserve/bcs/ce/service/machine/CloudEndureRunWizardMachine.java:31-42 | The wizard request differs from the caller's only in two fields. The credential becomes the secret id, and the target VPC comes from the replication table; it is null exactly when no row matches the region pair. |
| CloudEndureStateMachines.CloudEndureStateMachineService.constructor | main/java/aws/proserve/bcs/ce/service/CloudEndureStateMachineService.java:34-53 | The trace starts empty. |
| CloudEndureStateMachines.CloudEndureStateMachineService.Create | main/java/aws/proserve/bcs/ce/service/CloudEndureStateMachineService.java:55-63 | The calls appended and the failure are those `create` specifies. |
| CloudEndureStateMachines.CloudEndureStateMachineService.Delete | main/java/aws/proserve/bcs/ce/service/CloudEndureStateMachineService.java:66-70 | The three calls `delete` specifies are appended in order. |
| CloudEndureStateMachines.CloudEndureStateMachineService.Cutback | main/java/aws/proserve/bcs/ce/service/CloudEndureStateMachineService.java:72-79 | The calls appended and the failure are those `cutback` specifies for the gate's verdict. |
| CloudEndureStateMachines.CloudEndureStateMachineService.RunWizard | main/java/aws/proserve/bcs/ce/service/CloudEndureStateMachineService.java:81-84 | The secret is saved, then the wizard runs with the stripped request and the looked-up target VPC. |

Documented behaviours that look surprising but are modelled as written:

- `findTargetId` ignores regions (`CloudEndureBlueprints.FindTargetIdIgnoresRegions`).
- An economy request larger than `t2.large` still gets `t2.large` (`InstanceTypes.EconomyOversizedRequest`).
- The customized instance tier stores the word "customized" (`CemServices.CustomizedStoresTierName`).
- `findIpAddress` counts only each network interface's primary private address as used (`getPrivateIpAddress`, `cem/service/CemNetworkService.java` line 143). Secondary private addresses are never collected, so the picker may return an address an interface already holds as a secondary address (`CemNetwork.FindIpAddress`).

## Left out

- AWS calls are not modelled. EC2 `describe*`, IAM, DynamoDB query/scan/load/save, Lambda `invoke` and Step Functions `execute` become inputs instead:
  - paged listings (`seq<Page<T>>`, at least one page, a continuation token on every page but the last);
  - table rows;
  - function replies (parsed or unparsable);
  - or entries in a call trace.
  Client construction, credentials and regions of the clients are not modelled.
- Jackson serialisation is not modelled. A reply is either its parsed value or an unparsable reply, which the source turns into an I/O exception.
- `java.util.Random` is not modelled, and neither are the `Cidr` class's parsing and its `getSize`/`findAddress`; `Cidr` is not part of this model. A block is its list of host addresses. The draws are given as the addresses `findAddress(nextInt(size))` returns; `DrawsInBlock` states that each is an address of the block.
- `ZonedDateTime.now()` timestamps and the ids the secret store returns are parameters. The secret store is not part of this model.
- `TAG_MACHINE` and `TAG_BLUEPRINT` are parameters. They are defined in `CloudEndureConstants`, which is not part of this model.
- The double-precision ratio in the cutback gate is exact integer arithmetic. `long` to `double` rounding of very large byte counts is not modelled. A zero total follows the Java quotient: it blocks only when the replicated count is negative (negative infinity), and passes on NaN and positive infinity.
- Java `int`/`long` overflow is not modelled. Memory is divided by `GB` with Java's truncating division.
- `version`, `createdDate` and `lastUpdatedDate` of the blueprint row are not modelled, and neither is the table mapper's optimistic version check. `dbMapper.load` returns a fresh object, so the blueprint is a value and the table a map; no aliasing is lost.
- Write failures of `save` and `batchSave` are not modelled.
- `CemService.create` and `CemService.delete` are not modelled. They are project bookkeeping through `ProjectFinder` and `RegionService`, which are not part of this model.
- `CloudEndureProjectService.launchMachines` is not modelled.
- The services that list machines and blueprints (`MachineService`, `BlueprintService`) are inputs. Their results are given as sequences; for the cutback gate they are carried by the project's cutover item (`CloudEndureProjects.CutoverItem`), which is `None` when the project has none.
- `CloudEndureCreateProjectMachine`, `CloudEndureDeleteProjectMachine` and `CloudEndurePrepareCutbackMachine` appear only as the payloads of their trace entries.
- The REST controllers, the Spring configuration, the session-retry aspect and logging are not modelled.
- The immutable request interfaces are plain datatypes. Their boolean flags are ordinary fields; the source defaults them to false.
- Null strings other than the optional fields modelled as `Option` are not modelled.
- In `isQualified`, an IAM lookup of an unknown profile or role, or a profile without roles, is one error value. The different SDK exceptions are not distinguished.
- `CloudEndureStateMachineService.Delete` and `CloudEndureStateMachineService.RunWizard` never fail in the model, because the secret store and the workflow executor are not part of this model and their exceptions are not modelled.
- CemNetwork.SecurityGroupMembership: states which groups a machine name maps to. It does not state their order in the list, which the source keeps in listing order (`FindSecurityGroups` equates the result with the ordered specification).
- CloudEndureInstances.CollectSpec: states membership of the result. Listing order follows from `CollectAppend` and from `FindAllQualifiedInstances` equating the result with the ordered specification.

## Findings

| source | as written | input that shows it | evidently intended | confidence | as-written member | corrected member |
|---|---|---|---|---|---|---|
| main/java/aws/proserve/bcs/cem/service/CemNetworkService.java:106 | `while (result.getNextToken() == null)`: a first page that has a token ends the search, and a single page without a match is requested forever | pages `[Page([private subnet], Some("next")), Page([public subnet], None)]` searched for a public subnet: nothing is found; one page holding only a public subnet, searched for a private one: the loop never ends | read pages while the token is not null, and return the first matching subnet across all pages | not executed | CemNetwork.FindSubnetAsWritten, CemNetwork.SecondPageMissed, CemNetwork.SinglePageWithoutMatchDiverges | CemNetwork.FindSubnet, CemNetwork.FindSubnetSpecCorrect |
| main/java/aws/proserve/bcs/cem/service/CemNetworkService.java:110-126 | `findUnusedAddress` skips addresses in use but not addresses it already accepted | block `["10.0.0.4", "10.0.0.5"]`, draws `["10.0.0.4", "10.0.0.4"]`, nothing in use: the result is `["10.0.0.4", "10.0.0.4"]`, so two machines get one address | skip an address already accepted in this call, so every machine gets its own address | not executed | CemNetwork.FindUnusedAddress, CemNetwork.DuplicatePicks | CemNetwork.FindUnusedAddressDistinct, CemNetwork.UnusedAddressBounds |
