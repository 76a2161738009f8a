/** The ladder of EC2 instance types a CloudEndure Manager blueprint may be given,
    smallest first, and the first-fit search over it. */
module InstanceTypes {
  import opened Common

  /** The enum constants in declaration order; memory is in GiB. */
  datatype InstanceType =
    | T2Micro | T2Small | T2Medium | T2Large
    | M5Large | M5XLarge | M5_2XLarge | M5_4XLarge | M5_8XLarge | M5_12XLarge | M5_16XLarge | M5_24XLarge

  /** `InstanceType.values()`. */
  const Values: seq<InstanceType> :=
    [T2Micro, T2Small, T2Medium, T2Large,
     M5Large, M5XLarge, M5_2XLarge, M5_4XLarge, M5_8XLarge, M5_12XLarge, M5_16XLarge, M5_24XLarge]

  /** `ordinal()`: the position of a constant in `Values`. */
  function Ordinal(t: InstanceType): (r: nat)
    ensures r < |Values| && Values[r] == t
  {
    match t
    case T2Micro => 0
    case T2Small => 1
    case T2Medium => 2
    case T2Large => 3
    case M5Large => 4
    case M5XLarge => 5
    case M5_2XLarge => 6
    case M5_4XLarge => 7
    case M5_8XLarge => 8
    case M5_12XLarge => 9
    case M5_16XLarge => 10
    case M5_24XLarge => 11
  }

  function Cpus(t: InstanceType): int
  {
    match t
    case T2Micro => 1
    case T2Small => 1
    case T2Medium => 2
    case T2Large => 2
    case M5Large => 2
    case M5XLarge => 4
    case M5_2XLarge => 8
    case M5_4XLarge => 16
    case M5_8XLarge => 32
    case M5_12XLarge => 48
    case M5_16XLarge => 64
    case M5_24XLarge => 96
  }

  function Memory(t: InstanceType): int
  {
    match t
    case T2Micro => 1
    case T2Small => 2
    case T2Medium => 4
    case T2Large => 8
    case M5Large => 8
    case M5XLarge => 16
    case M5_2XLarge => 32
    case M5_4XLarge => 64
    case M5_8XLarge => 128
    case M5_12XLarge => 192
    case M5_16XLarge => 256
    case M5_24XLarge => 384
  }

  /** `name()`: the Java identifier of the constant. */
  function EnumName(t: InstanceType): string
  {
    match t
    case T2Micro => "t2_micro"
    case T2Small => "t2_small"
    case T2Medium => "t2_medium"
    case T2Large => "t2_large"
    case M5Large => "m5_large"
    case M5XLarge => "m5_xlarge"
    case M5_2XLarge => "m5_2xlarge"
    case M5_4XLarge => "m5_4xlarge"
    case M5_8XLarge => "m5_8xlarge"
    case M5_12XLarge => "m5_12xlarge"
    case M5_16XLarge => "m5_16xlarge"
    case M5_24XLarge => "m5_24xlarge"
  }

  /** The EC2 name of a type: the identifier with every `_` turned into `.`, so no `_` is
      left and every other character is kept. */
  function GetName(t: InstanceType): (r: string)
    ensures |r| == |EnumName(t)|
    ensures '_' !in r
    ensures forall i :: 0 <= i < |r| ==> r[i] == (if EnumName(t)[i] == '_' then '.' else EnumName(t)[i])
  {
    ReplaceCharRemoves(EnumName(t), '_', '.');
    ReplaceChar(EnumName(t), '_', '.')
  }

  /** A type satisfies a request when it has at least the CPUs and the memory asked for. */
  predicate Fits(t: InstanceType, cpus: int, memory: int)
  {
    Cpus(t) >= cpus && Memory(t) >= memory
  }

  /** `InstanceType.find(economy, cpus, memory)`: the first type in declaration order that
      fits; an economy request returns `t2_large` as soon as the scan passes it; a request
      nothing fits gets the last declared type. */
  function Find(economy: bool, cpus: int, memory: int): InstanceType
  {
    FindFrom(economy, cpus, memory, 0)
  }

  /** The loop of `find` from position `i` of the declaration order. */
  function FindFrom(economy: bool, cpus: int, memory: int, i: nat): InstanceType
    requires i <= |Values|
    decreases |Values| - i
  {
    if i == |Values| then Values[|Values| - 1]
    else if economy && i > Ordinal(T2Large) then T2Large
    else if Fits(Values[i], cpus, memory) then Values[i]
    else FindFrom(economy, cpus, memory, i + 1)
  }

  /** `InstanceType.find(economy, cpus, memory)` as the loop over `values()` it is:
      an economy request stops at the first constant declared after `t2_large`,
      otherwise the first fitting constant is returned. */
  method FindType(economy: bool, cpus: int, memory: int) returns (r: InstanceType)
    ensures r == Find(economy, cpus, memory)
  {
    for i := 0 to |Values|
      invariant FindFrom(economy, cpus, memory, i) == Find(economy, cpus, memory)
    {
      var t := Values[i];
      if economy && i > Ordinal(T2Large) {
        return T2Large;
      }
      if Fits(t, cpus, memory) {
        return t;
      }
    }
    return Values[|Values| - 1];
  }

  // ---------------------------------------------------------------------------
  // Properties of Find

  /** The scan from position `i` returns the first fitting type at or after `i`,
      or the last type when none fits (without the economy ceiling). */
  lemma {:induction false} FindFromFirstFit(cpus: int, memory: int, i: nat)
    requires i <= |Values|
    ensures var r := FindFrom(false, cpus, memory, i);
      if exists j :: i <= j < |Values| && Fits(Values[j], cpus, memory) then
        i <= Ordinal(r) && Fits(r, cpus, memory)
        && forall j :: i <= j < Ordinal(r) ==> !Fits(Values[j], cpus, memory)
      else r == M5_24XLarge
    decreases |Values| - i
  {
    if i < |Values| && !Fits(Values[i], cpus, memory) {
      FindFromFirstFit(cpus, memory, i + 1);
      assert forall j :: i <= j < |Values| && Fits(Values[j], cpus, memory) ==> i + 1 <= j;
    }
  }

  /** Non-economy `find` returns the first type in declaration order that fits the request. */
  lemma FindFirstFit(cpus: int, memory: int, k: nat)
    requires k < |Values| && Fits(Values[k], cpus, memory)
    ensures Fits(Find(false, cpus, memory), cpus, memory)
    ensures Ordinal(Find(false, cpus, memory)) <= k
    ensures forall j :: 0 <= j < Ordinal(Find(false, cpus, memory)) ==> !Fits(Values[j], cpus, memory)
  {
    FindFromFirstFit(cpus, memory, 0);
  }

  /** Non-economy `find` falls back to `m5_24xlarge`, the last declared type, when nothing fits. */
  lemma FindNothingFits(cpus: int, memory: int)
    requires forall t :: !Fits(t, cpus, memory)
    ensures Find(false, cpus, memory) == M5_24XLarge
  {
    FindFromFirstFit(cpus, memory, 0);
  }

  /** The economy scan agrees with the plain one up to `t2_large` and answers
      `t2_large` once it has passed it. */
  lemma {:induction false} EconomyFrom(cpus: int, memory: int, i: nat)
    requires i <= Ordinal(T2Large) + 1
    ensures var e := FindFrom(true, cpus, memory, i);
      var p := FindFrom(false, cpus, memory, i);
      if Ordinal(p) <= Ordinal(T2Large) then e == p else e == T2Large
    decreases |Values| - i
  {
    if i <= Ordinal(T2Large) && !Fits(Values[i], cpus, memory) {
      EconomyFrom(cpus, memory, i + 1);
    } else if i > Ordinal(T2Large) {
      FindFromFirstFit(cpus, memory, i);
    }
  }

  /** Economy `find` never returns a type declared after `t2_large`. */
  lemma EconomyCeiling(cpus: int, memory: int)
    ensures Ordinal(Find(true, cpus, memory)) <= Ordinal(T2Large)
  {
    EconomyFrom(cpus, memory, 0);
  }

  /** Economy and non-economy answers agree whenever the non-economy answer is at or
      before `t2_large`; otherwise the economy answer is `t2_large`. */
  lemma EconomyAgreement(cpus: int, memory: int)
    ensures Ordinal(Find(false, cpus, memory)) <= Ordinal(T2Large) ==> Find(true, cpus, memory) == Find(false, cpus, memory)
    ensures Ordinal(Find(false, cpus, memory)) > Ordinal(T2Large) ==> Find(true, cpus, memory) == T2Large
  {
    EconomyFrom(cpus, memory, 0);
  }

  /** An economy request larger than `t2_large` (4 CPUs, say) still gets `t2_large`,
      which does not satisfy it. */
  lemma EconomyOversizedRequest(memory: int)
    ensures Find(true, 4, memory) == T2Large
    ensures !Fits(Find(true, 4, memory), 4, memory)
  {
    EconomyFrom(4, memory, 0);
  }

  /** `m5_large` is never returned: `t2_large` has the same capacity and comes first. */
  lemma NeverM5Large(economy: bool, cpus: int, memory: int)
    ensures Find(economy, cpus, memory) != M5Large
  {
    FindFromFirstFit(cpus, memory, 0);
    EconomyFrom(cpus, memory, 0);
  }
}
