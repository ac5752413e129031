/** The traction of a consist, worked out twice: as a running total when the fleet is loaded, and vehicle by
    vehicle when a train is made from it. */
module Traction {
  import opened Wrappers

  datatype TractionStatus = Operational | Defective

  type int32 = x: int | -0x8000_0000 <= x < 0x8000_0000

  /** The largest value of a 32-bit float. */
  const FLOAT_MAX := 340282346638528859811704183484516925440.0

  datatype Body = Body(length: real, axles: int, mass: real, maxSpeed: int32, lambda: int)

  datatype Vehicle = Vehicle(typeUid: nat, vehicleType: string, subtype: string, capable: bool,
                             status: Option<TractionStatus>, force: Option<real>, power: Option<real>,
                             coupling: Option<bool>, body: Body)

  datatype Totals = Totals(tractionKn: real, powerKw: real)

  datatype Consist = Consist(lengthM: real, axles: int, massT: real, maxSpeedKmh: real, lambdaPct: real, totals: Totals)

  function Upper(s: string): (u: string)
    ensures |u| == |s|
  {
    seq(|s|, i requires 0 <= i < |s| => if 'a' <= s[i] <= 'z' then (s[i] - 'a') + 'A' else s[i])
  }

  predicate IsLocomotive(v: Vehicle) { Upper(v.vehicleType) == "LOCOMOTIVE" }

  predicate CapableType(v: Vehicle)
  {
    || IsLocomotive(v)
    || ((Upper(v.vehicleType) == "EMU_UNIT" || Upper(v.vehicleType) == "DMU_UNIT") && Upper(v.subtype) == "MOTOR")
  }

  /** What loading makes of every vehicle: its type says if it is capable, and if so, it has a status. */
  predicate Loaded(v: Vehicle)
  {
    v.capable == CapableType(v) && (v.capable <==> v.status.Some?)
  }

  predicate InOrder(v: Vehicle) { v.status.None? || v.status.value == Operational }

  function Force(v: Vehicle): real { if v.force.Some? then v.force.value else 0.0 }
  function Power(v: Vehicle): real { if v.power.Some? then v.power.value else 0.0 }

  /** The vehicles each of the two loops takes for working traction units. */
  predicate RegistryUnit(v: Vehicle) { v.capable && InOrder(v) }
  predicate TrainUnit(v: Vehicle) { (v.capable || v.force.Some? || v.power.Some?) && InOrder(v) }

  // ---- Which vehicles pull --------------------------------------------------------------------------

  type Unit = Vehicle -> bool
  type Amount = Vehicle -> real

  /** The working locomotives, by index. */
  function Locomotives(vs: seq<Vehicle>, unit: Unit): (ls: seq<nat>)
    ensures forall k :: 0 <= k < |ls| ==> ls[k] < |vs| && unit(vs[ls[k]]) && IsLocomotive(vs[ls[k]])
  {
    if vs == [] then []
    else
      var last := |vs| - 1;
      var ls := Locomotives(vs[..last], unit);
      assert forall k :: 0 <= k < |ls| ==> vs[..last][ls[k]] == vs[ls[k]];
      if unit(vs[last]) && IsLocomotive(vs[last]) then ls + [last] else ls
  }

  predicate SameType(vs: seq<Vehicle>, ls: seq<nat>)
    requires forall k :: 0 <= k < |ls| ==> ls[k] < |vs|
  {
    forall k :: 0 <= k < |ls| ==> vs[ls[k]].typeUid == vs[ls[0]].typeUid
  }

  /** Locomotives pull together only if all are of one type that is known to allow it. */
  predicate Coupled(vs: seq<Vehicle>, unit: Unit)
  {
    var ls := Locomotives(vs, unit);
    ls != [] && SameType(vs, ls) && vs[ls[0]].coupling == Some(true)
  }

  /** A working unit pulls unless it is a locomotive that only adds load. */
  predicate Pulls(vs: seq<Vehicle>, unit: Unit, i: nat)
    requires i < |vs|
  {
    unit(vs[i]) && (!IsLocomotive(vs[i]) || Coupled(vs, unit) || (Locomotives(vs, unit) != [] && i == Locomotives(vs, unit)[0]))
  }

  /** The sum, over the first n vehicles, of what those that pull provide. */
  function Pulled(vs: seq<Vehicle>, unit: Unit, amount: Amount, n: nat): real
    requires n <= |vs|
  {
    if n == 0 then 0.0
    else Pulled(vs, unit, amount, n - 1) + if Pulls(vs, unit, n - 1) then amount(vs[n - 1]) else 0.0
  }

  function Sum(xs: seq<real>): real
  {
    if xs == [] then 0.0 else Sum(xs[..|xs| - 1]) + xs[|xs| - 1]
  }

  // ---- Sums over the two kinds of unit --------------------------------------------------------------

  /** What working units other than locomotives provide. */
  function Plain(vs: seq<Vehicle>, unit: Unit, amount: Amount): real
  {
    if vs == [] then 0.0
    else
      var last := vs[|vs| - 1];
      Plain(vs[..|vs| - 1], unit, amount) + if unit(last) && !IsLocomotive(last) then amount(last) else 0.0
  }

  function SumAt(vs: seq<Vehicle>, ls: seq<nat>, amount: Amount): real
    requires forall k :: 0 <= k < |ls| ==> ls[k] < |vs|
  {
    if ls == [] then 0.0
    else SumAt(vs, ls[..|ls| - 1], amount) + amount(vs[ls[|ls| - 1]])
  }

  lemma {:induction false} LocomotivesPrefix(vs: seq<Vehicle>, n: nat, unit: Unit)
    requires n <= |vs|
    ensures var (ls, prefix) := (Locomotives(vs, unit), Locomotives(vs[..n], unit));
            && prefix <= ls
            && (forall k :: |prefix| <= k < |ls| ==> n <= ls[k])
    decreases |vs| - n
  {
    if n < |vs| {
      LocomotivesPrefix(vs, n + 1, unit);
      assert vs[..n + 1][..n] == vs[..n];
    } else {
      assert vs[..n] == vs;
    }
  }

  /** The last of the first n vehicles, as a locomotive and as one that pulls. */
  lemma LastPulls(vs: seq<Vehicle>, unit: Unit, n: nat)
    requires 0 < n <= |vs|
    ensures var (last, ls, ls') := (vs[n - 1], Locomotives(vs[..n - 1], unit), Locomotives(vs[..n], unit));
            && ls' == (if unit(last) && IsLocomotive(last) then ls + [n - 1] else ls)
            && (Pulls(vs, unit, n - 1) <==>
                  unit(last) && (!IsLocomotive(last) || Coupled(vs, unit) || ls == []))
  {
    hide IsLocomotive, SameType;
    assert vs[..n][..n - 1] == vs[..n - 1];
    LocomotivesPrefix(vs, n - 1, unit);
    LocomotivesPrefix(vs, n, unit);
  }

  lemma NoLocomotives(unit: Unit)
    ensures Locomotives([], unit) == []
  {
  }

  lemma PlainNext(vs: seq<Vehicle>, unit: Unit, amount: Amount, n: nat)
    requires 0 < n <= |vs|
    ensures Plain(vs[..n], unit, amount)
            == Plain(vs[..n - 1], unit, amount)
               + if unit(vs[n - 1]) && !IsLocomotive(vs[n - 1]) then amount(vs[n - 1]) else 0.0
  {
    assert vs[..n][..n - 1] == vs[..n - 1];
  }

  lemma SumAtNothing(vs: seq<Vehicle>, amount: Amount)
    ensures SumAt(vs, [], amount) == 0.0
  {
  }

  lemma SumAtNext(vs: seq<Vehicle>, ls: seq<nat>, amount: Amount, m: nat)
    requires m < |vs| && forall k :: 0 <= k < |ls| ==> ls[k] < |vs|
    ensures SumAt(vs, ls + [m], amount) == SumAt(vs, ls, amount) + amount(vs[m])
  {
    assert (ls + [m])[..|ls|] == ls;
  }

  function FromLocomotives(vs: seq<Vehicle>, unit: Unit, amount: Amount, n: nat): real
    requires n <= |vs|
  {
    var ls := Locomotives(vs[..n], unit);
    if ls == [] then 0.0 else if Coupled(vs, unit) then SumAt(vs, ls, amount) else amount(vs[ls[0]])
  }

  lemma FromLocomotivesNext(vs: seq<Vehicle>, unit: Unit, amount: Amount, n: nat)
    requires 0 < n <= |vs|
    ensures FromLocomotives(vs, unit, amount, n)
            == FromLocomotives(vs, unit, amount, n - 1)
               + if IsLocomotive(vs[n - 1]) && Pulls(vs, unit, n - 1) then amount(vs[n - 1]) else 0.0
  {
    hide IsLocomotive, Locomotives, SumAt, Pulls, Coupled;
    var (ls, ls', m) := (Locomotives(vs[..n - 1], unit), Locomotives(vs[..n], unit), n - 1);
    LastPulls(vs, unit, n);
    if unit(vs[m]) && IsLocomotive(vs[m]) {
      assert ls' == ls + [m] && ls'[0] == if ls == [] then m else ls[0];
      SumAtNext(vs, ls, amount, m);
      SumAtNothing(vs, amount);
    }
  }

  /** The sum over all pulling vehicles is the plain units, and the locomotives: all if coupled, or the first. */
  lemma {:induction false} PulledSplits(vs: seq<Vehicle>, unit: Unit, amount: Amount, n: nat)
    requires n <= |vs|
    ensures Pulled(vs, unit, amount, n) == Plain(vs[..n], unit, amount) + FromLocomotives(vs, unit, amount, n)
    decreases n
  {
    if n == 0 {
      assert vs[..n] == [];
      hide Pulls, Coupled;
    } else {
      PulledSplits(vs, unit, amount, n - 1);
      LastPulls(vs, unit, n);
      PlainNext(vs, unit, amount, n);
      FromLocomotivesNext(vs, unit, amount, n);
      hide IsLocomotive, Locomotives, Plain, FromLocomotives, Pulls, Coupled;
    }
  }

  // ---- The two ways agree, or not -------------------------------------------------------------------

  /** The force of vehicles that pull in the train although they are not traction capable. */
  function Uncounted(vs: seq<Vehicle>): real
  {
    if vs == [] then 0.0
    else
      var last := vs[|vs| - 1];
      Uncounted(vs[..|vs| - 1]) + if last.capable then 0.0 else Force(last)
  }

  lemma {:induction false} SameLocomotives(vs: seq<Vehicle>)
    requires forall i :: 0 <= i < |vs| ==> Loaded(vs[i])
    ensures Locomotives(vs, TrainUnit) == Locomotives(vs, RegistryUnit)
  {
    if vs != [] {
      var last := vs[|vs| - 1];
      SameLocomotives(vs[..|vs| - 1]);
      assert Loaded(last);
      assert IsLocomotive(last) ==> (TrainUnit(last) <==> RegistryUnit(last));
    }
  }

  lemma {:induction false} PulledDiffers(vs: seq<Vehicle>, n: nat)
    requires n <= |vs| && forall i :: 0 <= i < |vs| ==> Loaded(vs[i])
    ensures Pulled(vs, TrainUnit, Force, n) == Pulled(vs, RegistryUnit, Force, n) + Uncounted(vs[..n])
  {
    if n > 0 {
      var last := vs[n - 1];
      PulledDiffers(vs, n - 1);
      assert vs[..n][..n - 1] == vs[..n - 1];
      SameLocomotives(vs);
      assert Loaded(last);
      hide Locomotives, IsLocomotive;
      assert Coupled(vs, TrainUnit) <==> Coupled(vs, RegistryUnit);
      assert !last.capable ==> !IsLocomotive(last);
    }
  }

  /** The contributions of a train, as the making of a train promises them. */
  predicate Contributions(vs: seq<Vehicle>, contrib: seq<real>)
  {
    |contrib| == |vs|
    && forall i :: 0 <= i < |vs| ==> contrib[i] == if Pulls(vs, TrainUnit, i) then Force(vs[i]) else 0.0
  }

  lemma {:induction false} SumOfContributions(vs: seq<Vehicle>, contrib: seq<real>, n: nat)
    requires n <= |vs| && Contributions(vs, contrib)
    ensures Sum(contrib[..n]) == Pulled(vs, TrainUnit, Force, n)
  {
    if n > 0 {
      SumOfContributions(vs, contrib, n - 1);
      assert contrib[..n][..n - 1] == contrib[..n - 1];
    }
  }

  /** For every consist of loaded vehicles, whatever their locomotives, defects and couplings, the contributions
      exceed the registry's total by the force of vehicles that are not traction capable. So the two agree
      exactly when those forces add up to nothing. */
  lemma TractionAgreesIff(vs: seq<Vehicle>, contrib: seq<real>)
    requires Contributions(vs, contrib) && forall i :: 0 <= i < |vs| ==> Loaded(vs[i])
    ensures Sum(contrib) == Pulled(vs, RegistryUnit, Force, |vs|) + Uncounted(vs)
    ensures Sum(contrib) == Pulled(vs, RegistryUnit, Force, |vs|) <==> Uncounted(vs) == 0.0
  {
    SumOfContributions(vs, contrib, |vs|);
    PulledDiffers(vs, |vs|);
    assert vs[..|vs|] == vs && contrib[..|vs|] == contrib;
  }

  /** With forces that are not negative, it takes a vehicle with a force that is not traction capable. */
  lemma {:induction false} UncountedIff(vs: seq<Vehicle>)
    requires forall i :: 0 <= i < |vs| ==> Force(vs[i]) >= 0.0
    ensures Uncounted(vs) >= 0.0
    ensures Uncounted(vs) == 0.0 <==> forall i :: 0 <= i < |vs| && !vs[i].capable ==> Force(vs[i]) == 0.0
  {
    if vs != [] {
      var front := vs[..|vs| - 1];
      UncountedIff(front);
      assert forall i :: 0 <= i < |front| ==> front[i] == vs[i];
      assert forall i :: 0 <= i < |vs| ==> i == |front| || vs[i] == front[i];
    }
  }

  /** A coach with a tractive force. */
  const COACH := Vehicle(0, "COACH", "", false, None, Some(1.0), None, None, Body(26.4, 4, 40.0, 160, 100))

  /** A vehicle that loading accepts, and for which the two disagree. */
  lemma CoachDisagrees(contrib: seq<real>)
    requires Contributions([COACH], contrib)
    ensures Loaded(COACH)
    ensures Sum(contrib) == 1.0 && Pulled([COACH], RegistryUnit, Force, 1) == 0.0
  {
    assert Upper("COACH")[0] == 'C' && "LOCOMOTIVE"[0] == 'L' && "EMU_UNIT"[0] == 'E' && "DMU_UNIT"[0] == 'D';
    assert Loaded(COACH);
    TractionAgreesIff([COACH], contrib);
    assert [COACH][..0] == [];
    assert Uncounted([COACH]) == Uncounted([COACH][..0]) + 1.0;
    assert !Pulls([COACH], RegistryUnit, 0);
    hide Loaded, Contributions;
  }

  // ---- The policy, vehicle by vehicle ---------------------------------------------------------------

  lemma {:induction false} EveryLocomotiveListed(vs: seq<Vehicle>, unit: Unit, i: nat)
    requires i < |vs| && unit(vs[i]) && IsLocomotive(vs[i])
    ensures i in Locomotives(vs, unit)
  {
    if i < |vs| - 1 {
      EveryLocomotiveListed(vs[..|vs| - 1], unit, i);
    }
  }

  lemma {:induction false} LocomotivesAscend(vs: seq<Vehicle>, unit: Unit)
    ensures var ls := Locomotives(vs, unit); forall k, l :: 0 <= k < l < |ls| ==> ls[k] < ls[l]
  {
    if vs != [] {
      var front := vs[..|vs| - 1];
      LocomotivesAscend(front, unit);
      assert forall k :: 0 <= k < |Locomotives(front, unit)| ==> Locomotives(front, unit)[k] < |front|;
    }
  }

  predicate WorkingLocomotive(vs: seq<Vehicle>, unit: Unit, k: nat)
  {
    k < |vs| && unit(vs[k]) && IsLocomotive(vs[k])
  }

  /** Vehicle j is the first working locomotive, and every other one is of its type, which is known to allow
      coupling. */
  ghost predicate CoupledBehind(vs: seq<Vehicle>, unit: Unit, j: nat)
  {
    && WorkingLocomotive(vs, unit, j)
    && (forall k: nat :: k < j ==> !WorkingLocomotive(vs, unit, k))
    && vs[j].coupling == Some(true)
    && (forall k: nat :: WorkingLocomotive(vs, unit, k) ==> vs[k].typeUid == vs[j].typeUid)
  }

  /** A working locomotive pulls exactly if it is the first one, or all are coupled. */
  lemma LocomotivePullsIff(vs: seq<Vehicle>, unit: Unit, i: nat)
    requires WorkingLocomotive(vs, unit, i)
    ensures Pulls(vs, unit, i) <==>
              || (forall k: nat :: k < i ==> !WorkingLocomotive(vs, unit, k))
              || (exists j: nat :: CoupledBehind(vs, unit, j))
  {
    var ls := Locomotives(vs, unit);
    LocomotivesAscend(vs, unit);
    forall k: nat | WorkingLocomotive(vs, unit, k)
      ensures k in ls && ls[0] <= k
    {
      EveryLocomotiveListed(vs, unit, k);
    }
    assert WorkingLocomotive(vs, unit, ls[0]);
    hide IsLocomotive, Locomotives;
    forall j: nat | CoupledBehind(vs, unit, j)
      ensures Coupled(vs, unit)
    {
      assert j == ls[0];
      assert forall k :: 0 <= k < |ls| ==> WorkingLocomotive(vs, unit, ls[k]);
    }
    if Coupled(vs, unit) {
      forall k: nat | WorkingLocomotive(vs, unit, k)
        ensures vs[k].typeUid == vs[ls[0]].typeUid
      {
        assert k in ls;
      }
      assert CoupledBehind(vs, unit, ls[0]);
    }
  }

  /** Any other vehicle pulls exactly if it works; it works for the registry if it is capable and not defective,
      and for a train also if it has a force or a power and is not defective. */
  lemma OthersPullIff(vs: seq<Vehicle>, i: nat)
    requires i < |vs|
    ensures var v := vs[i];
            && (Pulls(vs, RegistryUnit, i) ==> v.capable && v.status != Some(Defective))
            && (Pulls(vs, TrainUnit, i) ==> (v.capable || v.force.Some? || v.power.Some?) && v.status != Some(Defective))
            && (!IsLocomotive(v) && v.capable && v.status != Some(Defective) ==> Pulls(vs, RegistryUnit, i))
            && (!IsLocomotive(v) && (v.capable || v.force.Some? || v.power.Some?) && v.status != Some(Defective) ==>
                  Pulls(vs, TrainUnit, i))
  {
    hide IsLocomotive, Coupled, Locomotives;
  }

  /** A defective vehicle contributes nothing, in either way. */
  lemma DefectiveGivesNothing(vs: seq<Vehicle>, contrib: seq<real>, i: nat)
    requires i < |vs| && vs[i].status == Some(Defective) && Contributions(vs, contrib)
    ensures contrib[i] == 0.0 && !Pulls(vs, RegistryUnit, i)
    ensures Pulled(vs, RegistryUnit, Force, i + 1) == Pulled(vs, RegistryUnit, Force, i)
    ensures Pulled(vs, RegistryUnit, Power, i + 1) == Pulled(vs, RegistryUnit, Power, i)
  {
    OthersPullIff(vs, i);
    hide Pulls;
  }

  lemma {:induction false} PulledAlone(vs: seq<Vehicle>, unit: Unit, amount: Amount, i: nat, n: nat)
    requires i < |vs| && n <= |vs| && Pulls(vs, unit, i)
    requires forall k: nat :: k < |vs| && k != i ==> !Pulls(vs, unit, k)
    ensures Pulled(vs, unit, amount, n) == if i < n then amount(vs[i]) else 0.0
  {
    hide Pulls;
    if n > 0 {
      PulledAlone(vs, unit, amount, i, n - 1);
    }
  }

  /** A consist with one working locomotive, and no other working unit, has exactly its force and power. */
  lemma OneLocomotive(vs: seq<Vehicle>, i: nat)
    requires i < |vs| && IsLocomotive(vs[i]) && vs[i].capable && vs[i].status != Some(Defective)
    requires forall k: nat :: k < |vs| && k != i ==> !vs[k].capable || vs[k].status == Some(Defective)
    ensures Pulled(vs, RegistryUnit, Force, |vs|) == Force(vs[i]) && Pulled(vs, RegistryUnit, Power, |vs|) == Power(vs[i])
  {
    forall k: nat | k < |vs| && k != i
      ensures !Pulls(vs, RegistryUnit, k) && !WorkingLocomotive(vs, RegistryUnit, k)
    {
      OthersPullIff(vs, k);
    }
    LocomotivePullsIff(vs, RegistryUnit, i);
    hide Pulls, WorkingLocomotive;
    PulledAlone(vs, RegistryUnit, Force, i, |vs|);
    PulledAlone(vs, RegistryUnit, Power, i, |vs|);
  }

  /** The type of a locomotive may be written in any case. */
  lemma LocomotiveInAnyCase(v: Vehicle)
    requires v.vehicleType == "Locomotive" || v.vehicleType == "locomotive" || v.vehicleType == "LOCOMOTIVE"
    ensures IsLocomotive(v)
  {
    assert Upper("Locomotive") == "LOCOMOTIVE" && Upper("locomotive") == "LOCOMOTIVE" && Upper("LOCOMOTIVE") == "LOCOMOTIVE";
  }

  // ---- Length, mass, speed and braking --------------------------------------------------------------

  /** What the loop over the vehicles sums up beside traction, and the least speed it has met. */
  datatype Running = Running(length: real, axles: int, mass: real, slowest: real, lambdaMass: real)

  const NOTHING := Running(0.0, 0, 0.0, FLOAT_MAX, 0.0)

  function Product(x: real, y: real): real { x * y }

  function Added(r: Running, b: Body): Running
  {
    Running(r.length + b.length, r.axles + b.axles, r.mass + b.mass,
            if b.maxSpeed as real < r.slowest then b.maxSpeed as real else r.slowest,
            r.lambdaMass + Product(b.lambda as real, b.mass))
  }

  function Summed(vs: seq<Vehicle>): Running
  {
    if vs == [] then NOTHING else Added(Summed(vs[..|vs| - 1]), vs[|vs| - 1].body)
  }

  lemma SummedNext(vs: seq<Vehicle>, v: Vehicle)
    ensures Summed(vs + [v]) == Added(Summed(vs), v.body)
  {
    assert (vs + [v])[..|vs|] == vs;
  }

  lemma {:induction false} SlowestAtMost(vs: seq<Vehicle>)
    ensures Summed(vs).slowest <= FLOAT_MAX
  {
    if vs != [] {
      SlowestAtMost(vs[..|vs| - 1]);
    }
  }

  /** What two halves of a consist sum up to, together; and what one vehicle does. */
  lemma {:induction false} SummedTogether(vs: seq<Vehicle>, ws: seq<Vehicle>)
    ensures var (a, b, all) := (Summed(vs), Summed(ws), Summed(vs + ws));
            && all.length == a.length + b.length && all.axles == a.axles + b.axles && all.mass == a.mass + b.mass
            && all.lambdaMass == a.lambdaMass + b.lambdaMass
            && all.slowest == if a.slowest < b.slowest then a.slowest else b.slowest
  {
    if ws == [] {
      assert vs + ws == vs;
      SlowestAtMost(vs);
    } else {
      var front := ws[..|ws| - 1];
      SummedTogether(vs, front);
      assert (vs + ws)[..|vs + ws| - 1] == vs + front;
    }
  }

  lemma SummedOne(v: Vehicle)
    ensures Summed([v]) == Running(v.body.length, v.body.axles, v.body.mass, v.body.maxSpeed as real, v.body.lambda as real * v.body.mass)
  {
    assert [v][..0] == [];
  }

  function SpeedOf(r: Running): real { if r.slowest == FLOAT_MAX then 0.0 else r.slowest }
  function LambdaOf(r: Running): real { if r.mass > 0.0 then r.lambdaMass / r.mass else 0.0 }

  /** A consist is as fast as its slowest vehicle. */
  lemma {:induction false} SlowestVehicle(vs: seq<Vehicle>)
    ensures vs == [] ==> Summed(vs).slowest == FLOAT_MAX
    ensures vs != [] ==>
              && SpeedOf(Summed(vs)) == Summed(vs).slowest
              && (forall i :: 0 <= i < |vs| ==> SpeedOf(Summed(vs)) <= vs[i].body.maxSpeed as real)
              && (exists i :: 0 <= i < |vs| && SpeedOf(Summed(vs)) == vs[i].body.maxSpeed as real)
  {
    if vs != [] {
      var (front, last) := (vs[..|vs| - 1], |vs| - 1);
      SlowestVehicle(front);
      assert forall i :: 0 <= i < |vs| ==> i == last || vs[i] == front[i];
      if front != [] && Summed(front).slowest <= vs[last].body.maxSpeed as real {
        var i :| 0 <= i < |front| && SpeedOf(Summed(front)) == front[i].body.maxSpeed as real;
        assert vs[i] == front[i];
      }
    }
  }

  lemma ProductSpreads(x: real, y: real, m: real, n: real)
    requires x <= y && n >= 0.0
    ensures Product(x, m + n) == Product(x, m) + Product(x, n) && Product(x, n) <= Product(y, n)
  {
    if x < y && n > 0.0 {
      assert (y - x) * n > 0.0;
    } else if n == 0.0 {
      assert x * n == 0.0 == y * n;
    }
  }

  lemma {:induction false} MassesBetween(vs: seq<Vehicle>, lo: int, hi: int)
    requires forall i :: 0 <= i < |vs| ==> vs[i].body.mass >= 0.0 && lo <= vs[i].body.lambda <= hi
    ensures var r := Summed(vs); Product(lo as real, r.mass) <= r.lambdaMass <= Product(hi as real, r.mass)
  {
    if vs == [] {
      assert Product(lo as real, 0.0) == 0.0 == Product(hi as real, 0.0);
    } else {
      var (front, b) := (vs[..|vs| - 1], vs[|vs| - 1].body);
      MassesBetween(front, lo, hi);
      ProductSpreads(lo as real, b.lambda as real, Summed(front).mass, b.mass);
      ProductSpreads(b.lambda as real, hi as real, Summed(front).mass, b.mass);
      ProductSpreads(hi as real, hi as real, Summed(front).mass, b.mass);
      hide Product;
    }
  }

  lemma ProductOrder(x: real, y: real, m: real)
    requires m > 0.0
    ensures x < y <==> Product(x, m) < Product(y, m)
  {
    if x < y {
      assert (y - x) * m > 0.0;
    } else if y < x {
      assert (x - y) * m > 0.0;
    }
  }

  lemma QuotientBetween(p: real, m: real, lo: real, hi: real)
    requires m > 0.0 && Product(lo, m) <= p <= Product(hi, m)
    ensures lo <= p / m <= hi
  {
    var q := p / m;
    assert Product(q, m) == p;
    ProductOrder(q, lo, m);
    ProductOrder(hi, q, m);
    hide Product;
  }

  /** The braking percentage is the mean of those of the vehicles, by mass; without a mass it is zero. */
  lemma LambdaIsMean(vs: seq<Vehicle>)
    ensures var r := Summed(vs); if r.mass > 0.0 then LambdaOf(r) * r.mass == r.lambdaMass else LambdaOf(r) == 0.0
  {
  }

  /** The braking percentage is a mean: it lies between any bounds of those of the vehicles. */
  lemma LambdaBetween(vs: seq<Vehicle>, lo: int, hi: int)
    requires forall i :: 0 <= i < |vs| ==> vs[i].body.mass >= 0.0 && lo <= vs[i].body.lambda <= hi
    requires Summed(vs).mass > 0.0
    ensures lo as real <= LambdaOf(Summed(vs)) <= hi as real
  {
    MassesBetween(vs, lo, hi);
    var r := Summed(vs);
    QuotientBetween(r.lambdaMass, r.mass, lo as real, hi as real);
  }

  // ---- The code -------------------------------------------------------------------------------------

  ghost predicate Named(vs: seq<Vehicle>, ls: seq<nat>, locomotives: seq<Vehicle>)
  {
    |locomotives| == |ls| && forall k :: 0 <= k < |ls| ==> ls[k] < |vs| && locomotives[k] == vs[ls[k]]
  }

  /** What the first loop knows of the vehicles it has seen. */
  ghost predicate Gathered(vs: seq<Vehicle>, plain: Totals, locomotives: seq<Vehicle>)
  {
    && plain == Totals(Plain(vs, RegistryUnit, Force), Plain(vs, RegistryUnit, Power))
    && Named(vs, Locomotives(vs, RegistryUnit), locomotives)
  }

  lemma NothingYet()
    ensures Gathered([], Totals(0.0, 0.0), [])
    ensures Summed([]) == NOTHING
  {
  }

  lemma OneMore(vs: seq<Vehicle>, plain: Totals, locomotives: seq<Vehicle>, v: Vehicle)
    requires Gathered(vs, plain, locomotives)
    ensures Gathered(vs + [v],
                     if RegistryUnit(v) && !IsLocomotive(v)
                     then Totals(plain.tractionKn + Force(v), plain.powerKw + Power(v)) else plain,
                     if RegistryUnit(v) && IsLocomotive(v) then locomotives + [v] else locomotives)
  {
    hide IsLocomotive, Force, Power;
    assert (vs + [v])[..|vs|] == vs;
  }

  lemma NothingSummed(vs: seq<Vehicle>, unit: Unit)
    ensures SumAt(vs, [], Force) == 0.0 && SumAt(vs, [], Power) == 0.0
    ensures Locomotives(vs, unit) != [] ==>
              (Coupled(vs, unit) <==> SameType(vs, Locomotives(vs, unit)) && vs[Locomotives(vs, unit)[0]].coupling == Some(true))
  {
  }

  method SumEach(locomotives: seq<Vehicle>, ghost vs: seq<Vehicle>, ghost ls: seq<nat>) returns (t: Totals)
    requires Named(vs, ls, locomotives)
    ensures t == Totals(SumAt(vs, ls, Force), SumAt(vs, ls, Power))
  {
    hide SumAt, Force, Power;
    t := Totals(0.0, 0.0);
    NothingSummed(vs, RegistryUnit);
    for k := 0 to |locomotives|
      invariant t == Totals(SumAt(vs, ls[..k], Force), SumAt(vs, ls[..k], Power))
    {
      SumAtNext(vs, ls[..k], Force, ls[k]);
      SumAtNext(vs, ls[..k], Power, ls[k]);
      assert ls[..k + 1] == ls[..k] + [ls[k]];
      t := Totals(t.tractionKn + Force(locomotives[k]), t.powerKw + Power(locomotives[k]));
    }
    assert ls[..|locomotives|] == ls;
  }

  /** What the working locomotives of a consist add to its totals. */
  method LocomotiveTraction(locomotives: seq<Vehicle>, ghost vs: seq<Vehicle>) returns (t: Totals)
    requires Named(vs, Locomotives(vs, RegistryUnit), locomotives)
    ensures t == Totals(FromLocomotives(vs, RegistryUnit, Force, |vs|), FromLocomotives(vs, RegistryUnit, Power, |vs|))
  {
    ghost var ls := Locomotives(vs, RegistryUnit);
    assert vs[..|vs|] == vs;
    NothingSummed(vs, RegistryUnit);
    hide IsLocomotive, Locomotives, RegistryUnit, SumAt, Force, Power, Coupled;
    t := Totals(0.0, 0.0);
    if locomotives == [] {
      return;
    }
    var first := locomotives[0];
    if |locomotives| == 1 {
      SumAtNext(vs, [], Force, ls[0]);
      SumAtNext(vs, [], Power, ls[0]);
      assert ls == [] + [ls[0]];
      return Totals(Force(first), Power(first));
    }
    var sameType := forall k :: 0 <= k < |locomotives| ==> locomotives[k].typeUid == first.typeUid;
    assert sameType <==> SameType(vs, ls);
    hide SameType;
    if sameType && first.coupling.Some? && first.coupling.value {
      t := SumEach(locomotives, vs, ls);
    } else {
      t := Totals(Force(first), Power(first));
    }
  }

  class FleetRegistry {
    var vehicles: map<nat, Vehicle>

    constructor (vehicles: map<nat, Vehicle>)
      ensures this.vehicles == vehicles
    {
      this.vehicles := vehicles;
    }

    function VehiclesOf(uids: seq<nat>): seq<Vehicle>
      reads this
      requires forall i :: 0 <= i < |uids| ==> uids[i] in vehicles
    {
      seq(|uids|, i requires 0 <= i < |uids| reads this requires uids[i] in vehicles => vehicles[uids[i]])
    }

    /** The totals of a consist, or the reason it is refused. */
    method LoadConsist(uids: seq<nat>) returns (r: Result<Consist>)
      ensures r.Success? <==> uids != [] && forall i :: 0 <= i < |uids| ==> uids[i] in vehicles
      ensures r.Success? ==>
                var vs := VehiclesOf(uids);
                && r.value.totals == Totals(Pulled(vs, RegistryUnit, Force, |vs|), Pulled(vs, RegistryUnit, Power, |vs|))
                && var sum := Summed(vs);
                   r.value == Consist(sum.length, sum.axles, sum.mass, SpeedOf(sum), LambdaOf(sum), r.value.totals)
    {
      hide IsLocomotive, Pulls, Coupled, Pulled, Plain, Locomotives, FromLocomotives, Named, Summed, Product;
      var (length, axles, mass) := (0.0, 0, 0.0);
      var (maxSpeed, lambdaMass) := (FLOAT_MAX, 0.0);
      var plain := Totals(0.0, 0.0);
      var locomotives: seq<Vehicle> := [];
      var i := 0;
      NothingYet();
      assert VehiclesOf(uids[..i]) == [];
      while i < |uids|
        invariant i <= |uids|
        invariant forall k :: 0 <= k < i ==> uids[k] in vehicles
        invariant Gathered(VehiclesOf(uids[..i]), plain, locomotives)
        invariant Running(length, axles, mass, maxSpeed, lambdaMass) == Summed(VehiclesOf(uids[..i]))
      {
        if uids[i] !in vehicles {
          return Failure("unknown vehicle uid");
        }
        var vehicle := vehicles[uids[i]];
        OneMore(VehiclesOf(uids[..i]), plain, locomotives, vehicle);
        assert VehiclesOf(uids[..i + 1]) == VehiclesOf(uids[..i]) + [vehicle];
        SummedNext(VehiclesOf(uids[..i]), vehicle);
        length := length + vehicle.body.length;
        axles := axles + vehicle.body.axles;
        mass := mass + vehicle.body.mass;
        if vehicle.body.maxSpeed as real < maxSpeed {
          maxSpeed := vehicle.body.maxSpeed as real;
        }
        var operational := vehicle.status.None? || vehicle.status.value == Operational;
        if vehicle.capable && operational {
          if IsLocomotive(vehicle) {
            locomotives := locomotives + [vehicle];
          } else {
            plain := Totals(plain.tractionKn + Force(vehicle), plain.powerKw + Power(vehicle));
          }
        }
        lambdaMass := lambdaMass + Product(vehicle.body.lambda as real, vehicle.body.mass);
        i := i + 1;
      }
      assert uids[..i] == uids;
      ghost var vs := VehiclesOf(uids);
      var more := LocomotiveTraction(locomotives, vs);
      assert vs[..|vs|] == vs;
      PulledSplits(vs, RegistryUnit, Force, |vs|);
      PulledSplits(vs, RegistryUnit, Power, |vs|);
      if uids == [] {
        return Failure("no vehicles");
      }
      if maxSpeed == FLOAT_MAX {
        maxSpeed := 0.0;
      }
      var lambda := if mass > 0.0 then lambdaMass / mass else 0.0;
      r := Success(Consist(length, axles, mass, maxSpeed, lambda,
                           Totals(plain.tractionKn + more.tractionKn, plain.powerKw + more.powerKw)));
    }
  }

  method AddEach(vs: seq<Vehicle>, locomotives: seq<nat>, contrib: array<real>)
    requires contrib.Length == |vs| && forall k :: 0 <= k < |locomotives| ==> locomotives[k] < |vs|
    modifies contrib
    ensures forall i :: 0 <= i < |vs| ==> contrib[i] == if i in locomotives then Force(vs[i]) else old(contrib[i])
  {
    hide Force;
    var k := 0;
    while k < |locomotives|
      invariant k <= |locomotives|
      invariant forall i :: 0 <= i < |vs| ==>
                  contrib[i] == if i in locomotives[..k] then Force(vs[i]) else old(contrib[i])
    {
      assert locomotives[..k + 1] == locomotives[..k] + [locomotives[k]];
      contrib[locomotives[k]] := Force(vs[locomotives[k]]);
      k := k + 1;
    }
    assert locomotives[..k] == locomotives;
  }

  /** What a vehicle contributes if no locomotives are counted. */
  function PlainShare(v: Vehicle): real
  {
    if TrainUnit(v) && !IsLocomotive(v) then Force(v) else 0.0
  }

  method AddLocomotives(vs: seq<Vehicle>, locomotives: seq<nat>, contrib: array<real>)
    requires locomotives == Locomotives(vs, TrainUnit) && contrib.Length == |vs|
    requires forall k :: 0 <= k < |vs| ==> contrib[k] == PlainShare(vs[k])
    modifies contrib
    ensures Contributions(vs, contrib[..])
  {
    forall i | 0 <= i < |vs| && TrainUnit(vs[i]) && IsLocomotive(vs[i])
      ensures i in locomotives
    {
      EveryLocomotiveListed(vs, TrainUnit, i);
    }
    hide IsLocomotive, Locomotives, TrainUnit, Force;
    if locomotives == [] {
      return;
    }
    var first := locomotives[0];
    if |locomotives| == 1 {
      contrib[first] := Force(vs[first]);
      return;
    }
    var sameType := SameType(vs, locomotives);
    if sameType && vs[first].coupling.Some? && vs[first].coupling.value {
      hide SameType;
      AddEach(vs, locomotives, contrib);
    } else {
      contrib[first] := Force(vs[first]);
    }
  }

  /** The contributions of all but locomotives, and the indices of those. */
  method PlainContributions(vs: seq<Vehicle>, contrib: array<real>) returns (locomotives: seq<nat>)
    requires contrib.Length == |vs|
    modifies contrib
    ensures locomotives == Locomotives(vs, TrainUnit)
    ensures forall k :: 0 <= k < |vs| ==> contrib[k] == PlainShare(vs[k])
  {
    hide IsLocomotive, Force, Locomotives, Pulls;
    NoLocomotives(TrainUnit);
    assert vs[..0] == [];
    locomotives := [];
    for i := 0 to |vs|
      invariant locomotives == Locomotives(vs[..i], TrainUnit)
      invariant forall k :: 0 <= k < i ==> contrib[k] == PlainShare(vs[k])
    {
      LastPulls(vs, TrainUnit, i + 1);
      var traction := 0.0;
      if TrainUnit(vs[i]) && !IsLocomotive(vs[i]) {
        traction := Force(vs[i]);
      }
      if TrainUnit(vs[i]) && IsLocomotive(vs[i]) {
        locomotives := locomotives + [i];
      }
      assert traction == PlainShare(vs[i]);
      hide PlainShare, TrainUnit;
      contrib[i] := traction;
    }
    assert vs[..|vs|] == vs;
  }

  /** The traction of each vehicle of a train; refused without vehicles or with a wrong number of them. */
  method TractionContributions(vs: seq<Vehicle>, vehicleUids: nat) returns (r: Result<array<real>>)
    ensures r.Success? <==> vs != [] && |vs| == vehicleUids
    ensures r.Success? ==> fresh(r.value) && Contributions(vs, r.value[..])
  {
    if |vs| == 0 {
      return Failure("at least one vehicle");
    }
    if |vs| != vehicleUids {
      return Failure("as many vehicles as uids");
    }
    hide PlainShare, Locomotives, Contributions;
    var contrib := new real[|vs|];
    var locomotives := PlainContributions(vs, contrib);
    AddLocomotives(vs, locomotives, contrib);
    r := Success(contrib);
  }
}
