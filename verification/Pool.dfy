/**
 The pre-warmed VM pool.  Callers acquire and release under a lock; a background
 thread plans under the lock, boots VMs outside it, and pushes them under it again.
 Every critical section is one atomic step, and the lemmas hold for every
 interleaving of the steps, including those between planning and pushing.
 */
module Pool {
  import opened Wrappers

  datatype WarmVm = WarmVm(id: nat, warmedAt: nat)

  datatype Config = Config(maxPoolSize: nat, maxIdleTime: nat)

  datatype Stats = Stats(readyCount: nat, totalAssigned: nat, totalCreated: nat, totalExpired: nat, poolMisses: nat)

  /** The state behind the lock. */
  datatype Inner = Inner(ready: seq<WarmVm>, stats: Stats, shutdown: bool, nextId: nat, targetSize: nat)

  function NewInner(target: nat): (p: Inner) {
    Inner([], Stats(0, 0, 0, 0, 0), false, 1, target)
  }

  function Min(a: nat, b: nat): (r: nat) {
    if a <= b then a else b
  }

  function SatSub(a: nat, b: nat): (r: nat) {
    if a >= b then a - b else 0
  }

  // ---------------------------------------------------------------- the critical sections

  /** `acquire`, and the second half of `acquire_timeout`. */
  function Take(p: Inner): (p': Inner) {
    if p.ready == [] then p.(stats := p.stats.(poolMisses := p.stats.poolMisses + 1))
    else TakeFront(p)
  }

  function TakeFront(p: Inner): (p': Inner)
    requires p.ready != []
  {
    p.(ready := p.ready[1..],
       stats := p.stats.(totalAssigned := p.stats.totalAssigned + 1, readyCount := |p.ready| - 1))
  }

  /** `release`: a VM returned to a full pool is dropped. */
  function GiveBack(c: Config, p: Inner, vm: WarmVm): (p': Inner) {
    if |p.ready| < c.maxPoolSize then
      p.(ready := p.ready + [vm], stats := p.stats.(readyCount := |p.ready| + 1))
    else p
  }

  predicate Live(c: Config, now: nat, vm: WarmVm) {
    SatSub(now, vm.warmedAt) < c.maxIdleTime
  }

  /** `retain` of the VMs that have not idled out. */
  function Retain(c: Config, now: nat, vms: seq<WarmVm>): (kept: seq<WarmVm>)
    ensures |kept| <= |vms|
  {
    if vms == [] then []
    else (if Live(c, now, vms[0]) then [vms[0]] else []) + Retain(c, now, vms[1..])
  }

  function Goal(c: Config, p: Inner): (n: nat) {
    Min(p.targetSize, c.maxPoolSize)
  }

  /** The identifiers `first`, `first + 1`, ... handed out by a plan. */
  function Fresh(first: nat, n: nat): (ids: seq<nat>)
    ensures |ids| == n && forall i :: 0 <= i < n ==> ids[i] == first + i
  {
    seq(n, i => first + i)
  }

  function Needed(c: Config, now: nat, p: Inner): (n: nat) {
    SatSub(Goal(c, p), |Retain(c, now, p.ready)|)
  }

  /** Expire idle VMs and reserve identifiers for the missing ones. */
  function Plan(c: Config, now: nat, p: Inner): (p': Inner) {
    var kept := Retain(c, now, p.ready);
    p.(ready := kept, nextId := p.nextId + Needed(c, now, p),
       stats := p.stats.(totalExpired := p.stats.totalExpired + (|p.ready| - |kept|), readyCount := |kept|))
  }

  /** Push new VMs while there is room; the others are dropped. */
  function Push(c: Config, p: Inner, vms: seq<WarmVm>): (p': Inner) {
    if vms == [] then p
    else
      var n := Min(|vms|, SatSub(c.maxPoolSize, |p.ready|));
      p.(ready := p.ready + vms[..n],
         stats := p.stats.(totalCreated := p.stats.totalCreated + n, readyCount := |p.ready| + n))
  }

  // ---------------------------------------------------------------- the system

  /** The background thread: idle, or between planning and pushing. */
  datatype Replenisher = Idle | Building(ids: seq<nat>, built: seq<WarmVm>)

  /** `held` are the VMs that callers own; `accepted` counts releases that re-entered the pool. */
  datatype System = System(inner: Inner, repl: Replenisher, held: seq<WarmVm>, accepted: nat, clock: nat)

  datatype Step =
    | Acquire
    | FirstTry
    | Release(k: nat)
    | SetTarget(n: nat)
    | Shutdown
    | StartReplenish
    | Boot
    | Finish
    | Tick(now: nat)

  predicate Enabled(s: System, a: Step) {
    match a
    case Release(k) => k < |s.held|
    case StartReplenish => s.repl.Idle? && !s.inner.shutdown
    case Boot => s.repl.Building? && s.repl.ids != []
    case Finish => s.repl.Building? && s.repl.ids == []
    case Tick(now) => now >= s.clock
    case _ => true
  }

  function Do(c: Config, s: System, a: Step): (s': System)
    requires Enabled(s, a)
  {
    match a
    case Acquire =>
      s.(inner := Take(s.inner), held := if s.inner.ready == [] then s.held else s.held + [s.inner.ready[0]])
    case FirstTry =>
      if s.inner.ready == [] then s
      else s.(inner := TakeFront(s.inner), held := s.held + [s.inner.ready[0]])
    case Release(k) =>
      s.(inner := GiveBack(c, s.inner, s.held[k]), held := s.held[..k] + s.held[k + 1..],
         accepted := s.accepted + if |s.inner.ready| < c.maxPoolSize then 1 else 0)
    case SetTarget(n) => s.(inner := s.inner.(targetSize := n))
    case Shutdown => s.(inner := s.inner.(shutdown := true))
    case StartReplenish =>
      s.(inner := Plan(c, s.clock, s.inner),
         repl := Building(Fresh(s.inner.nextId, Needed(c, s.clock, s.inner)), []))
    case Boot =>
      s.(repl := Building(s.repl.ids[1..], s.repl.built + [WarmVm(s.repl.ids[0], s.clock)]))
    case Finish =>
      s.(inner := Push(c, s.inner, s.repl.built), repl := Idle)
    case Tick(now) => s.(clock := now)
  }

  function Start(target: nat): (s: System) {
    System(NewInner(target), Idle, [], 0, 0)
  }

  ghost predicate Run(c: Config, s: System, steps: seq<Step>, s': System)
    decreases |steps|
  {
    if steps == [] then s' == s
    else Enabled(s, steps[0]) && Run(c, Do(c, s, steps[0]), steps[1..], s')
  }

  // ---------------------------------------------------------------- invariants of every interleaving

  function Ids(vms: seq<WarmVm>): (ids: seq<nat>)
    ensures |ids| == |vms| && forall i :: 0 <= i < |vms| ==> ids[i] == vms[i].id
  {
    seq(|vms|, i requires 0 <= i < |vms| => vms[i].id)
  }

  function InFlight(r: Replenisher): (ids: seq<nat>) {
    if r.Idle? then [] else Ids(r.built) + r.ids
  }

  /** Every identifier in the pool, in the replenisher's hands, or with a caller. */
  function AllIds(s: System): (ids: multiset<nat>) {
    multiset(Ids(s.inner.ready)) + multiset(InFlight(s.repl)) + multiset(Ids(s.held))
  }

  ghost predicate IdsGood(s: System) {
    forall x: nat :: x in AllIds(s) ==> AllIds(s)[x] == 1 && x < s.inner.nextId
  }

  predicate Balanced(s: System) {
    var st := s.inner.stats;
    st.totalCreated + s.accepted == |s.inner.ready| + st.totalAssigned + st.totalExpired
  }

  ghost predicate Inv(c: Config, s: System) {
    && |s.inner.ready| <= c.maxPoolSize
    && s.inner.stats.readyCount == |s.inner.ready|
    && Balanced(s)
    && IdsGood(s)
  }

  lemma IdsConcat(a: seq<WarmVm>, b: seq<WarmVm>)
    ensures Ids(a + b) == Ids(a) + Ids(b)
    ensures multiset(Ids(a + b)) == multiset(Ids(a)) + multiset(Ids(b))
  {
    assert Ids(a + b) == Ids(a) + Ids(b);
  }

  lemma IdsSplit(a: seq<WarmVm>, k: nat)
    requires k <= |a|
    ensures multiset(Ids(a)) == multiset(Ids(a[..k])) + multiset(Ids(a[k..]))
  {
    IdsConcat(a[..k], a[k..]);
    assert a[..k] + a[k..] == a;
  }

  lemma {:induction false} RetainIds(c: Config, now: nat, vms: seq<WarmVm>)
    ensures multiset(Ids(Retain(c, now, vms))) <= multiset(Ids(vms))
  {
    if vms != [] {
      RetainIds(c, now, vms[1..]);
      IdsSplit(vms, 1);
      IdsConcat(if Live(c, now, vms[0]) then [vms[0]] else [], Retain(c, now, vms[1..]));
      assert vms[..1] == [vms[0]];
    }
  }

  /** Fewer identifiers, and the same bound: still distinct. */
  lemma IdsShrink(s: System, s': System)
    requires IdsGood(s) && AllIds(s') <= AllIds(s) && s'.inner.nextId >= s.inner.nextId
    ensures IdsGood(s')
  {
  }

  lemma TakeKeepsIds(s: System)
    requires IdsGood(s) && s.inner.ready != []
    ensures IdsGood(s.(inner := TakeFront(s.inner), held := s.held + [s.inner.ready[0]]))
  {
    var s' := s.(inner := TakeFront(s.inner), held := s.held + [s.inner.ready[0]]);
    IdsSplit(s.inner.ready, 1);
    assert s.inner.ready[..1] == [s.inner.ready[0]];
    IdsConcat(s.held, [s.inner.ready[0]]);
    IdsShrink(s, s');
  }

  lemma ReleaseKeepsIds(c: Config, s: System, k: nat)
    requires IdsGood(s) && k < |s.held|
    ensures IdsGood(Do(c, s, Release(k)))
  {
    hide Ids, InFlight, IdsGood;
    var s' := Do(c, s, Release(k));
    RemoveOne(s.held, k);
    AppendOne(s.inner.ready, s.held[k]);
    IdsShrink(s, s');
  }

  lemma AppendOne(vms: seq<WarmVm>, vm: WarmVm)
    ensures multiset(Ids(vms + [vm])) == multiset(Ids(vms)) + multiset{vm.id}
  {
    IdsConcat(vms, [vm]);
    assert Ids([vm]) == [vm.id];
  }

  lemma RemoveOne(vms: seq<WarmVm>, k: nat)
    requires k < |vms|
    ensures multiset(Ids(vms)) == multiset(Ids(vms[..k] + vms[k + 1..])) + multiset{vms[k].id}
  {
    hide Ids;
    AppendOne(vms[..k], vms[k]);
    assert vms[..k] + [vms[k]] == vms[..k + 1];
    IdsSplit(vms, k + 1);
    IdsConcat(vms[..k], vms[k + 1..]);
  }

  lemma FreshIds(first: nat, n: nat, x: nat)
    ensures multiset(Fresh(first, n))[x] == if first <= x < first + n then 1 else 0
    decreases n
  {
    if n > 0 {
      FreshIds(first, n - 1, x);
      assert Fresh(first, n) == Fresh(first, n - 1) + [first + n - 1];
    }
  }

  lemma PlanKeepsIds(c: Config, s: System)
    requires IdsGood(s) && Enabled(s, StartReplenish)
    ensures IdsGood(Do(c, s, StartReplenish))
  {
    var n := Needed(c, s.clock, s.inner);
    var ids := Fresh(s.inner.nextId, n);
    var kept := Retain(c, s.clock, s.inner.ready);
    RetainIds(c, s.clock, s.inner.ready);
    var s' := Do(c, s, StartReplenish);
    assert InFlight(s'.repl) == ids;
    forall x: nat | x in AllIds(s')
      ensures AllIds(s')[x] == 1 && x < s'.inner.nextId
    {
      FreshIds(s.inner.nextId, n, x);
      var was := multiset(Ids(kept))[x] + multiset(Ids(s.held))[x];
      assert AllIds(s')[x] == was + multiset(Fresh(s.inner.nextId, n))[x];
      assert was <= AllIds(s)[x];
      assert was > 0 ==> x in AllIds(s);
    }
  }

  lemma BootKeepsIds(c: Config, s: System)
    requires IdsGood(s) && Enabled(s, Boot)
    ensures IdsGood(Do(c, s, Boot))
  {
    var s' := Do(c, s, Boot);
    var r := s.repl;
    var vm := WarmVm(r.ids[0], s.clock);
    IdsConcat(r.built, [vm]);
    assert r.ids == [r.ids[0]] + r.ids[1..];
    assert Ids([vm]) == [r.ids[0]];
    assert InFlight(s'.repl) == InFlight(r);
    IdsShrink(s, s');
  }

  lemma FinishKeepsIds(c: Config, s: System)
    requires IdsGood(s) && Enabled(s, Finish)
    ensures IdsGood(Do(c, s, Finish))
  {
    var s' := Do(c, s, Finish);
    var vms := s.repl.built;
    if vms != [] {
      var n := Min(|vms|, SatSub(c.maxPoolSize, |s.inner.ready|));
      IdsSplit(vms, n);
      IdsConcat(s.inner.ready, vms[..n]);
    }
    IdsShrink(s, s');
  }

  lemma DoKeeps(c: Config, s: System, a: Step)
    requires Inv(c, s) && Enabled(s, a)
    ensures Inv(c, Do(c, s, a))
  {
    hide AllIds, Retain;
    match a
    case Acquire => if s.inner.ready != [] { TakeKeepsIds(s); } else { IdsSame(s, Do(c, s, a)); }
    case FirstTry => if s.inner.ready != [] { TakeKeepsIds(s); }
    case Release(k) => ReleaseKeepsIds(c, s, k);
    case StartReplenish => PlanKeepsIds(c, s);
    case Boot => BootKeepsIds(c, s);
    case Finish => FinishKeepsIds(c, s);
    case _ => IdsSame(s, Do(c, s, a));
  }

  lemma IdsSame(s: System, s': System)
    requires IdsGood(s) && s'.inner.ready == s.inner.ready && s'.repl == s.repl && s'.held == s.held
    requires s'.inner.nextId == s.inner.nextId
    ensures IdsGood(s')
  {
    assert AllIds(s') == AllIds(s);
  }

  /** Safety of every interleaving from an empty pool. */
  lemma {:induction false} RunKeeps(c: Config, s: System, steps: seq<Step>, s': System)
    requires Inv(c, s) && Run(c, s, steps, s')
    ensures Inv(c, s')
    decreases |steps|
  {
    hide Inv, Do;
    if steps != [] {
      DoKeeps(c, s, steps[0]);
      RunKeeps(c, Do(c, s, steps[0]), steps[1..], s');
    }
  }

  lemma PoolIsSafe(c: Config, target: nat, steps: seq<Step>, s: System)
    requires Run(c, Start(target), steps, s)
    ensures |s.inner.ready| <= c.maxPoolSize
    ensures s.inner.stats.readyCount == |s.inner.ready|
    ensures s.inner.stats.totalCreated + s.accepted ==
              |s.inner.ready| + s.inner.stats.totalAssigned + s.inner.stats.totalExpired
    ensures IdsGood(s)
  {
    assert Inv(c, Start(target)) by {
      assert Ids([]) == [];
      assert AllIds(Start(target)) == multiset{};
    }
    RunKeeps(c, Start(target), steps, s);
  }

  // ---------------------------------------------------------------- order, without releases

  /** Nothing is released and the target stays. */
  predicate Quiet(a: Step) {
    !a.Release? && !a.SetTarget?
  }

  /** The VMs already booted, in the order in which they will be handed out. */
  function Line(s: System): (vms: seq<WarmVm>) {
    s.inner.ready + if s.repl.Idle? then [] else s.repl.built
  }

  function Pending(s: System): (ids: seq<nat>) {
    if s.repl.Idle? then [] else s.repl.ids
  }

  /** Ordered by identifier and by warm time, all from the past. */
  ghost predicate Ordered(vms: seq<WarmVm>, clock: nat) {
    && (forall i, j :: 0 <= i < j < |vms| ==> vms[i].id < vms[j].id && vms[i].warmedAt <= vms[j].warmedAt)
    && (forall i :: 0 <= i < |vms| ==> vms[i].warmedAt <= clock)
  }

  ghost predicate PendingGood(s: System) {
    var ids := Pending(s);
    && (forall i :: 0 <= i < |ids| ==> ids[i] == s.inner.nextId - |ids| + i)
    && (forall i :: 0 <= i < |Line(s)| ==> Line(s)[i].id < s.inner.nextId - |ids|)
  }

  ghost predicate Increasing(vms: seq<WarmVm>) {
    forall i, j :: 0 <= i < j < |vms| ==> vms[i].id < vms[j].id
  }

  ghost predicate OrderInv(c: Config, s: System) {
    && |Line(s)| + |Pending(s)| <= c.maxPoolSize
    && Increasing(s.held + Line(s))
    && (forall i :: 0 <= i < |s.held| ==> s.held[i].id < s.inner.nextId - |Pending(s)|)
    && Ordered(Line(s), s.clock)
    && PendingGood(s)
  }

  /** In an ordered line exactly a prefix has idled out. */
  lemma {:induction false} RetainIsSuffix(c: Config, now: nat, vms: seq<WarmVm>) returns (k: nat)
    requires Ordered(vms, now)
    ensures k <= |vms| && Retain(c, now, vms) == vms[k..]
    ensures forall i :: 0 <= i < |vms| ==> (Live(c, now, vms[i]) <==> k <= i)
  {
    if vms == [] {
      k := 0;
    } else if Live(c, now, vms[0]) {
      RetainAll(c, now, vms);
      k := 0;
    } else {
      k := RetainIsSuffix(c, now, vms[1..]);
      k := k + 1;
      assert vms[1..][k - 1..] == vms[k..];
      forall i | 0 <= i < |vms|
        ensures Live(c, now, vms[i]) <==> k <= i
      {
        if i > 0 { assert vms[i] == vms[1..][i - 1]; }
      }
    }
  }

  lemma {:induction false} RetainAll(c: Config, now: nat, vms: seq<WarmVm>)
    requires forall i :: 0 <= i < |vms| ==> vms[0].warmedAt <= vms[i].warmedAt <= now
    requires vms != [] ==> Live(c, now, vms[0])
    ensures Retain(c, now, vms) == vms
    ensures forall i :: 0 <= i < |vms| ==> Live(c, now, vms[i])
  {
    if vms != [] {
      LiveAll(c, now, vms);
    }
  }

  lemma {:induction false} LiveAll(c: Config, now: nat, vms: seq<WarmVm>)
    requires forall i :: 0 <= i < |vms| ==> Live(c, now, vms[i])
    ensures Retain(c, now, vms) == vms
  {
    if vms != [] {
      LiveAll(c, now, vms[1..]);
    }
  }

  lemma DropMiddle(a: seq<WarmVm>, b: seq<WarmVm>, k: nat)
    requires Increasing(a + b) && k <= |b|
    ensures Increasing(a + b[k..])
  {
    var all, cut := a + b, a + b[k..];
    forall i, j | 0 <= i < j < |cut|
      ensures cut[i].id < cut[j].id
    {
      assert cut[i] == all[if i < |a| then i else i + k];
      assert cut[j] == all[if j < |a| then j else j + k];
    }
  }

  /** Ready, booted and planned VMs together stay within the goal. */
  predicate WithinGoal(c: Config, s: System) {
    |Line(s)| + |Pending(s)| <= Goal(c, s.inner)
  }

  lemma PlanKeepsOrder(c: Config, s: System)
    requires OrderInv(c, s) && Enabled(s, StartReplenish)
    ensures var s' := Do(c, s, StartReplenish); OrderInv(c, s') && (WithinGoal(c, s) ==> WithinGoal(c, s'))
  {
    hide Retain;
    assert Line(s) == s.inner.ready;
    var k := RetainIsSuffix(c, s.clock, s.inner.ready);
    var s' := Do(c, s, StartReplenish);
    assert Line(s') == s.inner.ready[k..];
    DropMiddle(s.held, s.inner.ready, k);
  }

  lemma BootKeepsOrder(c: Config, s: System)
    requires OrderInv(c, s) && Enabled(s, Boot)
    ensures var s' := Do(c, s, Boot); OrderInv(c, s') && (WithinGoal(c, s) ==> WithinGoal(c, s'))
  {
    var s' := Do(c, s, Boot);
    assert Line(s') == Line(s) + [WarmVm(s.repl.ids[0], s.clock)];
    assert s'.held + Line(s') == s.held + Line(s) + [WarmVm(s.repl.ids[0], s.clock)];
    assert s.repl.ids[0] == s.inner.nextId - |s.repl.ids|;
  }

  lemma FinishKeepsOrder(c: Config, s: System)
    requires OrderInv(c, s) && Enabled(s, Finish)
    ensures var s' := Do(c, s, Finish);
            OrderInv(c, s') && s'.inner.ready == Line(s) && (WithinGoal(c, s) ==> WithinGoal(c, s'))
  {
    var s' := Do(c, s, Finish);
    assert s.repl.built[..|s.repl.built|] == s.repl.built;
    assert Line(s') == s'.inner.ready + [] == s'.inner.ready;
    assert s'.inner.ready == Line(s);
  }

  lemma TakeKeepsOrder(c: Config, s: System, a: Step)
    requires OrderInv(c, s) && s.inner.ready != [] && (a == Acquire || a == FirstTry)
    ensures OrderInv(c, Do(c, s, a)) && (WithinGoal(c, s) ==> WithinGoal(c, Do(c, s, a)))
  {
    var vm := s.inner.ready[0];
    assert Line(s)[0] == vm;
    assert Line(Do(c, s, a)) == Line(s)[1..];
    assert (s.held + [vm]) + Line(s)[1..] == s.held + Line(s);
  }

  lemma OrderDoKeeps(c: Config, s: System, a: Step)
    requires OrderInv(c, s) && Enabled(s, a) && !a.Release?
    ensures OrderInv(c, Do(c, s, a))
    ensures Quiet(a) ==> Do(c, s, a).inner.targetSize == s.inner.targetSize
    ensures Quiet(a) && WithinGoal(c, s) ==> WithinGoal(c, Do(c, s, a))
  {
    match a
    case Acquire => if s.inner.ready != [] { TakeKeepsOrder(c, s, a); }
    case FirstTry => if s.inner.ready != [] { TakeKeepsOrder(c, s, a); }
    case StartReplenish => PlanKeepsOrder(c, s);
    case Boot => BootKeepsOrder(c, s);
    case Finish => FinishKeepsOrder(c, s);
    case _ =>
  }

  lemma {:induction false} OrderRunKeeps(c: Config, s: System, steps: seq<Step>, s': System)
    requires OrderInv(c, s) && Run(c, s, steps, s')
    requires forall i :: 0 <= i < |steps| ==> !steps[i].Release?
    ensures OrderInv(c, s')
    ensures (forall i :: 0 <= i < |steps| ==> Quiet(steps[i])) ==>
              s'.inner.targetSize == s.inner.targetSize && (WithinGoal(c, s) ==> WithinGoal(c, s'))
    decreases |steps|
  {
    hide OrderInv, WithinGoal, Do;
    if steps != [] {
      OrderDoKeeps(c, s, steps[0]);
      OrderRunKeeps(c, Do(c, s, steps[0]), steps[1..], s');
    }
  }

  lemma StartIsOrdered(c: Config, target: nat)
    ensures OrderInv(c, Start(target)) && WithinGoal(c, Start(target))
  {
  }

  /** The ready VMs are the front of the line. */
  lemma ReadyIsOrdered(c: Config, s: System)
    requires OrderInv(c, s)
    ensures Ordered(s.inner.ready, s.clock) && Increasing(s.held + s.inner.ready)
  {
    assert forall i :: 0 <= i < |s.inner.ready| ==> s.inner.ready[i] == Line(s)[i];
    assert s.held + s.inner.ready <= s.held + Line(s);
  }

  /**
   Without releases, whatever happens to the target, VMs are handed out in the order
   of their identifiers, oldest first, and expiry removes exactly a prefix of the
   ready line.
   */
  lemma OrderedPool(c: Config, target: nat, steps: seq<Step>, s: System) returns (k: nat)
    requires Run(c, Start(target), steps, s)
    requires forall i :: 0 <= i < |steps| ==> !steps[i].Release?
    ensures Ordered(s.inner.ready, s.clock)
    ensures Increasing(s.held + s.inner.ready)
    ensures k <= |s.inner.ready| && Plan(c, s.clock, s.inner).ready == s.inner.ready[k..]
    ensures forall i :: 0 <= i < |s.inner.ready| ==> (Live(c, s.clock, s.inner.ready[i]) <==> k <= i)
  {
    hide Run, Retain, Increasing, Ordered, Live, OrderInv, WithinGoal;
    StartIsOrdered(c, target);
    OrderRunKeeps(c, Start(target), steps, s);
    ReadyIsOrdered(c, s);
    k := RetainIsSuffix(c, s.clock, s.inner.ready);
  }

  /** With the target fixed as well, ready and in-flight VMs together never exceed the goal. */
  lemma GoalBound(c: Config, target: nat, steps: seq<Step>, s: System)
    requires Run(c, Start(target), steps, s)
    requires forall i :: 0 <= i < |steps| ==> Quiet(steps[i])
    ensures |s.inner.ready| + |InFlight(s.repl)| <= Min(target, c.maxPoolSize)
  {
    hide Run, OrderInv;
    StartIsOrdered(c, target);
    OrderRunKeeps(c, Start(target), steps, s);
  }

  // ---------------------------------------------------------------- order and releases

  /** Every VM was warmed in the past. */
  ghost predicate Past(vms: seq<WarmVm>, clock: nat) {
    forall i :: 0 <= i < |vms| ==> vms[i].warmedAt <= clock
  }

  ghost predicate PastInv(s: System) {
    Past(s.inner.ready, s.clock) && Past(s.held, s.clock) && (s.repl.Building? ==> Past(s.repl.built, s.clock))
  }

  lemma {:induction false} RetainPast(c: Config, now: nat, vms: seq<WarmVm>, clock: nat)
    requires Past(vms, clock)
    ensures Past(Retain(c, now, vms), clock)
  {
    if vms != [] {
      RetainPast(c, now, vms[1..], clock);
    }
  }

  lemma {:induction false} PastRunKeeps(c: Config, s: System, steps: seq<Step>, s': System)
    requires PastInv(s) && Run(c, s, steps, s')
    ensures PastInv(s')
    decreases |steps|
  {
    if steps != [] {
      PastDoKeeps(c, s, steps[0]);
      hide PastInv, Do;
      PastRunKeeps(c, Do(c, s, steps[0]), steps[1..], s');
    }
  }

  lemma PastDoKeeps(c: Config, s: System, a: Step)
    requires PastInv(s) && Enabled(s, a)
    ensures PastInv(Do(c, s, a))
  {
    hide Retain;
    RetainPast(c, s.clock, s.inner.ready, s.clock);
  }

  /** The VM is the youngest of all that are ready. */
  ghost predicate Youngest(vm: WarmVm, ready: seq<WarmVm>) {
    forall i :: 0 <= i < |ready| ==> ready[i].id < vm.id && ready[i].warmedAt <= vm.warmedAt
  }

  /** In every reachable state, a release that is accepted keeps the line ordered iff the VM is the youngest. */
  lemma ReleaseKeepsOrderIff(c: Config, target: nat, steps: seq<Step>, s: System, k: nat)
    requires Run(c, Start(target), steps, s) && k < |s.held|
    requires |s.inner.ready| < c.maxPoolSize && Ordered(s.inner.ready, s.clock)
    ensures var s' := Do(c, s, Release(k)); Ordered(s'.inner.ready, s'.clock) <==> Youngest(s.held[k], s.inner.ready)
  {
    PastRunKeeps(c, Start(target), steps, s);
    hide Run;
    var ready, vm := s.inner.ready, s.held[k];
    var ready' := Do(c, s, Release(k)).inner.ready;
    assert ready' == ready + [vm];
    if Ordered(ready', s.clock) {
      forall i | 0 <= i < |ready|
        ensures ready[i].id < vm.id && ready[i].warmedAt <= vm.warmedAt
      {
        assert ready'[i] == ready[i] && ready'[|ready|] == vm;
      }
    }
  }

  lemma {:induction false} OneMore(c: Config, s: System, steps: seq<Step>, s1: System, a: Step)
    requires Run(c, s, steps, s1) && Enabled(s1, a)
    ensures Run(c, s, steps + [a], Do(c, s1, a))
    decreases |steps|
  {
    hide Do, Enabled;
    if steps == [] {
      assert [a][1..] == [];
    } else {
      OneMore(c, Do(c, s, steps[0]), steps[1..], s1, a);
      assert (steps + [a])[1..] == steps[1..] + [a];
    }
  }

  /** One VM booted at time 0, the other still to come at time 5. */
  lemma OneVm(c: Config) returns (steps: seq<Step>, s: System)
    requires c == Config(5, 10)
    ensures Run(c, Start(2), steps, s) && s.inner.ready == [] && s.held == [] && s.clock == 5
    ensures s.repl == Building([2], [WarmVm(1, 0)])
  {
    var p1 := Do(c, Start(2), StartReplenish);
    assert Retain(c, 0, []) == [];
    assert p1.repl == Building([1, 2], []) && p1.inner.ready == [];
    var p2 := Do(c, p1, Boot);
    assert p2.repl == Building([2], [WarmVm(1, 0)]);
    s := Do(c, p2, Tick(5));
    assert Run(c, Start(2), [], Start(2));
    hide Do, Run, Retain;
    OneMore(c, Start(2), [], Start(2), StartReplenish);
    OneMore(c, Start(2), [] + [StartReplenish], p1, Boot);
    OneMore(c, Start(2), [] + [StartReplenish] + [Boot], p2, Tick(5));
    steps := [] + [StartReplenish] + [Boot] + [Tick(5)];
  }

  /** Two VMs booted at times 0 and 5. */
  lemma TwoVms(c: Config) returns (steps: seq<Step>, s: System)
    requires c == Config(5, 10)
    ensures Run(c, Start(2), steps, s) && s.inner.ready == [WarmVm(1, 0), WarmVm(2, 5)] && s.held == [] && s.clock == 5
  {
    hide Run, Retain;
    var p3;
    steps, p3 := OneVm(c);
    var p4 := Do(c, p3, Boot);
    assert p4.repl == Building([], [WarmVm(1, 0), WarmVm(2, 5)]);
    s := Do(c, p4, Finish);
    assert s.inner.ready == [WarmVm(1, 0), WarmVm(2, 5)];
    OneMore(c, Start(2), steps, p3, Boot);
    OneMore(c, Start(2), steps + [Boot], p4, Finish);
    steps := steps + [Boot] + [Finish];
  }

  /** From an empty pool one release is enough: expiry then removes the last VM of the line and keeps the first. */
  lemma ReleaseBreaksOrder(c: Config) returns (steps: seq<Step>, s: System)
    requires c == Config(5, 10)
    ensures Run(c, Start(2), steps, s) && s.inner.ready == [WarmVm(2, 5), WarmVm(1, 0)]
    ensures !Ordered(s.inner.ready, s.clock) && Plan(c, s.clock, s.inner).ready == [WarmVm(2, 5)]
  {
    hide Run;
    var p5;
    steps, p5 := TwoVms(c);
    OneMore(c, Start(2), steps, p5, Acquire);
    var p6 := Do(c, p5, Acquire);
    assert p6.inner.ready == [WarmVm(2, 5)] && p6.held == [WarmVm(1, 0)];
    OneMore(c, Start(2), steps + [Acquire], p6, Release(0));
    var p7 := Do(c, p6, Release(0));
    OneMore(c, Start(2), steps + [Acquire] + [Release(0)], p7, Tick(10));
    steps, s := steps + [Acquire] + [Release(0)] + [Tick(10)], Do(c, p7, Tick(10));
    assert s.inner.ready == [WarmVm(2, 5), WarmVm(1, 0)];
    assert s.inner.ready[1..] == [WarmVm(1, 0)];
    assert Retain(c, 10, s.inner.ready[1..]) == [];
    assert Retain(c, 10, s.inner.ready) == [WarmVm(2, 5)];
    assert s.inner.ready[0].id > s.inner.ready[1].id;
  }

  // ---------------------------------------------------------------- progress of one undisturbed cycle

  function BootAll(c: Config, s: System): (s': System)
    requires s.repl.Building?
    ensures s'.repl.Building? && s'.repl.ids == [] && s'.inner == s.inner
    ensures |s'.repl.built| == |s.repl.built| + |s.repl.ids|
    decreases |s.repl.ids|
  {
    if s.repl.ids == [] then s else BootAll(c, Do(c, s, Boot))
  }

  /** An undisturbed cycle fills the pool exactly to its goal, unless more VMs than that are still live. */
  lemma CycleReachesGoal(c: Config, s: System)
    requires Inv(c, s) && Enabled(s, StartReplenish)
    ensures var s' := Do(c, BootAll(c, Do(c, s, StartReplenish)), Finish);
            var kept := |Retain(c, s.clock, s.inner.ready)|;
            |s'.inner.ready| == if kept >= Goal(c, s.inner) then kept else Goal(c, s.inner)
  {
    hide Retain, AllIds;
  }

  // ---------------------------------------------------------------- the object behind the lock

  class VmPool {
    const config: Config
    var ready: seq<WarmVm>
    var stats: Stats
    var shutdown: bool
    var nextId: nat
    var targetSize: nat

    ghost function State(): (p: Inner)
      reads this
    {
      Inner(ready, stats, shutdown, nextId, targetSize)
    }

    constructor (config: Config, target: nat)
      ensures State() == NewInner(target) && this.config == config
    {
      this.config, ready, stats, shutdown, nextId, targetSize := config, [], Stats(0, 0, 0, 0, 0), false, 1, target;
    }

    method TryAcquire() returns (vm: Option<WarmVm>)
      modifies this
      ensures State() == Take(old(State()))
      ensures vm == if old(ready) == [] then None else Some(old(ready)[0])
    {
      if ready != [] {
        vm := Some(ready[0]);
        ready := ready[1..];
        stats := stats.(totalAssigned := stats.totalAssigned + 1);
        stats := stats.(readyCount := |ready|);
      } else {
        stats := stats.(poolMisses := stats.poolMisses + 1);
        vm := None;
      }
    }

    method ReturnVm(vm: WarmVm)
      modifies this
      ensures State() == GiveBack(config, old(State()), vm)
    {
      if |ready| < config.maxPoolSize {
        ready := ready + [vm];
        stats := stats.(readyCount := |ready|);
      }
    }

    method PlanReplenish(now: nat) returns (ids: seq<nat>)
      modifies this
      ensures State() == Plan(config, now, old(State()))
      ensures ids == Fresh(old(nextId), Needed(config, now, old(State())))
    {
      hide Retain;
      var before := |ready|;
      ready := Retain(config, now, ready);
      stats := stats.(totalExpired := stats.totalExpired + (before - |ready|));
      var needed := SatSub(Min(targetSize, config.maxPoolSize), |ready|);
      ids := [];
      for i := 0 to needed
        invariant ids == Fresh(old(nextId), i) && nextId == old(nextId) + i
        invariant ready == Retain(config, now, old(ready)) && shutdown == old(shutdown) && targetSize == old(targetSize)
        invariant stats == old(stats).(totalExpired := old(stats).totalExpired + (before - |ready|))
      {
        ids := ids + [nextId];
        nextId := nextId + 1;
      }
      stats := stats.(readyCount := |ready|);
    }

    method PushNew(vms: seq<WarmVm>)
      modifies this
      ensures State() == Push(config, old(State()), vms)
    {
      if vms == [] {
        return;
      }
      for i := 0 to |vms|
        invariant var n := Min(i, SatSub(config.maxPoolSize, |old(ready)|));
                  && ready == old(ready) + vms[..n]
                  && stats == old(stats).(totalCreated := old(stats).totalCreated + n)
        invariant nextId == old(nextId) && shutdown == old(shutdown) && targetSize == old(targetSize)
      {
        if |ready| < config.maxPoolSize {
          ready := ready + [vms[i]];
          stats := stats.(totalCreated := stats.totalCreated + 1);
        }
      }
      stats := stats.(readyCount := |ready|);
    }

    method SetTargetSize(n: nat)
      modifies this
      ensures State() == old(State()).(targetSize := n)
    {
      targetSize := n;
    }
  }
}
