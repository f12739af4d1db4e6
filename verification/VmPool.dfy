/**
 The pool of script runtimes: a bounded channel of idle VMs with non-blocking get and put,
 retirement after many uses, and a cleaner that rotates the channel to evict stale VMs.
 */
module VmPool {
  import opened Wrappers

  const MAX_VM_POOL_SIZE: nat := 500
  const MIN_VM_POOL_SIZE: nat := 10
  const MAX_USES: int := 10000
  const STALE_SECONDS: int := 1800

  class GojaVM {
    var lastUsed: Option<int>  // the zero time until the first reuse
    var usageCount: int

    constructor ()
      ensures lastUsed == None && usageCount == 0
    {
      lastUsed, usageCount := None, 0;
    }
  }

  // Whether the cleaner evicts the VM; the zero time is older than any limit
  predicate Stale(vm: GojaVM, now: int)
    reads vm
  {
    vm.lastUsed == None || now - vm.lastUsed.value > STALE_SECONDS
  }

  // The VMs that are not stale, in order
  function Survivors(vms: seq<GojaVM>, now: int): (r: seq<GojaVM>)
    reads vms
    ensures |r| <= |vms|
  {
    if vms == [] then []
    else Survivors(vms[..|vms| - 1], now) + if Stale(vms[|vms| - 1], now) then [] else [vms[|vms| - 1]]
  }

  lemma {:induction false} SurvivorsDistinct(vms: seq<GojaVM>, now: int)
    requires AllDifferent(vms)
    ensures AllDifferent(Survivors(vms, now))
    ensures forall vm :: vm in Survivors(vms, now) ==> vm in vms
    decreases vms
  {
    if vms != [] {
      var n := |vms| - 1;
      SurvivorsDistinct(vms[..n], now);
      assert vms[n] !in vms[..n];
    }
  }

  lemma PassKeepsDistinct(start: seq<GojaVM>, i: nat, now: int)
    requires AllDifferent(start) && i <= |start|
    ensures AllDifferent(start[i..] + Survivors(start[..i], now))
  {
    SurvivorsDistinct(start[..i], now);
    assert forall vm :: vm in start[..i] ==> vm !in start[i..];
    var rest, kept := start[i..], Survivors(start[..i], now);
    forall a, b | 0 <= a < b < |rest + kept| ensures (rest + kept)[a] != (rest + kept)[b] {
      if a < |rest| <= b {
        assert kept[b - |rest|] in kept && rest[a] in rest;
      }
    }
  }

  lemma PassAdvances(start: seq<GojaVM>, i: nat, now: int, vms: seq<GojaVM>)
    requires i <= |start| && i < |vms| && vms == start[i..] + Survivors(start[..i], now)
    ensures i < |start| && vms[0] == start[i]
    ensures vms[1..] + (if Stale(start[i], now) then [] else [start[i]]) == start[i + 1..] + Survivors(start[..i + 1], now)
    ensures |Survivors(start[..i + 1], now)| == |Survivors(start[..i], now)| + if Stale(start[i], now) then 0 else 1
  {
    assert start[..i + 1][..i] == start[..i] && start[..i + 1][i] == start[i];
    var rest, kept := start[i..], Survivors(start[..i], now);
    assert |kept| <= i && rest != [] && rest[1..] == start[i + 1..];
    assert (rest + kept)[1..] == rest[1..] + kept;
  }

  // ---------- What a pass of the cleaner evicts ----------

  function StaleCount(vms: seq<GojaVM>, now: int): (k: nat)
    reads vms
  {
    |vms| - |Survivors(vms, now)|
  }

  lemma {:induction false} StaleCountGrows(vms: seq<GojaVM>, i: nat, j: nat, now: int)
    requires i <= j <= |vms|
    ensures StaleCount(vms[..i], now) <= StaleCount(vms[..j], now)
    ensures (forall k :: i <= k < j ==> !Stale(vms[k], now)) ==> StaleCount(vms[..i], now) == StaleCount(vms[..j], now)
    ensures (exists k :: i <= k < j && Stale(vms[k], now)) ==> StaleCount(vms[..i], now) < StaleCount(vms[..j], now)
    decreases j
  {
    if i < j {
      StaleCountGrows(vms, i, j - 1, now);
      assert vms[..j][..j - 1] == vms[..j - 1];
    }
  }

  // What is left after i VMs were inspected
  ghost function AfterPass(vms: seq<GojaVM>, now: int, i: nat): seq<GojaVM>
    requires i <= |vms|
    reads vms
  {
    vms[i..] + Survivors(vms[..i], now)
  }

  // Where a pass ends: its bound is the shrinking length of the channel
  ghost predicate PassEnds(vms: seq<GojaVM>, now: int, inspected: nat)
    reads vms
  {
    inspected <= |vms| <= inspected + StaleCount(vms[..inspected], now) <= |vms| + 1
  }

  /** A pass evicts at least q VMs exactly if the first |vms| - q + 1 have at least q stale ones. */
  lemma EvictsAtLeast(vms: seq<GojaVM>, now: int, inspected: nat, q: nat)
    requires PassEnds(vms, now, inspected) && 1 <= q <= |vms|
    ensures StaleCount(vms[..inspected], now) >= q <==> StaleCount(vms[..|vms| - q + 1], now) >= q
  {
    var m := |vms| - q + 1;
    if StaleCount(vms[..inspected], now) >= q {
      StaleCountGrows(vms, inspected, m, now);
    } else {
      StaleCountGrows(vms, m, inspected, now);
    }
  }

  ghost predicate LastStale(vms: seq<GojaVM>, last: nat, now: int)
    reads vms
  {
    last < |vms| && Stale(vms[last], now) && forall k :: last < k < |vms| ==> !Stale(vms[k], now)
  }

  /** A pass evicts every stale VM if and only if the last stale one is at least as far from
      the end of the channel as there are stale ones. */
  lemma EvictsAllStaleExactly(vms: seq<GojaVM>, now: int, inspected: nat, last: nat)
    requires PassEnds(vms, now, inspected) && LastStale(vms, last, now)
    ensures (forall vm :: vm in vms[inspected..] ==> !Stale(vm, now)) <==> last + StaleCount(vms, now) <= |vms|
  {
    var k := StaleCount(vms, now);
    assert vms[..|vms|] == vms;
    StaleCountGrows(vms, inspected, |vms|, now);
    if inspected <= last {
      assert vms[last] in vms[inspected..];
    } else {
      StaleCountGrows(vms, last + 1, inspected, now);
      assert forall vm :: vm in vms[inspected..] ==> !Stale(vm, now);
    }
  }

  lemma {:induction false} SurvivorsNotStale(vms: seq<GojaVM>, now: int)
    ensures forall vm :: vm in Survivors(vms, now) ==> !Stale(vm, now)
    decreases vms
  {
    if vms != [] {
      SurvivorsNotStale(vms[..|vms| - 1], now);
    }
  }

  /** A pass leaves at least m VMs if and only if there were that many and, of the first m, no
      more are stale than there are VMs beyond them. */
  lemma KeepsMinimumExactly(vms: seq<GojaVM>, now: int, inspected: nat, m: nat)
    requires PassEnds(vms, now, inspected)
    ensures |vms| - StaleCount(vms[..inspected], now) >= m
       <==> m <= |vms| && StaleCount(vms[..m], now) <= |vms| - m
  {
    if 1 <= m <= |vms| {
      EvictsAtLeast(vms, now, inspected, |vms| - m + 1);
    }
  }

  lemma PassMeans(start: seq<GojaVM>, inspected: nat, now: int, vms: seq<GojaVM>)
    requires PassEnds(start, now, inspected) && vms == AfterPass(start, now, inspected)
    ensures forall m: nat :: |vms| >= m <==> m <= |start| && StaleCount(start[..m], now) <= |start| - m
    ensures forall last: nat :: LastStale(start, last, now) ==>
      ((forall vm :: vm in vms ==> !Stale(vm, now)) <==> last + StaleCount(start, now) <= |start|)
  {
    forall m: nat ensures |vms| >= m <==> m <= |start| && StaleCount(start[..m], now) <= |start| - m {
      KeepsMinimumExactly(start, now, inspected, m);
    }
    SurvivorsNotStale(start[..inspected], now);
    forall last: nat | LastStale(start, last, now)
      ensures (forall vm :: vm in vms ==> !Stale(vm, now)) <==> last + StaleCount(start, now) <= |start|
    {
      EvictsAllStaleExactly(start, now, inspected, last);
    }
  }

  // Used within the last half hour
  predicate UsedLately(vm: GojaVM, now: int)
    reads vm
  {
    vm.lastUsed.Some? && now <= vm.lastUsed.value + 1800
  }

  lemma {:induction false} SurvivorsMembers(vms: seq<GojaVM>, now: int)
    ensures forall vm :: vm in Survivors(vms, now) <==> vm in vms && UsedLately(vm, now)
    decreases vms
  {
    if vms != [] {
      SurvivorsMembers(vms[..|vms| - 1], now);
      assert vms == vms[..|vms| - 1] + [vms[|vms| - 1]];
    }
  }

  lemma {:induction false} AllSurvive(vms: seq<GojaVM>, now: int)
    requires forall vm :: vm in vms ==> UsedLately(vm, now)
    ensures Survivors(vms, now) == vms
    decreases vms
  {
    if vms != [] {
      assert vms[|vms| - 1] in vms;
      AllSurvive(vms[..|vms| - 1], now);
      assert vms == vms[..|vms| - 1] + [vms[|vms| - 1]];
    }
  }

  /** Of the VMs that a pass inspected, exactly those used within half an hour are left; if all
      were, the pass changes nothing. */
  lemma PassKeepsExactly(start: seq<GojaVM>, inspected: nat, now: int, vms: seq<GojaVM>)
    requires AllDifferent(start) && PassEnds(start, now, inspected) && vms == AfterPass(start, now, inspected)
    ensures forall vm :: vm in start[..inspected] ==> (vm in vms <==> UsedLately(vm, now))
    ensures forall vm :: vm in start[inspected..] ==> vm in vms
    ensures (forall vm :: vm in start ==> UsedLately(vm, now)) ==> vms == start && StaleCount(start[..inspected], now) == 0
  {
    SurvivorsMembers(start[..inspected], now);
    assert forall vm :: vm in start[..inspected] ==> vm !in start[inspected..];
    if forall vm :: vm in start ==> UsedLately(vm, now) {
      AllSurvive(start[..inspected], now);
      assert StaleCount(start[..inspected], now) == 0;
      assert inspected == |start| && start[..inspected] == start;
    }
  }

  class GojaPool {
    var vms: seq<GojaVM>
    const capacity: nat
    var created: int
    var reused: int
    var evicted: int

    ghost predicate Valid()
      reads this
    {
      |vms| <= capacity && AllDifferent(vms)
    }

    // The channel send would block for ever if the minimum exceeded the capacity
    constructor (capacity: nat, minSize: nat)
      requires minSize <= capacity
      ensures Valid() && this.capacity == capacity && |vms| == minSize
      ensures forall vm :: vm in vms ==> fresh(vm) && vm.lastUsed == None && vm.usageCount == 0
      ensures created == reused == evicted == 0
    {
      this.capacity := capacity;
      vms, created, reused, evicted := [], 0, 0, 0;
      new;
      var i := 0;
      while i < minSize
        invariant 0 <= i <= minSize && |vms| == i && Valid()
        invariant forall vm :: vm in vms ==> fresh(vm) && vm.lastUsed == None && vm.usageCount == 0
        invariant created == reused == evicted == 0
      {
        var vm := new GojaVM();
        vms := vms + [vm];
        i := i + 1;
      }
    }

    /** The VM idle for longest, or a new one if none is idle. */
    method Get(now: int) returns (vm: GojaVM)
      requires Valid()
      modifies this, vms
      ensures Valid() && evicted == old(evicted)
      ensures old(vms) != [] ==> vm == old(vms)[0] && vms == old(vms)[1..]
      ensures old(vms) != [] ==> reused == old(reused) + 1 && created == old(created)
      ensures old(vms) != [] ==> vm.lastUsed == Some(now) && vm.usageCount == old(vms[0].usageCount) + 1
      ensures old(vms) == [] ==> fresh(vm) && vm.usageCount == 0 && vms == []
      ensures old(vms) == [] ==> created == old(created) + 1 && reused == old(reused)
      ensures forall v :: v in vms ==> v.usageCount == old(v.usageCount) && v.lastUsed == old(v.lastUsed)
    {
      if |vms| > 0 {
        vm := vms[0];
        vms := vms[1..];
        reused := reused + 1;
        vm.lastUsed := Some(now);
        vm.usageCount := vm.usageCount + 1;
      } else {
        created := created + 1;
        vm := new GojaVM();
      }
    }

    /** The VM goes to the back of the channel, unless it is worn out or the channel is full. */
    method Put(vm: GojaVM)
      requires Valid() && vm !in vms
      modifies this
      ensures Valid() && created == old(created) && reused == old(reused)
      ensures var kept := vm.usageCount <= 10000 && |old(vms)| < capacity;
        && vms == old(vms) + (if kept then [vm] else [])
        && evicted == old(evicted) + (if kept then 0 else 1)
    {
      if vm.usageCount > MAX_USES {
        evicted := evicted + 1;
        return;
      }
      if |vms| < capacity {
        vms := vms + [vm];
      } else {
        evicted := evicted + 1;
      }
    }

    // The cleaner takes the first VM out and sends it back unless it is stale
    method Inspect(now: int)
      requires vms != []
      modifies this
      ensures vms == old(vms)[1..] + if Stale(old(vms)[0], now) then [] else [old(vms)[0]]
      ensures evicted == old(evicted) + if Stale(old(vms)[0], now) then 1 else 0
      ensures created == old(created) && reused == old(reused)
    {
      var vm := vms[0];
      vms := vms[1..];
      if Stale(vm, now) {
        evicted := evicted + 1;
      } else {
        vms := vms + [vm];
      }
    }

    // The loop of vm_pool.go, lines 107 to 121
    method Rotate(now: int) returns (ghost inspected: nat)
      requires Valid()
      modifies this
      ensures created == old(created) && reused == old(reused)
      ensures PassEnds(old(vms), now, inspected)
      ensures vms == AfterPass(old(vms), now, inspected)
      ensures evicted == old(evicted) + StaleCount(old(vms)[..inspected], now)
    {
      ghost var start := vms;
      var i := 0;
      while i < |vms|
        invariant 0 <= i <= |start| && start == old(vms)
        invariant created == old(created) && reused == old(reused)
        invariant vms == AfterPass(start, now, i)
        invariant evicted == old(evicted) + StaleCount(start[..i], now)
        invariant i + StaleCount(start[..i], now) <= |start| + 1
        decreases |start| - i
      {
        PassAdvances(start, i, now, vms);
        ghost var rest := vms[1..] + if Stale(vms[0], now) then [] else [vms[0]];
        Inspect(now);
        assert vms == rest;
        i := i + 1;
      }
      inspected := i;
    }

    /** One pass of the cleaner that nothing interferes with. It leaves the VMs it did not
        inspect, followed by those it kept. The bound of its loop shrinks with every eviction,
        so it stops early by as many VMs as it evicted, or one fewer. */
    method CleanupPass(now: int) returns (ghost inspected: nat)
      requires Valid()
      modifies this
      ensures Valid() && created == old(created) && reused == old(reused)
      ensures PassEnds(old(vms), now, inspected)
      ensures vms == AfterPass(old(vms), now, inspected)
      ensures evicted == old(evicted) + StaleCount(old(vms)[..inspected], now)
      ensures forall m: nat :: |vms| >= m <==> m <= |old(vms)| && StaleCount(old(vms)[..m], now) <= |old(vms)| - m
      ensures forall last: nat :: LastStale(old(vms), last, now) ==>
        ((forall vm :: vm in vms ==> !Stale(vm, now)) <==> last + StaleCount(old(vms), now) <= |old(vms)|)
      ensures forall vm :: vm in old(vms)[..inspected] ==>
        (vm in vms <==> vm.lastUsed.Some? && now <= vm.lastUsed.value + 1800)
      ensures forall vm :: vm in old(vms)[inspected..] ==> vm in vms
      ensures (forall vm :: vm in old(vms) ==> vm.lastUsed.Some? && now <= vm.lastUsed.value + 1800) ==>
        vms == old(vms) && evicted == old(evicted)
    {
      ghost var start := vms;
      inspected := Rotate(now);
      PassKeepsExactly(start, inspected, now, vms);
      PassKeepsDistinct(start, inspected, now);
      PassMeans(start, inspected, now, vms);
    }
  }

  lemma {:induction false} AllStale(vms: seq<GojaVM>, now: int)
    requires forall vm :: vm in vms ==> Stale(vm, now)
    ensures Survivors(vms, now) == []
    decreases vms
  {
    if vms != [] {
      assert vms[|vms| - 1] in vms;
      AllStale(vms[..|vms| - 1], now);
    }
  }

  lemma HalfIsLeft(start: seq<GojaVM>, inspected: nat, now: int, vms: seq<GojaVM>)
    requires PassEnds(start, now, inspected) && vms == AfterPass(start, now, inspected)
    requires forall vm :: vm in start ==> vm.lastUsed == None
    ensures vms == start[(|start| + 1) / 2..]
  {
    AllStale(start[..inspected], now);
  }

  /** A pass over VMs that were never used evicts half of them, rounded up, even below the
      configured minimum. */
  method FirstPass(pool: GojaPool, now: int)
    requires pool.Valid() && forall vm :: vm in pool.vms ==> vm.lastUsed == None
    modifies pool
    ensures pool.vms == old(pool.vms)[(|old(pool.vms)| + 1) / 2..]
  {
    var before := pool.vms;
    ghost var inspected := pool.CleanupPass(now);
    HalfIsLeft(before, inspected, now, pool.vms);
  }

  /** On a server that runs no script, the first tick leaves fewer VMs than the minimum. */
  method FirstTick(now: int) returns (pool: GojaPool)
    ensures |pool.vms| == 5 && MIN_VM_POOL_SIZE == 10 && pool.capacity == 500
  {
    pool := new GojaPool(MAX_VM_POOL_SIZE, MIN_VM_POOL_SIZE);
    FirstPass(pool, now);
  }

  // ---------- All interleavings of Get, Put and the cleaner ----------

  // A borrowed VM: in use, or past the retirement check of Put and about to be sent back
  datatype Loan = InUse(vm: nat) | Returning(vm: nat)

  datatype State = State(
    idle: seq<nat>,            // the channel
    loans: map<nat, Loan>,     // by caller
    hand: Option<nat>,         // the VM the cleaner has taken out
    uses: map<nat, nat>,       // reuses by VM
    created: nat,
    evicted: nat,
    dropped: nat               // VMs the cleaner could not send back (vm_pool.go, line 116)
  )

  datatype Action =
    | GetAction(caller: nat)
    | RetireAction(caller: nat)   // the check of vm_pool.go, lines 88 to 91
    | ReturnAction(caller: nat)   // the send of vm_pool.go, lines 97 to 101
    | CleanTake
    | CleanEvict
    | CleanReturn

  ghost function Initial(initial: nat): State {
    State(seq(initial, i => i), map[], None, map[], 0, 0, 0)
  }

  ghost function Uses(s: State, vm: nat): nat {
    if vm in s.uses then s.uses[vm] else 0
  }

  // The next unused name for a VM
  ghost function NewVm(s: State, initial: nat): nat {
    initial + s.created
  }

  ghost function AfterGet(s: State, initial: nat, caller: nat): State {
    if caller in s.loans then s
    else if s.idle != [] then
      var vm := s.idle[0];
      s.(idle := s.idle[1..], loans := s.loans[caller := InUse(vm)], uses := s.uses[vm := Uses(s, vm) + 1])
    else
      s.(loans := s.loans[caller := InUse(NewVm(s, initial))], created := s.created + 1)
  }

  ghost function AfterRetire(s: State, caller: nat): State {
    if caller !in s.loans || !s.loans[caller].InUse? then s
    else if Uses(s, s.loans[caller].vm) > MAX_USES then
      s.(loans := s.loans - {caller}, evicted := s.evicted + 1)
    else s.(loans := s.loans[caller := Returning(s.loans[caller].vm)])
  }

  ghost function AfterReturn(s: State, capacity: nat, caller: nat): State {
    if caller !in s.loans || !s.loans[caller].Returning? then s
    else if |s.idle| < capacity then
      s.(idle := s.idle + [s.loans[caller].vm], loans := s.loans - {caller})
    else s.(loans := s.loans - {caller}, evicted := s.evicted + 1)
  }

  ghost function AfterClean(s: State, capacity: nat, a: Action): State {
    match a
    case CleanTake =>
      if s.hand == None && s.idle != [] then s.(idle := s.idle[1..], hand := Some(s.idle[0])) else s
    case CleanEvict =>
      if s.hand != None then s.(hand := None, evicted := s.evicted + 1) else s
    case _ =>
      if s.hand == None then s
      else if |s.idle| < capacity then s.(idle := s.idle + [s.hand.value], hand := None)
      else s.(hand := None, dropped := s.dropped + 1)
  }

  ghost function Step(s: State, initial: nat, capacity: nat, a: Action): State {
    match a
    case GetAction(caller) => AfterGet(s, initial, caller)
    case RetireAction(caller) => AfterRetire(s, caller)
    case ReturnAction(caller) => AfterReturn(s, capacity, caller)
    case _ => AfterClean(s, capacity, a)
  }

  ghost function Run(initial: nat, capacity: nat, actions: seq<Action>): State {
    if actions == [] then Initial(initial)
    else Step(Run(initial, capacity, actions[..|actions| - 1]), initial, capacity, actions[|actions| - 1])
  }

  ghost function InHand(s: State): nat {
    if s.hand == None then 0 else 1
  }

  // Every VM is idle at most once, or on loan to at most one caller, or in the cleaner's hand
  ghost predicate OnePlaceEach(s: State) {
    && (forall i, j :: 0 <= i < j < |s.idle| ==> s.idle[i] != s.idle[j])
    && (forall c :: c in s.loans ==> s.loans[c].vm !in s.idle && s.hand != Some(s.loans[c].vm))
    && (forall c, d :: c in s.loans && d in s.loans && c != d ==> s.loans[c].vm != s.loans[d].vm)
    && (s.hand != None ==> s.hand.value !in s.idle)
  }

  // All VMs in circulation were made, and none has been used too often
  ghost predicate UsesOk(s: State, initial: nat) {
    && (forall vm :: vm in s.uses ==> vm < NewVm(s, initial))
    && (forall vm :: vm in s.idle ==> vm < NewVm(s, initial) && Uses(s, vm) <= MAX_USES)
    && (forall c :: c in s.loans ==> LoanOk(s, initial, s.loans[c]))
    && (s.hand != None ==> s.hand.value < NewVm(s, initial) && Uses(s, s.hand.value) <= MAX_USES)
  }

  ghost predicate LoanOk(s: State, initial: nat, l: Loan) {
    l.vm < NewVm(s, initial) && Uses(s, l.vm) <= if l.InUse? then MAX_USES + 1 else MAX_USES
  }

  // No VM is lost without being counted
  ghost predicate Accounted(s: State, initial: nat) {
    initial + s.created == |s.idle| + |s.loans| + InHand(s) + s.evicted + s.dropped
  }

  ghost predicate Inv(s: State, initial: nat, capacity: nat) {
    |s.idle| <= capacity && OnePlaceEach(s) && UsesOk(s, initial) && Accounted(s, initial)
  }

  lemma LoanRemoved(loans: map<nat, Loan>, caller: nat)
    requires caller in loans
    ensures |loans - {caller}| == |loans| - 1
  {
    assert (loans - {caller}).Keys == loans.Keys - {caller};
  }

  lemma LoanAdded(loans: map<nat, Loan>, caller: nat, l: Loan)
    ensures |loans[caller := l]| == if caller in loans then |loans| else |loans| + 1
  {
    assert loans[caller := l].Keys == loans.Keys + {caller};
  }

  // A VM that is nowhere but perhaps in the hands of whoever acts
  ghost predicate Nowhere(s: State, vm: nat) {
    vm !in s.idle && s.hand != Some(vm) && forall c :: c in s.loans ==> s.loans[c].vm != vm
  }

  lemma TakeIdle(s: State, initial: nat)
    requires OnePlaceEach(s) && UsesOk(s, initial) && s.idle != []
    ensures var t := s.(idle := s.idle[1..]);
      OnePlaceEach(t) && UsesOk(t, initial) && Nowhere(t, s.idle[0])
  {
    assert s.idle[0] in s.idle && s.idle[0] !in s.idle[1..];
    assert forall vm :: vm in s.idle[1..] ==> vm in s.idle;
  }

  lemma SendIdle(s: State, initial: nat, vm: nat)
    requires OnePlaceEach(s) && UsesOk(s, initial) && Nowhere(s, vm)
    requires vm < NewVm(s, initial) && Uses(s, vm) <= MAX_USES
    ensures var t := s.(idle := s.idle + [vm]);
      OnePlaceEach(t) && UsesOk(t, initial)
  {}

  lemma DropLoan(s: State, initial: nat, caller: nat)
    requires OnePlaceEach(s) && UsesOk(s, initial) && caller in s.loans
    ensures var t := s.(loans := s.loans - {caller});
      OnePlaceEach(t) && UsesOk(t, initial) && Nowhere(t, s.loans[caller].vm)
  {
    assert LoanOk(s, initial, s.loans[caller]);
  }

  lemma AddLoan(s: State, initial: nat, caller: nat, l: Loan)
    requires OnePlaceEach(s) && UsesOk(s, initial) && Nowhere(s, l.vm) && caller !in s.loans
    requires LoanOk(s, initial, l)
    ensures var t := s.(loans := s.loans[caller := l]);
      OnePlaceEach(t) && UsesOk(t, initial)
  {}

  // Counting a use of a VM that is nowhere
  lemma CountUse(s: State, initial: nat, vm: nat, n: nat)
    requires OnePlaceEach(s) && UsesOk(s, initial) && Nowhere(s, vm) && vm < NewVm(s, initial)
    ensures var t := s.(uses := s.uses[vm := n]);
      OnePlaceEach(t) && UsesOk(t, initial) && Nowhere(t, vm)
  {
    var t := s.(uses := s.uses[vm := n]);
    forall c | c in t.loans ensures LoanOk(t, initial, t.loans[c]) {
      assert LoanOk(s, initial, s.loans[c]);
    }
  }

  lemma OneMoreMade(s: State, initial: nat)
    requires OnePlaceEach(s) && UsesOk(s, initial)
    ensures var t := s.(created := s.created + 1);
      OnePlaceEach(t) && UsesOk(t, initial) && Nowhere(t, NewVm(s, initial)) && Uses(t, NewVm(s, initial)) == 0
  {
    var t := s.(created := s.created + 1);
    forall c | c in t.loans ensures LoanOk(t, initial, t.loans[c]) {
      assert LoanOk(s, initial, s.loans[c]);
    }
  }

  lemma GetIdleKeepsInv(s: State, initial: nat, capacity: nat, caller: nat)
    requires Inv(s, initial, capacity) && caller !in s.loans && s.idle != []
    ensures Inv(AfterGet(s, initial, caller), initial, capacity)
  {
    var vm := s.idle[0];
    var n := Uses(s, vm) + 1;
    assert vm in s.idle;
    var t := s.(idle := s.idle[1..]);
    TakeIdle(s, initial);
    CountUse(t, initial, vm, n);
    AddLoan(t.(uses := s.uses[vm := n]), initial, caller, InUse(vm));
    LoanAdded(s.loans, caller, InUse(vm));
  }

  lemma GetKeepsInv(s: State, initial: nat, capacity: nat, caller: nat)
    requires Inv(s, initial, capacity)
    ensures Inv(AfterGet(s, initial, caller), initial, capacity)
  {
    if caller !in s.loans && s.idle != [] {
      GetIdleKeepsInv(s, initial, capacity, caller);
    } else if caller !in s.loans {
      OneMoreMade(s, initial);
      AddLoan(s.(created := s.created + 1), initial, caller, InUse(NewVm(s, initial)));
      LoanAdded(s.loans, caller, InUse(NewVm(s, initial)));
    }
  }

  lemma MarkReturning(s: State, initial: nat, caller: nat)
    requires OnePlaceEach(s) && UsesOk(s, initial) && caller in s.loans && Uses(s, s.loans[caller].vm) <= MAX_USES
    ensures var t := s.(loans := s.loans[caller := Returning(s.loans[caller].vm)]);
      OnePlaceEach(t) && UsesOk(t, initial)
  {
    var l := Returning(s.loans[caller].vm);
    assert LoanOk(s, initial, s.loans[caller]);
    DropLoan(s, initial, caller);
    AddLoan(s.(loans := s.loans - {caller}), initial, caller, l);
    assert (s.loans - {caller})[caller := l] == s.loans[caller := l];
  }

  lemma EvictLoan(s: State, initial: nat, caller: nat)
    requires OnePlaceEach(s) && UsesOk(s, initial) && caller in s.loans
    ensures var t := s.(loans := s.loans - {caller}, evicted := s.evicted + 1);
      OnePlaceEach(t) && UsesOk(t, initial)
  {
    DropLoan(s, initial, caller);
  }

  lemma RetireKeepsInv(s: State, initial: nat, capacity: nat, caller: nat)
    requires Inv(s, initial, capacity)
    ensures Inv(AfterRetire(s, caller), initial, capacity)
  {
    if caller in s.loans && s.loans[caller].InUse? {
      if Uses(s, s.loans[caller].vm) > MAX_USES {
        EvictLoan(s, initial, caller);
        LoanRemoved(s.loans, caller);
      } else {
        MarkReturning(s, initial, caller);
        LoanAdded(s.loans, caller, Returning(s.loans[caller].vm));
      }
    }
  }

  lemma ReturnKeepsInv(s: State, initial: nat, capacity: nat, caller: nat)
    requires Inv(s, initial, capacity)
    ensures Inv(AfterReturn(s, capacity, caller), initial, capacity)
  {
    if caller in s.loans && s.loans[caller].Returning? {
      LoanRemoved(s.loans, caller);
      if |s.idle| < capacity {
        SendReturned(s, initial, caller);
      } else {
        EvictLoan(s, initial, caller);
      }
    }
  }

  lemma SendReturned(s: State, initial: nat, caller: nat)
    requires OnePlaceEach(s) && UsesOk(s, initial) && caller in s.loans && s.loans[caller].Returning?
    ensures var t := s.(idle := s.idle + [s.loans[caller].vm], loans := s.loans - {caller});
      OnePlaceEach(t) && UsesOk(t, initial)
  {
    assert LoanOk(s, initial, s.loans[caller]);
    DropLoan(s, initial, caller);
    SendIdle(s.(loans := s.loans - {caller}), initial, s.loans[caller].vm);
  }

  // Taking a VM that is nowhere into the cleaner's hand, and letting go of it
  lemma TakeInHand(s: State, initial: nat, vm: nat)
    requires OnePlaceEach(s) && UsesOk(s, initial) && Nowhere(s, vm) && s.hand == None
    requires vm < NewVm(s, initial) && Uses(s, vm) <= MAX_USES
    ensures var t := s.(hand := Some(vm));
      OnePlaceEach(t) && UsesOk(t, initial)
  {}

  lemma LetGo(s: State, initial: nat)
    requires OnePlaceEach(s) && UsesOk(s, initial) && s.hand != None
    ensures var t := s.(hand := None);
      OnePlaceEach(t) && UsesOk(t, initial) && Nowhere(t, s.hand.value)
  {}

  lemma CleanTakeKeepsInv(s: State, initial: nat, capacity: nat)
    requires Inv(s, initial, capacity) && s.hand == None && s.idle != []
    ensures Inv(AfterClean(s, capacity, CleanTake), initial, capacity)
  {
    assert s.idle[0] in s.idle;
    TakeIdle(s, initial);
    TakeInHand(s.(idle := s.idle[1..]), initial, s.idle[0]);
  }

  lemma CleanReturnKeepsInv(s: State, initial: nat, capacity: nat)
    requires Inv(s, initial, capacity) && s.hand != None
    ensures Inv(AfterClean(s, capacity, CleanReturn), initial, capacity)
  {
    LetGo(s, initial);
    if |s.idle| < capacity {
      SendIdle(s.(hand := None), initial, s.hand.value);
    }
  }

  lemma CleanKeepsInv(s: State, initial: nat, capacity: nat, a: Action)
    requires Inv(s, initial, capacity) && (a.CleanTake? || a.CleanEvict? || a.CleanReturn?)
    ensures Inv(AfterClean(s, capacity, a), initial, capacity)
  {
    match a
    case CleanTake =>
      if s.hand == None && s.idle != [] {
        CleanTakeKeepsInv(s, initial, capacity);
      }
    case CleanEvict =>
      if s.hand != None {
        LetGo(s, initial);
      }
    case CleanReturn =>
      if s.hand != None {
        CleanReturnKeepsInv(s, initial, capacity);
      }
  }

  /** In every interleaving a VM has one place, the channel stays within its capacity, no VM
      is used more than MAX_USES + 1 times, and every VM is accounted for. */
  lemma {:induction false} EveryRunIsSafe(initial: nat, capacity: nat, actions: seq<Action>)
    requires initial <= capacity
    ensures Inv(Run(initial, capacity, actions), initial, capacity)
    decreases actions
  {
    if actions != [] {
      var before := Run(initial, capacity, actions[..|actions| - 1]);
      EveryRunIsSafe(initial, capacity, actions[..|actions| - 1]);
      match actions[|actions| - 1]
      case GetAction(caller) => GetKeepsInv(before, initial, capacity, caller);
      case RetireAction(caller) => RetireKeepsInv(before, initial, capacity, caller);
      case ReturnAction(caller) => ReturnKeepsInv(before, initial, capacity, caller);
      case a => CleanKeepsInv(before, initial, capacity, a);
    }
  }

  ghost predicate GetsOne(s: State, t: State, caller: nat) {
    && caller in t.loans && t.loans[caller].InUse? && t.loans - {caller} == s.loans
    && var vm := t.loans[caller].vm;
    && (s.idle != [] ==> vm == s.idle[0] && t.idle == s.idle[1..] && Uses(t, vm) == Uses(s, vm) + 1 && t.created == s.created)
    && (s.idle == [] ==> Nowhere(s, vm) && t.idle == [] && Uses(t, vm) == 0 && t.created == s.created + 1)
  }

  /** In every run a get acts like the method Get: the first idle VM, with one more use, or
      a VM that is nowhere yet. */
  lemma GetAlone(initial: nat, capacity: nat, actions: seq<Action>, caller: nat)
    requires initial <= capacity && caller !in Run(initial, capacity, actions).loans
    ensures var s := Run(initial, capacity, actions); GetsOne(s, Step(s, initial, capacity, GetAction(caller)), caller)
  {
    EveryRunIsSafe(initial, capacity, actions);
    GetActsAlone(Run(initial, capacity, actions), initial, caller);
  }

  lemma GetActsAlone(s: State, initial: nat, caller: nat)
    requires OnePlaceEach(s) && UsesOk(s, initial) && caller !in s.loans
    ensures var t := AfterGet(s, initial, caller); GetsOne(s, t, caller)
  {
    OneMoreMade(s, initial);
  }

  /** A return that nothing comes between acts like the method Put. */
  lemma PutAlone(s: State, initial: nat, capacity: nat, caller: nat)
    requires caller in s.loans && s.loans[caller].InUse?
    ensures var t := Step(Step(s, initial, capacity, RetireAction(caller)), initial, capacity, ReturnAction(caller));
      var vm := s.loans[caller].vm; var kept := Uses(s, vm) <= 10000 && |s.idle| < capacity;
      && t.idle == s.idle + (if kept then [vm] else [])
      && t.evicted == s.evicted + (if kept then 0 else 1)
      && t.loans == s.loans - {caller} && t.created == s.created
  {
    var vm := s.loans[caller].vm;
    assert (s.loans[caller := Returning(vm)] - {caller}) == s.loans - {caller};
  }
}
