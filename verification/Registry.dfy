/**
 The table of WebSocket connections: registration counts the entries, and stores a new one
 only if the count was below the limit.
 */
module Registry {
  // ---------- One operation at a time ----------

  class WSManager<Connection(==)> {
    var connections: set<Connection>
    const maxConns: int
    var active: int
    var total: int

    ghost predicate Valid()
      reads this
    {
      active == |connections| <= total
    }

    constructor (maxConns: int)
      ensures Valid() && connections == {} && this.maxConns == maxConns && total == 0
    {
      connections, active, total := {}, 0, 0;
      this.maxConns := maxConns;
    }

    // Ranging over the table
    method CountConnections() returns (count: nat)
      ensures count == |connections|
    {
      count := 0;
      var rest := connections;
      while rest != {}
        invariant count + |rest| == |connections|
        decreases rest
      {
        var c :| c in rest;
        rest := rest - {c};
        count := count + 1;
      }
    }

    /** Alone, a registration succeeds exactly if there is room. */
    method Register(ws: Connection) returns (ok: bool)
      requires Valid() && ws !in connections
      modifies this
      ensures Valid() && (ok <==> |old(connections)| < maxConns)
      ensures connections == if ok then old(connections) + {ws} else old(connections)
      ensures total == if ok then old(total) + 1 else old(total)
    {
      var count := CountConnections();
      if count >= maxConns {
        return false;
      }
      connections := connections + {ws};
      active := active + 1;
      total := total + 1;
      return true;
    }

    method Unregister(ws: Connection)
      requires Valid() && ws in connections
      modifies this
      ensures Valid() && connections == old(connections) - {ws} && total == old(total)
    {
      connections := connections - {ws};
      active := active - 1;
    }
  }

  // ---------- All interleavings ----------

  // Registrations are numbered in the order in which they begin to range over the table.
  // Ranging is not instantaneous: it visits the entries that are there from its beginning to
  // its end, and may or may not visit those that come or go meanwhile.
  datatype State = State(
    table: set<nat>,
    ranging: map<nat, set<nat>>,  // the entries each has visited
    admitted: set<nat>,           // found room, not yet stored
    uncounted: set<nat>,          // stored, not yet counted as active
    lingering: nat,               // removed, still counted as active
    active: int,
    // history
    there: seq<set<nat>>,         // the table when each registration began
    racing: seq<set<nat>>,        // who was between beginning and store at that moment, with itself
    most: nat                     // the largest number that ever were
  )

  datatype Action =
    | Begin
    | Visit(r: nat, c: nat)
    | End(r: nat)
    | Store(r: nat)
    | CountUp(r: nat)
    | Remove(c: nat)
    | CountDown

  ghost function Start(): State {
    State({}, map[], {}, {}, 0, 0, [], [], 0)
  }

  // Between the beginning of the range and the store
  ghost function Racing(s: State): set<nat> {
    s.ranging.Keys + s.admitted
  }

  ghost function AfterBegin(s: State): State {
    var r := |s.there|;
    var race := Racing(s) + {r};
    s.(ranging := s.ranging[r := {}], there := s.there + [s.table], racing := s.racing + [race],
       most := if |race| > s.most then |race| else s.most)
  }

  ghost function AfterVisit(s: State, r: nat, c: nat): State {
    if r !in s.ranging || c !in s.table then s
    else s.(ranging := s.ranging[r := s.ranging[r] + {c}])
  }

  // The range may end once it has visited all that were there throughout
  ghost predicate MayEnd(s: State, r: nat) {
    r in s.ranging && r < |s.there| && s.there[r] * s.table <= s.ranging[r]
  }

  ghost function AfterEnd(s: State, maxConns: int, r: nat): State {
    if !MayEnd(s, r) then s
    else if |s.ranging[r]| >= maxConns then s.(ranging := s.ranging - {r})
    else s.(ranging := s.ranging - {r}, admitted := s.admitted + {r})
  }

  ghost function AfterStore(s: State, r: nat): State {
    if r !in s.admitted then s
    else s.(admitted := s.admitted - {r}, table := s.table + {r}, uncounted := s.uncounted + {r})
  }

  ghost function Step(s: State, maxConns: int, a: Action): State {
    match a
    case Begin => AfterBegin(s)
    case Visit(r, c) => AfterVisit(s, r, c)
    case End(r) => AfterEnd(s, maxConns, r)
    case Store(r) => AfterStore(s, r)
    case CountUp(r) =>
      if r in s.uncounted then s.(uncounted := s.uncounted - {r}, active := s.active + 1) else s
    case Remove(c) =>
      if c in s.table && c !in s.uncounted then s.(table := s.table - {c}, lingering := s.lingering + 1) else s
    case CountDown =>
      if s.lingering > 0 then s.(lingering := s.lingering - 1, active := s.active - 1) else s
  }

  ghost function Run(maxConns: int, actions: seq<Action>): State {
    if actions == [] then Start()
    else Step(Run(maxConns, actions[..|actions| - 1]), maxConns, actions[|actions| - 1])
  }

  // ---------- What every run keeps ----------

  ghost function Everyone(s: State): set<nat> {
    s.table + Racing(s)
  }

  // Everybody has begun and is in one phase
  ghost predicate PhasesOk(s: State) {
    && Below(Everyone(s), |s.there|)
    && s.table !! Racing(s) && s.admitted !! s.ranging.Keys
  }

  ghost predicate Below(s: set<nat>, n: nat) {
    forall c :: c in s ==> c < n
  }

  // An entry that was there at somebody's beginning has been stored
  ghost predicate ThereOk(there: seq<set<nat>>, racers: set<nat>) {
    forall r :: 0 <= r < |there| ==> there[r] !! racers && Below(there[r], |there|)
  }

  // Whoever began no later than r is known to r, as an entry or as a racer
  ghost predicate KnownOk(there: seq<set<nat>>, racing: seq<set<nat>>, everyone: set<nat>) {
    |racing| == |there| &&
    forall r: nat, c: nat :: r < |there| && c in everyone && c <= r ==> c in there[r] || c in racing[r]
  }

  // Of the entries there at the beginning of a successful registration, too few are left to fill the table
  ghost predicate RoomOk(there: seq<set<nat>>, table: set<nat>, winners: set<nat>, maxConns: int) {
    forall r :: 0 <= r < |there| && r in winners ==> |there[r] * table| < maxConns
  }

  ghost predicate RacesOk(racing: seq<set<nat>>, most: nat) {
    forall r :: 0 <= r < |racing| ==> |racing[r]| <= most
  }

  ghost predicate CountsOk(table: set<nat>, uncounted: set<nat>, lingering: nat, active: int) {
    uncounted <= table && active == |table| - |uncounted| + lingering
  }

  ghost predicate Inv(s: State, maxConns: int) {
    && PhasesOk(s)
    && ThereOk(s.there, Racing(s))
    && KnownOk(s.there, s.racing, Everyone(s))
    && RoomOk(s.there, s.table, s.table + s.admitted, maxConns)
    && RacesOk(s.racing, s.most)
    && CountsOk(s.table, s.uncounted, s.lingering, s.active)
  }

  lemma Smaller(a: set<nat>, b: set<nat>)
    requires a <= b
    ensures |a| <= |b|
  {
    assert b == a + (b - a);
  }

  // Fewer racers and participants
  lemma Fewer(there: seq<set<nat>>, racing: seq<set<nat>>, racers: set<nat>, racers': set<nat>,
              everyone: set<nat>, everyone': set<nat>)
    requires ThereOk(there, racers) && KnownOk(there, racing, everyone)
    requires racers' <= racers && everyone' <= everyone
    ensures ThereOk(there, racers') && KnownOk(there, racing, everyone')
  {
    forall r: nat, c: nat | r < |there| && c in everyone' && c <= r ensures c in there[r] || c in racing[r] {
      assert c in everyone;
    }
  }

  lemma RoomStays(there: seq<set<nat>>, table: set<nat>, table': set<nat>, winners: set<nat>, winners': set<nat>, maxConns: int)
    requires RoomOk(there, table, winners, maxConns) && winners' <= winners
    requires forall r :: 0 <= r < |there| ==> there[r] * table' <= there[r] * table
    ensures RoomOk(there, table', winners', maxConns)
  {
    forall r | 0 <= r < |there| && r in winners' ensures |there[r] * table'| < maxConns {
      Smaller(there[r] * table', there[r] * table);
    }
  }

  lemma RoomBegins(there: seq<set<nat>>, table: set<nat>, winners: set<nat>, maxConns: int)
    requires RoomOk(there, table, winners, maxConns) && |there| !in winners
    ensures RoomOk(there + [table], table, winners, maxConns)
  {}

  lemma KnownBegins(there: seq<set<nat>>, racing: seq<set<nat>>, everyone: set<nat>, table: set<nat>, race: set<nat>)
    requires KnownOk(there, racing, everyone) && everyone + {|there|} == table + race
    ensures KnownOk(there + [table], racing + [race], everyone + {|there|})
  {
    forall r: nat, c: nat | r < |there| + 1 && c in everyone + {|there|} && c <= r
      ensures c in (there + [table])[r] || c in (racing + [race])[r]
    {
      if r == |there| {
        assert c in table + race;
      }
    }
  }

  lemma ThereBegins(there: seq<set<nat>>, racers: set<nat>, table: set<nat>)
    requires ThereOk(there, racers) && table !! racers && Below(table, |there|)
    ensures ThereOk(there + [table], racers + {|there|})
  {
    forall r | 0 <= r < |there + [table]|
      ensures (there + [table])[r] !! racers + {|there|} && Below((there + [table])[r], |there| + 1)
    {
      assert (there + [table])[r] == if r < |there| then there[r] else table;
      assert (there + [table])[r] !! racers && Below((there + [table])[r], |there|);
    }
  }

  lemma RacesBegin(racing: seq<set<nat>>, race: set<nat>, most: nat, most': nat)
    requires RacesOk(racing, most) && most <= most' && |race| <= most'
    ensures RacesOk(racing + [race], most')
  {
    forall r | 0 <= r < |racing + [race]| ensures |(racing + [race])[r]| <= most' {
      assert (racing + [race])[r] == if r < |racing| then racing[r] else race;
    }
  }

  lemma BeginMoves(s: State)
    ensures var t := AfterBegin(s); var r := |s.there|;
      Racing(t) == Racing(s) + {r} && Everyone(t) == Everyone(s) + {r} && t.ranging.Keys == s.ranging.Keys + {r}
  {
    var t, r := AfterBegin(s), |s.there|;
    assert t.ranging.Keys == s.ranging.Keys + {r};
    assert Racing(t) == Racing(s) + {r};
  }

  lemma BeginKeepsPhases(s: State)
    requires PhasesOk(s)
    ensures |s.there| !in Everyone(s) && PhasesOk(AfterBegin(s))
  {
    var r := |s.there|;
    assert r !in Everyone(s);
    BeginMoves(s);
    assert r !in s.table && r !in s.admitted;
  }

  lemma BeginKeepsInv(s: State, maxConns: int)
    requires Inv(s, maxConns)
    ensures Inv(AfterBegin(s), maxConns)
  {
    var r, race, t := |s.there|, Racing(s) + {|s.there|}, AfterBegin(s);
    BeginMoves(s);
    BeginKeepsPhases(s);
    assert Everyone(s) + {r} == s.table + race;
    ThereBegins(s.there, Racing(s), s.table);
    KnownBegins(s.there, s.racing, Everyone(s), s.table, race);
    RoomBegins(s.there, s.table, s.table + s.admitted, maxConns);
    RacesBegin(s.racing, race, s.most, t.most);
  }

  lemma VisitKeepsInv(s: State, maxConns: int, r: nat, c: nat)
    requires Inv(s, maxConns)
    ensures Inv(AfterVisit(s, r, c), maxConns)
  {
    assert AfterVisit(s, r, c).ranging.Keys == s.ranging.Keys;
  }

  lemma RoomWon(there: seq<set<nat>>, table: set<nat>, winners: set<nat>, maxConns: int, r: nat)
    requires RoomOk(there, table, winners, maxConns) && r < |there| && |there[r] * table| < maxConns
    ensures RoomOk(there, table, winners + {r}, maxConns)
  {}

  lemma EndMoves(s: State, maxConns: int, r: nat)
    requires PhasesOk(s) && r in s.ranging
    ensures var t := AfterEnd(s, maxConns, r);
      Racing(t) <= Racing(s) && Everyone(t) <= Everyone(s) && PhasesOk(t)
  {
    var t := AfterEnd(s, maxConns, r);
    assert t.ranging.Keys <= s.ranging.Keys && (t == s || t.ranging.Keys == s.ranging.Keys - {r});
  }

  lemma EndKeepsInv(s: State, maxConns: int, r: nat)
    requires Inv(s, maxConns)
    ensures Inv(AfterEnd(s, maxConns, r), maxConns)
  {
    if MayEnd(s, r) {
      var t := AfterEnd(s, maxConns, r);
      EndMoves(s, maxConns, r);
      Fewer(s.there, s.racing, Racing(s), Racing(t), Everyone(s), Everyone(t));
      if |s.ranging[r]| < maxConns {
        Smaller(s.there[r] * s.table, s.ranging[r]);
        RoomWon(s.there, s.table, s.table + s.admitted, maxConns, r);
        assert t.table + t.admitted == s.table + s.admitted + {r};
      }
    }
  }

  lemma StoreMoves(s: State, r: nat)
    requires PhasesOk(s) && r in s.admitted
    ensures var t := AfterStore(s, r);
      && Racing(t) <= Racing(s) && Everyone(t) == Everyone(s) && t.table + t.admitted == s.table + s.admitted
      && PhasesOk(t) && r !in s.table
  {
    var t := AfterStore(s, r);
    assert r in Racing(s) && r in Everyone(s);
    assert Everyone(t) == Everyone(s);
  }

  lemma StoreKeepsInv(s: State, maxConns: int, r: nat)
    requires Inv(s, maxConns)
    ensures Inv(AfterStore(s, r), maxConns)
  {
    if r in s.admitted {
      var t := AfterStore(s, r);
      StoreMoves(s, r);
      Fewer(s.there, s.racing, Racing(s), Racing(t), Everyone(s), Everyone(t));
      forall q | 0 <= q < |s.there| ensures s.there[q] * t.table <= s.there[q] * s.table {
        assert r in Racing(s) && r !in s.there[q];
      }
      RoomStays(s.there, s.table, t.table, s.table + s.admitted, t.table + t.admitted, maxConns);
    }
  }

  lemma RemoveKeepsInv(s: State, maxConns: int, c: nat)
    requires Inv(s, maxConns)
    ensures Inv(Step(s, maxConns, Remove(c)), maxConns)
  {
    if c in s.table && c !in s.uncounted {
      var t := Step(s, maxConns, Remove(c));
      Fewer(s.there, s.racing, Racing(s), Racing(t), Everyone(s), Everyone(t));
      RoomStays(s.there, s.table, t.table, s.table + s.admitted, t.table + t.admitted, maxConns);
    }
  }

  lemma CountsKeepInv(s: State, maxConns: int, a: Action)
    requires Inv(s, maxConns) && (a.CountUp? || a.CountDown?)
    ensures Inv(Step(s, maxConns, a), maxConns)
  {}

  lemma StepKeepsInv(s: State, maxConns: int, a: Action)
    requires Inv(s, maxConns)
    ensures Inv(Step(s, maxConns, a), maxConns)
  {
    match a
    case Begin => BeginKeepsInv(s, maxConns);
    case Visit(r, c) => VisitKeepsInv(s, maxConns, r, c);
    case End(r) => EndKeepsInv(s, maxConns, r);
    case Store(r) => StoreKeepsInv(s, maxConns, r);
    case Remove(c) => RemoveKeepsInv(s, maxConns, c);
    case _ => CountsKeepInv(s, maxConns, a);
  }

  lemma {:induction false} EveryRunIsSafe(maxConns: int, actions: seq<Action>)
    ensures Inv(Run(maxConns, actions), maxConns)
    decreases actions
  {
    if actions != [] {
      EveryRunIsSafe(maxConns, actions[..|actions| - 1]);
      StepKeepsInv(Run(maxConns, actions[..|actions| - 1]), maxConns, actions[|actions| - 1]);
    }
  }

  lemma {:induction false} Latest(s: set<nat>) returns (r: nat)
    requires s != {}
    ensures r in s && forall c :: c in s ==> c <= r
    decreases s
  {
    r :| r in s;
    var rest := s - {r};
    assert forall c :: c in s ==> c == r || c in rest;
    if rest != {} {
      var q := Latest(rest);
      r := if q > r then q else r;
    }
  }

  // Seen from the one who began last, all entries were there at its beginning, or raced it
  lemma TableIsBounded(s: State, maxConns: int)
    requires Inv(s, maxConns) && s.table != {}
    ensures |s.table| <= maxConns - 1 + s.most
  {
    var r := Latest(s.table);
    assert r in Everyone(s) && r in s.table + s.admitted;
    var kept, race := s.there[r] * s.table, s.racing[r];
    forall c | c in s.table ensures c in kept + race {
      assert c <= r && c in Everyone(s);
    }
    Smaller(s.table, kept + race);
    assert |kept + race| <= |kept| + |race|;
  }

  /** The table exceeds its limit by less than the number of registrations that at one moment
      were between the beginning of their range and their store; and whenever no store or
      removal is half done, the active counter is the table's size. */
  lemma OvershootIsBounded(maxConns: int, actions: seq<Action>)
    ensures var s := Run(maxConns, actions); s.table != {} ==> |s.table| <= maxConns - 1 + s.most
    ensures var s := Run(maxConns, actions); s.uncounted == {} && s.lingering == 0 ==> s.active == |s.table|
  {
    EveryRunIsSafe(maxConns, actions);
    if Run(maxConns, actions).table != {} {
      TableIsBounded(Run(maxConns, actions), maxConns);
    }
  }

  // ---------- The bound is reached ----------

  lemma OneMore(maxConns: int, before: seq<Action>, a: Action)
    ensures Run(maxConns, before + [a]) == Step(Run(maxConns, before), maxConns, a)
  {
    assert (before + [a])[..|before|] == before;
  }

  // The table and the history of s are those of t
  ghost predicate Similar(s: State, t: State) {
    t.table == s.table && t.there == s.there && t.most == s.most
  }

  // After the given actions r does nothing but visit entries, and nobody else does anything
  ghost predicate OnlyVisits(before: seq<Action>, after: seq<Action>, r: nat) {
    && |before| <= |after| && after[..|before|] == before
    && forall k :: |before| <= k < |after| ==> after[k].Visit? && after[k].r == r
  }

  // Visiting entries of the table one by one
  lemma {:induction false} Visited(maxConns: int, before: seq<Action>, r: nat, entries: set<nat>)
    returns (after: seq<Action>)
    requires var s := Run(maxConns, before); r in s.ranging && s.ranging[r] == {} && entries <= s.table
    ensures var s := Run(maxConns, before); var t := Run(maxConns, after);
      && Similar(s, t) && t.admitted == s.admitted && t.ranging.Keys == s.ranging.Keys
      && t.ranging[r] == entries && forall q :: q in s.ranging && q != r ==> t.ranging[q] == s.ranging[q]
    ensures OnlyVisits(before, after, r)
    decreases entries
  {
    after := before;
    if entries != {} {
      var c :| c in entries;
      var but := Visited(maxConns, before, r, entries - {c});
      OneMore(maxConns, but, Visit(r, c));
      after := but + [Visit(r, c)];
      assert entries - {c} + {c} == entries;
    }
  }

  /** A registration that nothing comes between acts like the method Register: it is stored
      if and only if the table is below the limit. */
  lemma RegisterAlone(maxConns: int, before: seq<Action>) returns (visits: seq<Action>)
    ensures var s := Run(maxConns, before); var r := |s.there|;
      var t := Run(maxConns, visits + [End(r)] + [Store(r)]);
      && r !in s.table && t.table == (if |s.table| < maxConns then s.table + {r} else s.table)
      && r !in t.ranging && r !in t.admitted && OnlyVisits(before + [Begin], visits, r)
  {
    var s := Run(maxConns, before);
    var r := |s.there|;
    EveryRunIsSafe(maxConns, before);
    OneMore(maxConns, before, Begin);
    visits := Visited(maxConns, before + [Begin], r, s.table);
    assert s.table * s.table == s.table;
    OneMore(maxConns, visits, End(r));
    OneMore(maxConns, visits + [End(r)], Store(r));
    assert r !in Everyone(s);
  }

  // Exactly these range, have visited nothing, and began with the given table
  ghost predicate Ranging(ranging: map<nat, set<nat>>, there: seq<set<nat>>, table: set<nat>, low: nat, high: nat) {
    && (forall r :: r in ranging <==> low <= r < high)
    && (forall r :: r in ranging ==> r < |there| && ranging[r] == {} && there[r] == table)
  }

  lemma RangingGrows(ranging: map<nat, set<nat>>, there: seq<set<nat>>, table: set<nat>, low: nat)
    requires low <= |there| && Ranging(ranging, there, table, low, |there|)
    ensures Ranging(ranging[|there| := {}], there + [table], table, low, |there| + 1)
  {}

  // After s, k registrations have begun, and the first j of them have stored
  ghost predicate Raced(s: State, t: State, k: nat, j: nat) {
    && j <= k && t.admitted == {} && |t.there| == |s.there| + k
    && (forall c :: c in t.table <==> c in s.table || |s.there| <= c < |s.there| + j)
    && Ranging(t.ranging, t.there, s.table, |s.there| + j, |s.there| + k)
    && t.most == if k < s.most then s.most else k
  }

  lemma {:induction false} IntervalSize(low: nat, k: nat, s: set<nat>)
    requires forall r :: r in s <==> low <= r < low + k
    ensures |s| == k
    decreases k
  {
    if k == 0 {
      assert s == {};
    } else {
      IntervalSize(low, k - 1, s - {low + k - 1});
    }
  }

  lemma BeginsToo(s: State, t: State, k: nat)
    requires Raced(s, t, k, 0)
    ensures Raced(s, AfterBegin(t), k + 1, 0)
  {
    assert t.table == s.table;
    RangingGrows(t.ranging, t.there, s.table, |s.there|);
    IntervalSize(|s.there|, k, t.ranging.Keys);
    assert Racing(t) == t.ranging.Keys && |t.there| !in t.ranging;
    assert |Racing(t) + {|t.there|}| == k + 1;
  }

  lemma {:induction false} AllBegin(maxConns: int, before: seq<Action>, k: nat) returns (after: seq<Action>)
    requires var s := Run(maxConns, before); s.ranging == map[] && s.admitted == {}
    ensures Raced(Run(maxConns, before), Run(maxConns, after), k, 0)
  {
    after := before;
    if k > 0 {
      var but := AllBegin(maxConns, before, k - 1);
      OneMore(maxConns, but, Begin);
      after := but + [Begin];
      BeginsToo(Run(maxConns, before), Run(maxConns, but), k - 1);
    }
  }

  // The next one, which has visited what was there when it began, ends its range and stores
  lemma StoresToo(s: State, maxConns: int, t: State, u: State, k: nat, j: nat)
    requires Raced(s, t, k, j) && j < k && |s.table| < maxConns && Below(s.table, |s.there|)
    requires var r := |s.there| + j;
      && Similar(t, u) && u.admitted == t.admitted && u.ranging.Keys == t.ranging.Keys
      && u.ranging[r] == s.table && forall q :: q in t.ranging && q != r ==> u.ranging[q] == t.ranging[q]
    ensures var r := |s.there| + j; Raced(s, AfterStore(AfterEnd(u, maxConns, r), r), k, j + 1)
  {
    var r := |s.there| + j;
    assert r in t.ranging && r in u.ranging;
    assert MayEnd(u, r);
    var v := AfterEnd(u, maxConns, r);
    assert v.admitted == {r} && v.table == t.table && v.there == t.there && v.most == t.most;
  }

  lemma NextStore(maxConns: int, s: State, before: seq<Action>, k: nat, j: nat) returns (after: seq<Action>)
    requires Raced(s, Run(maxConns, before), k, j) && j < k
    requires |s.table| < maxConns && Below(s.table, |s.there|)
    ensures Raced(s, Run(maxConns, after), k, j + 1)
  {
    var t, r := Run(maxConns, before), |s.there| + j;
    assert r in t.ranging && t.ranging[r] == {} && s.table <= t.table;
    var visited := Visited(maxConns, before, r, s.table);
    StoresToo(s, maxConns, t, Run(maxConns, visited), k, j);
    OneMore(maxConns, visited, End(r));
    OneMore(maxConns, visited + [End(r)], Store(r));
    after := visited + [End(r)] + [Store(r)];
  }

  lemma TableIsBelow(maxConns: int, before: seq<Action>)
    ensures var s := Run(maxConns, before); Below(s.table, |s.there|)
  {
    EveryRunIsSafe(maxConns, before);
    assert forall c :: c in Run(maxConns, before).table ==> c in Everyone(Run(maxConns, before));
  }

  lemma {:induction false} FirstStore(maxConns: int, before: seq<Action>, k: nat, j: nat) returns (after: seq<Action>)
    requires var s := Run(maxConns, before); s.ranging == map[] && s.admitted == {} && |s.table| < maxConns
    requires j <= k
    ensures Raced(Run(maxConns, before), Run(maxConns, after), k, j)
    decreases j
  {
    if j == 0 {
      after := AllBegin(maxConns, before, k);
    } else {
      TableIsBelow(maxConns, before);
      var but := FirstStore(maxConns, before, k, j - 1);
      after := NextStore(maxConns, Run(maxConns, before), but, k, j - 1);
    }
  }

  lemma RacedSize(s: State, t: State, k: nat)
    requires Raced(s, t, k, k) && Below(s.table, |s.there|)
    ensures |t.table| == |s.table| + k && t.ranging == map[]
  {
    IntervalSize(|s.there|, k, t.table - s.table);
    assert t.table == s.table + (t.table - s.table);
  }

  // k registrations that all begin before any of them stores
  lemma Race(maxConns: int, before: seq<Action>, k: nat) returns (after: seq<Action>)
    requires var s := Run(maxConns, before); s.ranging == map[] && s.admitted == {} && |s.table| < maxConns
    ensures var s := Run(maxConns, before); var t := Run(maxConns, after);
      && t.ranging == map[] && t.admitted == {} && |t.table| == |s.table| + k
      && t.most == if k < s.most then s.most else k
  {
    TableIsBelow(maxConns, before);
    after := FirstStore(maxConns, before, k, k);
    RacedSize(Run(maxConns, before), Run(maxConns, after), k);
  }

  // Registering n connections one after the other
  lemma {:induction false} FilledUp(maxConns: int, n: nat) returns (actions: seq<Action>)
    requires n < maxConns
    ensures var s := Run(maxConns, actions); s.ranging == map[] && s.admitted == {} && |s.table| == n && s.most <= 1
  {
    if n == 0 {
      actions := [];
    } else {
      var before := FilledUp(maxConns, n - 1);
      actions := Race(maxConns, before, 1);
    }
  }

  /** However many registrations race, all of them can succeed when one place is left. */
  lemma OvershootIsReached(maxConns: int, k: nat) returns (actions: seq<Action>)
    requires maxConns > 0 && k > 0
    ensures var s := Run(maxConns, actions); |s.table| == maxConns - 1 + k && s.most == k
  {
    var before := FilledUp(maxConns, maxConns - 1);
    actions := Race(maxConns, before, k);
  }
}
