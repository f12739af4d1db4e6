/**
 The table of rate limiters: 256 shards chosen by FNV-1a, each looked up under a read
 lock and, on a miss, looked up again and extended under a write lock.
 */
module RateLimiter {
  import opened Fnv
  import opened Wrappers

  const SHARD_COUNT: nat := 256

  function ShardOf(ip: Bytes): (s: nat)
    ensures s < SHARD_COUNT
  {
    Hash(ip) % SHARD_COUNT
  }

  /** Addresses of one length that differ in one character are in different shards. */
  lemma SimilarAddressesSpread(pre: Bytes, a: Byte, b: Byte, post: Bytes)
    requires a != b
    ensures ShardOf(pre + [a] + post) != ShardOf(pre + [b] + post)
  {
    Pow2Values();
    OneByteApart(pre, a, b, post, 8);
  }

  class Limiter {
    constructor () {}
  }

  class LimiterTable {
    var shards: seq<map<Bytes, Limiter>>

    ghost predicate Valid()
      reads this
    {
      |shards| == SHARD_COUNT && forall s, ip :: 0 <= s < SHARD_COUNT && ip in shards[s] ==> s == ShardOf(ip)
    }

    // The limiters by address
    ghost function Find(ip: Bytes): Option<Limiter>
      requires |shards| == SHARD_COUNT
      reads this
    {
      var shard := shards[ShardOf(ip)];
      if ip in shard then Some(shard[ip]) else None
    }

    constructor ()
      ensures Valid() && forall ip :: Find(ip) == None
    {
      shards := seq(SHARD_COUNT, _ => map[]);
    }

    // plugins.go, lines 106 to 108: under the read lock
    method Lookup(ip: Bytes) returns (r: Option<Limiter>)
      requires Valid()
      ensures r == Find(ip)
    {
      var h := FnvHash(ip);
      var shard := shards[h % SHARD_COUNT];
      return if ip in shard then Some(shard[ip]) else None;
    }

    // plugins.go, lines 111 to 116: under the write lock
    method LookupOrCreate(ip: Bytes) returns (r: Limiter)
      requires Valid()
      modifies this
      ensures Valid() && Find(ip) == Some(r)
      ensures old(Find(ip)) != None ==> shards == old(shards)
      ensures old(Find(ip)) == None ==> fresh(r)
      ensures forall other :: other != ip ==> Find(other) == old(Find(other))
    {
      var h := FnvHash(ip);
      var shard := shards[h % SHARD_COUNT];
      if ip in shard {
        return shard[ip];
      }
      r := new Limiter();
      shards := shards[h % SHARD_COUNT := shard[ip := r]];
    }

    /** The limiter of a request that nothing interferes with: the one its address has had
        since it was first seen. */
    method LimiterFor(ip: Bytes) returns (r: Limiter)
      requires Valid()
      modifies this
      ensures Valid() && Find(ip) == Some(r)
      ensures old(Find(ip)) == if fresh(r) then None else Some(r)
      ensures forall other :: other != ip ==> Find(other) == old(Find(other))
    {
      var found := Lookup(ip);
      if found.Some? {
        return found.value;
      }
      r := LookupOrCreate(ip);
    }
  }

  // ---------- Any number of concurrent requests ----------

  // Limiters are numbered in the order they are made
  datatype Request =
    | Missed(ip: Bytes)                // the first lookup found nothing
    | Uses(ip: Bytes, limiter: nat)

  datatype State = State(
    shards: seq<map<Bytes, nat>>,
    made: seq<Bytes>,                  // for which address each limiter was made
    requests: map<nat, Request>
  )

  datatype Action =
    | LookupAction(request: nat, ip: Bytes)
    | CreateAction(request: nat)

  ghost function Start(): State {
    State(seq(SHARD_COUNT, _ => map[]), [], map[])
  }

  ghost function AfterLookup(s: State, request: nat, ip: Bytes): State
    requires |s.shards| == SHARD_COUNT
  {
    var shard: map<Bytes, nat> := s.shards[ShardOf(ip)];
    if request in s.requests then s
    else s.(requests := s.requests[request := if ip in shard then Uses(ip, shard[ip]) else Missed(ip)])
  }

  ghost function WithLimiter(shards: seq<map<Bytes, nat>>, ip: Bytes, limiter: nat): seq<map<Bytes, nat>>
    requires |shards| == SHARD_COUNT
  {
    var shard: map<Bytes, nat> := shards[ShardOf(ip)];
    shards[ShardOf(ip) := shard[ip := limiter]]
  }

  ghost function AfterCreate(s: State, request: nat): State
    requires |s.shards| == SHARD_COUNT
  {
    if request !in s.requests || !s.requests[request].Missed? then s
    else
      var ip := s.requests[request].ip;
      var shard := s.shards[ShardOf(ip)];
      if ip in shard then s.(requests := s.requests[request := Uses(ip, shard[ip])])
      else s.(shards := WithLimiter(s.shards, ip, |s.made|),
              made := s.made + [ip],
              requests := s.requests[request := Uses(ip, |s.made|)])
  }

  ghost function Step(s: State, a: Action): (t: State)
    requires |s.shards| == SHARD_COUNT
    ensures |t.shards| == SHARD_COUNT
  {
    match a
    case LookupAction(request, ip) => AfterLookup(s, request, ip)
    case CreateAction(request) => AfterCreate(s, request)
  }

  ghost function Run(actions: seq<Action>): (t: State)
    ensures |t.shards| == SHARD_COUNT
  {
    if actions == [] then Start() else Step(Run(actions[..|actions| - 1]), actions[|actions| - 1])
  }

  ghost predicate Registered(s: State, ip: Bytes, limiter: nat)
    requires |s.shards| == SHARD_COUNT
  {
    ip in s.shards[ShardOf(ip)] && s.shards[ShardOf(ip)][ip] == limiter
  }

  // Every limiter made is the registered one of its address
  ghost predicate MadeOnce(s: State)
    requires |s.shards| == SHARD_COUNT
  {
    forall i :: 0 <= i < |s.made| ==> Registered(s, s.made[i], i)
  }

  ghost predicate TablesOk(s: State)
    requires |s.shards| == SHARD_COUNT
  {
    forall ip :: ip in s.shards[ShardOf(ip)] ==>
      s.shards[ShardOf(ip)][ip] < |s.made| && s.made[s.shards[ShardOf(ip)][ip]] == ip
  }

  ghost predicate RequestsOk(s: State)
    requires |s.shards| == SHARD_COUNT
  {
    forall r :: r in s.requests && s.requests[r].Uses? ==> Registered(s, s.requests[r].ip, s.requests[r].limiter)
  }

  ghost predicate Inv(s: State) {
    |s.shards| == SHARD_COUNT && MadeOnce(s) && TablesOk(s) && RequestsOk(s)
  }

  lemma RegisteredStays(s: State, ip: Bytes, other: Bytes, limiter: nat)
    requires |s.shards| == SHARD_COUNT && ip !in s.shards[ShardOf(ip)] && Registered(s, other, limiter)
    ensures Registered(s.(shards := WithLimiter(s.shards, ip, |s.made|)), other, limiter)
  {}

  lemma CreateKeepsInv(s: State, request: nat)
    requires Inv(s)
    ensures Inv(AfterCreate(s, request))
  {
    if request in s.requests && s.requests[request].Missed? && s.requests[request].ip !in s.shards[ShardOf(s.requests[request].ip)] {
      var ip := s.requests[request].ip;
      var t := AfterCreate(s, request);
      forall i | 0 <= i < |t.made| ensures Registered(t, t.made[i], i) {
        if i < |s.made| {
          RegisteredStays(s, ip, s.made[i], i);
        }
      }
      forall r | r in t.requests && t.requests[r].Uses?
        ensures Registered(t, t.requests[r].ip, t.requests[r].limiter)
      {
        if r != request {
          RegisteredStays(s, ip, s.requests[r].ip, s.requests[r].limiter);
        }
      }
    }
  }

  lemma {:induction false} EveryRunIsSafe(actions: seq<Action>)
    ensures Inv(Run(actions))
    decreases actions
  {
    if actions != [] {
      EveryRunIsSafe(actions[..|actions| - 1]);
      var last := actions[|actions| - 1];
      if last.CreateAction? {
        CreateKeepsInv(Run(actions[..|actions| - 1]), last.request);
      }
    }
  }

  /** In every interleaving at most one limiter is made per address. */
  lemma OneLimiterPerAddress(actions: seq<Action>, i: nat, j: nat)
    requires i < j < |Run(actions).made|
    ensures Run(actions).made[i] != Run(actions).made[j]
  {
    EveryRunIsSafe(actions);
    var s := Run(actions);
    assert Registered(s, s.made[i], i) && Registered(s, s.made[j], j);
  }

  /** All requests from an address use the same limiter. */
  lemma RequestsShareTheLimiter(actions: seq<Action>, p: nat, q: nat)
    requires p in Run(actions).requests && q in Run(actions).requests
    requires Run(actions).requests[p].Uses? && Run(actions).requests[q].Uses?
    requires Run(actions).requests[p].ip == Run(actions).requests[q].ip
    ensures Run(actions).requests[p].limiter == Run(actions).requests[q].limiter
  {
    EveryRunIsSafe(actions);
  }

  /** A request that nothing comes between acts like the method LimiterFor. */
  lemma RequestAlone(actions: seq<Action>, request: nat, ip: Bytes)
    requires request !in Run(actions).requests
    ensures var s := Run(actions); var t := Step(Step(s, LookupAction(request, ip)), CreateAction(request));
      && request in t.requests && t.requests[request].Uses? && t.requests[request].ip == ip
      && Registered(t, ip, t.requests[request].limiter)
      && (if ip in s.shards[ShardOf(ip)] then t.shards == s.shards && t.made == s.made
          else t.made == s.made + [ip] && t.requests[request].limiter == |s.made|)
  {
    EveryRunIsSafe(actions);
  }
}
