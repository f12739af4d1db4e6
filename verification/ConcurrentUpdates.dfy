/**
 Concurrent updates of one document: an update reads the stored data in one statement and
 writes the merged data in another, so updates that overlap can lose each other's fields,
 and an update whose document was deleted meanwhile writes nothing.

 An update is the map of the fields it sets. What one expects is that updates and deletions
 take effect in the order in which they are written.
 */
module ConcurrentUpdates {
  import opened Fnv
  import opened ShardMaps
  import opened Wrappers
  import JsonEngine

  // An update that has read: what it read, and how many events there had been by then
  datatype Pending = Pending(update: Doc, snapshot: Doc, readAt: nat)

  // An update wrote, and reported success, or the document was deleted
  datatype Event = Updated(fields: Doc) | Deleted

  datatype State = State(row: Option<Doc>, pending: map<nat, Pending>, log: seq<Event>)

  datatype Action = Read(caller: nat, update: Doc) | Write(caller: nat) | Delete

  // Reading a row that is not there ends the update with an error; writing one that is not
  // there changes no row and still reports success
  ghost function Step(s: State, a: Action): State {
    match a
    case Read(caller, update) =>
      if caller in s.pending || s.row.None? then s
      else s.(pending := s.pending[caller := Pending(update, s.row.value, |s.log|)])
    case Write(caller) =>
      if caller !in s.pending then s
      else
        var p := s.pending[caller];
        s.(row := if s.row.None? then None else Some(p.snapshot + p.update),
           pending := s.pending - {caller}, log := s.log + [Updated(p.update)])
    case Delete => s.(row := None, log := s.log + [Deleted])
  }

  ghost function Run(first: Doc, actions: seq<Action>): State {
    if actions == [] then State(Some(first), map[], [])
    else Step(Run(first, actions[..|actions| - 1]), actions[|actions| - 1])
  }

  /** The document after the events, each update in one step. */
  ghost function Ideal(first: Doc, log: seq<Event>): Option<Doc> {
    if log == [] then Some(first)
    else
      var before, last := Ideal(first, log[..|log| - 1]), log[|log| - 1];
      if before.None? || last.Deleted? then None else Some(before.value + last.fields)
  }

  lemma IdealExtends(first: Doc, log: seq<Event>, e: Event)
    ensures Ideal(first, log + [e]) ==
      var before := Ideal(first, log);
      if before.None? || e.Deleted? then None else Some(before.value + e.fields)
  {
    assert (log + [e])[..|log|] == log;
  }

  // A field of a document, which may be absent
  ghost function Field(d: Doc, f: Bytes): Option<JsonValue> {
    if f in d then Some(d[f]) else None
  }

  // The documents agree on every field the update does not set
  ghost predicate AgreeOutside(a: Doc, b: Doc, update: Doc) {
    forall f :: f !in update ==> Field(a, f) == Field(b, f)
  }

  lemma MergesAgree(a: Doc, b: Doc, update: Doc)
    ensures a + update == b + update <==> AgreeOutside(a, b, update)
  {
    if a + update == b + update {
      forall f | f !in update ensures Field(a, f) == Field(b, f) {
        assert Field(a + update, f) == Field(b + update, f);
        assert Field(a + update, f) == Field(a, f) && Field(b + update, f) == Field(b, f);
      }
    }
    if AgreeOutside(a, b, update) {
      forall f ensures f in a + update <==> f in b + update
        ensures f in a + update ==> (a + update)[f] == (b + update)[f]
      {
        assert f !in update ==> Field(a, f) == Field(b, f);
      }
      assert a + update == b + update;
    }
  }

  /** An update that nothing comes between does to the data what the method Update does. */
  lemma UpdateAlone(s: State, caller: nat, row: Row, update: Doc, now: int)
    requires caller !in s.pending && s.row == Some(row.data)
    ensures var t := Step(Step(s, Read(caller, update)), Write(caller));
      && t.row == Some(JsonEngine.Merged(row, update, now).data) && JsonEngine.Merges(row.data, update, t.row.value)
      && t.pending == s.pending && t.log == s.log + [Updated(update)]
  {
    assert s.pending[caller := Pending(update, row.data, |s.log|)] - {caller} == s.pending;
  }

  // ---------- Updates that lose others ----------

  // Nothing has been lost so far: the row is what the events make of the first document
  ghost predicate NothingLost(first: Doc, s: State) {
    s.row == Ideal(first, s.log)
  }

  // Outside the fields it sets, a pending update finds the document as it read it, or gone
  ghost predicate WriteAgrees(s: State, caller: nat) {
    caller in s.pending && s.row.Some? ==> AgreeOutside(s.pending[caller].snapshot, s.row.value, s.pending[caller].update)
  }

  /** A write that follows events without loss loses nothing if and only if, outside the fields
      it sets, the document is still as it was read, or is gone. */
  lemma WriteLosesNothingExactly(first: Doc, s: State, caller: nat)
    requires NothingLost(first, s)
    ensures NothingLost(first, Step(s, Write(caller))) <==> WriteAgrees(s, caller)
  {
    if caller in s.pending {
      var p := s.pending[caller];
      IdealExtends(first, s.log, Updated(p.update));
      if s.row.Some? {
        MergesAgree(p.snapshot, s.row.value, p.update);
      }
    }
  }

  lemma OthersLoseNothing(first: Doc, s: State, a: Action)
    requires NothingLost(first, s) && !a.Write?
    ensures NothingLost(first, Step(s, a))
  {
    if a.Delete? {
      IdealExtends(first, s.log, Deleted);
    }
  }

  ghost predicate NeverLost(first: Doc, actions: seq<Action>) {
    forall k :: 0 <= k <= |actions| ==> NothingLost(first, Run(first, actions[..k]))
  }

  ghost predicate AllWritesAgree(first: Doc, actions: seq<Action>) {
    forall k :: 0 <= k < |actions| && actions[k].Write? ==> WriteAgrees(Run(first, actions[..k]), actions[k].caller)
  }

  lemma NextState(first: Doc, actions: seq<Action>, k: nat)
    requires k < |actions|
    ensures Run(first, actions[..k + 1]) == Step(Run(first, actions[..k]), actions[k])
  {
    assert actions[..k + 1][..k] == actions[..k];
  }

  lemma {:induction false} AgreeingLosesNothing(first: Doc, actions: seq<Action>, k: nat)
    requires AllWritesAgree(first, actions) && k <= |actions|
    ensures NothingLost(first, Run(first, actions[..k]))
    decreases k
  {
    if k > 0 {
      AgreeingLosesNothing(first, actions, k - 1);
      NextState(first, actions, k - 1);
      var s, a := Run(first, actions[..k - 1]), actions[k - 1];
      if a.Write? {
        assert WriteAgrees(s, a.caller);
        WriteLosesNothingExactly(first, s, a.caller);
      } else {
        OthersLoseNothing(first, s, a);
      }
    }
  }

  /** In a run nothing is ever lost if and only if every write finds the document, outside the
      fields it sets, as it was read, or gone. */
  lemma RunLosesNothingExactly(first: Doc, actions: seq<Action>)
    ensures NeverLost(first, actions) <==> AllWritesAgree(first, actions)
  {
    if NeverLost(first, actions) {
      forall k | 0 <= k < |actions| && actions[k].Write? ensures WriteAgrees(Run(first, actions[..k]), actions[k].caller) {
        NextState(first, actions, k);
        assert NothingLost(first, Run(first, actions[..k])) && NothingLost(first, Run(first, actions[..k + 1]));
        WriteLosesNothingExactly(first, Run(first, actions[..k]), actions[k].caller);
      }
    }
    if AllWritesAgree(first, actions) {
      forall k | 0 <= k <= |actions| ensures NothingLost(first, Run(first, actions[..k])) {
        AgreeingLosesNothing(first, actions, k);
      }
    }
  }

  // ---------- Overlaps that do no harm ----------

  // The updates written from number n on set only fields that the given one sets
  ghost predicate SetsOnly(log: seq<Event>, n: nat, update: Doc) {
    forall i :: n <= i < |log| && log[i].Updated? ==> log[i].fields.Keys <= update.Keys
  }

  ghost predicate OverlapInside(s: State, caller: nat) {
    caller in s.pending ==> SetsOnly(s.log, s.pending[caller].readAt, s.pending[caller].update)
  }

  // Whenever an update is written, those written since its read set only fields it sets too
  ghost predicate OverlapsInside(first: Doc, actions: seq<Action>) {
    forall k :: 0 <= k < |actions| && actions[k].Write? ==> OverlapInside(Run(first, actions[..k]), actions[k].caller)
  }

  ghost predicate SnapshotOk(first: Doc, log: seq<Event>, p: Pending) {
    p.readAt <= |log| && Ideal(first, log[..p.readAt]) == Some(p.snapshot)
  }

  // What an update read was made of the events by then
  ghost predicate SnapshotsOk(first: Doc, s: State) {
    forall c :: c in s.pending ==> SnapshotOk(first, s.log, s.pending[c])
  }

  lemma {:induction false} UnchangedOutside(first: Doc, log: seq<Event>, n: nat, update: Doc)
    requires n <= |log| && SetsOnly(log, n, update) && Ideal(first, log).Some?
    ensures Ideal(first, log[..n]).Some? && AgreeOutside(Ideal(first, log[..n]).value, Ideal(first, log).value, update)
    decreases |log|
  {
    if n == |log| {
      assert log[..n] == log;
    } else {
      var but, last := log[..|log| - 1], log[|log| - 1];
      assert but[..n] == log[..n];
      UnchangedOutside(first, but, n, update);
      assert last.fields.Keys <= update.Keys;
      var a, b := Ideal(first, but).value, Ideal(first, log).value;
      forall f | f !in update ensures Field(a, f) == Field(b, f) {
        assert f !in last.fields;
      }
    }
  }

  lemma StepKeepsSnapshots(first: Doc, s: State, a: Action)
    requires NothingLost(first, s) && SnapshotsOk(first, s)
    ensures SnapshotsOk(first, Step(s, a))
  {
    var t := Step(s, a);
    assert s.log[..|s.log|] == s.log;
    forall c | c in t.pending ensures SnapshotOk(first, t.log, t.pending[c]) {
      if c in s.pending {
        assert SnapshotOk(first, s.log, s.pending[c]);
        assert t.log[..s.pending[c].readAt] == s.log[..s.pending[c].readAt];
      }
    }
  }

  lemma OverlapInsideAgrees(first: Doc, s: State, caller: nat)
    requires NothingLost(first, s) && SnapshotsOk(first, s) && OverlapInside(s, caller)
    ensures WriteAgrees(s, caller)
  {
    if caller in s.pending && s.row.Some? {
      var p := s.pending[caller];
      assert SnapshotOk(first, s.log, p);
      UnchangedOutside(first, s.log, p.readAt, p.update);
    }
  }

  /** If updates that overlap set only fields that the later writer sets too, nothing is lost:
      the row is what all events, in order, make of the first document. */
  lemma {:induction false} HarmlessOverlapsLoseNothing(first: Doc, actions: seq<Action>)
    requires OverlapsInside(first, actions)
    ensures NothingLost(first, Run(first, actions)) && SnapshotsOk(first, Run(first, actions))
    decreases actions
  {
    if actions != [] {
      var n := |actions| - 1;
      var before, s := actions[..n], Run(first, actions[..n]);
      forall k | 0 <= k < n && before[k].Write? ensures OverlapInside(Run(first, before[..k]), before[k].caller) {
        assert before[..k] == actions[..k] && before[k] == actions[k];
      }
      HarmlessOverlapsLoseNothing(first, before);
      StepKeepsSnapshots(first, s, actions[n]);
      if actions[n].Write? {
        assert OverlapInside(s, actions[n].caller);
        OverlapInsideAgrees(first, s, actions[n].caller);
        WriteLosesNothingExactly(first, s, actions[n].caller);
      } else {
        OthersLoseNothing(first, s, actions[n]);
      }
    }
  }

  /** Two updates that both read before either writes: the first one's change to a field that
      the second does not set is lost. */
  lemma OverlapLosesField(first: Doc, u: Doc, v: Doc, f: Bytes)
    requires f in u && f !in v && Field(first, f) != Some(u[f])
    ensures var s := Step(Step(Step(Step(Run(first, []), Read(0, u)), Read(1, v)), Write(0)), Write(1));
      && s.row.Some? && Field(s.row.value, f) == Field(first, f)
      && Ideal(first, s.log).Some? && Field(Ideal(first, s.log).value, f) == Some(u[f])
  {
    var s2 := Step(Step(Run(first, []), Read(0, u)), Read(1, v));
    assert s2.pending[0] == Pending(u, first, 0) && s2.pending[1] == Pending(v, first, 0) && s2.log == [];
    var s3 := Step(s2, Write(0));
    assert s3.pending[1] == Pending(v, first, 0) && s3.log == [Updated(u)] && s3.row.Some?;
    var s4 := Step(s3, Write(1));
    assert s4.row == Some(first + v) && s4.log == [Updated(u)] + [Updated(v)];
    IdealExtends(first, [], Updated(u));
    assert [] + [Updated(u)] == [Updated(u)];
    IdealExtends(first, [Updated(u)], Updated(v));
  }

  // ---------- Updates that write nothing ----------

  ghost predicate DeletedFrom(log: seq<Event>, n: nat) {
    exists k :: n <= k < |log| && log[k].Deleted?
  }

  // The row is gone once it was deleted, and whoever is pending read before that
  ghost predicate GoneOk(s: State) {
    && (s.row.None? <==> DeletedFrom(s.log, 0))
    && forall c :: c in s.pending ==>
         s.pending[c].readAt <= |s.log| && !DeletedFrom(s.log[..s.pending[c].readAt], 0)
  }

  lemma DeletedExtends(log: seq<Event>, e: Event, n: nat)
    requires n <= |log|
    ensures DeletedFrom(log + [e], n) <==> DeletedFrom(log, n) || e.Deleted?
  {
    var after := log + [e];
    if k :| n <= k < |log| && log[k].Deleted? {
      assert after[k].Deleted?;
    }
    assert after[|log|] == e;
  }

  lemma StepKeepsGone(s: State, a: Action)
    requires GoneOk(s)
    ensures GoneOk(Step(s, a))
  {
    var t := Step(s, a);
    if t.log != s.log {
      DeletedExtends(s.log, t.log[|s.log|], 0);
      assert t.log == s.log + [t.log[|s.log|]];
    }
    assert s.log[..|s.log|] == s.log;
    forall c | c in t.pending ensures t.pending[c].readAt <= |t.log| && !DeletedFrom(t.log[..t.pending[c].readAt], 0) {
      if c in s.pending {
        assert t.log[..s.pending[c].readAt] == s.log[..s.pending[c].readAt];
      }
    }
  }

  lemma {:induction false} EveryRunKnowsIfGone(first: Doc, actions: seq<Action>)
    ensures GoneOk(Run(first, actions))
    decreases actions
  {
    if actions != [] {
      EveryRunKnowsIfGone(first, actions[..|actions| - 1]);
      StepKeepsGone(Run(first, actions[..|actions| - 1]), actions[|actions| - 1]);
    }
  }

  lemma DeletedEither(log: seq<Event>, n: nat)
    requires n <= |log|
    ensures DeletedFrom(log, 0) <==> DeletedFrom(log[..n], 0) || DeletedFrom(log, n)
  {
    if k :| 0 <= k < |log| && log[k].Deleted? {
      assert k < n ==> log[..n][k].Deleted?;
    }
    if k :| 0 <= k < n && log[..n][k].Deleted? {
      assert log[k].Deleted?;
    }
  }

  /** In every run an update that reports success has written nothing if and only if the
      document was deleted between its read and its write. */
  lemma SuccessWroteNothingExactly(first: Doc, actions: seq<Action>, caller: nat)
    requires caller in Run(first, actions).pending
    ensures var s := Run(first, actions);
      Step(s, Write(caller)).row.None? <==> DeletedFrom(s.log, s.pending[caller].readAt)
  {
    EveryRunKnowsIfGone(first, actions);
    var s := Run(first, actions);
    DeletedEither(s.log, s.pending[caller].readAt);
  }
}
