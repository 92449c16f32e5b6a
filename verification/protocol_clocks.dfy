/** The logical clocks over all runs of the protocol (pkg/document/change/id.go and
    pkg/document/internal_document.go): whether the next change of a client is later than every
    change it has applied. */
module ProtocolClocks {
  import opened Time
  import opened Wrappers
  import opened Protocol
  import opened ProtocolTheorems
  import opened ProtocolRuns

  /** The clock of the client is not behind any change it has applied. */
  ghost predicate Ahead(c: Client) {
    forall i :: 0 <= i < |c.root| ==> c.root[i].id.lamport <= c.changeID.lamport
  }

  // ----- no clock is past the number of the log it stands for -----

  /** The i-th change of a sequence that starts at the number `from` is no later than its number. */
  ghost predicate Slow(changes: seq<Change>, from: nat) {
    forall i :: 0 <= i < |changes| ==> changes[i].id.lamport <= from + i + 1
  }

  ghost predicate Clocked(log: seq<Change>, c: Client) {
    && c.checkpoint.serverSeq <= |log| && Ahead(c) && Slow(c.localChanges, c.checkpoint.serverSeq)
    && c.changeID.lamport <= c.checkpoint.serverSeq + |c.localChanges|
  }

  ghost predicate ClockedIn(w: World, a: ActorID)
    requires a in w.clients
  {
    Clocked(Log(w.store), w.clients[a])
  }

  ghost predicate InTime(w: World) {
    Slow(Log(w.store), 0) && forall a {:trigger ClockedIn(w, a)} :: a in w.clients ==> ClockedIn(w, a)
  }

  lemma SlowAppend(log: seq<Change>, more: seq<Change>, n: nat)
    requires Slow(log, 0) && Slow(more, n) && n <= |log|
    ensures Slow(log + more, 0)
  {
  }

  lemma {:induction false} SyncedClock(id: ChangeID, changes: seq<Change>)
    ensures id.lamport <= Synced(id, changes).lamport
    ensures forall i :: 0 <= i < |changes| ==> changes[i].id.lamport <= Synced(id, changes).lamport
  {
    if changes != [] {
      SyncedClock(id, changes[..|changes| - 1]);
    }
  }

  lemma {:induction false} SyncedSlow(id: ChangeID, changes: seq<Change>, from: nat, k: nat)
    requires Slow(changes, from) && id.lamport <= from + k
    ensures Synced(id, changes).lamport <= from + |changes| + k
  {
    if changes != [] {
      SyncedSlow(id, changes[..|changes| - 1], from, k);
    }
  }

  /** Whatever its past, a client that pulls changes stays ahead of what it has applied, and
      its own next change is later than all that. */
  lemma ClockAhead(c: Client, pack: Pack, operations: nat)
    requires Ahead(c) && pack.snapshot.None?
    ensures Ahead(Apply(c, pack)) && Ahead(Update(c, operations))
    ensures var d := Update(c, operations);
            forall i :: 0 <= i < |c.root| ==> c.root[i].id.lamport < d.root[|c.root|].id.lamport
  {
    SyncedClock(c.changeID, pack.changes);
  }

  /** What the answer to its pack makes of the clock of a client: a snapshot comes only when
      the client is behind, so that the number of the server is past its clock. */
  lemma ApplyClocked(log: seq<Change>, c: Client, pack: Pack)
    requires Slow(log, 0) && Clocked(log, c)
    requires pack.checkpoint.serverSeq == |log| + |c.localChanges|
    requires forall i :: 0 <= i < |c.localChanges| ==> c.localChanges[i].id.clientSeq <= pack.checkpoint.clientSeq
    requires if pack.snapshot.Some? then pack.snapshot.value == log && c.checkpoint.serverSeq < |log|
             else pack.changes == log[c.checkpoint.serverSeq..]
    ensures Clocked(log + c.localChanges, Apply(c, pack))
  {
    var n, local := c.checkpoint.serverSeq, c.localChanges;
    UnpushedNone(local, pack.checkpoint.clientSeq);
    if pack.snapshot.None? {
      ClockAhead(c, pack, 0);
      SyncedSlow(c.changeID, pack.changes, n, |local|);
    } else {
      SlowAppend(log, local, n);
    }
  }

  // ----- all runs -----

  /** With a threshold of at least one a snapshot is not sent to a client that has everything. */
  lemma SnapshotBehind(config: Config, st: Store, actor: ActorID, req: Pack)
    requires config.snapshotThreshold >= 1 && actor in st.clients && PushPull(config, st, actor, req).Some?
    ensures PushPull(config, st, actor, req).value.pack.snapshot.Some? ==> req.checkpoint.serverSeq < st.serverSeq
  {
  }

  lemma SyncInTime(config: Config, w: World, a: ActorID)
    requires config.snapshotThreshold >= 1 && Good(w) && InTime(w) && a in w.clients
    ensures InTime(Next(config, w, Sync(a)))
  {
    assert Served(w, a) && ClockedIn(w, a);
    var c := w.clients[a];
    var r := SyncAnswers(config, w, a);
    SnapshotBehind(config, w.store, a, CreatePack(c));
    ApplyClocked(Log(w.store), c, r.pack);
    SlowAppend(Log(w.store), c.localChanges, c.checkpoint.serverSeq);
    var w' := Next(config, w, Sync(a));
    forall b | b in w'.clients ensures ClockedIn(w', b) {
      assert b != a ==> ClockedIn(w, b);
    }
  }

  lemma DetachInTime(config: Config, w: World, a: ActorID)
    requires Good(w) && InTime(w) && a in w.clients
    ensures InTime(Next(config, w, Detach(a)))
  {
    assert Served(w, a) && ClockedIn(w, a);
    var st' := DetachPushes(config, w, a);
    SlowAppend(Log(w.store), w.clients[a].localChanges, w.clients[a].checkpoint.serverSeq);
    var w' := Next(config, w, Detach(a));
    forall b | b in w'.clients ensures ClockedIn(w', b) {
      assert ClockedIn(w, b);
    }
  }

  lemma NextInTime(config: Config, w: World, e: Event)
    requires config.snapshotThreshold >= 1 && Good(w) && InTime(w)
    ensures InTime(Next(config, w, e))
  {
    var w' := Next(config, w, e);
    if e.Sync? && e.actor in w.clients {
      SyncInTime(config, w, e.actor);
    } else if e.Detach? && e.actor in w.clients {
      DetachInTime(config, w, e.actor);
    } else {
      assert Log(w'.store) == Log(w.store);
      forall b | b in w'.clients ensures ClockedIn(w', b) {
        assert b in w.clients ==> ClockedIn(w, b);
      }
    }
  }

  lemma {:induction false} RunInTime(config: Config, events: seq<Event>)
    requires config.snapshotThreshold >= 1
    ensures InTime(Run(config, events))
  {
    if events != [] {
      RunGood(config, events[..|events| - 1]);
      RunInTime(config, events[..|events| - 1]);
      NextInTime(config, Run(config, events[..|events| - 1]), events[|events| - 1]);
    }
  }

  /** In every run, whatever it pulled, the clock of a client is not behind any change it has
      applied, so that its next change is later than all of these. */
  lemma AlwaysAhead(config: Config, events: seq<Event>, a: ActorID, operations: nat)
    requires config.snapshotThreshold >= 1 && a in Run(config, events).clients
    ensures Ahead(Run(config, events).clients[a])
    ensures var c := Run(config, events).clients[a];
            var d := Update(c, operations);
            forall i :: 0 <= i < |c.root| ==> c.root[i].id.lamport < d.root[|c.root|].id.lamport
  {
    RunInTime(config, events);
    assert ClockedIn(Run(config, events), a);
  }

  /** So all the tickets of its next change are later than those of every change it has
      applied, whatever the actors and delimiters are. */
  lemma NextTicketsLater(config: Config, events: seq<Event>, a: ActorID, operations: nat, i: nat,
                         d: Delimiter, e: Delimiter)
    requires config.snapshotThreshold >= 1 && a in Run(config, events).clients
    requires i < |Run(config, events).clients[a].root|
    requires Run(config, events).clients[a].changeID.lamport < MAX_LAMPORT
    ensures var c := Run(config, events).clients[a];
            var x, y := c.root[i], Update(c, operations).root[|c.root|];
            && x.id.lamport <= MAX_LAMPORT && y.id.lamport <= MAX_LAMPORT
            && After(y.id.NewTimeTicket(e), x.id.NewTimeTicket(d))
  {
    AlwaysAhead(config, events, a, operations);
    var c := Run(config, events).clients[a];
    CompareDecides(Update(c, operations).root[|c.root|].id.NewTimeTicket(e), c.root[i].id.NewTimeTicket(d));
  }

  // ----- a threshold of zero -----

  /** The log, and the local changes and the clock of a client. */
  ghost predicate At(w: World, a: ActorID, log: seq<Change>, local: seq<Change>, lamport: nat) {
    && Good(w) && a in w.clients && Log(w.store) == log
    && w.clients[a].localChanges == local && w.clients[a].changeID.lamport == lamport
  }

  lemma RunMore(config: Config, events: seq<Event>, e: Event)
    ensures Run(config, events + [e]) == Next(config, Run(config, events), e)
    ensures Good(Run(config, events + [e]))
  {
    assert (events + [e])[..|events|] == events;
    RunGood(config, events + [e]);
  }

  lemma AttachAt(config: Config, events: seq<Event>, a: ActorID)
    requires a !in Run(config, events).clients
    ensures var w := Run(config, events + [Attach(a)]);
            At(w, a, Log(Run(config, events).store), [], 0) && w.clients.Keys == Run(config, events).clients.Keys + {a}
  {
    RunMore(config, events, Attach(a));
  }

  lemma EditAt(config: Config, events: seq<Event>, a: ActorID, log: seq<Change>, lamport: nat) returns (x: Change)
    requires At(Run(config, events), a, log, [], lamport)
    ensures x.id.lamport == lamport + 1 && At(Run(config, events + [Edit(a, 0)]), a, log, [x], lamport + 1)
    ensures Run(config, events + [Edit(a, 0)]).clients.Keys == Run(config, events).clients.Keys
  {
    RunMore(config, events, Edit(a, 0));
    x := Change(Run(config, events).clients[a].changeID.Next(), 0);
  }

  /** As long as the log is empty a client that syncs is sent no snapshot. */
  lemma SyncFirst(config: Config, events: seq<Event>, a: ActorID, x: Change, lamport: nat)
    requires config.snapshotThreshold == 0 && At(Run(config, events), a, [], [x], lamport)
    ensures At(Run(config, events + [Sync(a)]), a, [x], [], lamport)
    ensures Run(config, events + [Sync(a)]).clients.Keys == Run(config, events).clients.Keys
  {
    var w := Run(config, events);
    assert Served(w, a);
    var r := SyncAnswers(config, w, a);
    RunMore(config, events, Sync(a));
    PullsLog(w.store);
    UnpushedNone([x], r.pack.checkpoint.clientSeq);
  }

  /** Afterwards it is sent one, even if it has everything. */
  lemma SyncAgain(config: Config, events: seq<Event>, a: ActorID, log: seq<Change>, local: seq<Change>, lamport: nat)
    requires config.snapshotThreshold == 0 && At(Run(config, events), a, log, local, lamport) && log != []
    ensures var w, n := Run(config, events + [Sync(a)]), |log| + |local|;
            At(w, a, log + local, [], if lamport < n then n else lamport + 1) && w.clients[a].root == log + local
    ensures Run(config, events + [Sync(a)]).clients.Keys == Run(config, events).clients.Keys
  {
    var w := Run(config, events);
    assert Served(w, a);
    var r := SyncAnswers(config, w, a);
    RunMore(config, events, Sync(a));
    PullsLog(w.store);
    UnpushedNone(local, r.pack.checkpoint.clientSeq);
  }

  /** A client that has everything and syncs again moves its clock past the number of the server. */
  lemma ClockDrifts(config: Config, a: ActorID) returns (events: seq<Event>, x: Change)
    requires config.snapshotThreshold == 0
    ensures At(Run(config, events), a, [x], [], 2) && Run(config, events).clients.Keys == {a}
    ensures Detach(a) !in events
  {
    AttachAt(config, [], a);
    events := [] + [Attach(a)];
    x := EditAt(config, events, a, [], 0);
    events := events + [Edit(a, 0)];
    SyncFirst(config, events, a, x, 1);
    events := events + [Sync(a)];
    SyncAgain(config, events, a, [x], [], 1);
    events := events + [Sync(a)];
    assert [x] + [] == [x];
  }

  /** Its next change is then so late that it is ahead of the clock of a client that is sent
      a snapshot with it. */
  lemma ZeroFails(config: Config, a: ActorID, b: ActorID) returns (events: seq<Event>)
    requires config.snapshotThreshold == 0 && a != b
    ensures b in Run(config, events).clients && !Ahead(Run(config, events).clients[b])
  {
    var x;
    events, x := ClockDrifts(config, a);
    var y := EditAt(config, events, a, [x], 2);
    events := events + [Edit(a, 0)];
    SyncAgain(config, events, a, [x], [y], 3);
    events := events + [Sync(a)];
    AttachAt(config, events, b);
    events := events + [Attach(b)];
    SyncAgain(config, events, b, [x] + [y], [], 0);
    events := events + [Sync(b)];
    assert Run(config, events).clients[b].root[1] == y;
  }

  ghost predicate KeepsAhead(config: Config, events: seq<Event>) {
    forall a :: a in Run(config, events).clients ==> Ahead(Run(config, events).clients[a])
  }

  lemma AheadIff(config: Config)
    ensures (forall events :: KeepsAhead(config, events)) <==> config.snapshotThreshold >= 1
  {
    if config.snapshotThreshold >= 1 {
      forall events ensures KeepsAhead(config, events) {
        forall a | a in Run(config, events).clients ensures Ahead(Run(config, events).clients[a]) {
          AlwaysAhead(config, events, a, 0);
        }
      }
    } else {
      var events := ZeroFails(config, 1, 2);
      assert !KeepsAhead(config, events);
    }
  }
}
