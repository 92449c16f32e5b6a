/** The tickets that changes make, over all runs of the protocol: whether they are unique
    (pkg/document/change/id.go, pkg/document/document.go). */
module ProtocolTickets {
  import opened Time
  import opened Wrappers
  import opened Protocol
  import opened ProtocolTheorems
  import opened ProtocolRuns
  import opened ProtocolClocks
  import opened ProtocolEdits

  /** Tickets are equal only if clock, actor and delimiter are; of one change, the greater
      delimiter makes the later ticket. */
  lemma TicketsDiffer(x: ChangeID, y: ChangeID, d: Delimiter, e: Delimiter)
    requires x.lamport <= MAX_LAMPORT && y.lamport <= MAX_LAMPORT
    ensures x.NewTimeTicket(d) == y.NewTimeTicket(e) <==> x.lamport == y.lamport && x.actor == y.actor && d == e
    ensures x.lamport == y.lamport && x.actor == y.actor ==>
              (After(x.NewTimeTicket(d), y.NewTimeTicket(e)) <==> d > e)
  {
    var t, u := x.NewTimeTicket(d), y.NewTimeTicket(e);
    CompareDecides(t, u);
    CompareDecides(u, t);
    CompareIsTotalOrder(t, u, t);
  }

  // ----- the clocks of the changes of one client -----

  ghost predicate Later(x: Change, y: Change, a: ActorID) {
    x.id.actor == a && y.id.actor == a ==> x.id.lamport < y.id.lamport
  }

  ghost predicate AllLater(xs: seq<Change>, ys: seq<Change>, a: ActorID) {
    forall i, j :: 0 <= i < |xs| && 0 <= j < |ys| ==> Later(xs[i], ys[j], a)
  }

  /** The changes of the client come with growing clocks. */
  ghost predicate Ascending(changes: seq<Change>, a: ActorID) {
    forall i, j :: 0 <= i < j < |changes| ==> Later(changes[i], changes[j], a)
  }

  ghost predicate FromOne(changes: seq<Change>, a: ActorID) {
    forall i :: 0 <= i < |changes| && changes[i].id.actor == a ==> changes[i].id.lamport >= 1
  }

  ghost predicate UpTo(changes: seq<Change>, a: ActorID, lamport: nat) {
    forall i :: 0 <= i < |changes| && changes[i].id.actor == a ==> changes[i].id.lamport <= lamport
  }

  /** The log, and what the client has not pushed yet. */
  ghost function Made(w: World, a: ActorID): seq<Change> {
    Log(w.store) + if a in w.clients then w.clients[a].localChanges else []
  }

  lemma AscendingParts(x: seq<Change>, y: seq<Change>, a: ActorID)
    ensures Ascending(x + y, a) <==> Ascending(x, a) && Ascending(y, a) && AllLater(x, y, a)
  {
    var s := x + y;
    if Ascending(s, a) {
      forall i, j | 0 <= i < j < |x| ensures Later(x[i], x[j], a) {
        assert Later(s[i], s[j], a);
      }
      forall i, j | 0 <= i < j < |y| ensures Later(y[i], y[j], a) {
        assert Later(s[|x| + i], s[|x| + j], a);
      }
      forall i, j | 0 <= i < |x| && 0 <= j < |y| ensures Later(x[i], y[j], a) {
        assert Later(s[i], s[|x| + j], a);
      }
    }
  }

  /** Changes of another client between two stretches do not matter. */
  lemma BetweenAscending(log: seq<Change>, more: seq<Change>, local: seq<Change>, b: ActorID, a: ActorID, lamport: nat)
    requires ByActor(more, b) && a != b && Ascending(log + local, a) && FromOne(log + local, a)
    ensures Ascending(log + more + local, a) && FromOne(log + more + local, a)
    ensures UpTo(log + local, a, lamport) ==> UpTo(log + more + local, a, lamport)
  {
    AscendingParts(log, local, a);
    AscendingParts(log, more, a);
    AscendingParts(log + more, local, a);
    var s := log + more + local;
    forall i | 0 <= i < |s| && s[i].id.actor == a
      ensures s[i].id.lamport >= 1 && (UpTo(log + local, a, lamport) ==> s[i].id.lamport <= lamport)
    {
      assert i < |log| || i >= |log| + |more|;
      assert s[i] == (log + local)[if i < |log| then i else i - |more|];
    }
  }

  // ----- what every event keeps -----

  /** The clocks grow. That of the client is up to its changes if it knows what it has made,
      and has not begun to count if it does not. */
  ghost predicate Grows(w: World, a: ActorID, known: bool) {
    && Ascending(Made(w, a), a) && FromOne(Made(w, a), a)
    && (a in w.clients ==> if known then UpTo(Made(w, a), a, w.clients[a].changeID.lamport)
                           else w.clients[a].changeID.lamport == 0)
  }

  lemma EditGrows(config: Config, w: World, b: ActorID, operations: nat, a: ActorID, known: bool)
    requires Good(w) && Grows(w, a, known) && (a == b && a in w.clients ==> known)
    ensures Grows(Next(config, w, Edit(b, operations)), a, known)
  {
    if a == b && a in w.clients {
      var x := Change(w.clients[a].changeID.Next(), operations);
      assert Made(Next(config, w, Edit(a, operations)), a) == Made(w, a) + [x];
      AscendingParts(Made(w, a), [x], a);
    }
  }

  /** A client that has everything knows what it has made. */
  lemma HasAll(w: World, a: ActorID)
    requires Good(w) && InTime(w) && a in w.clients && w.clients[a].checkpoint.serverSeq == |Log(w.store)|
    ensures UpTo(Log(w.store), a, w.clients[a].changeID.lamport)
  {
    assert Served(w, a) && ClockedIn(w, a);
    var log, c := Log(w.store), w.clients[a];
    assert log[..|log|] == log;
    forall i | 0 <= i < |log| ensures log[i].id.lamport <= c.changeID.lamport {
      assert log[i] in multiset(log);
      assert log[i] in multiset(c.root);
    }
  }

  lemma SyncGrows(config: Config, w: World, b: ActorID, a: ActorID, known: bool)
    requires config.snapshotThreshold >= 1 && Good(w) && InTime(w) && b in w.clients && Grows(w, a, known)
    ensures Grows(Next(config, w, Sync(b)), a, known || a == b)
  {
    assert Served(w, b);
    var r := SyncAnswers(config, w, b);
    var w', log, local := Next(config, w, Sync(b)), Log(w.store), w.clients[b].localChanges;
    if a == b {
      UnpushedNone(local, r.pack.checkpoint.clientSeq);
      SyncGood(config, w, a);
      SyncInTime(config, w, a);
      assert log + local + [] == log + local;
      HasAll(w', a);
    } else {
      var mine, lamport := if a in w.clients then w.clients[a].localChanges else [],
          if a in w.clients then w.clients[a].changeID.lamport else 0;
      BetweenAscending(log, local, mine, b, a, lamport);
    }
  }

  lemma DetachGrows(config: Config, w: World, b: ActorID, a: ActorID, known: bool)
    requires Good(w) && b in w.clients && Grows(w, a, known)
    ensures Grows(Next(config, w, Detach(b)), a, known)
  {
    assert Served(w, b);
    var st' := DetachPushes(config, w, b);
    var log, local := Log(w.store), w.clients[b].localChanges;
    if a == b {
      assert log + local + [] == log + local;
    } else {
      var mine, lamport := if a in w.clients then w.clients[a].localChanges else [],
          if a in w.clients then w.clients[a].changeID.lamport else 0;
      BetweenAscending(log, local, mine, b, a, lamport);
    }
  }

  /** What the client has just attached the document with is nothing it has made, unless it
      made changes before. */
  lemma AttachGrows(config: Config, w: World, b: ActorID, a: ActorID, known: bool, known': bool)
    requires Grows(w, a, known)
    requires if a == b && a !in w.clients then known' ==> Notes(Log(w.store), a) == [] else known' == known
    ensures Grows(Next(config, w, Attach(b)), a, known')
  {
    var w' := Next(config, w, Attach(b));
    assert Log(w'.store) == Log(w.store);
    if a == b && a !in w.clients {
      var log := Log(w.store);
      assert Made(w', a) == log + [] == log;
      if known' {
        forall i | 0 <= i < |log| ensures log[i].id.actor != a {
          if log[i].id.actor == a {
            NotesHold(log, log[i]);
          }
        }
      }
    }
  }

  // ----- all runs -----

  /** Whether the client has synced since it last attached the document. */
  predicate HasSynced(events: seq<Event>, a: ActorID) {
    if events == [] then false
    else
      var front, e := events[..|events| - 1], events[|events| - 1];
      if e == Attach(a) && !Attached(front, a) then false
      else (e == Sync(a) && Attached(front, a)) || HasSynced(front, a)
  }

  /** It has synced, or it made no change before it last attached the document. */
  predicate Knows(events: seq<Event>, a: ActorID) {
    HasSynced(events, a) || |Edits(events, a)| == Since(events, a)
  }

  /** A client that made changes before does not edit again until it has synced. */
  predicate Careful(events: seq<Event>, a: ActorID) {
    events != [] ==>
      var front, e := events[..|events| - 1], events[|events| - 1];
      Careful(front, a) && (e.Edit? && e.actor == a && Attached(front, a) ==> Knows(front, a))
  }

  lemma NextGrows(config: Config, events: seq<Event>, e: Event, a: ActorID)
    requires config.snapshotThreshold >= 1 && Careful(events + [e], a)
    requires Grows(Run(config, events), a, Knows(events, a))
    ensures Grows(Run(config, events + [e]), a, Knows(events + [e], a))
  {
    var w, known, known' := Run(config, events), Knows(events, a), Knows(events + [e], a);
    RunGood(config, events);
    RunInTime(config, events);
    EditsKept(config, events, a);
    MoreEvents(config, events, e, a);
    assert (events + [e])[..|events|] == events;
    match e
    case Attach(b) => AttachGrows(config, w, b, a, known, known');
    case Edit(b, operations) => EditGrows(config, w, b, operations, a, known);
    case Sync(b) =>
      if b in w.clients {
        SyncGrows(config, w, b, a, known);
      }
    case TakeSnapshot(n) => assert Log(Next(config, w, e).store) == Log(w.store);
    case Detach(b) =>
      if b in w.clients {
        DetachGrows(config, w, b, a, known);
      }
  }

  lemma {:induction false} RunGrows(config: Config, events: seq<Event>, a: ActorID)
    requires config.snapshotThreshold >= 1 && Careful(events, a)
    ensures Grows(Run(config, events), a, Knows(events, a))
  {
    if events != [] {
      var front, e := events[..|events| - 1], events[|events| - 1];
      assert front + [e] == events;
      RunGrows(config, front, a);
      NextGrows(config, front, e, a);
    }
  }

  /** In every run with a positive threshold in which the actor is careful, no ticket of a change
      of it in the log is that of another change. */
  lemma TicketsUnique(config: Config, events: seq<Event>, i: nat, j: nat, d: Delimiter, e: Delimiter)
    requires config.snapshotThreshold >= 1
    requires i < |Log(Run(config, events).store)| && j < |Log(Run(config, events).store)|
    requires var log := Log(Run(config, events).store);
             && i != j && Careful(events, log[i].id.actor)
             && log[i].id.lamport <= MAX_LAMPORT && log[j].id.lamport <= MAX_LAMPORT
    ensures var log := Log(Run(config, events).store);
            log[i].id.NewTimeTicket(d) != log[j].id.NewTimeTicket(e)
  {
    var w := Run(config, events);
    var log := Log(w.store);
    var a := log[i].id.actor;
    RunGrows(config, events, a);
    assert Made(w, a)[i] == log[i] && Made(w, a)[j] == log[j];
    assert if i < j then Later(Made(w, a)[i], Made(w, a)[j], a) else Later(Made(w, a)[j], Made(w, a)[i], a);
    TicketsDiffer(log[i].id, log[j].id, d, e);
  }

  // ----- exactly when editing goes on to make unique tickets -----

  ghost predicate Differ(x: Change, y: Change, a: ActorID) {
    x.id.actor == a && y.id.actor == a ==> x.id.lamport != y.id.lamport
  }

  ghost predicate Unique(changes: seq<Change>, a: ActorID) {
    forall i, j :: 0 <= i < j < |changes| ==> Differ(changes[i], changes[j], a)
  }

  function EditEvents(a: ActorID, ops: seq<nat>): seq<Event> {
    if ops == [] then [] else EditEvents(a, ops[..|ops| - 1]) + [Edit(a, ops[|ops| - 1])]
  }

  lemma EditMakes(config: Config, events: seq<Event>, a: ActorID, operations: nat) returns (x: Change)
    requires a in Run(config, events).clients
    ensures var w, w' := Run(config, events), Run(config, events + [Edit(a, operations)]);
            && a in w'.clients && Made(w', a) == Made(w, a) + [x] && x.id.actor == a
            && w'.clients[a].changeID.lamport == x.id.lamport == w.clients[a].changeID.lamport + 1
  {
    RunGood(config, events);
    RunMore(config, events, Edit(a, operations));
    var w := Run(config, events);
    assert Served(w, a);
    x := Change(w.clients[a].changeID.Next(), operations);
    assert Log(w.store) + (w.clients[a].localChanges + [x]) == Made(w, a) + [x];
  }

  /** The changes of one client, with the clocks that follow on the given one. */
  ghost predicate Clocks(xs: seq<Change>, a: ActorID, lamport: nat) {
    forall i :: 0 <= i < |xs| ==> xs[i].id.actor == a && xs[i].id.lamport == lamport + 1 + i
  }

  lemma ClocksMore(s: seq<Change>, xs: seq<Change>, x: Change, a: ActorID, lamport: nat)
    requires Clocks(xs, a, lamport) && x.id.actor == a && x.id.lamport == lamport + |xs| + 1
    ensures Clocks(xs + [x], a, lamport) && s + xs + [x] == s + (xs + [x])
  {
  }

  lemma {:induction false} EditsMake(config: Config, events: seq<Event>, a: ActorID, ops: seq<nat>)
      returns (xs: seq<Change>)
    requires a in Run(config, events).clients
    ensures a in Run(config, events + EditEvents(a, ops)).clients
    ensures Run(config, events + EditEvents(a, ops)).clients[a].changeID.lamport
            == Run(config, events).clients[a].changeID.lamport + |ops|
    ensures Made(Run(config, events + EditEvents(a, ops)), a) == Made(Run(config, events), a) + xs
    ensures |xs| == |ops| && Clocks(xs, a, Run(config, events).clients[a].changeID.lamport)
  {
    if ops == [] {
      assert events + [] == events;
      xs := [];
      assert Made(Run(config, events), a) + xs == Made(Run(config, events), a);
    } else {
      var front, o := ops[..|ops| - 1], ops[|ops| - 1];
      var ys := EditsMake(config, events, a, front);
      var x := EditMakes(config, events + EditEvents(a, front), a, o);
      assert events + EditEvents(a, ops) == events + EditEvents(a, front) + [Edit(a, o)];
      xs := ys + [x];
      ClocksMore(Made(Run(config, events), a), ys, x, a, Run(config, events).clients[a].changeID.lamport);
    }
  }

  ghost predicate StaysUnique(config: Config, events: seq<Event>, a: ActorID) {
    forall ops :: Unique(Made(Run(config, events + EditEvents(a, ops)), a), a)
  }

  lemma UniqueStays(s: seq<Change>, xs: seq<Change>, a: ActorID, lamport: nat)
    requires Unique(s, a) && UpTo(s, a, lamport) && Clocks(xs, a, lamport)
    ensures Unique(s + xs, a)
  {
    forall i, j | 0 <= i < j < |s + xs| ensures Differ((s + xs)[i], (s + xs)[j], a) {
      if j < |s| {
        assert Differ(s[i], s[j], a);
      }
    }
  }

  lemma UniqueEnds(s: seq<Change>, i: nat, xs: seq<Change>, a: ActorID, lamport: nat)
    requires Clocks(xs, a, lamport) && xs != []
    requires i < |s| && s[i].id.actor == a && s[i].id.lamport == lamport + |xs|
    ensures !Unique(s + xs, a)
  {
    var t := s + xs;
    assert t[i] == s[i] && t[|t| - 1] == xs[|xs| - 1];
    assert !Differ(t[i], t[|t| - 1], a);
  }

  /** As long as the tickets of a client are unique: however much it edits they stay so if and
      only if its clock is not behind any change that it has made. */
  lemma StaysUniqueIff(config: Config, events: seq<Event>, a: ActorID)
    requires a in Run(config, events).clients && Unique(Made(Run(config, events), a), a)
    ensures StaysUnique(config, events, a)
            <==> UpTo(Made(Run(config, events), a), a, Run(config, events).clients[a].changeID.lamport)
  {
    var s, n := Made(Run(config, events), a), Run(config, events).clients[a].changeID.lamport;
    if UpTo(s, a, n) {
      forall ops ensures Unique(Made(Run(config, events + EditEvents(a, ops)), a), a) {
        var xs := EditsMake(config, events, a, ops);
        UniqueStays(s, xs, a, n);
      }
    } else {
      var i :| 0 <= i < |s| && s[i].id.actor == a && s[i].id.lamport > n;
      var xs := EditsMake(config, events, a, seq(s[i].id.lamport - n, _ => 0));
      UniqueEnds(s, i, xs, a, n);
    }
  }

  lemma {:induction false} SinceFew(events: seq<Event>, a: ActorID)
    ensures Since(events, a) <= |Edits(events, a)|
  {
    if events != [] {
      SinceFew(events[..|events| - 1], a);
    }
  }

  lemma {:induction false} NotesSome(changes: seq<Change>, a: ActorID) returns (i: nat)
    requires Notes(changes, a) != []
    ensures i < |changes| && changes[i].id.actor == a
  {
    i := |changes| - 1;
    if changes[i].id.actor != a {
      i := NotesSome(changes[..i], a);
    }
  }

  /** For a client that was careful so far: however much it edits its tickets stay unique if and
      only if it has synced since it attached the document, or made no change before that. */
  lemma CareIsNeeded(config: Config, events: seq<Event>, a: ActorID)
    requires config.snapshotThreshold >= 1 && Careful(events, a) && a in Run(config, events).clients
    ensures StaysUnique(config, events, a) <==> Knows(events, a)
  {
    var w := Run(config, events);
    var s := Made(w, a);
    RunGrows(config, events, a);
    forall i, j | 0 <= i < j < |s| ensures Differ(s[i], s[j], a) {
      assert Later(s[i], s[j], a);
    }
    StaysUniqueIff(config, events, a);
    if !Knows(events, a) {
      SinceFew(events, a);
      RunRecorded(config, events, a);
      var i := NotesSome(s, a);
    }
  }

  // ----- runs that repeat tickets -----

  lemma DetachAt(config: Config, events: seq<Event>, a: ActorID, log: seq<Change>, local: seq<Change>, lamport: nat)
    requires At(Run(config, events), a, log, local, lamport)
    ensures var w := Run(config, events + [Detach(a)]); a !in w.clients && Log(w.store) == log + local
  {
    var w := Run(config, events);
    assert Served(w, a);
    var st := DetachPushes(config, w, a);
    RunMore(config, events, Detach(a));
  }

  /** A client that edits after attaching the document again, before it has synced, makes the
      same tickets again. */
  lemma ReattachedRepeats(config: Config, a: ActorID) returns (events: seq<Event>)
    ensures a in Run(config, events).clients && Unique(Made(Run(config, events), a), a)
    ensures !StaysUnique(config, events, a)
  {
    AttachAt(config, [], a);
    events := [] + [Attach(a)];
    var x := EditAt(config, events, a, [], 0);
    events := events + [Edit(a, 0)];
    assert Served(Run(config, events), a);
    DetachAt(config, events, a, [], [x], 1);
    events := events + [Detach(a)];
    AttachAt(config, events, a);
    events := events + [Attach(a)];
    var s := Made(Run(config, events), a);
    assert s == [x] + [] == [x];
    assert x.id.actor == a;
    assert s[0].id.lamport == 1 && Run(config, events).clients[a].changeID.lamport == 0;
    StaysUniqueIff(config, events, a);
  }

  lemma {:induction false} NeverDetached(events: seq<Event>, a: ActorID)
    requires Detach(a) !in events
    ensures Careful(events, a) && |Edits(events, a)| == Since(events, a)
    ensures !Attached(events, a) ==> Edits(events, a) == []
  {
    if events != [] {
      var front, e := events[..|events| - 1], events[|events| - 1];
      assert e != Detach(a) && forall f :: f in front ==> f in events;
      NeverDetached(front, a);
    }
  }

  lemma CarefulMore(events: seq<Event>, e: Event, a: ActorID)
    requires Careful(events, a) && !e.Edit?
    ensures Careful(events + [e], a)
    ensures e == Sync(a) && Attached(events, a) ==> HasSynced(events + [e], a)
  {
    assert (events + [e])[..|events|] == events;
  }

  /** With a threshold of zero even one that synced does: its clock ran ahead of the numbers of
      the server before, and a snapshot sets it back to these. */
  lemma ZeroRepeats(config: Config, a: ActorID) returns (events: seq<Event>)
    requires config.snapshotThreshold == 0
    ensures !CareSuffices(config, events, a)
  {
    var x;
    events, x := ClockDrifts(config, a);
    var y := EditAt(config, events, a, [x], 2);
    events := events + [Edit(a, 0)];
    assert Served(Run(config, events), a);
    assert y.id.actor == a;
    DetachAt(config, events, a, [x], [y], 3);
    NeverDetached(events, a);
    CarefulMore(events, Detach(a), a);
    events := events + [Detach(a)];
    AttachAt(config, events, a);
    CarefulMore(events, Attach(a), a);
    events := events + [Attach(a)];
    EditsKept(config, events, a);
    SyncAgain(config, events, a, [x] + [y], [], 0);
    CarefulMore(events, Sync(a), a);
    events := events + [Sync(a)];
    var s := Made(Run(config, events), a);
    assert s == [x] + [y] + [] + [] == [x, y];
    var xs := EditsMake(config, events, a, [0]);
    UniqueEnds(s, 1, xs, a, 2);
  }

  /** A client that was careful and knows what it has made goes on to make unique tickets. */
  ghost predicate CareSuffices(config: Config, events: seq<Event>, a: ActorID) {
    a in Run(config, events).clients && Careful(events, a) && Knows(events, a) ==> StaysUnique(config, events, a)
  }

  lemma CareSufficesIff(config: Config)
    ensures (forall events, a :: CareSuffices(config, events, a)) <==> config.snapshotThreshold >= 1
  {
    if config.snapshotThreshold >= 1 {
      forall events, a ensures CareSuffices(config, events, a) {
        if a in Run(config, events).clients && Careful(events, a) {
          CareIsNeeded(config, events, a);
        }
      }
    } else {
      var events := ZeroRepeats(config, 1);
    }
  }
}
