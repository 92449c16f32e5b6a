/** What becomes of the edits of the clients over all runs of the protocol: each is one change,
    in the log or not yet pushed, with the operations and the number it was made with; and in
    which order a client has applied what it has (pkg/document/document.go,
    pkg/document/internal_document.go). */
module ProtocolEdits {
  import opened Time
  import opened Wrappers
  import opened Protocol
  import opened ProtocolTheorems
  import opened ProtocolRuns
  import opened ProtocolAnswers

  // ----- what the events alone say -----

  /** What is known of an edit: its number within the attachment, and its operations. */
  datatype Note = Note(clientSeq: nat, operations: nat)

  predicate Attached(events: seq<Event>, a: ActorID) {
    if events == [] then false
    else
      var e := events[|events| - 1];
      if e == Attach(a) then true else if e == Detach(a) then false else Attached(events[..|events| - 1], a)
  }

  /** The number of edits of the client since it last attached the document. */
  function Since(events: seq<Event>, a: ActorID): nat {
    if events == [] then 0
    else
      var front, e := events[..|events| - 1], events[|events| - 1];
      if e == Attach(a) && !Attached(front, a) then 0
      else if e.Edit? && e.actor == a && Attached(front, a) then Since(front, a) + 1
      else Since(front, a)
  }

  /** The edits of the client, in order; one made while it is not attached is none. */
  function Edits(events: seq<Event>, a: ActorID): seq<Note> {
    if events == [] then []
    else
      var front, e := events[..|events| - 1], events[|events| - 1];
      if e.Edit? && e.actor == a && Attached(front, a)
      then Edits(front, a) + [Note(Since(front, a) + 1, e.operations)]
      else Edits(front, a)
  }

  // ----- what the changes say -----

  function NoteOf(c: Change): Note {
    Note(c.id.clientSeq, c.operations)
  }

  /** The notes of the changes of one client. */
  function Notes(changes: seq<Change>, a: ActorID): seq<Note> {
    if changes == [] then []
    else
      var c := changes[|changes| - 1];
      Notes(changes[..|changes| - 1], a) + if c.id.actor == a then [NoteOf(c)] else []
  }

  lemma {:induction false} NotesAppend(x: seq<Change>, y: seq<Change>, a: ActorID)
    ensures Notes(x + y, a) == Notes(x, a) + Notes(y, a)
    decreases |y|
  {
    if y == [] {
      assert x + y == x;
    } else {
      var front := y[..|y| - 1];
      NotesAppend(x, front, a);
      assert (x + y)[..|x + y| - 1] == x + front;
    }
  }

  lemma {:induction false} NotesOfOthers(changes: seq<Change>, b: ActorID, a: ActorID)
    requires ByActor(changes, b) && a != b
    ensures Notes(changes, a) == []
  {
    if changes != [] {
      NotesOfOthers(changes[..|changes| - 1], b, a);
    }
  }

  // ----- every edit is one change -----

  ghost predicate Recorded(w: World, a: ActorID, attached: bool, since: nat, edits: seq<Note>) {
    && (attached <==> a in w.clients)
    && (a in w.clients ==> w.clients[a].changeID.clientSeq == since && ByActor(w.clients[a].localChanges, a))
    && Notes(Log(w.store) + if a in w.clients then w.clients[a].localChanges else [], a) == edits
  }

  ghost predicate RecordedIn(config: Config, events: seq<Event>, a: ActorID) {
    Recorded(Run(config, events), a, Attached(events, a), Since(events, a), Edits(events, a))
  }

  lemma EditRecorded(w: World, a: ActorID, since: nat, edits: seq<Note>, operations: nat)
    requires a in w.clients && w.clients[a].changeID.actor == a && Recorded(w, a, true, since, edits)
    ensures Recorded(w.(clients := w.clients[a := Update(w.clients[a], operations)]), a, true, since + 1,
                     edits + [Note(since + 1, operations)])
  {
    var c, log := w.clients[a], Log(w.store);
    var x := Change(c.changeID.Next(), operations);
    assert Update(c, operations).localChanges == c.localChanges + [x];
    assert log + (c.localChanges + [x]) == (log + c.localChanges) + [x];
    NotesAppend(log + c.localChanges, [x], a);
    assert [x][..0] == [];
  }

  lemma SyncRecorded(config: Config, w: World, b: ActorID, a: ActorID, attached: bool, since: nat, edits: seq<Note>)
    requires Good(w) && b in w.clients && Recorded(w, a, attached, since, edits)
    ensures Recorded(Next(config, w, Sync(b)), a, attached, since, edits)
  {
    assert Served(w, b);
    var r := SyncAnswers(config, w, b);
    var log, local := Log(w.store), w.clients[b].localChanges;
    if a == b {
      UnpushedNone(local, r.pack.checkpoint.clientSeq);
      SyncedKeeps(w.clients[a].changeID, r.pack.changes);
      assert log + local + [] == log + local;
    } else {
      OthersBetween(log, local, if a in w.clients then w.clients[a].localChanges else [], b, a);
    }
  }

  /** Changes of another client between two stretches do not matter. */
  lemma OthersBetween(log: seq<Change>, more: seq<Change>, local: seq<Change>, b: ActorID, a: ActorID)
    requires ByActor(more, b) && a != b
    ensures Notes(log + more + local, a) == Notes(log + local, a)
  {
    NotesAppend(log + more, local, a);
    NotesAppend(log, more, a);
    NotesAppend(log, local, a);
    NotesOfOthers(more, b, a);
  }

  lemma DetachRecorded(config: Config, w: World, b: ActorID, a: ActorID, attached: bool, since: nat, edits: seq<Note>)
    requires Good(w) && b in w.clients && Recorded(w, a, attached, since, edits)
    ensures Recorded(Next(config, w, Detach(b)), a, attached && a != b, since, edits)
  {
    assert Served(w, b);
    var st' := DetachPushes(config, w, b);
    var log, local := Log(w.store), w.clients[b].localChanges;
    if a == b {
      assert log + local + [] == log + local;
    } else {
      OthersBetween(log, local, if a in w.clients then w.clients[a].localChanges else [], b, a);
    }
  }

  lemma MoreEvents(config: Config, events: seq<Event>, e: Event, a: ActorID)
    ensures Run(config, events + [e]) == Next(config, Run(config, events), e)
    ensures Attached(events + [e], a) == if e == Attach(a) then true else e != Detach(a) && Attached(events, a)
    ensures var made := e.Edit? && e.actor == a && Attached(events, a);
            && Since(events + [e], a) == (if e == Attach(a) && !Attached(events, a) then 0
                                          else if made then Since(events, a) + 1 else Since(events, a))
            && Edits(events + [e], a)
               == Edits(events, a) + if made then [Note(Since(events, a) + 1, e.operations)] else []
  {
    var all := events + [e];
    assert all[..|all| - 1] == events && all[|all| - 1] == e;
    assert Edits(events, a) + [] == Edits(events, a);
  }

  lemma AttachRecorded(config: Config, w: World, b: ActorID, a: ActorID, attached: bool, since: nat, edits: seq<Note>)
    requires Recorded(w, a, attached, since, edits)
    ensures Recorded(Next(config, w, Attach(b)), a, attached || a == b, if a == b && !attached then 0 else since, edits)
  {
    assert Log(Next(config, w, Attach(b)).store) == Log(w.store);
  }

  lemma EditedRecorded(config: Config, w: World, b: ActorID, operations: nat, a: ActorID, attached: bool, since: nat,
                       edits: seq<Note>)
    requires Good(w) && Recorded(w, a, attached, since, edits)
    ensures Recorded(Next(config, w, Edit(b, operations)), a, attached,
                     if a == b && attached then since + 1 else since,
                     edits + if a == b && attached then [Note(since + 1, operations)] else [])
  {
    assert edits + [] == edits;
    if b == a && attached {
      assert Served(w, a);
      EditRecorded(w, a, since, edits, operations);
    }
  }

  lemma NextRecorded(config: Config, events: seq<Event>, e: Event, a: ActorID)
    requires Good(Run(config, events)) && RecordedIn(config, events, a)
    ensures RecordedIn(config, events + [e], a)
  {
    var w, attached, since, edits := Run(config, events), Attached(events, a), Since(events, a), Edits(events, a);
    MoreEvents(config, events, e, a);
    assert edits + [] == edits;
    match e
    case Attach(b) => AttachRecorded(config, w, b, a, attached, since, edits);
    case Edit(b, operations) => EditedRecorded(config, w, b, operations, a, attached, since, edits);
    case Sync(b) =>
      if b in w.clients {
        SyncRecorded(config, w, b, a, attached, since, edits);
      }
    case TakeSnapshot(n) => SnapshotRecorded(config, w, n, a, attached, since, edits);
    case Detach(b) =>
      if b in w.clients {
        DetachRecorded(config, w, b, a, attached, since, edits);
      }
  }

  lemma SnapshotRecorded(config: Config, w: World, n: nat, a: ActorID, attached: bool, since: nat, edits: seq<Note>)
    requires Recorded(w, a, attached, since, edits)
    ensures Recorded(Next(config, w, TakeSnapshot(n)), a, attached, since, edits)
  {
    assert Log(Next(config, w, TakeSnapshot(n)).store) == Log(w.store);
  }

  lemma {:induction false} RunRecorded(config: Config, events: seq<Event>, a: ActorID)
    ensures RecordedIn(config, events, a)
  {
    if events != [] {
      var front, e := events[..|events| - 1], events[|events| - 1];
      RunGood(config, front);
      RunRecorded(config, front, a);
      NextRecorded(config, front, e, a);
      assert front + [e] == events;
    } else {
      assert Log(Start.store) + [] == [];
    }
  }

  /** In every run: the changes of a client in the log, and then those it has not pushed yet, are
      its edits, each once and in their order, with the operations of the edit, and numbered from
      one on in each attachment. A client is attached just if its last attaching was not followed
      by a detaching. */
  lemma EditsKept(config: Config, events: seq<Event>, a: ActorID)
    ensures var w := Run(config, events);
            && (a in w.clients <==> Attached(events, a))
            && Notes(Log(w.store), a) + (if a in w.clients then Notes(w.clients[a].localChanges, a) else [])
               == Edits(events, a)
            && (a in w.clients ==>
                 w.clients[a].changeID.clientSeq == Since(events, a) && ByActor(w.clients[a].localChanges, a))
  {
    RunRecorded(config, events, a);
    var w := Run(config, events);
    if a in w.clients {
      NotesAppend(Log(w.store), w.clients[a].localChanges, a);
    } else {
      assert Log(w.store) + [] == Log(w.store);
    }
  }

  lemma {:induction false} NotesHold(changes: seq<Change>, c: Change)
    requires c in changes
    ensures NoteOf(c) in Notes(changes, c.id.actor)
  {
    if c != changes[|changes| - 1] {
      assert changes == changes[..|changes| - 1] + [changes[|changes| - 1]];
      NotesHold(changes[..|changes| - 1], c);
    }
  }

  lemma {:induction false} EditsMade(events: seq<Event>, a: ActorID, n: Note)
    requires n in Edits(events, a)
    ensures Edit(a, n.operations) in events
  {
    var front, e := events[..|events| - 1], events[|events| - 1];
    if n in Edits(front, a) {
      EditsMade(front, a, n);
    }
  }

  /** No change comes from nowhere: each in the log is of an edit that its actor made. */
  lemma ChangesAreEdits(config: Config, events: seq<Event>, c: Change)
    requires c in Log(Run(config, events).store)
    ensures Edit(c.id.actor, c.operations) in events
  {
    EditsKept(config, events, c.id.actor);
    NotesHold(Log(Run(config, events).store), c);
    EditsMade(events, c.id.actor, NoteOf(c));
  }

  // ----- the order in which a client has applied what it has -----

  /** What syncing makes of the document of a client: a snapshot stands for the log as it was, and
      the changes that were just pushed come after it, as they do in the log now; changes come
      after all that the client has. */
  lemma SyncOrder(config: Config, events: seq<Event>, a: ActorID)
    requires a in Run(config, events).clients
    ensures var w, w' := Run(config, events), Run(config, events + [Sync(a)]);
            var c, log := w.clients[a], Log(w.store);
            && a in w'.clients && c.checkpoint.serverSeq <= |log| && Log(w'.store) == log + c.localChanges
            && w'.clients[a].root
               == if |log| - c.checkpoint.serverSeq < config.snapshotThreshold || log == []
                  then c.root + log[c.checkpoint.serverSeq..] else Log(w'.store)
  {
    RunGood(config, events);
    assert (events + [Sync(a)])[..|events|] == events;
    var w := Run(config, events);
    var r := AnswerKind(config, events, a);
    var r' := SyncAnswers(config, w, a);
    if Log(w.store) == [] {
      assert Log(w.store)[w.clients[a].checkpoint.serverSeq..] == [];
    }
  }

  /** The changes of the others. */
  function Others(changes: seq<Change>, a: ActorID): seq<Change> {
    if changes == [] then []
    else
      var c := changes[|changes| - 1];
      Others(changes[..|changes| - 1], a) + if c.id.actor != a then [c] else []
  }

  lemma {:induction false} OthersAppend(x: seq<Change>, y: seq<Change>, a: ActorID)
    ensures Others(x + y, a) == Others(x, a) + Others(y, a)
    decreases |y|
  {
    if y == [] {
      assert x + y == x;
    } else {
      var front := y[..|y| - 1];
      OthersAppend(x, front, a);
      assert (x + y)[..|x + y| - 1] == x + front;
    }
  }

  lemma {:induction false} OthersNone(changes: seq<Change>, a: ActorID)
    requires ByActor(changes, a)
    ensures Others(changes, a) == []
  {
    if changes != [] {
      OthersNone(changes[..|changes| - 1], a);
    }
  }

  ghost predicate InOrder(w: World, a: ActorID)
    requires a in w.clients
  {
    var c := w.clients[a];
    c.checkpoint.serverSeq <= |Log(w.store)| && Others(c.root, a) == Others(Log(w.store)[..c.checkpoint.serverSeq], a)
  }

  ghost predicate AllInOrder(w: World) {
    forall a {:trigger InOrder(w, a)} :: a in w.clients ==> InOrder(w, a)
  }

  lemma AppliedInOrder(log: seq<Change>, a: ActorID, c: Client, pack: Pack)
    requires c.checkpoint.serverSeq <= |log| && ByActor(c.localChanges, a)
    requires Others(c.root, a) == Others(log[..c.checkpoint.serverSeq], a)
    requires if pack.snapshot.Some? then pack.snapshot.value == log else pack.changes == log[c.checkpoint.serverSeq..]
    ensures Others(Apply(c, pack).root, a) == Others(log + c.localChanges, a)
  {
    var n := c.checkpoint.serverSeq;
    OthersAppend(log, c.localChanges, a);
    OthersNone(c.localChanges, a);
    if pack.snapshot.None? {
      OthersAppend(c.root, pack.changes, a);
      OthersAppend(log[..n], log[n..], a);
      assert log[..n] + log[n..] == log;
    }
  }

  lemma GrownInOrder(w: World, more: seq<Change>, w': World, b: ActorID)
    requires b in w.clients && InOrder(w, b) && Log(w'.store) == Log(w.store) + more
    requires b in w'.clients && w'.clients[b] == w.clients[b]
    ensures InOrder(w', b)
  {
    PrefixGrows(Log(w.store), more, w.clients[b].checkpoint.serverSeq);
  }

  lemma AnsweredInOrder(w: World, a: ActorID, r: Answer, w': World)
    requires a in w.clients && a in w.store.clients && Served(w, a) && InOrder(w, a)
    requires Answers(w.store, a, w.clients[a], r) && a in w'.clients
    requires w'.store == r.store && w'.clients[a] == Apply(w.clients[a], r.pack)
    ensures InOrder(w', a)
  {
    var log, more := Log(w.store), w.clients[a].localChanges;
    AppliedInOrder(log, a, w.clients[a], r.pack);
    assert Log(w'.store) == log + more && (log + more)[..|log + more|] == log + more;
    assert w'.clients[a].checkpoint.serverSeq == |log + more|;
  }

  lemma SyncInOrder(config: Config, w: World, a: ActorID)
    requires Good(w) && AllInOrder(w) && a in w.clients
    ensures AllInOrder(Next(config, w, Sync(a)))
  {
    assert Served(w, a) && InOrder(w, a);
    var r := SyncAnswers(config, w, a);
    var w' := Next(config, w, Sync(a));
    AnsweredInOrder(w, a, r, w');
    forall b | b in w'.clients && b != a ensures InOrder(w', b) {
      assert InOrder(w, b);
      GrownInOrder(w, w.clients[a].localChanges, w', b);
    }
  }

  lemma NextInOrder(config: Config, w: World, e: Event)
    requires Good(w) && AllInOrder(w)
    ensures AllInOrder(Next(config, w, e))
  {
    var w' := Next(config, w, e);
    if e.Sync? && e.actor in w.clients {
      SyncInOrder(config, w, e.actor);
    } else if e.Detach? && e.actor in w.clients {
      var st' := DetachPushes(config, w, e.actor);
      forall b | b in w'.clients ensures InOrder(w', b) {
        assert InOrder(w, b);
        GrownInOrder(w, w.clients[e.actor].localChanges, w', b);
      }
    } else {
      assert Log(w'.store) == Log(w.store);
      forall b | b in w'.clients ensures InOrder(w', b) {
        assert b in w.clients ==> InOrder(w, b);
        if e.Edit? && e.actor == b {
          EditInOrder(w, b, e.operations);
        }
      }
    }
  }

  lemma EditInOrder(w: World, a: ActorID, operations: nat)
    requires Good(w) && a in w.clients
    ensures Others(Update(w.clients[a], operations).root, a) == Others(w.clients[a].root, a)
  {
    assert Served(w, a);
    var c := w.clients[a];
    OthersAppend(c.root, [Change(c.changeID.Next(), operations)], a);
    OthersNone([Change(c.changeID.Next(), operations)], a);
  }

  lemma {:induction false} RunInOrder(config: Config, events: seq<Event>)
    ensures AllInOrder(Run(config, events))
  {
    if events != [] {
      RunGood(config, events[..|events| - 1]);
      RunInOrder(config, events[..|events| - 1]);
      NextInOrder(config, Run(config, events[..|events| - 1]), events[|events| - 1]);
    }
  }

  /** In every run a client has applied the changes of the others in the order of the log, up to its
      checkpoint, whether it pulled changes or snapshots. */
  lemma OthersInOrder(config: Config, events: seq<Event>, a: ActorID)
    requires a in Run(config, events).clients
    ensures var w := Run(config, events);
            var c := w.clients[a];
            && c.checkpoint.serverSeq <= |Log(w.store)|
            && Others(c.root, a) == Others(Log(w.store)[..c.checkpoint.serverSeq], a)
  {
    RunInOrder(config, events);
    assert InOrder(Run(config, events), a);
  }
}
