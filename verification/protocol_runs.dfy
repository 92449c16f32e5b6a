/** Runs of the protocol: any number of clients attach, edit, push and pull, and detach, and
    the server stores snapshots, in any order. A push and the pull that answers it are one
    step, so that a response is applied before the next request of its client. */
module ProtocolRuns {
  import opened Time
  import opened Wrappers
  import opened Protocol
  import opened ProtocolTheorems

  /** The store, and the clients that attached the document. */
  datatype World = World(store: Store, clients: map<ActorID, Client>)

  datatype Event =
    | Attach(actor: ActorID)
    | Edit(actor: ActorID, operations: nat)
    | Sync(actor: ActorID)
    | TakeSnapshot(serverSeq: nat)
    | Detach(actor: ActorID)

  const Start := World(Store(map[], 0, map[], map[]), map[])

  /** An event that is not possible changes nothing. A snapshot may be taken for any number
      the document has had, as the server does so in its own time. */
  ghost function Next(config: Config, w: World, e: Event): World {
    match e
    case Attach(a) =>
      if a in w.clients then w
      else World(w.store.(clients := w.store.clients[a := InitialCheckpoint]), w.clients[a := NewClient(a)])
    case Edit(a, operations) =>
      if a in w.clients then w.(clients := w.clients[a := Update(w.clients[a], operations)]) else w
    case Sync(a) =>
      if a !in w.clients || a !in w.store.clients then w
      else
        var r := PushPull(config, w.store, a, CreatePack(w.clients[a]));
        if r.None? then w
        else w.(store := r.value.store, clients := w.clients[a := Apply(w.clients[a], r.value.pack)])
    case TakeSnapshot(n) =>
      if n <= w.store.serverSeq then w.(store := StoreSnapshot(config, w.store, n)) else w
    case Detach(a) =>
      if a !in w.clients then w
      else
        var st := w.store.(clients := w.store.clients[a := InitialCheckpoint]);
        var r := PushPull(config, st, a, CreatePack(w.clients[a]));
        if r.None? then w
        else World(r.value.store.(clients := r.value.store.clients - {a}), w.clients - {a})
  }

  ghost function Run(config: Config, events: seq<Event>): World {
    if events == [] then Start else Next(config, Run(config, events[..|events| - 1]), events[|events| - 1])
  }

  // ----- what each client has applied -----

  ghost predicate ByActor(changes: seq<Change>, a: ActorID) {
    forall i :: 0 <= i < |changes| ==> changes[i].id.actor == a
  }

  /** The client has applied the log up to its checkpoint, each change once, and its own
      changes that the server does not have; these carry the client numbers that follow on
      the checkpoint. */
  ghost predicate UpToDate(log: seq<Change>, a: ActorID, cp: Checkpoint, c: Client) {
    && c.checkpoint == cp && cp.serverSeq <= |log|
    && multiset(c.root) == multiset(log[..cp.serverSeq]) + multiset(c.localChanges)
    && Consecutive(c.localChanges, cp.clientSeq) && ByActor(c.localChanges, a)
    && c.changeID.actor == a && c.changeID.clientSeq == cp.clientSeq + |c.localChanges|
  }

  lemma PrefixGrows(log: seq<Change>, more: seq<Change>, n: nat)
    requires n <= |log|
    ensures (log + more)[..n] == log[..n]
  {
  }

  lemma UpToDateGrows(log: seq<Change>, more: seq<Change>, a: ActorID, cp: Checkpoint, c: Client)
    requires UpToDate(log, a, cp, c)
    ensures UpToDate(log + more, a, cp, c)
  {
    PrefixGrows(log, more, cp.serverSeq);
  }

  lemma UpdateUpToDate(log: seq<Change>, a: ActorID, cp: Checkpoint, c: Client, operations: nat)
    requires UpToDate(log, a, cp, c)
    ensures UpToDate(log, a, cp, Update(c, operations))
  {
    var x := Change(c.changeID.Next(), operations);
    assert multiset(c.root + [x]) == multiset(c.root) + multiset{x};
    assert multiset(c.localChanges + [x]) == multiset(c.localChanges) + multiset{x};
  }

  lemma UnpushedNone(changes: seq<Change>, clientSeq: nat)
    requires forall i :: 0 <= i < |changes| ==> changes[i].id.clientSeq <= clientSeq
    ensures Unpushed(changes, clientSeq) == []
  {
    UnpushedAfter(changes, [], clientSeq);
    assert changes + [] == changes;
  }

  /** What a client that is up to date makes of the answer to its pack. */
  lemma ApplyUpToDate(log: seq<Change>, a: ActorID, cp: Checkpoint, c: Client, pack: Pack)
    requires UpToDate(log, a, cp, c)
    requires pack.checkpoint == Checkpoint(|log| + |c.localChanges|, cp.clientSeq + |c.localChanges|)
    requires if pack.snapshot.Some? then pack.snapshot.value == log else pack.changes == log[cp.serverSeq..]
    ensures UpToDate(log + c.localChanges, a, pack.checkpoint, Apply(c, pack))
    ensures cp.Forward(pack.checkpoint) == pack.checkpoint
  {
    UnpushedNone(c.localChanges, pack.checkpoint.clientSeq);
    SyncedKeeps(c.changeID, pack.changes);
    AppliedOnce(log, cp.serverSeq, c, pack);
  }

  lemma AppliedOnce(log: seq<Change>, n: nat, c: Client, pack: Pack)
    requires n <= |log| && multiset(c.root) == multiset(log[..n]) + multiset(c.localChanges)
    requires if pack.snapshot.Some? then pack.snapshot.value == log else pack.changes == log[n..]
    ensures multiset(Apply(c, pack).root) == multiset(log) + multiset(c.localChanges)
    ensures var log' := log + c.localChanges;
            log'[..|log'|] == log' && multiset(log') == multiset(log) + multiset(c.localChanges)
  {
    if pack.snapshot.None? {
      assert log == log[..n] + log[n..];
    }
  }

  /** The pack of a client that is up to date carries the numbers after its checkpoint, up to
      those its own checkpoint then promises; the answer with that checkpoint makes it drop
      exactly the changes of the pack, and not one made since. */
  lemma PackAcknowledged(log: seq<Change>, a: ActorID, cp: Checkpoint, c: Client, operations: nat)
    requires UpToDate(log, a, cp, c)
    ensures var pack := CreatePack(c);
            && Consecutive(pack.changes, cp.clientSeq) && ByActor(pack.changes, a)
            && pack.checkpoint == Checkpoint(cp.serverSeq, c.changeID.clientSeq)
            && Unpushed(c.localChanges, pack.checkpoint.clientSeq) == []
            && var d := Update(c, operations);
               Unpushed(d.localChanges, pack.checkpoint.clientSeq) == d.localChanges[|c.localChanges|..]
  {
    var n := c.changeID.clientSeq;
    UnpushedNone(c.localChanges, n);
    UnpushedAfter(c.localChanges, [Change(c.changeID.Next(), operations)], n);
  }

  lemma {:induction false} UnpushedAfter(pushed: seq<Change>, more: seq<Change>, clientSeq: nat)
    requires forall i :: 0 <= i < |pushed| ==> pushed[i].id.clientSeq <= clientSeq
    requires forall i :: 0 <= i < |more| ==> more[i].id.clientSeq > clientSeq
    ensures Unpushed(pushed + more, clientSeq) == more
  {
    if pushed != [] {
      UnpushedAfter(pushed[1..], more, clientSeq);
      assert (pushed + more)[1..] == pushed[1..] + more;
    } else {
      assert pushed + more == more;
    }
  }

  lemma {:induction false} SyncedKeeps(id: ChangeID, changes: seq<Change>)
    ensures Synced(id, changes).actor == id.actor && Synced(id, changes).clientSeq == id.clientSeq
  {
    if changes != [] {
      SyncedKeeps(id, changes[..|changes| - 1]);
    }
  }

  // ----- the answer of the server -----

  lemma PushedStore(st: Store, cp: Checkpoint, more: seq<Change>, clients: map<ActorID, Checkpoint>)
      returns (p: Pushed, st': Store)
    requires Faithful(st) && Rising(more, cp.clientSeq)
    ensures p == Push(cp, st.serverSeq, more)
            && st' == Store(Stored(st.changes, p.accepted), p.serverSeq, clients, st.snapshots)
    ensures Grown(st, more, st')
    ensures p.serverSeq == st.serverSeq + |more|
    ensures Consecutive(more, cp.clientSeq) ==> p.cp.clientSeq == cp.clientSeq + |more|
  {
    PushAll(cp, st.serverSeq, more);
    p := Push(cp, st.serverSeq, more);
    st' := Store(Stored(st.changes, p.accepted), p.serverSeq, clients, st.snapshots);
    StoredGrows(st, more, p.accepted, st');
  }

  /** What is pulled is what the client misses, or the whole log. */
  lemma PulledIs(config: Config, st: Store, cp: Checkpoint, req: Pack, p: Pushed) returns (pack: Pack)
    requires Faithful(st) && req.checkpoint.serverSeq == cp.serverSeq <= st.serverSeq
    ensures Pull(config, st, req, p) == Some(pack) && |Log(st)| == st.serverSeq
    ensures pack.checkpoint == Checkpoint(p.serverSeq, p.cp.clientSeq)
    ensures if pack.snapshot.Some? then pack.snapshot.value == Log(st)
            else pack.changes == Log(st)[cp.serverSeq..]
  {
    pack := Pull(config, st, req, p).value;
    BetweenIsLog(st, cp.serverSeq + 1, st.serverSeq);
    PullsLog(st);
    assert Log(st)[cp.serverSeq..st.serverSeq] == Log(st)[cp.serverSeq..];
  }

  /** A client that is up to date is answered with what it misses, and its changes are
      appended to the log. */
  lemma AnswerIs(config: Config, st: Store, a: ActorID, c: Client) returns (r: Answer)
    requires Faithful(st) && a in st.clients && UpToDate(Log(st), a, st.clients[a], c)
    ensures PushPull(config, st, a, CreatePack(c)) == Some(r) && Grown(st, c.localChanges, r.store)
    ensures r.store.clients == st.clients[a := st.clients[a].Forward(r.pack.checkpoint)]
    ensures |Log(st)| == st.serverSeq && r.pack.checkpoint
            == Checkpoint(st.serverSeq + |c.localChanges|, st.clients[a].clientSeq + |c.localChanges|)
    ensures if r.pack.snapshot.Some? then r.pack.snapshot.value == Log(st)
            else r.pack.changes == Log(st)[st.clients[a].serverSeq..]
  {
    var cp, req := st.clients[a], CreatePack(c);
    BetweenIsLog(st, 1, st.serverSeq);
    var p := Push(cp, st.serverSeq, req.changes);
    var pack := PulledIs(config, st, cp, req, p);
    var q, st' := PushedStore(st, cp, c.localChanges, st.clients[a := cp.Forward(pack.checkpoint)]);
    r := Answer(st', pack);
  }

  // ----- all runs -----

  ghost predicate Served(w: World, a: ActorID)
    requires a in w.clients && a in w.store.clients
  {
    UpToDate(Log(w.store), a, w.store.clients[a], w.clients[a])
  }

  ghost predicate Good(w: World) {
    && Faithful(w.store) && w.clients.Keys == w.store.clients.Keys
    && forall a {:trigger Served(w, a)} :: a in w.clients ==> Served(w, a)
  }

  lemma AttachGood(config: Config, w: World, a: ActorID)
    requires Good(w) && a !in w.clients
    ensures Good(Next(config, w, Attach(a)))
  {
    var w' := Next(config, w, Attach(a));
    BetweenIsLog(w.store, 1, w.store.serverSeq);
    forall b | b in w'.clients ensures Served(w', b) {
      assert b in w.clients ==> Served(w, b);
    }
  }

  /** What a client that is up to date is answered, and what that makes of the store. */
  ghost predicate Answers(st: Store, a: ActorID, c: Client, r: Answer)
    requires a in st.clients
  {
    var k, cp := |c.localChanges|, st.clients[a];
    && Grown(st, c.localChanges, r.store) && r.store.clients == st.clients[a := cp.Forward(r.pack.checkpoint)]
    && |Log(st)| == st.serverSeq && cp.serverSeq <= st.serverSeq
    && r.pack.checkpoint == Checkpoint(st.serverSeq + k, cp.clientSeq + k)
    && if r.pack.snapshot.Some? then r.pack.snapshot.value == Log(st) else r.pack.changes == Log(st)[cp.serverSeq..]
  }

  lemma SyncAnswers(config: Config, w: World, a: ActorID) returns (r: Answer)
    requires Good(w) && a in w.clients
    ensures Next(config, w, Sync(a)) == World(r.store, w.clients[a := Apply(w.clients[a], r.pack)])
    ensures Answers(w.store, a, w.clients[a], r)
    ensures a in w.store.clients && PushPull(config, w.store, a, CreatePack(w.clients[a])) == Some(r)
  {
    assert Served(w, a);
    r := AnswerIs(config, w.store, a, w.clients[a]);
  }

  lemma AnsweredServed(w: World, a: ActorID, r: Answer)
    requires Good(w) && a in w.clients && Answers(w.store, a, w.clients[a], r)
    ensures UpToDate(Log(r.store), a, r.store.clients[a], Apply(w.clients[a], r.pack))
  {
    assert Served(w, a);
    ApplyUpToDate(Log(w.store), a, w.store.clients[a], w.clients[a], r.pack);
  }

  lemma SyncGood(config: Config, w: World, a: ActorID)
    requires Good(w) && a in w.clients
    ensures Good(Next(config, w, Sync(a)))
  {
    assert Served(w, a);
    var r := SyncAnswers(config, w, a);
    var more := w.clients[a].localChanges;
    GrownFaithful(w.store, more, r.store);
    AnsweredServed(w, a, r);
    var w' := World(r.store, w.clients[a := Apply(w.clients[a], r.pack)]);
    forall b | b in w'.clients ensures Served(w', b) {
      assert Served(w, b);
      if b != a {
        UpToDateGrows(Log(w.store), more, b, w.store.clients[b], w.clients[b]);
      }
    }
  }

  /** The last changes of a client that detaches the document are pushed as well, though its
      checkpoint was set back before. */
  lemma DetachPushes(config: Config, w: World, a: ActorID) returns (st': Store)
    requires Good(w) && a in w.clients
    ensures Next(config, w, Detach(a)) == World(st', w.clients - {a})
    ensures Grown(w.store, w.clients[a].localChanges, st') && st'.clients == w.store.clients - {a}
  {
    assert Served(w, a);
    var st, c := w.store.(clients := w.store.clients[a := InitialCheckpoint]), w.clients[a];
    BetweenIsLog(w.store, 1, w.store.serverSeq);
    var r := PushedLast(config, st, a, c);
    st' := r.store.(clients := r.store.clients - {a});
    assert Log(st') == Log(r.store) && Log(st) == Log(w.store);
  }

  lemma PushedLast(config: Config, st: Store, a: ActorID, c: Client) returns (r: Answer)
    requires Faithful(st) && a in st.clients && st.clients[a] == InitialCheckpoint
    requires Rising(c.localChanges, 0) && c.checkpoint.serverSeq <= st.serverSeq
    ensures PushPull(config, st, a, CreatePack(c)) == Some(r) && Grown(st, c.localChanges, r.store)
    ensures r.store.clients.Keys == st.clients.Keys
    ensures forall b :: b in st.clients && b != a ==> r.store.clients[b] == st.clients[b]
  {
    BetweenIsLog(st, 1, st.serverSeq);
    var p := Push(InitialCheckpoint, st.serverSeq, c.localChanges);
    var pack := PulledIs(config, st, c.checkpoint, CreatePack(c), p);
    var q, st' := PushedStore(st, InitialCheckpoint, c.localChanges,
            st.clients[a := InitialCheckpoint.Forward(pack.checkpoint)]);
    r := Answer(st', pack);
  }

  lemma DetachGood(config: Config, w: World, a: ActorID)
    requires Good(w) && a in w.clients
    ensures Good(Next(config, w, Detach(a)))
  {
    assert Served(w, a);
    var st' := DetachPushes(config, w, a);
    var more := w.clients[a].localChanges;
    GrownFaithful(w.store, more, st');
    var w' := World(st', w.clients - {a});
    forall b | b in w'.clients ensures Served(w', b) {
      assert Served(w, b);
      UpToDateGrows(Log(w.store), more, b, w.store.clients[b], w.clients[b]);
    }
  }

  lemma NextGood(config: Config, w: World, e: Event)
    requires Good(w)
    ensures Good(Next(config, w, e))
  {
    var w' := Next(config, w, e);
    match e
    case Attach(a) =>
      if a !in w.clients {
        AttachGood(config, w, a);
      }
    case Edit(a, operations) =>
      forall b | b in w'.clients ensures Served(w', b) {
        assert Served(w, b);
        if b == a {
          UpdateUpToDate(Log(w.store), a, w.store.clients[a], w.clients[a], operations);
        }
      }
    case Sync(a) =>
      if a in w.clients {
        SyncGood(config, w, a);
      }
    case TakeSnapshot(n) =>
      if n <= w.store.serverSeq {
        StoreSnapshotFaithful(config, w.store, n);
      }
      forall b | b in w'.clients ensures Served(w', b) {
        assert Served(w, b);
      }
    case Detach(a) =>
      if a in w.clients {
        DetachGood(config, w, a);
      }
  }

  /** Every run keeps the snapshots equal to the log up to their numbers, and every client
      up to date. */
  lemma {:induction false} RunGood(config: Config, events: seq<Event>)
    ensures Good(Run(config, events))
  {
    if events != [] {
      RunGood(config, events[..|events| - 1]);
      NextGood(config, Run(config, events[..|events| - 1]), events[|events| - 1]);
    }
  }

  /** Exactly once: in every run an attached client has applied each change of the log up to
      its checkpoint once, and once its own changes that are not in the log yet, whether it
      pulled changes or snapshots. */
  lemma ExactlyOnce(config: Config, events: seq<Event>, a: ActorID)
    requires a in Run(config, events).clients
    ensures var w := Run(config, events);
            var c, log := w.clients[a], Log(w.store);
            && c.checkpoint.serverSeq <= |log|
            && multiset(c.root) == multiset(log[..c.checkpoint.serverSeq]) + multiset(c.localChanges)
  {
    RunGood(config, events);
    assert Served(Run(config, events), a);
  }

  /** Two clients that have pushed everything and pulled to the same number have applied the
      same changes. */
  lemma SameChanges(config: Config, events: seq<Event>, a: ActorID, b: ActorID)
    requires var w := Run(config, events);
             && a in w.clients && b in w.clients
             && w.clients[a].checkpoint.serverSeq == w.clients[b].checkpoint.serverSeq
             && w.clients[a].localChanges == [] && w.clients[b].localChanges == []
    ensures var w := Run(config, events);
            multiset(w.clients[a].root) == multiset(w.clients[b].root)
  {
    ExactlyOnce(config, events, a);
    ExactlyOnce(config, events, b);
  }

  /** A snapshot a client is given stands for the whole log. */
  lemma SnapshotsAreLog(config: Config, events: seq<Event>, s: nat)
    requires s in Run(config, events).store.snapshots
    ensures var st := Run(config, events).store;
            s <= |Log(st)| && st.snapshots[s] == Log(st)[..s]
  {
    RunGood(config, events);
    var st := Run(config, events).store;
    assert IsPrefix(Log(st), s, st.snapshots[s]);
  }

  // ----- a lost response -----

  /** What a client is answered when it sends its pack again, as it never saw the first answer. */
  lemma Resent(config: Config, st: Store, a: ActorID, c: Client, r: Answer) returns (r': Answer)
    requires Faithful(st) && a in st.clients && UpToDate(Log(st), a, st.clients[a], c)
    requires PushPull(config, st, a, CreatePack(c)) == Some(r) && Answers(st, a, c, r)
    ensures PushPull(config, r.store, a, CreatePack(c)) == Some(r') && Log(r'.store) == Log(r.store)
    ensures Log(r.store) == Log(st) + c.localChanges
    ensures if r'.pack.snapshot.Some? then r'.pack.snapshot.value == Log(r.store)
            else r'.pack.changes == Log(r.store)[c.checkpoint.serverSeq..]
  {
    var k, cp := |c.localChanges|, r.store.clients[a];
    GrownFaithful(st, c.localChanges, r.store);
    assert cp.clientSeq == st.clients[a].clientSeq + k;
    PushNothing(cp, r.store.serverSeq, c.localChanges);
    var p := Push(cp, r.store.serverSeq, c.localChanges);
    var pack := PulledIs(config, r.store, c.checkpoint, CreatePack(c), p);
    r' := Answer(Store(r.store.changes, r.store.serverSeq, r.store.clients[a := cp.Forward(pack.checkpoint)],
                       r.store.snapshots), pack);
  }

  /** Exactly once needs each response applied before the next request: if a response is
      lost, the changes of the client are echoed to it or executed on a snapshot that has
      them, and so applied twice, unless its pack held none. */
  lemma LostResponse(config: Config, st: Store, a: ActorID, c: Client) returns (r: Answer, r': Answer)
    requires Faithful(st) && a in st.clients && UpToDate(Log(st), a, st.clients[a], c)
    ensures PushPull(config, st, a, CreatePack(c)) == Some(r) && PushPull(config, r.store, a, CreatePack(c)) == Some(r')
    ensures multiset(Apply(c, r'.pack).root) == multiset(Log(r'.store)) + multiset(c.localChanges)
    ensures multiset(Apply(c, r'.pack).root) == multiset(Log(r'.store)) <==> c.localChanges == []
  {
    r := AnswerIs(config, st, a, c);
    r' := Resent(config, st, a, c, r);
    AppliedTwice(Log(st), c, r'.pack);
    var m, n := multiset(Log(r'.store)), multiset(c.localChanges);
    assert |m + n| == |m| + |c.localChanges|;
  }

  lemma AppliedTwice(log: seq<Change>, c: Client, pack: Pack)
    requires c.checkpoint.serverSeq <= |log|
    requires multiset(c.root) == multiset(log[..c.checkpoint.serverSeq]) + multiset(c.localChanges)
    requires var log' := log + c.localChanges;
             if pack.snapshot.Some? then pack.snapshot.value == log' else pack.changes == log'[c.checkpoint.serverSeq..]
    ensures multiset(Apply(c, pack).root) == multiset(log + c.localChanges) + multiset(c.localChanges)
  {
    var log', ss := log + c.localChanges, c.checkpoint.serverSeq;
    PrefixGrows(log, c.localChanges, ss);
    assert log' == log'[..ss] + log'[ss..];
    assert multiset(log') == multiset(log'[..ss]) + multiset(log'[ss..]);
  }
}
