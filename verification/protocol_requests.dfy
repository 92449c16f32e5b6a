/** The server alone, over every sequence of requests: a client may send any pack of changes
    of its own, as often as it likes, whether or not it has seen the answers
    (yorkie/packs/packs.go, yorkie/rpc/yorkie_server.go). */
module ProtocolRequests {
  import opened Time
  import opened Wrappers
  import opened Protocol
  import opened ProtocolTheorems
  import opened ProtocolRuns

  /** The store, and how long the log was when each client attached the document. */
  datatype Server = Server(store: Store, since: map<ActorID, nat>)

  datatype Request =
    | AttachDocument(actor: ActorID)
    | Ask(actor: ActorID, pack: Pack)
    | Snap(serverSeq: nat)
    | DetachDocument(actor: ActorID, pack: Pack)

  /** The store as DetachDocument sees it: the checkpoint of the client is set back first. */
  ghost function Reset(st: Store, a: ActorID): Store {
    st.(clients := st.clients[a := InitialCheckpoint])
  }

  /** A request that fails, or holds changes of another client, changes nothing. */
  ghost function Serve(config: Config, s: Server, e: Request): Server {
    match e
    case AttachDocument(a) =>
      if a in s.store.clients then s
      else Server(Reset(s.store, a), s.since[a := s.store.serverSeq])
    case Ask(a, pack) =>
      if a !in s.store.clients || !ByActor(pack.changes, a) then s
      else
        var r := PushPull(config, s.store, a, pack);
        if r.None? then s else s.(store := r.value.store)
    case Snap(n) =>
      if n <= s.store.serverSeq then s.(store := StoreSnapshot(config, s.store, n)) else s
    case DetachDocument(a, pack) =>
      if a !in s.store.clients || !ByActor(pack.changes, a) then s
      else
        var r := PushPull(config, Reset(s.store, a), a, pack);
        if r.None? then s
        else Server(r.value.store.(clients := r.value.store.clients - {a}), s.since - {a})
  }

  ghost function ServeAll(config: Config, requests: seq<Request>): Server {
    if requests == [] then Server(Store(map[], 0, map[], map[]), map[])
    else Serve(config, ServeAll(config, requests[..|requests| - 1]), requests[|requests| - 1])
  }

  // ----- each client number once -----

  /** The numbers of the client in the log grow from the given place on. */
  ghost predicate Growing(log: seq<Change>, a: ActorID, since: nat) {
    forall i, j :: since <= i < j < |log| && log[i].id.actor == a && log[j].id.actor == a ==>
      log[i].id.clientSeq < log[j].id.clientSeq
  }

  /** They end with the number of the checkpoint, which is zero if there are none. */
  ghost predicate EndsAt(log: seq<Change>, a: ActorID, since: nat, clientSeq: nat) {
    && (forall i :: since <= i < |log| && log[i].id.actor == a ==> log[i].id.clientSeq <= clientSeq)
    && (clientSeq > 0 ==>
         exists i :: since <= i < |log| && log[i].id.actor == a && log[i].id.clientSeq == clientSeq)
  }

  ghost predicate Once(log: seq<Change>, a: ActorID, since: nat, clientSeq: nat) {
    since <= |log| && Growing(log, a, since) && EndsAt(log, a, since, clientSeq)
  }

  ghost predicate OnceIn(s: Server, a: ActorID)
    requires a in s.store.clients && a in s.since
  {
    Once(Log(s.store), a, s.since[a], s.store.clients[a].clientSeq)
  }

  ghost predicate Sound(s: Server) {
    && Faithful(s.store) && s.store.clients.Keys == s.since.Keys
    && forall a {:trigger OnceIn(s, a)} :: a in s.since ==> OnceIn(s, a)
  }

  // ----- every sequence of requests -----

  lemma AcceptedOf(clientSeq: nat, changes: seq<Change>, a: ActorID)
    requires ByActor(changes, a)
    ensures Rising(Accepted(clientSeq, changes), clientSeq) && ByActor(Accepted(clientSeq, changes), a)
    ensures var more, r := Accepted(clientSeq, changes), Reached(clientSeq, changes);
            r == if more == [] then clientSeq else more[|more| - 1].id.clientSeq
  {
    AcceptedRises(clientSeq, changes);
    var more := Accepted(clientSeq, changes);
    forall i | 0 <= i < |more| ensures more[i].id.actor == a {
      assert more[i] in changes;
    }
  }

  lemma AskGrows(config: Config, st: Store, a: ActorID, pack: Pack) returns (r: Answer, more: seq<Change>)
    requires Faithful(st) && a in st.clients && PushPull(config, st, a, pack).Some?
    ensures PushPull(config, st, a, pack) == Some(r) && more == Accepted(st.clients[a].clientSeq, pack.changes)
    ensures Grown(st, more, r.store) && r.store.clients == st.clients[a := r.store.clients[a]]
    ensures r.store.clients[a].clientSeq == Reached(st.clients[a].clientSeq, pack.changes)
  {
    r, more := PushPull(config, st, a, pack).value, Accepted(st.clients[a].clientSeq, pack.changes);
    PushIs(st.clients[a], st.serverSeq, pack.changes);
    StoredGrows(st, more, Push(st.clients[a], st.serverSeq, pack.changes).accepted, r.store);
  }

  lemma OnceGrows(log: seq<Change>, more: seq<Change>, a: ActorID, since: nat, clientSeq: nat)
    requires Once(log, a, since, clientSeq) && ByActor(more, a) && Rising(more, clientSeq)
    ensures Once(log + more, a, since, if more == [] then clientSeq else more[|more| - 1].id.clientSeq)
  {
    if more != [] {
      assert (log + more)[|log| + |more| - 1] == more[|more| - 1];
    } else {
      assert log + more == log;
    }
  }

  lemma OnceStays(log: seq<Change>, more: seq<Change>, a: ActorID, since: nat, clientSeq: nat, b: ActorID)
    requires Once(log, b, since, clientSeq) && ByActor(more, a) && a != b
    ensures Once(log + more, b, since, clientSeq)
  {
    if clientSeq > 0 {
      var i :| since <= i < |log| && log[i].id.actor == b && log[i].id.clientSeq == clientSeq;
      assert (log + more)[i] == log[i];
    }
  }

  /** What a client brings in does not touch the others. */
  lemma OthersOnce(s: Server, s': Server, a: ActorID, more: seq<Change>)
    requires Sound(s) && Log(s'.store) == Log(s.store) + more && ByActor(more, a)
    requires s'.since.Keys == s'.store.clients.Keys
    requires forall b :: b in s'.since && b != a ==>
               b in s.since && s'.since[b] == s.since[b] && s'.store.clients[b] == s.store.clients[b]
    ensures forall b :: b in s'.since && b != a ==> OnceIn(s', b)
  {
    forall b | b in s'.since && b != a ensures OnceIn(s', b) {
      assert OnceIn(s, b);
      OnceStays(Log(s.store), more, a, s.since[b], s.store.clients[b].clientSeq, b);
    }
  }

  lemma AskSound(config: Config, s: Server, a: ActorID, pack: Pack)
    requires Sound(s) && a in s.store.clients && ByActor(pack.changes, a)
    ensures Sound(Serve(config, s, Ask(a, pack)))
  {
    if PushPull(config, s.store, a, pack).Some? {
      assert OnceIn(s, a);
      var s', n := Serve(config, s, Ask(a, pack)), s.store.clients[a].clientSeq;
      var r, more := AskGrows(config, s.store, a, pack);
      AcceptedOf(n, pack.changes, a);
      GrownFaithful(s.store, more, r.store);
      assert OnceIn(s', a) by {
        OnceGrows(Log(s.store), more, a, s.since[a], n);
      }
      OthersOnce(s, s', a, more);
    }
  }

  lemma DetachSound(config: Config, s: Server, a: ActorID, pack: Pack)
    requires Sound(s) && a in s.store.clients && ByActor(pack.changes, a)
    ensures Sound(Serve(config, s, DetachDocument(a, pack)))
  {
    var st := Reset(s.store, a);
    if PushPull(config, st, a, pack).Some? {
      assert Log(st) == Log(s.store);
      var s' := Serve(config, s, DetachDocument(a, pack));
      var r, more := AskGrows(config, st, a, pack);
      AcceptedOf(0, pack.changes, a);
      GrownFaithful(st, more, r.store);
      assert Log(s'.store) == Log(r.store);
      OthersOnce(s, s', a, more);
    }
  }

  lemma ServeSound(config: Config, s: Server, e: Request)
    requires Sound(s)
    ensures Sound(Serve(config, s, e))
  {
    if e.Ask? && e.actor in s.store.clients && ByActor(e.pack.changes, e.actor) {
      AskSound(config, s, e.actor, e.pack);
    } else if e.DetachDocument? && e.actor in s.store.clients && ByActor(e.pack.changes, e.actor) {
      DetachSound(config, s, e.actor, e.pack);
    } else {
      var s' := Serve(config, s, e);
      assert Log(s'.store) == Log(s.store);
      if e.Snap? && e.serverSeq <= s.store.serverSeq {
        StoreSnapshotFaithful(config, s.store, e.serverSeq);
      }
      BetweenIsLog(s.store, 1, s.store.serverSeq);
      forall b | b in s'.since ensures OnceIn(s', b) {
        assert b in s.since ==> OnceIn(s, b);
      }
    }
  }

  lemma {:induction false} AllSound(config: Config, requests: seq<Request>)
    ensures Sound(ServeAll(config, requests))
  {
    if requests != [] {
      AllSound(config, requests[..|requests| - 1]);
      ServeSound(config, ServeAll(config, requests[..|requests| - 1]), requests[|requests| - 1]);
    }
  }

  /** While a client has the document attached, each of its numbers enters the log at most
      once, and they do so in growing order, whatever it sends and however often. */
  lemma EachNumberOnce(config: Config, requests: seq<Request>, a: ActorID)
    requires a in ServeAll(config, requests).since
    ensures var s := ServeAll(config, requests);
            a in s.store.clients && Once(Log(s.store), a, s.since[a], s.store.clients[a].clientSeq)
  {
    AllSound(config, requests);
    assert OnceIn(ServeAll(config, requests), a);
  }

  // ----- detaching -----

  /** Zero aside, a number that is not above the given one comes only after one that is. */
  ghost predicate Leads(changes: seq<Change>, clientSeq: nat) {
    forall i :: 0 <= i < |changes| && 0 < changes[i].id.clientSeq <= clientSeq ==>
      exists j :: 0 <= j < i && changes[j].id.clientSeq > clientSeq
  }

  /** The first change that is accepted from zero on is the first with a number above it. */
  lemma {:induction false} FirstAccepted(changes: seq<Change>) returns (f: nat)
    ensures f <= |changes| && forall i :: 0 <= i < f ==> changes[i].id.clientSeq == 0
    ensures f < |changes| ==> var more := Accepted(0, changes);
                              more != [] && more[0] == changes[f] && changes[f].id.clientSeq > 0
    ensures f == |changes| ==> Accepted(0, changes) == [] && Reached(0, changes) == 0
  {
    if changes == [] {
      f := 0;
    } else {
      var front := changes[..|changes| - 1];
      f := FirstAccepted(front);
      if f == |front| && changes[f].id.clientSeq == 0 {
        f := |changes|;
      }
    }
  }

  /** Numbers that grow stay growing if the ones that come are above the last of them. */
  lemma GrowingIff(log: seq<Change>, more: seq<Change>, a: ActorID, since: nat, clientSeq: nat)
    requires Once(log, a, since, clientSeq) && ByActor(more, a) && Rising(more, 0)
    ensures Growing(log + more, a, since) <==> more == [] || more[0].id.clientSeq > clientSeq
  {
    var all := log + more;
    if more == [] {
      assert all == log;
    } else if more[0].id.clientSeq > clientSeq {
      OnceGrows(log, more, a, since, clientSeq);
    } else {
      var i :| since <= i < |log| && log[i].id.actor == a && log[i].id.clientSeq == clientSeq;
      assert all[i] == log[i] && all[|log|] == more[0];
    }
  }

  lemma DetachBrings(config: Config, s: Server, a: ActorID, pack: Pack)
    requires Sound(s) && a in s.since && ByActor(pack.changes, a)
    requires pack.checkpoint.serverSeq <= s.store.serverSeq
    ensures Log(Serve(config, s, DetachDocument(a, pack)).store) == Log(s.store) + Accepted(0, pack.changes)
  {
    var st := Reset(s.store, a);
    assert Log(st) == Log(s.store);
    var r, more := AskGrows(config, st, a, pack);
    assert Log(Serve(config, s, DetachDocument(a, pack)).store) == Log(r.store);
  }

  /** With the pack that comes with the detaching of the document, whose checkpoint was set
      back before, the numbers of the client keep growing if and only if the pack leads with
      numbers above the checkpoint that was stored. */
  lemma DetachOnceIff(config: Config, requests: seq<Request>, a: ActorID, pack: Pack)
    requires var s := ServeAll(config, requests);
             a in s.since && ByActor(pack.changes, a) && pack.checkpoint.serverSeq <= s.store.serverSeq
    ensures var s := ServeAll(config, requests);
            && a in s.store.clients
            && (Growing(Log(Serve(config, s, DetachDocument(a, pack)).store), a, s.since[a])
                <==> Leads(pack.changes, s.store.clients[a].clientSeq))
  {
    EachNumberOnce(config, requests, a);
    AllSound(config, requests);
    var s := ServeAll(config, requests);
    var n, changes := s.store.clients[a].clientSeq, pack.changes;
    DetachBrings(config, s, a, pack);
    AcceptedOf(0, changes, a);
    GrowingIff(Log(s.store), Accepted(0, changes), a, s.since[a], n);
    var f := FirstAccepted(changes);
    if f < |changes| && changes[f].id.clientSeq > n {
      assert Leads(changes, n);
    }
  }

  /** For a pack as clients make it, whose numbers grow, that is: if and only if the server
      has recorded none of them. */
  lemma DetachedPack(changes: seq<Change>, clientSeq: nat)
    requires Rising(changes, 0)
    ensures Leads(changes, clientSeq) <==> Rising(changes, clientSeq)
    ensures Accepted(0, changes) == changes
  {
    AcceptedAll(0, changes);
    if Leads(changes, clientSeq) {
      assert changes != [] ==> 0 < changes[0].id.clientSeq;
      assert changes != [] ==> changes[0].id.clientSeq > clientSeq;
    }
  }

  /** A client that never saw the answer to its pack and detaches with it: all its changes
      are in the log twice. */
  lemma LostThenDetached(config: Config, requests: seq<Request>, a: ActorID, pack: Pack)
    requires var s := ServeAll(config, requests);
             && a in s.since && a in s.store.clients && ByActor(pack.changes, a)
             && pack.checkpoint.serverSeq <= s.store.serverSeq
             && Rising(pack.changes, s.store.clients[a].clientSeq)
    ensures var s := ServeAll(config, requests);
            var s' := Serve(config, Serve(config, s, Ask(a, pack)), DetachDocument(a, pack));
            Log(s'.store) == Log(s.store) + pack.changes + pack.changes
  {
    AllSound(config, requests);
    var s := ServeAll(config, requests);
    var r, more := AskGrows(config, s.store, a, pack);
    AcceptedAll(s.store.clients[a].clientSeq, pack.changes);
    AskSound(config, s, a, pack);
    DetachBrings(config, Serve(config, s, Ask(a, pack)), a, pack);
    AcceptedAll(0, pack.changes);
  }

  // ----- the runs of clients are such sequences -----

  /** What the server is asked in a run. */
  ghost function Requests(config: Config, events: seq<Event>): seq<Request> {
    if events == [] then []
    else
      var front := events[..|events| - 1];
      Requests(config, front) + Asked(Run(config, front), events[|events| - 1])
  }

  ghost function Asked(w: World, e: Event): seq<Request> {
    match e
    case Attach(a) => [AttachDocument(a)]
    case Edit(_, _) => []
    case Sync(a) => if a in w.clients then [Ask(a, CreatePack(w.clients[a]))] else []
    case TakeSnapshot(n) => [Snap(n)]
    case Detach(a) => if a in w.clients then [DetachDocument(a, CreatePack(w.clients[a]))] else []
  }

  lemma ServeMore(config: Config, requests: seq<Request>, e: Request)
    ensures ServeAll(config, requests + [e]) == Serve(config, ServeAll(config, requests), e)
  {
    assert (requests + [e])[..|requests|] == requests;
  }

  lemma AskedIs(config: Config, w: World, s: Server, e: Event)
    requires Good(w) && s.store == w.store
    ensures |Asked(w, e)| <= 1
    ensures Next(config, w, e).store
            == if Asked(w, e) == [] then w.store else Serve(config, s, Asked(w, e)[0]).store
  {
    if e.Sync? || e.Detach? {
      assert e.actor in w.clients ==> Served(w, e.actor);
    }
  }

  lemma {:induction false} ClientsAsk(config: Config, events: seq<Event>)
    ensures ServeAll(config, Requests(config, events)).store == Run(config, events).store
  {
    if events != [] {
      var front, e := events[..|events| - 1], events[|events| - 1];
      var w, requests := Run(config, front), Requests(config, front);
      ClientsAsk(config, front);
      RunGood(config, front);
      AskedIs(config, w, ServeAll(config, requests), e);
      if Asked(w, e) == [] {
        assert requests + [] == requests;
      } else {
        ServeMore(config, requests, Asked(w, e)[0]);
        assert requests + Asked(w, e) == requests + [Asked(w, e)[0]];
      }
    }
  }
}
