/** The server side of the protocol (yorkie/packs/packs.go) over a store in memory
    (yorkie/backend/db/mongo/client.go), one document at a time. */
module Packs {
  import opened Time
  import opened Wrappers
  import opened Protocol
  import opened ProtocolTheorems
  import opened ProtocolAnswers
  import opened InternalDocuments

  lemma LastSnapshotIs(snapshots: map<nat, Root>, s: nat)
    requires IsLast(snapshots, s)
    ensures LastSnapshot(snapshots) == Snapshot(s, snapshots[s])
  {
  }

  class DB {
    var changes: map<nat, Change>
    var serverSeq: nat
    var clients: map<ActorID, Checkpoint>
    var snapshots: map<nat, Root>

    ghost function State(): Store
      reads this
    {
      Store(changes, serverSeq, clients, snapshots)
    }

    constructor ()
      ensures State() == Store(map[], 0, map[], map[])
    {
      changes, serverSeq, clients, snapshots := map[], 0, map[], map[];
    }

    method FindChangeInfosBetweenServerSeqs(from: nat, upTo: nat) returns (found: seq<Change>)
      ensures found == Between(changes, from, upTo)
    {
      found := [];
      var i := from;
      while i <= upTo
        invariant from <= i && (i <= upTo + 1 || i == from) && found == Between(changes, from, i - 1)
        decreases upTo + 1 - i
      {
        if i in changes {
          found := found + [changes[i]];
        }
        i := i + 1;
      }
    }

    method FindLastSnapshotInfo() returns (info: Snapshot)
      ensures info == LastSnapshot(snapshots)
    {
      if snapshots == map[] {
        return Snapshot(0, []);
      }
      ghost var last := LastThere(snapshots.Keys);
      var s: nat :| s in snapshots.Keys && forall r :: r in snapshots.Keys ==> r <= s;
      LastSnapshotIs(snapshots, s);
      info := Snapshot(s, snapshots[s]);
    }

    method StoreChangeInfos(serverSeq: nat, accepted: seq<Entry>)
      modifies this`changes, this`serverSeq
      ensures changes == Stored(old(changes), accepted) && this.serverSeq == serverSeq
    {
      var i := 0;
      while i < |accepted|
        invariant i <= |accepted| && changes == Stored(old(changes), accepted[..i])
      {
        changes := changes[accepted[i].serverSeq := accepted[i].change];
        assert accepted[..i + 1][..i] == accepted[..i];
        i := i + 1;
      }
      assert accepted[..i] == accepted;
      this.serverSeq := serverSeq;
    }

    /** The checkpoint never goes back; that of a client that detached the document is forgotten. */
    method UpdateClientInfoAfterPushPull(info: ClientInfo)
      modifies this`clients
      ensures clients == if !info.attached then old(clients) - {info.id}
                         else if info.id in old(clients)
                         then old(clients)[info.id := old(clients)[info.id].Forward(info.checkpoint)]
                         else old(clients)[info.id := info.checkpoint]
      ensures forall a :: a in clients && a in old(clients) ==>
                && clients[a].serverSeq >= old(clients)[a].serverSeq
                && clients[a].clientSeq >= old(clients)[a].clientSeq
                && (a != info.id ==> clients[a] == old(clients)[a])
      ensures info.id in clients ==>
                clients[info.id].serverSeq >= info.checkpoint.serverSeq
                && clients[info.id].clientSeq >= info.checkpoint.clientSeq
      ensures info.id in clients && info.id in old(clients) ==>
                && clients[info.id].serverSeq in {old(clients)[info.id].serverSeq, info.checkpoint.serverSeq}
                && clients[info.id].clientSeq in {old(clients)[info.id].clientSeq, info.checkpoint.clientSeq}
    {
      if !info.attached {
        clients := clients - {info.id};
      } else if info.id in clients {
        clients := clients[info.id := clients[info.id].Forward(info.checkpoint)];
      } else {
        clients := clients[info.id := info.checkpoint];
      }
    }

    method CreateSnapshotInfo(doc: InternalDocument)
      modifies this`snapshots
      ensures snapshots == old(snapshots)[doc.checkpoint.serverSeq := doc.root]
      ensures (forall s :: s in old(snapshots) ==> s <= doc.checkpoint.serverSeq) ==>
                LastSnapshot(snapshots) == Snapshot(doc.checkpoint.serverSeq, doc.root)
    {
      snapshots := snapshots[doc.checkpoint.serverSeq := doc.root];
      if forall s :: s in snapshots ==> s <= doc.checkpoint.serverSeq {
        LastSnapshotIs(snapshots, doc.checkpoint.serverSeq);
      }
    }
  }

  /** What a request has loaded of the document, with the number it counts on. */
  class DocInfo {
    var serverSeq: nat

    constructor (serverSeq: nat)
      ensures this.serverSeq == serverSeq
    {
      this.serverSeq := serverSeq;
    }

    method IncreaseServerSeq() returns (n: nat)
      modifies this
      ensures n == serverSeq == old(serverSeq) + 1
    {
      serverSeq := serverSeq + 1;
      n := serverSeq;
    }
  }

  /** What a request has loaded of the client. */
  class ClientInfo {
    const id: ActorID
    var attached: bool
    var checkpoint: Checkpoint

    constructor (id: ActorID, attached: bool, checkpoint: Checkpoint)
      ensures this.id == id && this.attached == attached && this.checkpoint == checkpoint
    {
      this.id, this.attached, this.checkpoint := id, attached, checkpoint;
    }
  }

  method PushChanges(clientInfo: ClientInfo, docInfo: DocInfo, pack: Pack)
      returns (cp: Checkpoint, pushed: seq<Entry>)
    modifies docInfo
    ensures Pushed(cp, docInfo.serverSeq, pushed) == Push(clientInfo.checkpoint, old(docInfo.serverSeq), pack.changes)
  {
    cp, pushed := clientInfo.checkpoint, [];
    var i := 0;
    while i < |pack.changes|
      invariant i <= |pack.changes|
      invariant Pushed(cp, docInfo.serverSeq, pushed)
                == Push(clientInfo.checkpoint, old(docInfo.serverSeq), pack.changes[..i])
    {
      var c := pack.changes[i];
      if c.id.clientSeq > cp.clientSeq {
        var serverSeq := docInfo.IncreaseServerSeq();
        cp := cp.NextServerSeq(serverSeq);
        pushed := pushed + [Entry(serverSeq, c)];
      }
      cp := cp.SyncClientSeq(c.id.clientSeq);
      assert pack.changes[..i + 1][..i] == pack.changes[..i];
      i := i + 1;
    }
    assert pack.changes[..i] == pack.changes;
  }

  /** The document rebuilt from the last snapshot, up to a number of the log. */
  method Rebuild(db: DB, info: Snapshot, upTo: nat, serverSeq: nat) returns (doc: InternalDocument)
    requires info == LastSnapshot(db.snapshots) && info.serverSeq <= serverSeq
    ensures fresh(doc) && doc.root == Rebuilt(db.State(), upTo) && doc.checkpoint.serverSeq == serverSeq
  {
    doc := new InternalDocument.FromSnapshot(info.serverSeq, info.root);
    var changes := db.FindChangeInfosBetweenServerSeqs(info.serverSeq + 1, upTo);
    doc.ApplyChangePack(Pack(InitialCheckpoint.NextServerSeq(serverSeq), changes, None));
  }

  method PullPack(config: Config, db: DB, docInfo: DocInfo, req: Pack, pushedCP: Checkpoint,
                  initialServerSeq: nat, ghost p: Pushed)
      returns (r: Option<Pack>)
    requires initialServerSeq == db.serverSeq <= docInfo.serverSeq
    requires p.cp == pushedCP && p.serverSeq == docInfo.serverSeq
    ensures r == Pull(config, db.State(), req, p) && (r.None? <==> db.serverSeq < req.checkpoint.serverSeq)
    ensures r.Some? ==> r.value.changes == [] || |r.value.changes| < config.snapshotThreshold
    ensures r.Some? && r.value.snapshot.Some? ==>
              db.serverSeq - req.checkpoint.serverSeq >= config.snapshotThreshold && r.value.changes == []
    ensures Faithful(db.State()) && r.Some? ==>
              if db.serverSeq - req.checkpoint.serverSeq < config.snapshotThreshold
              then r.value.snapshot == None && req.checkpoint.serverSeq <= |Log(db.State())|
                   && r.value.changes == Log(db.State())[req.checkpoint.serverSeq..]
              else r.value.changes == []
                   && r.value.snapshot == if Log(db.State()) == [] then None else Some(Log(db.State()))
  {
    PullKind(config, db.State(), req, p);
    if Faithful(db.State()) && initialServerSeq >= req.checkpoint.serverSeq {
      PullExact(config, db.State(), req, p);
    }
    if initialServerSeq < req.checkpoint.serverSeq {
      return None;
    }
    var cp := pushedCP.NextServerSeq(docInfo.serverSeq);
    if initialServerSeq - req.checkpoint.serverSeq < config.snapshotThreshold {
      var changes := db.FindChangeInfosBetweenServerSeqs(req.checkpoint.serverSeq + 1, initialServerSeq);
      return Some(Pack(cp, changes, None));
    }
    var info := db.FindLastSnapshotInfo();
    if info.serverSeq >= initialServerSeq {
      return Some(Pack(cp, [], if info.serverSeq == 0 then None else Some(info.root)));
    }
    var doc := Rebuild(db, info, initialServerSeq, docInfo.serverSeq);
    r := Some(Pack(cp, [], Some(doc.root)));
  }

  /** What is pulled does not depend on the other clients. */
  lemma PullAlone(config: Config, st: Store, clients: map<ActorID, Checkpoint>, req: Pack, p: Pushed)
    ensures Pull(config, st.(clients := clients), req, p) == Pull(config, st, req, p)
  {
  }

  /** What the step of the protocol makes of a request, from what it pushes and pulls. */
  lemma StepIs(config: Config, was: Store, id: ActorID, cp: Checkpoint, req: Pack, p: Pushed, resp: Option<Pack>)
    requires p == Push(cp, was.serverSeq, req.changes) && resp == Pull(config, was, req, p)
    ensures var r := Protocol.PushPull(config, was.(clients := was.clients[id := cp]), id, req);
            if resp.None? then r.None?
            else
              var clients := was.clients[id := cp.Forward(resp.value.checkpoint)];
              r == Some(Answer(Store(Stored(was.changes, p.accepted), p.serverSeq, clients, was.snapshots), resp.value))
  {
    PullAlone(config, was, was.clients[id := cp], req, p);
    assert resp.Some? ==> var next := cp.Forward(resp.value.checkpoint);
                          was.clients[id := cp][id := next] == was.clients[id := next];
  }

  /** The checkpoints after the step, as far as the client still has the document. */
  lemma StepClients(clients: map<ActorID, Checkpoint>, id: ActorID, attached: bool, cp: Checkpoint, next: Checkpoint)
    requires attached ==> cp == if id in clients then clients[id] else InitialCheckpoint
    ensures if attached
            then clients[id := cp.Forward(next)]
                 == clients[id := if id in clients then clients[id].Forward(next) else next]
            else clients[id := cp.Forward(next)] - {id} == clients - {id}
  {
  }

  /** The last step of PushPull: the pushed changes and the checkpoint are stored. */
  method Commit(db: DB, clientInfo: ClientInfo, docInfo: DocInfo, pushed: seq<Entry>)
    requires pushed == [] ==> docInfo.serverSeq == db.serverSeq
    modifies db
    ensures db.changes == Stored(old(db.changes), pushed) && db.serverSeq == docInfo.serverSeq
    ensures db.snapshots == old(db.snapshots)
    ensures db.clients == if !clientInfo.attached then old(db.clients) - {clientInfo.id}
                          else old(db.clients)[clientInfo.id :=
                                 if clientInfo.id in old(db.clients)
                                 then old(db.clients)[clientInfo.id].Forward(clientInfo.checkpoint)
                                 else clientInfo.checkpoint]
  {
    if |pushed| > 0 {
      db.StoreChangeInfos(docInfo.serverSeq, pushed);
    }
    db.UpdateClientInfoAfterPushPull(clientInfo);
  }

  /** Stores the changes of a pack and answers with what the client misses. None where the
      client claims to be ahead of the server. */
  method PushPull(config: Config, db: DB, clientInfo: ClientInfo, docInfo: DocInfo, req: Pack)
      returns (resp: Option<Pack>)
    requires docInfo.serverSeq == db.serverSeq
    requires clientInfo.attached && clientInfo.id in db.clients ==> clientInfo.checkpoint == db.clients[clientInfo.id]
    requires clientInfo.attached && clientInfo.id !in db.clients ==> clientInfo.checkpoint == InitialCheckpoint
    modifies db, docInfo, clientInfo
    ensures var st := old(db.State()).(clients := old(db.clients)[clientInfo.id := old(clientInfo.checkpoint)]);
            var r := Protocol.PushPull(config, st, clientInfo.id, req);
            && (resp.None? <==> r.None?) && (resp.Some? ==> resp.value == r.value.pack)
            && (resp.None? ==> db.State() == old(db.State()))
            && (resp.Some? ==> db.State() == if clientInfo.attached then r.value.store
                                             else r.value.store.(clients := r.value.store.clients - {clientInfo.id}))
  {
    var initialServerSeq := docInfo.serverSeq;
    ghost var was, cp0, id := db.State(), clientInfo.checkpoint, clientInfo.id;
    var pushedCP, pushed := PushChanges(clientInfo, docInfo, req);
    ghost var p := Pushed(pushedCP, docInfo.serverSeq, pushed);
    PushCounts(cp0, initialServerSeq, req.changes);
    resp := PullPack(config, db, docInfo, req, pushedCP, initialServerSeq, p);
    StepIs(config, was, id, cp0, req, p, resp);
    if resp.Some? {
      clientInfo.checkpoint := resp.value.checkpoint;
      StepClients(was.clients, id, clientInfo.attached, cp0, resp.value.checkpoint);
      Commit(db, clientInfo, docInfo, pushed);
    }
  }

  lemma {:induction false} PushCounts(cp: Checkpoint, serverSeq: nat, changes: seq<Change>)
    ensures Push(cp, serverSeq, changes).serverSeq == serverSeq + |Push(cp, serverSeq, changes).accepted|
  {
    if changes != [] {
      PushCounts(cp, serverSeq, changes[..|changes| - 1]);
    }
  }

  /** Stores a snapshot of the document at the number it had when this was started, if the
      last one is old enough. */
  method StoreSnapshot(config: Config, db: DB, serverSeq: nat)
    modifies db
    ensures db.State() == Protocol.StoreSnapshot(config, old(db.State()), serverSeq)
    ensures serverSeq in db.snapshots
            <==> serverSeq in old(db.snapshots)
                 || forall s :: s == 0 || s in old(db.snapshots) ==>
                      s < serverSeq && s + config.snapshotInterval <= serverSeq
    ensures forall s :: s != serverSeq ==> (s in db.snapshots <==> s in old(db.snapshots))
  {
    SnapshotTaken(config, db.State(), serverSeq);
    LastIsLast(db.snapshots);
    var info := db.FindLastSnapshotInfo();
    if info.serverSeq >= serverSeq || serverSeq - info.serverSeq < config.snapshotInterval {
      return;
    }
    var doc := Rebuild(db, info, serverSeq, serverSeq);
    db.CreateSnapshotInfo(doc);
  }
}
