/** The push/pull protocol as steps on values: what the server does to its store on a request
    (yorkie/packs/packs.go), and what a client does to its document on a response
    (pkg/document/internal_document.go). A document is the sequence of changes it executed. */
module Protocol {
  import opened Time
  import opened Wrappers

  /** How far a client has come: in the numbers of the server and in its own
      (pkg/document/checkpoint/checkpoint.go). */
  datatype Checkpoint = Checkpoint(serverSeq: nat, clientSeq: nat) {
    function NextServerSeq(serverSeq: nat): Checkpoint {
      Checkpoint(serverSeq, clientSeq)
    }

    function IncreaseClientSeq(inc: nat): Checkpoint {
      Checkpoint(serverSeq, clientSeq + inc)
    }

    function SyncClientSeq(clientSeq: nat): Checkpoint {
      if this.clientSeq < clientSeq then Checkpoint(serverSeq, clientSeq) else this
    }

    function Forward(other: Checkpoint): Checkpoint {
      Checkpoint(if serverSeq < other.serverSeq then other.serverSeq else serverSeq,
                 if clientSeq < other.clientSeq then other.clientSeq else clientSeq)
    }
  }

  const InitialCheckpoint := Checkpoint(0, 0)

  /** The identity of a change (pkg/document/change/id.go). */
  datatype ChangeID = ChangeID(clientSeq: nat, lamport: nat, actor: ActorID) {
    function Next(): ChangeID {
      ChangeID(clientSeq + 1, lamport + 1, actor)
    }

    /** A ticket of this change; clocks past the greatest one are left aside. */
    function NewTimeTicket(delimiter: Delimiter): Ticket
      requires lamport <= MAX_LAMPORT
    {
      Ticket(lamport, delimiter, actor)
    }

    function SyncLamport(otherLamport: nat): ChangeID {
      ChangeID(clientSeq, if lamport < otherLamport then otherLamport else lamport + 1, actor)
    }
  }

  /** What the operations of a change do is left aside: `operations` only tells them apart. */
  datatype Change = Change(id: ChangeID, operations: nat)

  type Root = seq<Change>

  datatype Pack = Pack(checkpoint: Checkpoint, changes: seq<Change>, snapshot: Option<Root>)

  // ----- the server -----

  datatype Config = Config(snapshotThreshold: nat, snapshotInterval: nat)

  /** The store of one document: the changes by their server numbers, the last of these, the
      checkpoints of the clients that attached the document, and the snapshots. */
  datatype Store = Store(changes: map<nat, Change>, serverSeq: nat, clients: map<ActorID, Checkpoint>,
                         snapshots: map<nat, Root>)

  datatype Entry = Entry(serverSeq: nat, change: Change)

  datatype Pushed = Pushed(cp: Checkpoint, serverSeq: nat, accepted: seq<Entry>)

  /** pushChanges: the changes that are new to the server get its next numbers. */
  function Push(cp: Checkpoint, serverSeq: nat, changes: seq<Change>): Pushed {
    if changes == [] then Pushed(cp, serverSeq, [])
    else PushOne(Push(cp, serverSeq, changes[..|changes| - 1]), changes[|changes| - 1])
  }

  function PushOne(p: Pushed, c: Change): Pushed {
    var q :=
      if c.id.clientSeq > p.cp.clientSeq
      then Pushed(p.cp.NextServerSeq(p.serverSeq + 1), p.serverSeq + 1, p.accepted + [Entry(p.serverSeq + 1, c)])
      else p;
    q.(cp := q.cp.SyncClientSeq(c.id.clientSeq))
  }

  function Stored(changes: map<nat, Change>, accepted: seq<Entry>): map<nat, Change> {
    if accepted == [] then changes
    else
      var e := accepted[|accepted| - 1];
      Stored(changes, accepted[..|accepted| - 1])[e.serverSeq := e.change]
  }

  /** The changes stored with numbers from `from` to `to`, in their order. */
  function Between(changes: map<nat, Change>, from: nat, upTo: int): seq<Change>
    decreases upTo
  {
    if from > upTo then []
    else
      var n: nat := upTo;
      Between(changes, from, n - 1) + if n in changes then [changes[n]] else []
  }

  datatype Snapshot = Snapshot(serverSeq: nat, root: Root)

  ghost predicate IsLast(snapshots: map<nat, Root>, s: nat) {
    s in snapshots && forall r :: r in snapshots ==> r <= s
  }

  /** FindLastSnapshotInfo: the empty document when there is none. */
  ghost function LastSnapshot(snapshots: map<nat, Root>): Snapshot {
    if s: nat :| IsLast(snapshots, s) then Snapshot(s, snapshots[s]) else Snapshot(0, [])
  }

  /** What the document is built to from the last snapshot. */
  ghost function Rebuilt(st: Store, upTo: nat): Root {
    var s := LastSnapshot(st.snapshots);
    s.root + Between(st.changes, s.serverSeq + 1, upTo)
  }

  /** pullSnapshot: a snapshot without bytes counts as none. */
  ghost function PullSnapshot(st: Store): Option<Root> {
    var s := LastSnapshot(st.snapshots);
    if s.serverSeq >= st.serverSeq then if s.serverSeq == 0 then None else Some(s.root)
    else Some(Rebuilt(st, st.serverSeq))
  }

  /** pullPack: the changes the client misses or, when they are too many, a snapshot. None
      for a client that claims to be ahead of the server. */
  ghost function Pull(config: Config, st: Store, req: Pack, p: Pushed): Option<Pack> {
    var cp := p.cp.NextServerSeq(p.serverSeq);
    if st.serverSeq < req.checkpoint.serverSeq then None
    else if st.serverSeq - req.checkpoint.serverSeq < config.snapshotThreshold
    then Some(Pack(cp, Between(st.changes, req.checkpoint.serverSeq + 1, st.serverSeq), None))
    else Some(Pack(cp, [], PullSnapshot(st)))
  }

  datatype Answer = Answer(store: Store, pack: Pack)

  /** PushPull for a client that attached the document; None where it fails, and then
      nothing is stored. */
  ghost function PushPull(config: Config, st: Store, actor: ActorID, req: Pack): Option<Answer>
    requires actor in st.clients
  {
    var p := Push(st.clients[actor], st.serverSeq, req.changes);
    match Pull(config, st, req, p)
    case None => None
    case Some(pack) =>
      Some(Answer(Store(Stored(st.changes, p.accepted), p.serverSeq,
                        st.clients[actor := st.clients[actor].Forward(pack.checkpoint)], st.snapshots), pack))
  }

  /** storeSnapshot, for the number the document had when it was started. */
  ghost function StoreSnapshot(config: Config, st: Store, serverSeq: nat): Store {
    var s := LastSnapshot(st.snapshots);
    if s.serverSeq >= serverSeq || serverSeq - s.serverSeq < config.snapshotInterval then st
    else st.(snapshots := st.snapshots[serverSeq := Rebuilt(st, serverSeq)])
  }

  // ----- the client -----

  datatype Client = Client(root: Root, checkpoint: Checkpoint, changeID: ChangeID, localChanges: seq<Change>)

  function NewClient(actor: ActorID): Client {
    Client([], InitialCheckpoint, ChangeID(0, 0, actor), [])
  }

  /** Update: a local change is executed and kept until the server has it. */
  function Update(c: Client, operations: nat): Client {
    var change := Change(c.changeID.Next(), operations);
    c.(root := c.root + [change], changeID := c.changeID.Next(), localChanges := c.localChanges + [change])
  }

  function CreatePack(c: Client): Pack {
    Pack(c.checkpoint.IncreaseClientSeq(|c.localChanges|), c.localChanges, None)
  }

  function Synced(id: ChangeID, changes: seq<Change>): ChangeID {
    if changes == [] then id
    else Synced(id, changes[..|changes| - 1]).SyncLamport(changes[|changes| - 1].id.lamport)
  }

  /** The local changes the server does not have yet. */
  function Unpushed(changes: seq<Change>, clientSeq: nat): seq<Change> {
    if changes == [] || changes[0].id.clientSeq > clientSeq then changes else Unpushed(changes[1..], clientSeq)
  }

  /** ApplyChangePack: the local changes are executed on a snapshot as they are, those that
      were just pushed included. */
  function Apply(c: Client, pack: Pack): Client {
    Client(
      if pack.snapshot.Some? then pack.snapshot.value + c.localChanges else c.root + pack.changes,
      c.checkpoint.Forward(pack.checkpoint),
      if pack.snapshot.Some? then c.changeID.SyncLamport(pack.checkpoint.serverSeq)
      else Synced(c.changeID, pack.changes),
      Unpushed(c.localChanges, pack.checkpoint.clientSeq))
  }
}
