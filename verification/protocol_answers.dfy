/** Of what kind the answers of the server are, and which snapshots it stores, over all runs
    (yorkie/packs/packs.go). */
module ProtocolAnswers {
  import opened Time
  import opened Wrappers
  import opened Protocol
  import opened ProtocolTheorems
  import opened ProtocolRuns

  // ----- changes or a snapshot -----

  lemma {:induction false} BetweenFew(changes: map<nat, Change>, from: nat, upTo: int)
    ensures |Between(changes, from, upTo)| <= if from <= upTo then upTo + 1 - from else 0
    decreases upTo
  {
    if from <= upTo {
      BetweenFew(changes, from, upTo - 1);
    }
  }

  /** How many changes of the server a request does not know; for one that claims to know more
      than there are it has no meaning. */
  function Missing(st: Store, req: Pack): int {
    st.serverSeq - req.checkpoint.serverSeq
  }

  /** A request is refused exactly if it claims to know more than there is. Otherwise the answer
      holds changes or a snapshot and not both, and never as many changes as the threshold. */
  lemma PullKind(config: Config, st: Store, req: Pack, p: Pushed)
    ensures Pull(config, st, req, p).None? <==> Missing(st, req) < 0
    ensures var r := Pull(config, st, req, p);
            r.Some? ==>
              && (r.value.snapshot.Some? ==> Missing(st, req) >= config.snapshotThreshold && r.value.changes == [])
              && (r.value.changes == [] || |r.value.changes| < config.snapshotThreshold)
  {
    if Missing(st, req) >= 0 {
      BetweenFew(st.changes, req.checkpoint.serverSeq + 1, st.serverSeq);
    }
  }

  /** With snapshots that are the log up to their numbers: a request that misses fewer changes
      than the threshold is answered with exactly these; one that misses as many or more is
      answered with the whole log as a snapshot, or with nothing if the log is empty. */
  lemma PullExact(config: Config, st: Store, req: Pack, p: Pushed)
    requires Faithful(st) && Missing(st, req) >= 0
    ensures Pull(config, st, req, p).Some? && |Log(st)| == st.serverSeq
    ensures var pack := Pull(config, st, req, p).value;
            if Missing(st, req) < config.snapshotThreshold
            then pack.snapshot == None && pack.changes == Log(st)[req.checkpoint.serverSeq..]
            else pack.changes == [] && pack.snapshot == if Log(st) == [] then None else Some(Log(st))
  {
    BetweenIsLog(st, req.checkpoint.serverSeq + 1, st.serverSeq);
    assert Log(st)[req.checkpoint.serverSeq..st.serverSeq] == Log(st)[req.checkpoint.serverSeq..];
    PullsLog(st);
    LastIsPrefix(st);
  }

  /** In every run: what a client is answered, by how far it is behind. */
  lemma AnswerKind(config: Config, events: seq<Event>, a: ActorID) returns (r: Answer)
    requires a in Run(config, events).clients
    ensures var w := Run(config, events);
            var c, log := w.clients[a], Log(w.store);
            && a in w.store.clients && PushPull(config, w.store, a, CreatePack(c)) == Some(r)
            && c.checkpoint.serverSeq <= |log|
            && if |log| - c.checkpoint.serverSeq < config.snapshotThreshold
               then r.pack.snapshot == None && r.pack.changes == log[c.checkpoint.serverSeq..]
               else r.pack.changes == [] && r.pack.snapshot == if log == [] then None else Some(log)
    ensures r.pack.changes == [] || |r.pack.changes| < config.snapshotThreshold
  {
    RunGood(config, events);
    var w := Run(config, events);
    r := SyncAnswers(config, w, a);
    var p := Push(w.store.clients[a], w.store.serverSeq, w.clients[a].localChanges);
    assert Served(w, a);
    PullKind(config, w.store, CreatePack(w.clients[a]), p);
    PullExact(config, w.store, CreatePack(w.clients[a]), p);
  }

  // ----- which snapshots are stored -----

  /** A snapshot is stored exactly if the last one is behind by the interval, and behind at all;
      the others stay. */
  lemma SnapshotTaken(config: Config, st: Store, n: nat)
    ensures var st', last := StoreSnapshot(config, st, n), LastSnapshot(st.snapshots).serverSeq;
            && st' == st.(snapshots := st'.snapshots)
            && (n in st'.snapshots <==> n in st.snapshots || (last < n && last + config.snapshotInterval <= n))
            && (forall s :: s != n ==> (s in st'.snapshots <==> s in st.snapshots))
            && (forall s :: s in st.snapshots ==> s in st'.snapshots && st'.snapshots[s] == st.snapshots[s])
  {
    LastIsLast(st.snapshots);
  }

  ghost predicate Apart(config: Config, snapshots: map<nat, Root>) {
    && (forall s :: s in snapshots ==> s >= config.snapshotInterval)
    && (forall r, s :: r in snapshots && s in snapshots && r < s ==> r + config.snapshotInterval <= s)
  }

  lemma TakenApart(config: Config, st: Store, n: nat)
    requires Apart(config, st.snapshots)
    ensures Apart(config, StoreSnapshot(config, st, n).snapshots)
  {
    LastIsLast(st.snapshots);
    SnapshotTaken(config, st, n);
  }

  /** In every run the numbers of the stored snapshots are at least the interval apart, the first
      one from zero. */
  lemma {:induction false} SnapshotsApart(config: Config, events: seq<Event>)
    ensures Apart(config, Run(config, events).store.snapshots)
  {
    if events != [] {
      var front, e := events[..|events| - 1], events[|events| - 1];
      SnapshotsApart(config, front);
      if e.TakeSnapshot? {
        TakenApart(config, Run(config, front).store, e.serverSeq);
      }
    }
  }
}
