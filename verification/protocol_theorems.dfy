/** What holds in every run of the push/pull protocol, with each response applied before the
    next request of its client. */
module ProtocolTheorems {
  import opened Time
  import opened Wrappers
  import opened Protocol

  // ----- pushing -----

  /** The numbers given to accepted changes follow on the server's number, and the client
      numbers of these grow, from above the checkpoint on. The checkpoint has the last number
      given. Whatever the pack holds. */
  ghost predicate Accepts(cp: Checkpoint, serverSeq: nat, p: Pushed) {
    && p.serverSeq == serverSeq + |p.accepted| && cp.clientSeq <= p.cp.clientSeq
    && p.cp.serverSeq == (if p.accepted == [] then cp.serverSeq else p.serverSeq)
    && (forall i :: 0 <= i < |p.accepted| ==>
         && p.accepted[i].serverSeq == serverSeq + 1 + i
         && cp.clientSeq < p.accepted[i].change.id.clientSeq <= p.cp.clientSeq)
    && (forall i, j :: 0 <= i < j < |p.accepted| ==>
         p.accepted[i].change.id.clientSeq < p.accepted[j].change.id.clientSeq)
  }

  lemma {:induction false} PushAccepts(cp: Checkpoint, serverSeq: nat, changes: seq<Change>)
    ensures Accepts(cp, serverSeq, Push(cp, serverSeq, changes))
    ensures forall c :: c in changes ==> c.id.clientSeq <= Push(cp, serverSeq, changes).cp.clientSeq
  {
    if changes != [] {
      var front, last := changes[..|changes| - 1], changes[|changes| - 1];
      PushAccepts(cp, serverSeq, front);
      forall c | c in changes ensures c == last || c in front {
        var i :| 0 <= i < |changes| && changes[i] == c;
        assert i < |front| ==> front[i] == c;
      }
    }
  }

  /** A pack whose changes are all within the checkpoint brings nothing in. */
  lemma {:induction false} PushNothing(cp: Checkpoint, serverSeq: nat, changes: seq<Change>)
    requires forall c :: c in changes ==> c.id.clientSeq <= cp.clientSeq
    ensures Push(cp, serverSeq, changes) == Pushed(cp, serverSeq, [])
  {
    if changes != [] {
      PushNothing(cp, serverSeq, changes[..|changes| - 1]);
    }
  }

  /** Resending a pack after its checkpoint was recorded accepts nothing. */
  lemma Resend(config: Config, st: Store, actor: ActorID, req: Pack, now: Store)
    requires actor in st.clients && PushPull(config, st, actor, req).Some? && actor in now.clients
    requires now.clients[actor].clientSeq >= PushPull(config, st, actor, req).value.store.clients[actor].clientSeq
    ensures Push(now.clients[actor], now.serverSeq, req.changes).accepted == []
  {
    PushAccepts(st.clients[actor], st.serverSeq, req.changes);
    PushNothing(now.clients[actor], now.serverSeq, req.changes);
  }

  /** The client numbers follow on the given one. */
  ghost predicate Consecutive(changes: seq<Change>, clientSeq: nat) {
    forall i :: 0 <= i < |changes| ==> changes[i].id.clientSeq == clientSeq + 1 + i
  }

  ghost function Entries(serverSeq: nat, changes: seq<Change>): (es: seq<Entry>)
    ensures |es| == |changes|
  {
    if changes == [] then []
    else Entries(serverSeq, changes[..|changes| - 1]) + [Entry(serverSeq + |changes|, changes[|changes| - 1])]
  }

  /** The client numbers grow, from above the given one on. */
  ghost predicate Rising(changes: seq<Change>, clientSeq: nat) {
    && (forall i :: 0 <= i < |changes| ==> clientSeq < changes[i].id.clientSeq)
    && (forall i, j :: 0 <= i < j < |changes| ==> changes[i].id.clientSeq < changes[j].id.clientSeq)
  }

  /** The highest of the given number and those of the changes. */
  ghost function Reached(clientSeq: nat, changes: seq<Change>): (r: nat)
    ensures clientSeq <= r
  {
    if changes == [] then clientSeq
    else
      var r, n := Reached(clientSeq, changes[..|changes| - 1]), changes[|changes| - 1].id.clientSeq;
      if n > r then n else r
  }

  /** The changes with numbers above all before them. */
  ghost function Accepted(clientSeq: nat, changes: seq<Change>): seq<Change> {
    if changes == [] then []
    else
      var front, c := changes[..|changes| - 1], changes[|changes| - 1];
      Accepted(clientSeq, front) + if c.id.clientSeq > Reached(clientSeq, front) then [c] else []
  }

  lemma {:induction false} PushIs(cp: Checkpoint, serverSeq: nat, changes: seq<Change>)
    ensures var p, more := Push(cp, serverSeq, changes), Accepted(cp.clientSeq, changes);
            && p.accepted == Entries(serverSeq, more) && p.serverSeq == serverSeq + |more|
            && p.cp.clientSeq == Reached(cp.clientSeq, changes)
  {
    if changes != [] {
      var front, c := changes[..|changes| - 1], changes[|changes| - 1];
      PushIs(cp, serverSeq, front);
      var more := Accepted(cp.clientSeq, front);
      assert (more + [c])[..|more|] == more && more + [] == more;
    }
  }

  lemma RisesOneMore(more: seq<Change>, clientSeq: nat, r: nat, c: Change)
    requires Rising(more, clientSeq) && r == (if more == [] then clientSeq else more[|more| - 1].id.clientSeq)
    ensures c.id.clientSeq > r ==> Rising(more + [c], clientSeq)
  {
  }

  lemma {:induction false} AcceptedRises(clientSeq: nat, changes: seq<Change>)
    ensures var more, r := Accepted(clientSeq, changes), Reached(clientSeq, changes);
            && Rising(more, clientSeq) && (forall c :: c in more ==> c in changes)
            && r == if more == [] then clientSeq else more[|more| - 1].id.clientSeq
  {
    if changes != [] {
      var front, c := changes[..|changes| - 1], changes[|changes| - 1];
      AcceptedRises(clientSeq, front);
      var more := Accepted(clientSeq, front);
      RisesOneMore(more, clientSeq, Reached(clientSeq, front), c);
      assert more + [] == more;
    }
  }

  lemma RisingParts(front: seq<Change>, c: Change, clientSeq: nat)
    requires Rising(front + [c], clientSeq)
    ensures Rising(front, clientSeq)
    ensures c.id.clientSeq > if front == [] then clientSeq else front[|front| - 1].id.clientSeq
  {
    var all := front + [c];
    assert forall i :: 0 <= i < |front| ==> all[i] == front[i];
    assert all[|front|] == c;
  }

  lemma {:induction false} AcceptedAll(clientSeq: nat, changes: seq<Change>)
    requires Rising(changes, clientSeq)
    ensures Accepted(clientSeq, changes) == changes
    ensures Reached(clientSeq, changes) == if changes == [] then clientSeq else changes[|changes| - 1].id.clientSeq
  {
    if changes != [] {
      var front, c := changes[..|changes| - 1], changes[|changes| - 1];
      assert changes == front + [c];
      RisingParts(front, c, clientSeq);
      AcceptedAll(clientSeq, front);
    }
  }

  /** Changes whose client numbers grow from above the checkpoint on are all accepted. */
  lemma PushAll(cp: Checkpoint, serverSeq: nat, changes: seq<Change>)
    requires Rising(changes, cp.clientSeq)
    ensures Push(cp, serverSeq, changes).accepted == Entries(serverSeq, changes)
    ensures Push(cp, serverSeq, changes).serverSeq == serverSeq + |changes|
    ensures Push(cp, serverSeq, changes).cp.clientSeq
            == if changes == [] then cp.clientSeq else changes[|changes| - 1].id.clientSeq
  {
    PushIs(cp, serverSeq, changes);
    AcceptedAll(cp.clientSeq, changes);
  }

  // ----- the log -----

  /** The store has a change for each number up to the last. */
  ghost predicate Complete(changes: map<nat, Change>, n: nat) {
    forall i :: i in changes <==> 1 <= i <= n
  }

  ghost function Log(st: Store): seq<Change> {
    Between(st.changes, 1, st.serverSeq)
  }

  lemma {:induction false} BetweenAll(changes: map<nat, Change>, from: nat, upTo: int, n: nat)
    requires Complete(changes, n) && 1 <= from <= upTo + 1 && upTo <= n
    ensures |Between(changes, from, upTo)| == upTo + 1 - from
    ensures forall i :: 0 <= i < upTo + 1 - from ==> Between(changes, from, upTo)[i] == changes[from + i]
    decreases upTo
  {
    if from <= upTo {
      BetweenAll(changes, from, upTo - 1, n);
    }
  }

  /** What lies between two numbers is a stretch of the log. */
  lemma BetweenIsLog(st: Store, from: nat, upTo: nat)
    requires Complete(st.changes, st.serverSeq) && 1 <= from <= upTo + 1 && upTo <= st.serverSeq
    ensures |Log(st)| == st.serverSeq && Between(st.changes, from, upTo) == Log(st)[from - 1..upTo]
  {
    BetweenAll(st.changes, from, upTo, st.serverSeq);
    BetweenAll(st.changes, 1, st.serverSeq, st.serverSeq);
  }

  lemma {:induction false} BetweenWith(changes: map<nat, Change>, n: nat, c: Change, from: nat, upTo: int)
    requires upTo < n
    ensures Between(changes[n := c], from, upTo) == Between(changes, from, upTo)
    decreases upTo
  {
    if from <= upTo {
      BetweenWith(changes, n, c, from, upTo - 1);
    }
  }

  lemma StoredLast(changes: map<nat, Change>, n: nat, more: seq<Change>)
    requires more != []
    ensures var k := n + |more|;
            Stored(changes, Entries(n, more))
            == Stored(changes, Entries(n, more[..|more| - 1]))[k := more[|more| - 1]]
  {
    var es := Entries(n, more);
    assert es[..|es| - 1] == Entries(n, more[..|more| - 1]);
  }

  /** One more change at the end of what is stored. */
  lemma BetweenMore(changes: map<nat, Change>, k: nat, last: Change, log: seq<Change>, more: seq<Change>)
    requires k >= 1 && Complete(changes, k - 1) && Between(changes, 1, k - 1) == log + more
    ensures Complete(changes[k := last], k) && Between(changes[k := last], 1, k) == log + (more + [last])
  {
    BetweenWith(changes, k, last, 1, k - 1);
    assert log + more + [last] == log + (more + [last]);
  }

  lemma {:induction false} StoredLog(changes: map<nat, Change>, n: nat, more: seq<Change>, k: nat, log: seq<Change>)
    requires Complete(changes, n) && k == n + |more| && log == Between(changes, 1, n)
    ensures var r := Stored(changes, Entries(n, more)); Complete(r, k) && Between(r, 1, k) == log + more
    decreases |more|
  {
    if more == [] {
      assert log + more == log;
    } else {
      var front, last := more[..|more| - 1], more[|more| - 1];
      StoredLog(changes, n, front, k - 1, log);
      StoredLast(changes, n, more);
      BetweenMore(Stored(changes, Entries(n, front)), k, last, log, front);
      assert front + [last] == more;
    }
  }

  // ----- snapshots -----

  lemma {:induction false} LastThere(keys: set<nat>) returns (s: nat)
    requires keys != {}
    ensures s in keys && forall r :: r in keys ==> r <= s
    decreases keys
  {
    s :| s in keys;
    if keys != {s} {
      var t := LastThere(keys - {s});
      assert forall r :: r in keys ==> r == s || r in keys - {s};
      s := if s > t then s else t;
    }
  }

  lemma LastIsLast(snapshots: map<nat, Root>)
    ensures forall s :: s in snapshots ==> s <= LastSnapshot(snapshots).serverSeq
    ensures snapshots != map[] ==> LastSnapshot(snapshots).serverSeq in snapshots
    ensures snapshots == map[] ==> LastSnapshot(snapshots) == Snapshot(0, [])
  {
    if snapshots != map[] {
      var s := LastThere(snapshots.Keys);
      assert IsLast(snapshots, s);
    }
  }

  ghost predicate IsPrefix(log: seq<Change>, s: nat, root: Root) {
    1 <= s <= |log| && root == log[..s]
  }

  lemma PrefixStays(log: seq<Change>, more: seq<Change>, s: nat, root: Root)
    requires IsPrefix(log, s, root)
    ensures IsPrefix(log + more, s, root)
  {
    assert (log + more)[..s] == log[..s];
  }

  /** Every snapshot is the log up to its number. */
  ghost predicate Faithful(st: Store) {
    Complete(st.changes, st.serverSeq) && forall s :: s in st.snapshots ==> IsPrefix(Log(st), s, st.snapshots[s])
  }

  lemma LastIsPrefix(st: Store)
    requires Faithful(st)
    ensures var s := LastSnapshot(st.snapshots);
            s.serverSeq <= st.serverSeq == |Log(st)| && s.root == Log(st)[..s.serverSeq]
  {
    BetweenAll(st.changes, 1, st.serverSeq, st.serverSeq);
    if s: nat :| IsLast(st.snapshots, s) {
      assert IsPrefix(Log(st), s, st.snapshots[s]);
    }
  }

  /** Whatever snapshot it is built from, the document built up to a number is the log up to it. */
  lemma RebuiltIsLog(st: Store, upTo: nat)
    requires Faithful(st) && LastSnapshot(st.snapshots).serverSeq <= upTo <= st.serverSeq
    ensures |Log(st)| == st.serverSeq && Rebuilt(st, upTo) == Log(st)[..upTo]
  {
    LastIsPrefix(st);
    var s := LastSnapshot(st.snapshots).serverSeq;
    BetweenIsLog(st, s + 1, upTo);
    assert Log(st)[..s] + Log(st)[s..upTo] == Log(st)[..upTo];
  }

  /** A snapshot that is pulled is the whole log. */
  lemma PullsLog(st: Store)
    requires Faithful(st)
    ensures PullSnapshot(st).Some? ==> PullSnapshot(st).value == Log(st)
    ensures PullSnapshot(st).None? ==> Log(st) == []
  {
    LastIsPrefix(st);
    var s := LastSnapshot(st.snapshots).serverSeq;
    if s < st.serverSeq {
      RebuiltIsLog(st, st.serverSeq);
    }
    assert Log(st)[..st.serverSeq] == Log(st);
  }

  lemma StoreSnapshotFaithful(config: Config, st: Store, serverSeq: nat)
    requires Faithful(st) && serverSeq <= st.serverSeq
    ensures Faithful(StoreSnapshot(config, st, serverSeq))
  {
    var st', last := StoreSnapshot(config, st, serverSeq), LastSnapshot(st.snapshots).serverSeq;
    LastIsPrefix(st);
    if last < serverSeq {
      RebuiltIsLog(st, serverSeq);
    }
    forall s | s in st'.snapshots ensures IsPrefix(Log(st'), s, st'.snapshots[s]) {
      assert s in st.snapshots ==> IsPrefix(Log(st), s, st.snapshots[s]);
    }
  }

  /** The log has grown by the given changes. */
  ghost predicate Grown(st: Store, more: seq<Change>, st': Store) {
    && st'.serverSeq == st.serverSeq + |more| && Complete(st'.changes, st'.serverSeq)
    && Log(st') == Log(st) + more && st'.snapshots == st.snapshots
  }

  lemma GrownFaithful(st: Store, more: seq<Change>, st': Store)
    requires Faithful(st) && Grown(st, more, st')
    ensures Faithful(st')
  {
    forall s | s in st'.snapshots ensures IsPrefix(Log(st'), s, st'.snapshots[s]) {
      PrefixStays(Log(st), more, s, st.snapshots[s]);
    }
  }

  /** Storing the accepted changes appends them to the log. */
  lemma StoredGrows(st: Store, more: seq<Change>, accepted: seq<Entry>, st': Store)
    requires Faithful(st) && accepted == Entries(st.serverSeq, more)
    requires st'.changes == Stored(st.changes, accepted) && st'.serverSeq == st.serverSeq + |more|
    requires st'.snapshots == st.snapshots
    ensures Grown(st, more, st')
  {
    var r, k := StoredIs(st, more);
  }

  lemma StoredIs(st: Store, more: seq<Change>) returns (r: map<nat, Change>, k: nat)
    requires Complete(st.changes, st.serverSeq)
    ensures r == Stored(st.changes, Entries(st.serverSeq, more)) && k == st.serverSeq + |more|
    ensures Complete(r, k) && Between(r, 1, k) == Log(st) + more
  {
    r, k := Stored(st.changes, Entries(st.serverSeq, more)), st.serverSeq + |more|;
    StoredLog(st.changes, st.serverSeq, more, k, Log(st));
  }
}
