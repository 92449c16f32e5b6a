/** The document a client or the server works on (pkg/document/internal_document.go). */
module InternalDocuments {
  import opened Time
  import opened Wrappers
  import opened Protocol

  class InternalDocument {
    var root: Root
    var checkpoint: Checkpoint
    var changeID: ChangeID
    var localChanges: seq<Change>

    ghost function State(): Client
      reads this
    {
      Client(root, checkpoint, changeID, localChanges)
    }

    constructor (actor: ActorID)
      ensures State() == NewClient(actor)
    {
      root, checkpoint, changeID, localChanges := [], InitialCheckpoint, ChangeID(0, 0, actor), [];
    }

    constructor FromSnapshot(serverSeq: nat, snapshot: Root)
      ensures State() == Client(snapshot, Checkpoint(serverSeq, 0), ChangeID(0, 0, 0), [])
    {
      root, checkpoint, changeID, localChanges :=
        snapshot, InitialCheckpoint.NextServerSeq(serverSeq), ChangeID(0, 0, 0), [];
    }

    method Execute(c: Change)
      modifies this`root
      ensures root == old(root) + [c]
    {
      root := root + [c];
    }

    /** The effect of Document.Update when the updater has made operations. */
    method Update(operations: nat)
      modifies this
      ensures State() == Protocol.Update(old(State()), operations)
      ensures var c := Change(ChangeID(old(changeID).clientSeq + 1, old(changeID).lamport + 1, old(changeID).actor),
                              operations);
              root == old(root) + [c] && localChanges == old(localChanges) + [c] && changeID == c.id
    {
      var id := changeID.Next();
      var c := Change(id, operations);
      Execute(c);
      localChanges := localChanges + [c];
      changeID := id;
    }

    method CreateChangePack() returns (pack: Pack)
      ensures pack == CreatePack(State())
    {
      pack := Pack(checkpoint.IncreaseClientSeq(|localChanges|), localChanges, None);
    }

    method ApplySnapshot(snapshot: Root, serverSeq: nat)
      modifies this`root, this`changeID
      ensures root == snapshot + localChanges && changeID == old(changeID).SyncLamport(serverSeq)
    {
      root := snapshot;
      var i := 0;
      while i < |localChanges|
        invariant i <= |localChanges| && root == snapshot + localChanges[..i] && changeID == old(changeID)
      {
        Execute(localChanges[i]);
        i := i + 1;
      }
      changeID := changeID.SyncLamport(serverSeq);
    }

    method ApplyChanges(changes: seq<Change>)
      modifies this`root, this`changeID
      ensures root == old(root) + changes && changeID == Synced(old(changeID), changes)
    {
      var i := 0;
      while i < |changes|
        invariant i <= |changes| && root == old(root) + changes[..i] && changeID == Synced(old(changeID), changes[..i])
      {
        Execute(changes[i]);
        changeID := changeID.SyncLamport(changes[i].id.lamport);
        assert changes[..i + 1][..i] == changes[..i];
        i := i + 1;
      }
      assert changes[..i] == changes;
    }

    /** Drops the local changes the server has. */
    method DropPushed(clientSeq: nat)
      modifies this`localChanges
      ensures localChanges == Unpushed(old(localChanges), clientSeq)
    {
      while |localChanges| > 0
        invariant Unpushed(localChanges, clientSeq) == Unpushed(old(localChanges), clientSeq)
        decreases |localChanges|
      {
        var c := localChanges[0];
        if c.id.clientSeq > clientSeq {
          break;
        }
        localChanges := localChanges[1..];
      }
    }

    method ApplyChangePack(pack: Pack)
      modifies this
      ensures State() == Apply(old(State()), pack)
    {
      if pack.snapshot.Some? {
        ApplySnapshot(pack.snapshot.value, pack.checkpoint.serverSeq);
      } else {
        ApplyChanges(pack.changes);
      }
      DropPushed(pack.checkpoint.clientSeq);
      checkpoint := checkpoint.Forward(pack.checkpoint);
    }
  }
}
