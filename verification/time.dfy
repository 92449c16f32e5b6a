/** Logical time: tickets (pkg/document/time/ticket.go) and the identifiers of text
    blocks built from them (pkg/document/json/rga_tree_split.go). */
module Time {
  import opened Wrappers

  const MAX_LAMPORT := 0xFFFF_FFFF_FFFF_FFFF
  const MAX_DELIMITER := 0xFFFF_FFFF
  const MAX_ACTOR_ID := 0xFFFF_FFFF_FFFF_FFFF_FFFF_FFFF

  type Lamport = x: nat | x <= MAX_LAMPORT
  type Delimiter = x: nat | x <= MAX_DELIMITER

  /** An actor id is twelve bytes, compared from the first byte on: the order of the
      number they spell with the first byte the most significant. */
  type ActorID = x: nat | x <= MAX_ACTOR_ID

  datatype Ticket = Ticket(lamport: Lamport, delimiter: Delimiter, actorID: ActorID)

  const InitialTicket := Ticket(0, 0, 0)
  const MaxTicket := Ticket(MAX_LAMPORT, MAX_DELIMITER, MAX_ACTOR_ID)

  function CompareInts(a: int, b: int): int {
    if a > b then 1 else if a < b then -1 else 0
  }

  /** The lamport clock decides, then the actor, then the delimiter. */
  function Compare(t: Ticket, other: Ticket): int {
    if t.lamport > other.lamport then 1
    else if t.lamport < other.lamport then -1
    else
      var compare := CompareInts(t.actorID, other.actorID);
      if compare != 0 then compare
      else if t.delimiter > other.delimiter then 1
      else if t.delimiter < other.delimiter then -1
      else 0
  }

  predicate After(t: Ticket, other: Ticket) {
    Compare(t, other) > 0
  }

  /** Compare is a total order whose only equal tickets are the same ticket. */
  lemma CompareIsTotalOrder(a: Ticket, b: Ticket, c: Ticket)
    ensures Compare(a, b) == -Compare(b, a)
    ensures Compare(a, b) == 0 <==> a == b
    ensures After(a, b) && After(b, c) ==> After(a, c)
    ensures After(a, b) || After(b, a) || a == b
  {
  }

  /** The lamport clock decides first, whatever the actors and delimiters are, then the actor,
      whatever the delimiters are, and then the delimiter. */
  lemma CompareDecides(a: Ticket, b: Ticket)
    ensures a.lamport > b.lamport ==> After(a, b)
    ensures a.lamport == b.lamport && a.actorID > b.actorID ==> After(a, b)
    ensures a.lamport == b.lamport && a.actorID == b.actorID && a.delimiter > b.delimiter ==> After(a, b)
  {
  }

  /** The later of a time that may be missing and another one. */
  ghost predicate IsLater(was: Option<Ticket>, t: Ticket, now: Option<Ticket>) {
    && now.Some? && !After(t, now.value) && (was.Some? ==> !After(was.value, now.value))
    && (now == was || now.value == t)
  }

  lemma TicketBounds(t: Ticket)
    ensures !After(t, MaxTicket) && !After(InitialTicket, t)
  {
  }

  /** The id of a text block: the ticket of the insertion it comes from and the offset of
      its first code unit in the inserted text. */
  datatype NodeID = NodeID(createdAt: Ticket, offset: nat) {
    function Split(delta: nat): NodeID {
      NodeID(createdAt, offset + delta)
    }
  }

  function CompareIDs(id: NodeID, other: NodeID): int {
    var compare := Compare(id.createdAt, other.createdAt);
    if compare != 0 then compare
    else if id.offset > other.offset then 1
    else if id.offset < other.offset then -1
    else 0
  }

  predicate Less(id: NodeID, other: NodeID) {
    CompareIDs(id, other) < 0
  }

  /** The ticket decides first, whatever the offsets are, and then the offset. */
  lemma LessDecides(a: NodeID, b: NodeID)
    ensures After(b.createdAt, a.createdAt) ==> Less(a, b)
    ensures a.createdAt == b.createdAt ==> (Less(a, b) <==> a.offset < b.offset)
  {
    CompareIsTotalOrder(a.createdAt, b.createdAt, a.createdAt);
  }

  lemma LessIsTotalOrder(a: NodeID, b: NodeID, c: NodeID)
    ensures Less(a, b) && Less(b, c) ==> Less(a, c)
    ensures !(Less(a, b) && Less(b, a)) && !Less(a, a)
    ensures Less(a, b) || Less(b, a) || a == b
    ensures CompareIDs(a, b) == 0 <==> a == b
    ensures CompareIDs(a, b) > 0 <==> Less(b, a)
  {
    CompareIsTotalOrder(a.createdAt, b.createdAt, c.createdAt);
  }
}
