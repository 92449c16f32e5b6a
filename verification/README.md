# Yorkie's replicated data structures and its push/pull protocol, verified

Yorkie keeps documents that many clients edit at the same time. This project models the parts of
it that carry the correctness of those edits, and proves what they promise.

* **The index trees.** `splay*.dfy` is the splay tree of `pkg/splay/splay.go`, whose node weights
  turn positions into nodes and back. The weight of its root may be stale, as splaying the root
  does nothing, so the invariant speaks of every other node. `llrb*.dfy` is the left-leaning
  red-black tree of `pkg/llrb/llrb.go`; parent links are written by `Floor` alone and are stale
  otherwise, so the invariant relies on none of them.
* **The text** (`text_*.dfy`, `rga_tree_split.dfy`) is `RGATreeSplit`: a doubly linked list of
  blocks, with a second chain through the blocks that were cut from one insertion, a splay tree by
  position, a red-black tree by id and a map of the tombstones. `text_blocks.dfy` says what the
  operations do to the sequence of blocks, `text_theorems.dfy` what that means for the visible
  text and for other copies, `text_positions.dfy` which positions can be edited at and where the
  caret goes, `text_seen.dfy` what a deletion may have seen, `text_convergence.dfy` and
  `text_edits.dfy` when concurrent edits commute, `text_links.dfy` what the operations take of the
  links of the nodes, and `rga_tree_split.dfy` holds the objects themselves.
* **The array** (`array_*.dfy`, `list_links.dfy`, `rga_tree_list.dfy`) is `RGATreeList`, and **the
  object** (`object_entries.dfy`, `rht_pq_map.dfy`) is `RHTPriorityQueueMap`. Each is a class over
  mutable nodes, proved against a function on plain values about which convergence is proved:
  `array_convergence.dfy` without moves, `array_moves.dfy` with them; `array_times.dfy` says when
  elements were moved and removed, and where operations put them.
* **The protocol** (`protocol*.dfy`, `internal_document.dfy`, `packs.dfy`) is the server side of
  push and pull in `yorkie/packs/packs.go` with the client side in
  `pkg/document/internal_document.go`. `protocol.dfy` says what one step does, `packs.dfy` and
  `internal_document.dfy` do it in place, `protocol_runs.dfy` proves what every run of any
  number of clients keeps, `protocol_edits.dfy` what becomes of each of their edits,
  `protocol_answers.dfy` what they are answered and which snapshots are stored,
  `protocol_clocks.dfy` what becomes of their clocks, `protocol_tickets.dfy` whether the tickets
  they make are unique, and `protocol_requests.dfy` what the server makes of any requests, resent
  at will.

The main results:

* a local edit of a text is a splice of the string it shows, for every range, and a run of such
  edits is the run of the splices; replaying the operations they return on an equal text gives an
  equal text;
* after every operation the list, the chain, both trees and the tombstone map of a text agree, and
  so do the list, the index, the map and the last node of an array;
* a cleanup removes exactly the tombstones that are not later than its ticket, from everything, and
  changes nothing that is visible;
* removal from a red-black tree removes one binding and restores all three invariants of the tree;
  `Put` is a map update; `Floor` finds the greatest key not above its argument whatever the stale
  links are;
* splaying keeps the order of the nodes and makes every weight below the root right again; `Find`
  and `IndexOf` are inverse to each other;
* two concurrent edits of a text commute if and only if neither cuts a block whose right part the
  other removes (unless it removes that part itself, later); in particular any two insertions at
  visible places do, and two orders of the same insertions give the same text;
* a deletion removes nothing by an actor its map does not know, and nothing later than the map
  says; so the operations that local edits make commute just under that condition;
* two orders of the same insertions and removals of an array give the same array; a move commutes
  with every removal, and with an insertion or another move if and only if they leave each other's
  places where they were; after any run each element was moved and removed at the latest time of
  the operations that name it;
* what an object shows depends only on which operations it executed;
* in every run of the protocol the changes of a client, in the log and not yet pushed, are its
  edits, each once, in order, and with the operations it was made with; each attached client has
  applied every change of the log up to its checkpoint exactly once, whether it pulled changes or
  snapshots, and its clock is ahead of everything it applied if the snapshot threshold is positive;
  then the tickets of a client are unique as long as it syncs before it edits a document it edited
  in an earlier attachment, and no longer; whatever is sent to the server, and however often, each client number enters the log at most once
  within an attachment.

`dafny verify dfyconfig.toml` checks all of it.

## Where the code does not keep to what it seems to promise

Each of these is a fact about the code. The members named give an input, and say exactly when the
code does keep to it.

* Splitting a block drops the removal time of its right part, so that splitting a tombstone shows
  text again (`TextTheorems.SplitVisibleIff`: precisely then), and cutting a block and deleting it
  do not commute (`TextTheorems.DeleteThenSplit`). So two concurrent edits may leave copies that
  differ: an insertion inside a block that is removed always does (`TextEdits.InsideRemoved`).
  `TextEdits.EditsCommuteIff` says exactly when two edits commute, and `TextEdits.EditsShowIff` when
  they leave the same blocks shown.
* A position at the very start of a block goes behind the whole block, so that an insertion there
  and one inside the block do not commute (`TextConvergence.InsertionsCommuteIff`: precisely then).
  No position made of a visible index is of that kind (`TextConvergence.VisibleIsBehind`).
* The start of a block that outlived the block on its left is taken for a position in a block
  further left, past its end, and `splitNode` fails (`TextPositions.GapFails`). A position resolves if
  and only if it is inside or at the end of a block, or at the start of one with nothing of that
  insertion left of it (`TextPositions.ResolveIff`, `EditIff`).
* After a deletion at the end of a text the caret falls back to the start of the block that the
  range ended in; everywhere else it stays where the deletion was (`TextPositions.LocalCaret`).
* `Floor` with no key at or below its argument dereferences a null pointer or answers with a stale
  parent's binding (`Llrb.Tree.Answers`).
* `IndexOf` answers -1 for the only node of a tree, as such a node has no links.
* `RGATreeList.Len` is not the number of live elements: a tombstone removed again is counted out
  twice (`ArrayItems.RemovedTwice`), and one that is moved is counted in. After a run it is that
  number if and only if the miscounts of the run add up to zero (`RGATreeList.ExecuteAll`).
* Moving an element of an array and inserting may not commute: `ArrayMoves.MoveDiverges` inserts
  after the element moved, `ArrayMoves.MoveUncovers` names neither the element nor its goal.
  `ArrayMoves.MoveInsertIff` says exactly when they do.
* The order in which an object received its members shows once the latest of them is purged
  (`ObjectEntries.PurgeDiverges`). `ObjectEntries.PurgeShows` says exactly what is shown then, and
  `ObjectEntries.PurgeAgreesIff` when two copies agree.
* `Has` and `Delete` of an object fail on a key whose queue was purged empty.
* A client whose response was lost gets its own changes back and applies them twice
  (`ProtocolRuns.LostResponse`: unless its pack held none).
* Detaching sets the client number the server knows to zero before the pack that comes with it is
  pushed, so that changes already stored are accepted a second time
  (`ProtocolRequests.LostThenDetached`). `ProtocolRequests.DetachOnceIff` says exactly when a number
  enters the log twice, which for a pack as clients make it is whenever the server has recorded
  one of its numbers (`ProtocolRequests.DetachedPack`).
* With a snapshot threshold of zero a client may have applied a change that its clock is not ahead
  of (`ProtocolClocks.ZeroFails`); with any other, it never has (`ProtocolClocks.AheadIff`; the default
  is 500, `yorkie/config.go`).
* Tickets may repeat. A client that attaches a document again starts its clock at zero, and what it
  edits before the first response gets the tickets of its earlier changes
  (`ProtocolTickets.ReattachedRepeats`). With a positive threshold a client that was careful so far
  goes on to make unique tickets, however much it edits, if and only if it has synced since it
  attached the document or made no change before that (`ProtocolTickets.CareIsNeeded`); with a
  threshold of zero not even that suffices (`ProtocolTickets.CareSufficesIff`).

## Model

| member | source | states |
|---|---|---|
| Time.CompareIsTotalOrder | pkg/document/time/ticket.go:125-144 | tickets are totally ordered, and compare equal only if they are equal |
| Time.CompareDecides | pkg/document/time/ticket.go:125-144 | the lamport clock decides whatever the actors and delimiters are, then the actor whatever the delimiters are, then the delimiter |
| Time.TicketBounds | pkg/document/time/ticket.go:32-46 | no ticket is before the initial one or after the greatest |
| Time.LessIsTotalOrder | pkg/document/json/rga_tree_split.go:43-61 | ids are totally ordered, and comparing them is that order |
| Time.LessDecides | pkg/document/json/rga_tree_split.go:43-61 | the ticket decides whatever the offsets are, then the offset |
| Splay.Tree.UpdateSubtree | pkg/splay/splay.go:240-250 | the weight is the length of the node and the weights below it |
| Splay.Tree.RotateLeft | pkg/splay/splay.go:284-308 | exactly the links of one turned edge change, and the two weights on it become right, the root following |
| Splay.Tree.RotateRight | pkg/splay/splay.go:310-333 | the mirror image |
| Splay.Tree.Round | pkg/splay/splay.go:136-162 | a zig-zig, zig-zag or zig brings the node nearer to the root, keeps the order, and leaves the node the only one whose weight may be stale |
| Splay.Tree.Splay | pkg/splay/splay.go:131-163 | splaying ends, with the node at the root and the nodes in the order they were in; every weight below the root is right afterwards although the weights above the node were stale |
| Splay.Tree.InsertAfter | pkg/splay/splay.go:113-128 | the new node stands right after the given one and is the root; no other node moves |
| Splay.Tree.Maximum | pkg/splay/splay.go:335-341 | the last node in order |
| Splay.Tree.Delete | pkg/splay/splay.go:253-282 | that node leaves the order and has no links; all weights are right, the root's as well |
| Splay.Tree.Find | pkg/splay/splay.go:185-213 | fails exactly past the total length; otherwise finds the node whose stretch holds the position, with the offset in it, whatever the weight of the root |
| Splay.Tree.IndexOf | pkg/splay/splay.go:166-182 | the total length before the node; -1 exactly for a node without links |
| Splay.Tree.FindAndIndexOf | pkg/splay/splay.go:166-213 | for 0 < index <= total, Find finds the one node that holds the position, and IndexOf of it plus the offset is the index again, unless it is the only node |
| SplayShape.HolderUnique | pkg/splay/splay.go:185-213 | at most one node holds a position |
| SplayShape.EveryWeightIsTotal | pkg/splay/splay.go:240-250 | in a tree whose weights add up, each weight is the total length of the subtree |
| Splay.Tree.WeightIsSubtreeTotal | pkg/splay/splay.go:131-163 | in every valid tree the weight of each node but the root is the total length of its subtree |
| Llrb.RotateLeft | pkg/llrb/llrb.go:200-207 | the objects come to hold the rotated tree |
| Llrb.RotateRight | pkg/llrb/llrb.go:209-216 | the objects come to hold the rotated tree |
| Llrb.FlipColors | pkg/llrb/llrb.go:218-222 | the node and its children change color, nothing else does |
| Llrb.FixUp | pkg/llrb/llrb.go:265-279 | the objects come to hold the repaired tree, with the same nodes |
| Llrb.MoveRedLeft | pkg/llrb/llrb.go:224-232 | the same for borrowing to the left |
| Llrb.MoveRedRight | pkg/llrb/llrb.go:234-241 | the same for borrowing to the right |
| Llrb.RemoveMin | pkg/llrb/llrb.go:243-255 | the leftmost node leaves the objects |
| LlrbOrder.MinLeast | pkg/llrb/llrb.go:257-263 | the leftmost key is the least of the map |
| LlrbOrder.PutMap | pkg/llrb/llrb.go:136-164 | put keeps the keys in order and is a map update |
| LlrbInvariants.PutKeepsInvariants | pkg/llrb/llrb.go:136-164 | put keeps the black height, and leaves no red node on the right and no two reds in line, but for one pair at a red root |
| LlrbInvariants.RemoveMinKeeps | pkg/llrb/llrb.go:243-255 | removing the least binding removes it alone and keeps order, black height and leaning |
| LlrbInvariants.RemoveKeeps | pkg/llrb/llrb.go:166-198 | removing a key that is there, from any subtree a removal comes to, removes that binding alone and keeps order, black height and leaning |
| Llrb.Tree.Put | pkg/llrb/llrb.go:74-78 | the mutable tree becomes a map update of what it was, valid again: ordered, balanced, leaning, the root black, its size the number of keys |
| Llrb.Tree.Remove | pkg/llrb/llrb.go:89-98 | the mutable tree loses exactly that binding and is valid again |
| LlrbOrder.FloorUnique | pkg/llrb/llrb.go:101-134 | there is at most one greatest key not above another |
| LlrbOrder.FloorFound | pkg/llrb/llrb.go:106-132 | where the descent stops at or left of the argument, it has found that key |
| LlrbOrder.FloorLastRight | pkg/llrb/llrb.go:113-127 | where it stops right of it, the key is the one where the descent last went right, if it ever did |
| Llrb.Tree.Floor | pkg/llrb/llrb.go:101-134 | the greatest binding not above the key, whatever stale parent links the nodes carry; without such a binding the stale parent of the root |
| TextLinks.TextNode.Split | pkg/document/json/rga_tree_split.go:237-242 | the node keeps the left part, the new node has the right part and its id, and is live |
| TextLinks.TextNode.Remove | pkg/document/json/rga_tree_split.go:256-263 | a node is buried if the deletion may have seen it and is later than an earlier one |
| TextLinks.PrevNextInverse | pkg/document/json/rga_tree_split.go:226-230 | the predecessor and the successor of a block among the blocks of its insertion are inverse to each other |
| TextLinks.SplitLists | pkg/document/json/rga_tree_split.go:352-375 | the links that splitNode writes are those of the list and of the chain with the new block in both |
| TextLinks.UnlinkedLists | pkg/document/json/rga_tree_split.go:580-594 | the links that purge writes are those of the list and of the chain without that block |
| TextBlocks.PrevSameIsNearest | pkg/document/json/rga_tree_split.go:334-350 | the chain leads to the nearest block on the left of the same insertion |
| TextBlocks.StopIndexStops | pkg/document/json/rga_tree_split.go:458-466 | the candidates end right before the first block with the id of the end, or with the list |
| TextTheorems.SplitWellFormed | pkg/document/json/rga_tree_split.go:352-375 | splitting keeps the blocks of each insertion disjoint and in the order of their offsets |
| TextTheorems.FloorIndexIsFloor | pkg/document/json/rga_tree_split.go:405-419 | the block with the greatest id not above the given one |
| TextTheorems.HolderOffset | pkg/document/json/rga_tree_split.go:334-350 | the block an id is held by starts at or before it |
| TextTheorems.ResolveLocal | pkg/document/json/rga_tree_split.go:307-332 | a position made of a visible index leads back to its place |
| TextTheorems.ResolveInside | pkg/document/json/rga_tree_split.go:316-350 | so does a position in or at the end of any block, tombstone or not |
| TextTheorems.ResolveBoundary | pkg/document/json/rga_tree_split.go:334-350 | where two blocks of an insertion meet, the position belongs to the left one |
| TextPositions.HolderIff | pkg/document/json/rga_tree_split.go:334-350 | an id is held by some block if and only if a block of its insertion starts at or before it |
| TextPositions.ResolveIff | pkg/document/json/rga_tree_split.go:316-350 | a position resolves if and only if a block reaches it: it is inside the block, at its end, or at its start with nothing of that insertion before; and then to that block |
| TextPositions.EditIff | pkg/document/json/rga_tree_split.go:421-456 | an edit succeeds if and only if both its positions are in the text it meets |
| TextPositions.GapFails | pkg/document/json/rga_tree_split.go:334-375 | the start of a block whose left neighbour was purged does not resolve, though an earlier block of the insertion is found for it |
| TextPositions.LocalCaret | pkg/document/json/rga_tree_split.go:438-454 | after a local edit with content the caret is the place of the visible index behind the content; after one without, it is at the start of the block right of the range, and if there is none at the start of the block the range ended in |
| TextTheorems.SplitVisibleIff | pkg/document/json/rga_tree_split.go:237-242 | cutting a block inside leaves the visible text as it is if and only if the block is live; a tombstone shows its right part again |
| TextTheorems.DeleteThenSplit | pkg/document/json/rga_tree_split.go:237-242 | cut and delete a block, or delete and cut it: the visible texts differ by the right part |
| TextTheorems.SplitKeepsVisible | pkg/document/json/rga_tree_split.go:316-332 | the cut at a visible index changes nothing that is visible, and parts the text at that index |
| TextTheorems.LocalEditIsSplice | pkg/document/json/rga_tree_split.go:421-456 | an edit of a range of visible indexes with a ticket later than all present ones and no map succeeds, and what is visible is the old text with that range replaced by the content |
| TextTheorems.LocalEditNewest | pkg/document/json/rga_tree_split.go:421-456 | afterwards every later ticket is later than all present ones again |
| TextTheorems.EditKeepsNewest | pkg/document/json/rga_tree_split.go:421-456 | the same for the edit of another copy |
| TextTheorems.LatestRemovedCovers | pkg/document/json/rga_tree_split.go:468-504 | the reported map has for each actor an insertion no earlier than any that was removed |
| TextTheorems.ReportedSeesTheSame | pkg/document/json/rga_tree_split.go:468-504 | a deletion that sees only what was reported removes just what the local one removed |
| TextSeen.RemovedIff | pkg/document/json/rga_tree_split.go:256-263 | a block is removed if and only if the map has its actor, the block is not later than the map says (any block, for a local edit), and no later deletion removed it |
| TextSeen.EditOnlySeen | pkg/document/json/rga_tree_split.go:421-504 | whatever an edit removes was inserted by an actor its map has, no later than the map says |
| TextSeen.EditReports | pkg/document/json/rga_tree_split.go:468-504 | each ticket that an edit reports is that of a block by that actor which it removed |
| TextSeen.LocalUnseen | pkg/document/json/rga_tree_split.go:468-504 | the map of a local edit does not let through an insertion later than all the text had of that actor |
| TextTheorems.ReplayAgrees | pkg/document/json/rga_tree_split.go:421-504 | replaying a local edit with the map it reported gives the same blocks, caret, map and tombstones |
| TextTheorems.EditUnits | pkg/document/json/rga_tree_split.go:421-456 | conservation: an edit, local or not, adds its content and loses no code unit; each keeps its insertion and offset, as tombstones are kept |
| TextTheorems.CleanupExact | pkg/document/json/rga_tree_split.go:564-577 | a block is left by a cleanup if and only if it is not a registered tombstone removed at the ticket or before |
| TextTheorems.CleanupVisible | pkg/document/json/rga_tree_split.go:564-577 | a cleanup changes nothing that is visible |
| TextConvergence.InsertionsCommuteIff | pkg/document/json/rga_tree_split.go:316-332 | two insertions commute if and only if neither is at the very start of a block that the other cuts |
| TextConvergence.VisibleIsBehind | pkg/document/json/rga_tree_split.go:307-314 | no position made of a visible index is at the start of a block |
| TextConvergence.Converge | pkg/document/json/rga_tree_split.go:421-456 | two orders of the same insertions, in each of which every position is there when it is needed, give the same blocks, whatever tombstones are cut |
| TextEdits.ReplaceIs | pkg/document/json/rga_tree_split.go:421-466 | an edit cuts the text at both ends of its range, buries what it may remove of the blocks between, and puts its content behind the first cut; the walks past later insertions change nothing of what is removed |
| TextEdits.LocalSpans | pkg/document/json/rga_tree_split.go:298-314 | an edit of a range of visible indexes is of a range of the text |
| TextEdits.EditsCommuteIff | pkg/document/json/rga_tree_split.go:421-504 | two concurrent edits give the same blocks in either order if and only if neither cuts a block whose right part the other removes, unless it removes that part itself at a later time |
| TextEdits.MadeIsCausal | pkg/document/proxy/text_proxy.go:41-72 | the operation a local edit makes has seen nothing that is later than it, on whatever text it is executed |
| TextEdits.MadeIsUnaware | pkg/document/proxy/text_proxy.go:41-72 | nor an edit that is later than all that its text had of the same actor |
| TextEdits.LocalEditsCommuteIff | pkg/document/proxy/text_proxy.go:41-72 | so the operations of two local edits made on equal texts commute under exactly that condition |
| TextEdits.EditsShowIff | pkg/document/json/rga_tree_split.go:421-504 | they leave the same blocks shown if and only if neither cuts a block whose right part the other removes and it does not |
| TextEdits.InsideRemoved | pkg/document/json/rga_tree_split.go:237-242 | an insertion inside a block that a deletion removes as a whole is such a cut |
| TextEdits.SwapsConverge | pkg/document/json/rga_tree_split.go:421-504 | runs of edits that come from each other by letting neighbours change places where they may give the same text |
| RGATreeSplits.TotalIsVisible | pkg/document/json/rga_tree_split.go:307-314 | the total of the index tree is the length of the visible text |
| RGATreeSplits.RGATreeSplit.constructor | pkg/document/json/rga_tree_split.go:285-296 | a new text has its head alone, and all indexes agree |
| RGATreeSplits.RGATreeSplit.InsertAfter | pkg/document/json/rga_tree_split.go:378-389 | the node comes right after the given one in the list and in the index, and under its id in treeByID; all of them agree again |
| RGATreeSplits.RGATreeSplit.SplitNode | pkg/document/json/rga_tree_split.go:352-375 | fails exactly past the end of the node, otherwise splits the block inside and does nothing at its ends; returns the new node, the node itself at its start, and its right neighbour at its end; all indexes and the chain agree |
| RGATreeSplits.RGATreeSplit.FindFloorNode | pkg/document/json/rga_tree_split.go:405-419 | the node of the same insertion with the greatest id not above the given one, null exactly if no block of that insertion starts at or before it |
| RGATreeSplits.RGATreeSplit.FindFloorNodePreferToLeft | pkg/document/json/rga_tree_split.go:334-350 | the node that starts at or before the id, of two that meet there the left one; fails exactly if no block of that insertion starts at or before the id |
| RGATreeSplits.RGATreeSplit.FindNodeWithSplit | pkg/document/json/rga_tree_split.go:316-332 | succeeds exactly for a position in the text (inside or at the end of a block, or at the start of one with nothing of that insertion left of it); cuts there, and skips what was inserted later |
| RGATreeSplits.RGATreeSplit.FindBetween | pkg/document/json/rga_tree_split.go:458-466 | the nodes from one to the other, which is left out, or to the end |
| RGATreeSplits.RGATreeSplit.DeleteNodes | pkg/document/json/rga_tree_split.go:468-504 | buries exactly the candidates the deletion may remove, with the index told of it, and reports the map and the tombstones |
| RGATreeSplits.RGATreeSplit.Edit | pkg/document/json/rga_tree_split.go:421-456 | for any two positions and any map: succeeds exactly if both positions are in the text; then blocks, caret, reported map and registered tombstones are those computed on plain blocks, and the list, the chain, both trees and the tombstone map agree; only what the map has seen was removed, and each reported ticket is that of a removed block |
| RGATreeSplits.RGATreeSplit.FindNodePos | pkg/document/json/rga_tree_split.go:307-314 | fails exactly past the visible text, otherwise the place of that visible index |
| RGATreeSplits.RGATreeSplit.CreateRange | pkg/document/json/rga_tree_split.go:298-305 | the places of the two indexes |
| RGATreeSplits.RGATreeSplit.EditLocally | pkg/document/proxy/text_proxy.go:41-72 | succeeds exactly for a range of the visible text, which then is that text spliced; returns the operation for the other copies |
| RGATreeSplits.RGATreeSplit.EditRun | pkg/document/proxy/text_proxy.go:41-72 | a run of local edits with growing tickets shows the run of the string splices, and replaying what it returns on the first text gives the last |
| RGATreeSplits.PerformedIsExecuted | pkg/document/operation/edit.go:66-80 | executing a returned operation on an equal text gives what performing it gave |
| RGATreeSplits.RGATreeSplit.Execute | pkg/document/operation/edit.go:66-80 | the text comes to the blocks and tombstones that the operation of another copy leads to; only what the map of the operation has seen was removed |
| RGATreeSplits.RGATreeSplit.ReplayRun | pkg/document/operation/edit.go:66-80 | a text that replays a run from where it started comes to the same blocks and registered tombstones |
| RGATreeSplits.RGATreeSplit.CleanupRemovedNodes | pkg/document/json/rga_tree_split.go:564-594 | exactly the registered tombstones that are not later than the ticket leave the list, both trees and the map; the visible text stays, the count is how many left, and no tombstone that early is left |
| ArrayItems.ApplyWellFormed | pkg/document/json/rga_tree_list.go:212-360 | every operation keeps the head first and the elements distinct |
| ArrayItems.RemovedTwice | pkg/document/json/rga_tree_list.go:212-227 | removing a live element twice, the second time later, makes Len one less than the number of live elements |
| ArrayTimes.RunTimes | pkg/document/json/rga_tree_list.go:212-270 | after any run an element was moved at the latest time of all moves that name it, and removed at the latest time of all deletions that name it and are later than its creation; without any, as before |
| ArrayTimes.InsertGoes | pkg/document/json/rga_tree_list.go:306-360 | the new element stands behind the one named and the elements positioned later, with none but these between; nothing else changes |
| ArrayTimes.MoveGoes | pkg/document/json/rga_tree_list.go:248-270 | so does an element that is moved later than it was before |
| ArrayTimes.MoveWins | pkg/document/json/rga_tree_list.go:248-270 | after any run, a move later than all earlier ones of its element puts it there, and any other changes nothing |
| ArrayConvergence.InsertInsert | pkg/document/json/rga_tree_list.go:306-324 | two insertions give the same array in either order, wherever they go |
| ArrayConvergence.Commute | pkg/document/json/rga_tree_list.go:212-360 | so do any two insertions or removals that make sense to the same array |
| ArrayConvergence.Converge | pkg/document/json/rga_tree_list.go:306-360 | two orders of the same insertions and removals, in each of which every operation finds what it names, give the same array, tombstones included |
| ArrayMoves.MoveInsertIff | pkg/document/json/rga_tree_list.go:248-270 | for any array, a move and an insertion commute if and only if the move does nothing, or the insertion goes to the same gap of the array without the element moved, before the move and after it |
| ArrayMoves.AfterMovedIff | pkg/document/json/rga_tree_list.go:248-270 | for an insertion after the element moved: if and only if its walk from where the element goes ends in the gap it was in |
| ArrayMoves.MoveAside | pkg/document/json/rga_tree_list.go:248-270 | they commute if the insertion is not after the element, its walk does not come to it, and the element goes beside that walk or is moved later than the insertion was made |
| ArrayMoves.MoveDelete | pkg/document/json/rga_tree_list.go:212-270 | a move and a removal always commute |
| ArrayMoves.SameMoveIff | pkg/document/json/rga_tree_list.go:248-270 | two moves of one element commute if and only if they were made at different times or do the same |
| ArrayMoves.MoveMoveIff | pkg/document/json/rga_tree_list.go:248-270 | two moves of different elements commute if and only if one comes too late to move anything, or each goes to the same gap of the rest of the array whether the other came before or not |
| ArrayMoves.SwapsConverge | pkg/document/json/rga_tree_list.go:212-270 | runs with moves that come from each other by letting neighbours change places where they may give the same array |
| ArrayMoves.MoveDiverges | pkg/document/json/rga_tree_list.go:248-270 | of two live elements, the left one never moved before: moving it after the right one and inserting after it do not commute, what is shown differs |
| ArrayMoves.MoveUncovers | pkg/document/json/rga_tree_list.go:248-324 | nor does an insertion that names neither the element moved nor its goal, if the element kept it from walking past its goal |
| ListLinks.ListNode.Remove | pkg/document/json/primitive.go:241-248 | an element keeps the later of the removal times it is given that are later than its creation; the answer says whether that changed |
| RGATreeLists.TotalIsCount | pkg/document/json/rga_tree_list.go:81-87 | the total of the index tree is the number of live elements |
| RGATreeLists.RGATreeList.constructor | pkg/document/json/rga_tree_list.go:110-125 | a new array has its removed head alone |
| RGATreeLists.RGATreeList.FindNextBeforeExecutedAt | pkg/document/json/rga_tree_list.go:306-324 | the last of the nodes right of the given one that were positioned later, with no other between |
| RGATreeLists.RGATreeList.InsertNode | pkg/document/json/rga_tree_list.go:345-360 | the element goes right of that node; list, index, map and last node agree again |
| RGATreeLists.RGATreeList.Release | pkg/document/json/rga_tree_list.go:326-343 | the node leaves all of them, and the size goes down if it was live |
| RGATreeLists.RGATreeList.InsertAfter | pkg/document/json/rga_tree_list.go:183-185 | does what the insertion does to plain items, and does not move size and number of live elements apart |
| RGATreeLists.RGATreeList.Add | pkg/document/json/rga_tree_list.go:157-159 | the element comes last |
| RGATreeLists.RGATreeList.DeleteByCreatedAt | pkg/document/json/rga_tree_list.go:212-227 | buries that element if the time is later than an earlier removal; a second removal counts down the size again |
| RGATreeLists.RGATreeList.MoveAfter | pkg/document/json/rga_tree_list.go:248-270 | does what the move does to plain items, where it wins if it is later than all before (ArrayTimes.MoveWins); fails exactly if an element is missing, if it is the head, or if it would go after itself; in the last case the element is gone, in the others nothing has changed |
| RGATreeLists.RGATreeList.Purge | pkg/document/json/rga_tree_list.go:294-304 | exactly that element leaves the array |
| RGATreeLists.RGATreeList.FindPrevCreatedAt | pkg/document/json/rga_tree_list.go:274-291 | the nearest live element on the left, or the head |
| RGATreeLists.RGATreeList.Get | pkg/document/json/rga_tree_list.go:188-209 | the i-th live element for each i below their number, and failure at or above it |
| RGATreeLists.RGATreeList.Delete | pkg/document/json/rga_tree_list.go:241-244 | removes the i-th live element, and fails exactly if there are not that many |
| RGATreeLists.RGATreeList.ExecuteAll | pkg/document/json/rga_tree_list.go:183-270 | the mutable array comes to where the run of the operations on plain items comes, so that convergence is that of the objects; its Len is the number of live elements if and only if the miscounts of the run add up to zero |
| RHTPQMaps.RHTPQMapNode.Remove | pkg/document/json/rht_pq_map.go:43-45 | as for an element of an array |
| ObjectEntries.RunShows | pkg/document/json/rht_pq_map.go:111-164 | after any run an object shows under a key exactly the element set there last by creation time, unless it was deleted at a later time |
| ObjectEntries.Converge | pkg/document/json/rht_pq_map.go:111-164 | two runs of the same set of operations show the same, in whatever order and however often a deletion is repeated |
| ObjectEntries.DeletesCommute | pkg/document/json/rht_pq_map.go:152-164 | two deletions leave the same in either order, removal times included |
| ObjectEntries.RunTimes | pkg/document/json/rht_pq_map.go:111-164 | after any run the removal time of an element is not before that of any deletion of it that is later than its creation, and is the time of such a deletion or of a later set of its key |
| ObjectEntries.PurgeShows | pkg/document/json/rht_pq_map.go:111-209 | once the latest element of a key is purged, another one is shown if and only if it is the latest of the rest, was set after the purged one came, and was never deleted |
| ObjectEntries.PurgeAgreesIff | pkg/document/json/rht_pq_map.go:111-209 | two runs of the same operations agree on that if and only if it was deleted, or both received the two sets in the same order |
| ObjectEntries.PurgeDiverges | pkg/document/json/rht_pq_map.go:196-209 | two orders of the same operations, for any tickets, that show different elements once the same element was purged |
| RHTPQMaps.RHTPQMap.Get | pkg/document/json/rht_pq_map.go:86-97 | the element shown under the key, null exactly if there is none |
| RHTPQMaps.RHTPQMap.Has | pkg/document/json/rht_pq_map.go:100-108 | whether there is one; fails on a queue that was purged empty |
| RHTPQMaps.RHTPQMap.Set | pkg/document/json/rht_pq_map.go:111-123 | sets the member, and removes and returns the one shown exactly if the new one is later |
| RHTPQMaps.RHTPQMap.SetInternal | pkg/document/json/rht_pq_map.go:126-134 | adds the element as it is, and removes none |
| RHTPQMaps.RHTPQMap.Delete | pkg/document/json/rht_pq_map.go:137-149 | removes the latest element of the key if the time allows it |
| RHTPQMaps.RHTPQMap.DeleteByCreatedAt | pkg/document/json/rht_pq_map.go:152-164 | the element of that creation time, if the time is later than that, is removed at the later of this time and an earlier one; the node is returned exactly if something changed |
| RHTPQMaps.RHTPQMap.Elements | pkg/document/json/rht_pq_map.go:168-180 | exactly the members shown |
| RHTPQMaps.RHTPQMap.Purge | pkg/document/json/rht_pq_map.go:196-209 | exactly that element leaves the object |
| RHTPQMaps.RHTPQMap.ExecuteAll | pkg/document/json/rht_pq_map.go:111-164 | the mutable object comes to where the run of the operations comes |
| ProtocolTheorems.PushAccepts | yorkie/packs/packs.go:164-200 | whatever a pack holds, the accepted changes get the server numbers that follow, and their client numbers grow from above the checkpoint; the new checkpoint has the last server number given, or the old one if none was |
| ProtocolTheorems.PushAll | yorkie/packs/packs.go:164-200 | changes whose client numbers rise above the checkpoint are all accepted, in their order |
| ProtocolTheorems.Resend | yorkie/packs/packs.go:164-200 | a pack sent again after its checkpoint was recorded, to whatever the store has become, is not accepted again |
| ProtocolTheorems.StoredLog | yorkie/backend/db/mongo/client.go:299-358 | storing accepted changes appends them to the log, without a gap |
| ProtocolTheorems.RebuiltIsLog | yorkie/packs/packs.go:279-355 | the document built from the last snapshot up to a number is the log up to it, whichever snapshot that is |
| ProtocolTheorems.PullsLog | yorkie/packs/packs.go:279-355 | a snapshot that is pulled is the whole log, and none is answered only for an empty log |
| ProtocolTheorems.StoreSnapshotFaithful | yorkie/packs/packs.go:357-427 | a stored snapshot is the log up to its number |
| ProtocolRuns.RunGood | yorkie/packs/packs.go:56-161 | in every run the log has no gap, the snapshots are prefixes of it, and every attached client is up to date: what it applied, its checkpoint, and unpushed changes that carry the client numbers right above it |
| ProtocolRuns.ExactlyOnce | yorkie/packs/packs.go:56-161 | in every run of clients attaching, editing, syncing and detaching and of snapshots being taken, a client has applied each change of the log up to its checkpoint exactly once, and its own unpushed ones |
| ProtocolRuns.SameChanges | yorkie/packs/packs.go:56-161 | two clients that have pushed everything and pulled to the same number have applied the same changes |
| ProtocolRuns.SnapshotsAreLog | yorkie/packs/packs.go:279-427 | in every run, every stored snapshot is the log up to its number |
| ProtocolAnswers.PullKind | yorkie/packs/packs.go:202-241 | a request is refused exactly if it claims to know more than there is; an answer holds changes or a snapshot, never both, and never as many changes as the threshold |
| ProtocolAnswers.PullExact | yorkie/packs/packs.go:202-355 | a request behind by less than the threshold is answered with exactly the changes it misses, and no snapshot; one further behind with the whole log as a snapshot (or nothing, if it is empty), and no changes |
| ProtocolAnswers.AnswerKind | yorkie/packs/packs.go:56-161 | that is what every client is answered in every run |
| ProtocolAnswers.SnapshotTaken | yorkie/packs/packs.go:357-427 | a snapshot is added under the number of the document if and only if the last one is before it by at least the interval; the others stay |
| ProtocolAnswers.SnapshotsApart | yorkie/packs/packs.go:357-427 | in every run the stored snapshots are at least the interval apart |
| ProtocolEdits.EditsKept | pkg/document/document.go:55-85 | in every run, the changes of a client in the log and then those it has not pushed are its edits, each once and in order, with their operations, numbered from one on in each attachment |
| ProtocolEdits.ChangesAreEdits | pkg/document/document.go:55-85 | no change of the log comes from anything but an edit of its actor |
| ProtocolEdits.SyncOrder | pkg/document/internal_document.go:101-211 | for every threshold: what a client applies goes behind what it has if it is changes; a snapshot, with its local changes behind it, stands for the log in its order |
| ProtocolEdits.OthersInOrder | pkg/document/internal_document.go:101-211 | in every run a client has applied the changes of the others in the order of the log |
| ProtocolRuns.PackAcknowledged | pkg/document/internal_document.go:145-150 | the pack of a client that is up to date carries the numbers right above what the server has recorded, under its own name; its checkpoint acknowledges exactly the changes in it, and none made since |
| ProtocolRequests.EachNumberOnce | yorkie/packs/packs.go:164-200 | for any requests, with any packs, resent at will: within one attachment each client number enters the log at most once, in growing order, and none above the recorded checkpoint |
| ProtocolRequests.DetachOnceIff | yorkie/rpc/yorkie_server.go:165-230 | after a detach that is still so if and only if every number of its pack that was recorded before has a new one ahead of it |
| ProtocolRequests.DetachedPack | yorkie/backend/db/client_info.go:88-99 | for a pack as clients make it: if and only if none of its numbers was recorded before; and all of it is accepted either way |
| ProtocolRequests.LostThenDetached | yorkie/rpc/yorkie_server.go:165-230 | a pack that was stored while its response was lost, and comes again with the detach, is in the log twice |
| ProtocolRequests.ClientsAsk | yorkie/rpc/yorkie_server.go:165-303 | every run of clients is a sequence of such requests |
| ProtocolRuns.LostResponse | yorkie/packs/packs.go:243-277 | if a response is lost and the pack is sent again, the client has applied each change once if and only if the pack held none |
| ProtocolClocks.ClockAhead | pkg/document/internal_document.go:202-211 | pulling changes keeps the clock ahead of every change applied, and so does a change of the client's own |
| ProtocolClocks.AlwaysAhead | yorkie/packs/packs.go:202-241 | with a positive threshold, in every run, snapshots included, the next change of every client is later than all it has applied |
| ProtocolClocks.NextTicketsLater | pkg/document/change/id.go:64-70 | so any ticket of its next change is later than any ticket of a change it has applied |
| ProtocolTickets.TicketsDiffer | pkg/document/change/id.go:64-70 | two tickets of changes are equal only if clock, actor and delimiter are; of one change the one with the greater delimiter is later |
| ProtocolTickets.TicketsUnique | pkg/document/change/id.go:54-70 | in every run with a positive threshold in which its actor syncs before it edits a document it edited in an earlier attachment, no ticket of a change in the log is one of another change |
| ProtocolTickets.StaysUniqueIff | pkg/document/change/id.go:54-70 | from any state of any run in which they are unique so far, and for any threshold: however much a client edits, its tickets stay unique if and only if its clock is not behind any change it has made |
| ProtocolTickets.CareIsNeeded | client/client.go:253-291 | for a client that was careful so far that is if and only if it has synced since it attached the document, or made no change before that |
| ProtocolTickets.ReattachedRepeats | client/client.go:253-291 | a run after which a client that edits on makes a ticket again |
| ProtocolTickets.CareSufficesIff | yorkie/packs/packs.go:202-241 | such care suffices in every run if and only if the threshold is positive |
| ProtocolClocks.ZeroFails | yorkie/packs/packs.go:225-240 | with threshold zero, a run after which a client has applied a change its clock is not ahead of |
| ProtocolClocks.AheadIff | yorkie/packs/packs.go:202-241 | clocks are ahead in every run if and only if the threshold is positive |
| InternalDocuments.InternalDocument.constructor | pkg/document/internal_document.go:52-62 | a new document is empty, at the initial checkpoint |
| InternalDocuments.InternalDocument.FromSnapshot | pkg/document/internal_document.go:65-83 | the document of a snapshot, at its number |
| InternalDocuments.InternalDocument.Update | pkg/document/document.go:55-85 | the change made of the given operations gets the next number and clock, is executed once and is kept to be pushed |
| InternalDocuments.InternalDocument.ApplySnapshot | pkg/document/internal_document.go:181-199 | the local changes are executed on the snapshot, and the clock moves by the number of the server |
| InternalDocuments.InternalDocument.ApplyChanges | pkg/document/internal_document.go:202-211 | all changes are executed in their order, and the clock moves past each |
| InternalDocuments.InternalDocument.ApplyChangePack | pkg/document/internal_document.go:101-127 | the step of a client on a response that the runs are made of |
| Packs.DB.FindChangeInfosBetweenServerSeqs | yorkie/backend/db/mongo/client.go:389-437 | the stored changes with numbers in that range, in their order |
| Packs.DB.FindLastSnapshotInfo | yorkie/backend/db/mongo/client.go:517-547 | the snapshot with the greatest number, or the empty document |
| Packs.DB.StoreChangeInfos | yorkie/backend/db/mongo/client.go:299-358 | each change is stored under its number |
| Packs.DB.UpdateClientInfoAfterPushPull | yorkie/backend/db/mongo/client.go:189-237 | no checkpoint that stays stored goes back in either number, that of the client comes to the greater of what it was and what the request reached, in each number by itself, no other client's changes; detaching forgets the client's alone |
| Packs.DB.CreateSnapshotInfo | yorkie/backend/db/mongo/client.go:361-386 | the snapshots of other numbers stay; the document becomes the one that is found as the last if none of a later number is stored |
| Packs.PushChanges | yorkie/packs/packs.go:164-200 | the loop accepts what the step on values accepts |
| Packs.PullPack | yorkie/packs/packs.go:202-355 | failure exactly for a client ahead of the server; below the threshold exactly the changes the client misses, from it on the whole log as a snapshot and no changes; never as many changes as the threshold |
| Packs.PushPull | yorkie/packs/packs.go:56-161 | the step of the server that the runs are made of: a failed request stores nothing, and one that detaches forgets the checkpoint |
| Packs.StoreSnapshot | yorkie/packs/packs.go:357-427 | a snapshot is stored under the number of the document exactly if that is past every stored one, and past zero, by at least the interval; no other number changes |

## Left out

- Insertion at the root (`Insert` of `pkg/splay/splay.go`) is InsertAfter with the root, and only it is modelled.
- RGATreeSplits.RGATreeSplit.Edit: requires a ticket no block carries, as tickets are meant to be unique (ProtocolTickets says when they are); what an edit that reuses one does is not modelled.
- RGATreeSplits.RGATreeSplit.EditLocally: positions are natural numbers; a negative index of a range is not modelled.
- RGATreeSplits.RGATreeSplit.ReplayRun: two copies of a text live on different machines, so that the agreement of replay is stated for a text that starts from the blocks and tombstones of the other, not for two objects of one heap.
- RGATreeLists.RGATreeList.InsertAfter: requires a creation time no element carries, for the same reason; so do Add, and Set and SetInternal of an object.
- ArrayConvergence.Converge: speaks of runs without moves; with moves the two runs must come from each other by steps that are free (ArrayMoves.SwapsConverge), as a move need not commute with an insertion (ArrayMoves.MoveInsertIff) or with another move (ArrayMoves.MoveMoveIff).
- ObjectEntries.Converge: purges are excluded, as the order of the sets shows through them (PurgeShows says exactly how).
- ProtocolRuns.ExactlyOnce: a push, its pull and the client's use of the response are one step; LostResponse and ProtocolRequests say exactly what happens otherwise.
- ProtocolRequests.EachNumberOnce: a client sends changes of its own; a pack that holds those of another is not modelled.
- TextEdits.EditsCommuteIff: speaks of ranges whose ends are behind some unit of the text or at the head, as every range made of visible indexes is, and of edits that know no block that is later than they are; what an edit at the very start of a block does is in InsertionsCommuteIff alone.
- TextEdits.SwapsConverge: two runs are related by steps that are free, not by having the same edits alone, as edits need not commute (EditsCommuteIff); for insertions alone TextConvergence.Converge needs no such steps.
- An element of an array or object is its creation, move and removal time; the kinds of elements, their values and their deep copies are not modelled.
- The operations of a change are a number in the protocol; that a document executes them is what the text, array and object prove on their own.
- The heap inside a priority queue: a queue is the set of its nodes with the latest on top (`pkg/pq/priority_queue.go`).
- Encoding: snapshots and changes are stored as they are; a snapshot without bytes counts as none, as it does in the code.
- Numbers: clocks, sequence numbers and lengths are natural numbers without wrap-around, no change makes tickets once its clock is past the greatest lamport, and text is a sequence of UTF-16 code units none of whose surrogate pairs is cut.
- SetActor, the status of a document, the least synced ticket and the registration of garbage in the root of a document are not modelled; a cleanup takes its ticket as an argument.
- Locks, the network, MongoDB, events to other clients and authorization: a step is atomic, and the database is a store in memory of one document.
- JSON text, annotated strings, counters, rich text, styles and selections are not modelled.
