# Playlist linked lists in Dafny

This project models the linked-list engine of a small playlist manager and
proves properties of the model. The engine has three list classes over one
shared song node:

- a forward-only list, `SinglyLinkedList`;
- a bidirectional list, `DoublyLinkedList`;
- a ring, `CircularLinkedList`.

Each list keeps `head`, `tail`, a cursor `current` and a `size`. It appends
songs at the tail, removes the song under the cursor, moves the cursor,
lists its songs (tagging the current one), clears itself and reports
statistics. Next to the lists there are two helpers: one renders a number of
seconds as "minutes:seconds", the other builds a four-song sample playlist.

The files:

- `node.dfy` (module `Node`): the node class `SongNode`, plus three ghost
  helpers on node sequences. `Distinct` says no node repeats, `IndexOf`
  gives a node's position and `Without` drops one position.
- `singly_list.dfy`, `doubly_list.dfy`, `circular_list.dfy`: one class
  each. Each class has the source's fields and a ghost sequence `Nodes`
  that gives the abstract order of the nodes. A ghost predicate ties the
  `next`/`prev` links to that order. Every method is specified against it,
  with frames down to the field.
- `helpers.dfy` (module `Helpers`): `FormatTime` with a parser that inverts
  it, and the sample playlist.

The source has inheritance: the bidirectional list extends the forward
one, and the ring extends the bidirectional one. Dafny classes are modelled
here without inheritance, so each inherited method is written out again in
the class that inherits it, against that class's invariant. Its table row
cites the inherited source lines.

Three behaviours of the source are modelled as written rather than
corrected:

- The forward list's removal never reassigns `tail`. Removing the last
  node leaves `tail` on a node that is no longer reachable from `head`.
  The next append then hangs the new node off that detached node.
  `SinglyLinkedList.Valid()` admits this state, and `Consistent()` is the
  stronger invariant the structure is meant to have.
  `RemoveTailThenAdd` proves the whole sequence of events.
- The ring inherits the bidirectional removal. In a ring every node has
  both links, so that removal never moves `head` or `tail`. Removing the
  head or the tail leaves that field on the removed node. Removing the only
  node leaves it as head, tail and current with `size` 0.
  `CircularLinkedList.Closed()` holds in every reachable state, and
  `Valid()` (the ring shape) is what such a removal breaks.
  `RemoveHeadThenList` proves a consequence: after the head is removed,
  the listing starts at the removed node and runs to the cap with no
  marker.
- The ring listing stops after 20 nodes. It appends the wraparound marker
  only when fewer than 20 nodes were listed, so a ring of exactly 20 nodes
  is listed without a marker.

## Model

| member | source | states |
|---|---|---|
| Node.SongNode.constructor | node.py:7-18 | title, artist and duration are stored exactly; both links are null and the node is not current |
| SinglyList.SinglyLinkedList.constructor | singly_list.py:9-17 | a new list is empty: no head, tail or current, size 0, empty chain, consistent |
| SinglyList.SinglyLinkedList.AddSong | singly_list.py:21-40 | on an empty list the new node is head, current and tail and the chain is just it; otherwise the old tail links to it, head and current are unchanged, size grows by 1. The chain grows by the node unless the tail was stale, in which case the chain is unchanged. Consistency is preserved. Adding to an emptied list leaves a stale tail's own link as it was |
| SinglyList.SinglyLinkedList.RemoveCurrent | singly_list.py:42-67 | with no current node nothing changes and null is returned. Otherwise the chain loses exactly the current node: head advances if it was the head, else its predecessor links past it, and every other link is unchanged. Current becomes the old successor or else the new head, `tail` is unchanged, size drops by 1, and the result is the new current |
| SinglyList.SinglyLinkedList.FindPredecessor | singly_list.py:52-55 | the scan from `head` stops at the node just before the current node in the chain |
| SinglyList.ChainAfterUnlink | singly_list.py:57-59 | once the predecessor links past the `k`-th node, the remaining nodes are still a chain in the same order |
| SinglyList.ConsistencyAfterRemoval | singly_list.py:42-67 | after a removal the list is consistent exactly when the removed node was not the last one, and its tail is stale exactly when it was |
| SinglyList.RemoveTailThenAdd | singly_list.py:32 | on a consistent list of two or more nodes, removing the last node and then appending leaves the new node as tail but unreachable from head, and size one more than the chain's length |
| SinglyList.SinglyLinkedList.NextSong | singly_list.py:69-73 | current moves to its successor when there is one and stays on the last node; in terms of the order, from position k to k + 1 or stays at the end |
| SinglyList.SinglyLinkedList.PrevSong | singly_list.py:75-77 | the cursor is returned and nothing changes |
| SinglyList.SinglyLinkedList.GetAllSongs | singly_list.py:81-91 | returns exactly the chain from head in `next` order; every listed node is tagged current exactly when it is the current node; only the tags change |
| SinglyList.SinglyLinkedList.Clear | singly_list.py:93-98 | head, tail and current become null and size 0; the list is consistent and empty |
| SinglyList.StatsOfConsistent | singly_list.py:100-108 | on a consistent list the reported size is the chain's length; head and tail give the first and last titles, and current's title is one in the chain. An empty list reports size 0 and "None" three times |
| DoublyList.StatsOfValid | singly_list.py:100-108 | inherited statistics of a valid bidirectional list: the reported size is the order's length, head and tail give the first and last titles, and current's title is one in the order. An empty list reports size 0 and "None" three times |
| DoublyList.DoublyLinkedList.constructor | doubly_list.py:9-12 | a new list is empty and valid |
| DoublyList.DoublyLinkedList.AddSong | doubly_list.py:16-41 | appends a fresh node: its `prev` is the old tail and the old tail's `next` is it. It becomes the tail and size grows by 1. Head and current are unchanged, except that on an empty list the node is also head and current. The two-way chain invariant is preserved |
| DoublyList.DoublyLinkedList.RemoveCurrent | doubly_list.py:43-74 | with no current node nothing changes. Otherwise the order loses exactly the current node. The predecessor's `next` (or `head`) skips it, and the successor's `prev` (or `tail`) skips it. The removed node keeps its own links. Current becomes the successor, else the predecessor, else null. Size drops by 1 and the invariant is kept |
| DoublyList.DoublyLinkedList.NextSong | singly_list.py:69-73 | inherited forward step: to the successor when there is one, else stays |
| DoublyList.DoublyLinkedList.PrevSong | doubly_list.py:78-82 | to the predecessor when there is one, else stays; in terms of the order, from position k to k - 1 or stays at the front |
| DoublyList.DoublyLinkedList.GetAllSongs | singly_list.py:81-91 | inherited listing: exactly the order, each node tagged current exactly when it is the current node |
| DoublyList.DoublyLinkedList.Clear | singly_list.py:93-98 | empties the list |
| DoublyList.NextThenPrev | doubly_list.py:78-82 | when current has a successor, stepping forward and then back returns to the same node and leaves the order unchanged |
| DoublyList.PrevThenNext | doubly_list.py:78-82 | when current has a predecessor, stepping back and then forward returns to the same node |
| CircularList.CircularLinkedList.constructor | circular_list.py:9-12 | a new ring is empty and valid |
| CircularList.CircularLinkedList.AddSong | circular_list.py:16-47 | on an empty list the node is a self-loop and is head, tail and current. Otherwise it is spliced between tail and head: its links go to the old tail and the old head, and theirs go to it. It becomes the tail, size grows by 1, and no other link changes. A valid ring stays valid with the node appended to the order |
| CircularList.CircularLinkedList.RemoveCurrent | doubly_list.py:43-74 | the neighbours of current link to each other, and no other link changes. `head` and `tail` never move, current becomes the old successor and size drops by 1. On a valid ring the order loses exactly the current node. The result is a valid ring exactly when the removed node was neither first nor last. Removing the head or the tail leaves that field on the removed node. Removing the only node leaves it as head, tail and current |
| CircularList.CircularLinkedList.Unlink | doubly_list.py:49-61 | both neighbours exist in a closed ring and are linked past the current node; no other link changes |
| CircularList.CircularLinkedList.RemovalEffect | doubly_list.py:43-74 | from the link changes alone: the remaining order is a ring, current is the ring successor, and validity holds exactly for interior removals |
| CircularList.CircularLinkedList.RingLinksAfterUnlink | doubly_list.py:49-61 | the unlinked node's neighbours are its ring predecessor and successor; every other position keeps its ring links |
| CircularList.RingAfterUnlink | doubly_list.py:49-61 | a ring with one node unlinked is a ring of the remaining nodes in the same order |
| CircularList.CircularLinkedList.ValidAfterRemoval | doubly_list.py:43-74 | with head and tail left in place, the list is a valid ring exactly when the removed position was interior; head (tail) is out of the order when the first (last) node was removed |
| CircularList.CircularLinkedList.NextSong | circular_list.py:49-53 | whenever there is a current node it moves along `next`; on a valid ring, to the ring successor position, wrapping to the head |
| CircularList.CircularLinkedList.PrevSong | circular_list.py:55-59 | whenever there is a current node it moves along `prev`; on a valid ring, to the ring predecessor position, wrapping to the tail |
| CircularList.CircularLinkedList.FullTurn | circular_list.py:49-59 | on a valid ring, following `next` (or `prev`) as many times as there are nodes returns to the starting node |
| CircularList.NextFullTurn | circular_list.py:49-53 | on a valid ring, calling `NextSong` as many times as there are songs brings the cursor back to its starting song and leaves the ring unchanged |
| CircularList.PrevFullTurn | circular_list.py:55-59 | on a valid ring, calling `PrevSong` as many times as there are songs brings the cursor back to its starting song and leaves the ring unchanged |
| CircularList.CircularLinkedList.AdvanceOnRing | circular_list.py:49-53 | following `next` from position i for s steps reaches position i + s, or the head after the last |
| CircularList.CircularLinkedList.RetreatOnRing | circular_list.py:55-59 | following `prev` from position i for s steps reaches position i - s, or the tail before the first |
| CircularList.CircularLinkedList.AdvanceSplit | circular_list.py:49-53 | a + b forward steps are a steps followed by b steps |
| CircularList.CircularLinkedList.RetreatSplit | circular_list.py:55-59 | a + b backward steps are a steps followed by b steps |
| CircularList.CircularLinkedList.GetAllSongs | circular_list.py:63-89 | an empty list gives an empty listing. Otherwise the result is the capped walk from head: nodes one by one until the walk returns to head (then the marker, unless 20 nodes were listed) or until 20 nodes are listed. Each listed node is tagged current exactly when it is the current node. Every node that is not listed keeps its tag |
| CircularList.CircularLinkedList.WalkStep | circular_list.py:74-87 | one iteration of the listing loop extends what has been listed by the current node and, at the head, by the marker if allowed |
| CircularList.CircularLinkedList.WalkBound | circular_list.py:72-74 | whatever the links, the listing is non-empty and holds at most 20 entries |
| CircularList.CircularLinkedList.WalkAlong | circular_list.py:74-89 | along nodes that lead from head back to head, the walk from position c lists those nodes up to the cap, then the marker when there are fewer than 20 |
| CircularList.CircularLinkedList.ListingOfValid | circular_list.py:63-89 | the listing of a valid non-empty ring is its first 20 nodes in order, then the marker naming the head unless the ring has 20 nodes or more |
| CircularList.RingListing | circular_list.py:72-85 | the listing of a ring has at most 20 entries and contains a marker exactly when the ring has fewer than 20 nodes |
| CircularList.MarkerText | circular_list.py:84 | the marker text is the wraparound prefix, then exactly the head's title, then a closing parenthesis, so the title can be read back out of it |
| CircularList.MarkerTextInjective | circular_list.py:84 | markers for different head titles are different texts |
| CircularList.CircularLinkedList.WalkMissingHead | circular_list.py:81-85 | a walk inside a set of nodes that `next` never leaves and that excludes head runs to the cap: 20 entries minus those already listed, all nodes, no marker |
| CircularList.RingClosed | circular_list.py:49-53 | following `next` from a node of a ring stays in the ring |
| CircularList.RemoveHeadThenList | doubly_list.py:49-54 | after removing the head of a valid ring of two or more nodes, the listing starts with the removed node and has exactly 20 entries, all nodes and no marker |
| CircularList.CircularLinkedList.Clear | singly_list.py:93-98 | inherited: empties the list, which is then a valid empty ring |
| CircularList.StatsOfValid | singly_list.py:100-108 | inherited statistics of a valid ring: the reported size is the order's length, head and tail give the first and last titles, and current's title is one in the order. An empty ring reports size 0 and "None" three times |
| CircularList.RemoveSoleThenStats | doubly_list.py:43-74 | removing the only song of a ring leaves it as head, tail and current, so the statistics report size 0 and that song's title three times |
| Helpers.FormatTime | helpers.py:24-28 | produces a minutes numeral, a colon and two digits of seconds. The seconds lie in 0..59, and minutes times 60 plus seconds equals the input, so the minutes are the floor of the input divided by 60. The minutes numeral has no leading zero and starts with a minus sign exactly when the input is negative |
| Helpers.FormatTimeInjective | helpers.py:24-28 | different inputs render to different texts |
| Helpers.NatToString | helpers.py:28 | a decimal numeral that parses back to the number and has no leading zero; it is "0" exactly for zero |
| Helpers.IntToString | helpers.py:28 | a decimal numeral that parses back to the number, starts with a minus sign exactly for negatives, and has no leading zero and no "-0" |
| Helpers.CanonicalNumeral | helpers.py:28 | a numeral without leading zeros is determined by its value: it is the one `NatToString` gives, so the rendering is the numeral Python prints |
| Helpers.Pad2 | helpers.py:28 | the two-digit zero-padded numeral of a number below 100, which parses back to it |
| Helpers.SampleSingly | helpers.py:42-45 | four appends give a fresh consistent forward list holding the sample songs in order, cursor on the head. The list and all its nodes are newly allocated, so the caller may go on changing it |
| Helpers.SampleDoubly | helpers.py:42-45 | the same for a fresh bidirectional list. The list and all its nodes are newly allocated, so the caller may go on changing it |
| Helpers.SampleCircular | helpers.py:42-45 | the same for a fresh valid ring. The list and all its nodes are newly allocated, so the caller may go on changing it |
| Helpers.CreateSamplePlaylist | helpers.py:30-47 | the list kind follows the name: a forward list exactly for "Singly Linked List", a bidirectional one exactly for "Doubly Linked List", a ring for any other name. In each case it is fresh and well-formed, holds the four sample songs in order with size 4, the cursor is on the head, the head is "Blinding Lights" and the tail is "Bad Guy". The list and all its nodes are newly allocated, so the caller may go on changing it |
| Helpers.SampleRemoveFirst | helpers.py:30-47 | removing the current song of the sample forward list makes "Shape of You" the head and current song of a consistent three-song list |

## Left out

- The user interface (window, canvas drawing, controls, message boxes, the event loop and the application class that switches list kinds) is not part of this model. Nor are the package file that only re-exports names and the start-up script.
- `get_random_song` is left out because it depends on randomness; the sample data beyond the first four songs is left out because nothing in the modelled core uses it.
- The song data fields are `const` in the model, because no modelled code reassigns them.
- Python's single class hierarchy becomes three separate classes, because the model does not use inheritance. `create_sample_playlist`'s one loop over a list of any kind therefore becomes three loops, one per class, behind a dispatch on the name.
- CircularList.CircularLinkedList.RemoveCurrent: the inherited code reads the neighbours through `current` again after the first link is written, but the model reads them once, beforehand. The readings always agree. Before the re-reads, only the predecessor's `next` and the successor's `prev` are written. The first of these changes a field of the current node only when the predecessor is the current node itself, and then it writes the value that field already had. The second writes a `prev` field, and on a ring of one node it writes the value that field already had. After it only `next` is re-read: the fallback that would read `prev` needs a missing successor, and a closed ring always has one.
- Helpers.FormatTime: only whole numbers are modelled. With a float argument the `02d` format raises an error in Python; that error path is not modelled.
