/**
 * The ring playlist: the tail's successor is the head and the head's
 * predecessor is the tail, so the cursor never stops.
 *
 * Two invariants are kept apart. `Closed()` holds in every state the
 * operations can reach: every node this list has created has both links
 * set, to nodes it has created. `Valid()` is the ring shape over the ghost
 * order `Nodes`. Insertions and cursor moves keep `Valid()`, but the
 * removal inherited from the bidirectional list never moves `head` or
 * `tail` (every node has both links, so its "no predecessor" and "no
 * successor" branches are never taken): removing the head, the tail or
 * the only node leaves `Closed()` but not `Valid()`. Every operation is
 * therefore specified on `Closed()` states, with its effect on a valid
 * ring stated besides.
 *
 * `remove_current`, `clear` and `get_stats` are inherited; they are
 * written out again here against this class's invariants.
 */
module CircularList {
  import opened Node
  import opened SinglyList

  /** The enumeration stops after this many nodes, whatever the size. */
  const MaxSongs: nat := 20

  /** One entry of an enumeration: a node, or the wraparound marker. */
  datatype Entry = Song(node: SongNode) | Marker(text: string)

  /** What every marker's text starts with. */
  const MarkerPrefix: string := "\U{21BB} (Circular - back to: "

  /**
   * The marker's text names the head it wraps back to: the head's title
   * sits between the fixed prefix and the closing parenthesis, where a
   * reader of the listing can take it back out.
   */
  function MarkerText(headTitle: string): (t: string)
    ensures |t| == |MarkerPrefix| + |headTitle| + 1
    ensures t[..|MarkerPrefix|] == MarkerPrefix && t[|t| - 1] == ')'
    ensures t[|MarkerPrefix|..|t| - 1] == headTitle
  {
    MarkerPrefix + headTitle + ")"
  }

  /** Markers for different head titles differ. */
  lemma MarkerTextInjective(a: string, b: string)
    requires MarkerText(a) == MarkerText(b)
    ensures a == b
  {
    var t := MarkerText(a);
    assert a == t[|MarkerPrefix|..|t| - 1] == b;
  }

  /** The node entries for `s`, in order. */
  function AsEntries(s: seq<SongNode>): (r: seq<Entry>)
    ensures |r| == |s|
    ensures forall i :: 0 <= i < |s| ==> r[i] == Song(s[i])
  {
    if s == [] then [] else [Song(s[0])] + AsEntries(s[1..])
  }

  /** The links of the non-empty `s` form a ring in order, in both directions. */
  ghost predicate RingLinked(s: seq<SongNode>)
    reads s`next, s`prev
  {
    s != []
    && (forall i :: 0 <= i < |s| - 1 ==> s[i].next == s[i + 1] && s[i + 1].prev == s[i])
    && s[|s| - 1].next == s[0] && s[0].prev == s[|s| - 1]
  }

  /** The position after `k` on a ring of `n`. */
  function Succ(k: nat, n: nat): (r: nat)
    requires k < n
    ensures r < n
  {
    if k + 1 < n then k + 1 else 0
  }

  /** The position before `k` on a ring of `n`. */
  function Pred(k: nat, n: nat): (r: nat)
    requires k < n
    ensures r < n
  {
    if k > 0 then k - 1 else n - 1
  }

  function Min(a: int, b: int): (m: int)
    ensures m <= a && m <= b && (m == a || m == b)
  {
    if a <= b then a else b
  }

  /**
   * What the capped enumeration of a well-formed ring over the nodes `s`
   * lists: the first MaxSongs nodes in order, then the marker naming the
   * head, unless the ring has MaxSongs nodes or more.
   */
  function RingListing(s: seq<SongNode>): (r: seq<Entry>)
    requires s != []
    ensures |r| <= MaxSongs
    ensures (exists e :: e in r && e.Marker?) <==> |s| < MaxSongs
  {
    var songs := AsEntries(s[..Min(|s|, MaxSongs)]);
    assert |s| < MaxSongs ==> (songs + WrapMarker(s))[|songs|].Marker?;
    songs + WrapMarker(s)
  }

  /** The marker naming the first node of `s`, when `s` is shorter than the cap. */
  function WrapMarker(s: seq<SongNode>): (r: seq<Entry>)
    requires s != []
    ensures |s| < MaxSongs ==> r == [Marker(MarkerText(s[0].title))]
    ensures |s| >= MaxSongs ==> r == []
  {
    if |s| < MaxSongs then [Marker(MarkerText(s[0].title))] else []
  }

  class CircularLinkedList {
    var head: SongNode?
    var tail: SongNode?
    var current: SongNode?
    var size: int
    const listType: string := "Circular Linked List"

    /** Every node this list has created (and not forgotten by `Clear`). */
    ghost var Repr: set<SongNode>
    /** The ring order from `head`, as a valid ring has it. */
    ghost var Nodes: seq<SongNode>

    ghost predicate Closed()
      reads this, Repr`next, Repr`prev
    {
      (head == null <==> tail == null)
      && (current != null ==> head != null)
      && (head != null ==> head in Repr)
      && (tail != null ==> tail in Repr)
      && (current != null ==> current in Repr)
      && (forall m {:trigger m.next} :: m in Repr ==> m.next != null && m.next in Repr)
      && (forall m {:trigger m.prev} :: m in Repr ==> m.prev != null && m.prev in Repr)
    }

    ghost predicate Valid()
      reads this, Repr`next, Repr`prev, Nodes`next, Nodes`prev
    {
      Closed()
      && Distinct(Nodes)
      && (forall i :: 0 <= i < |Nodes| ==> Nodes[i] in Repr)
      && size == |Nodes|
      && (Nodes == [] ==> head == null && current == null)
      && (Nodes != [] ==>
            head == Nodes[0] && tail == Nodes[|Nodes| - 1] && current in Nodes && RingLinked(Nodes))
    }

    constructor ()
      ensures Valid() && Nodes == [] && Repr == {}
      ensures head == null && tail == null && current == null && size == 0
    {
      head := null;
      tail := null;
      current := null;
      size := 0;
      Repr := {};
      Nodes := [];
    }

    /**
     * On an empty list the new node is a ring of one (its own successor
     * and predecessor). Otherwise it is spliced in between the tail and
     * the head and becomes the tail.
     */
    method AddSong(title: string, artist: string, duration: string) returns (song: SongNode)
      requires Closed()
      modifies this, Repr`next, Repr`prev
      ensures Closed() && Repr == old(Repr) + {song}
      ensures fresh(song) && song.title == title && song.artist == artist && song.duration == duration
      ensures !song.isCurrent
      ensures tail == song && size == old(size) + 1
      ensures old(head) == null ==> head == song && current == song && song.next == song && song.prev == song
      ensures old(head) != null ==>
                && head == old(head) && current == old(current)
                && song.prev == old(tail) && song.next == old(head)
                && old(tail).next == song && old(head).prev == song
      ensures forall m {:trigger m.next} :: m in old(Repr) && m != old(tail) ==> m.next == old(m.next)
      ensures forall m {:trigger m.prev} :: m in old(Repr) && m != old(head) ==> m.prev == old(m.prev)
      ensures old(Valid()) ==> Valid() && Nodes == old(Nodes) + [song]
    {
      song := new SongNode(title, artist, duration);
      if head == null {
        head := song;
        tail := song;
        current := song;
        song.next := song;
        song.prev := song;
      } else {
        song.prev := tail;
        song.next := head;
        tail.next := song;
        head.prev := song;
        tail := song;
      }
      size := size + 1;
      Repr := Repr + {song};
      Nodes := Nodes + [song];
    }

    /**
     * The removal inherited from the bidirectional list. Both neighbours
     * exist in a closed ring, so they are relinked past the current node
     * and `head` and `tail` are left where they were, even when one of
     * them is the removed node. The neighbours are read once, before any
     * link is written; the inherited code reads them through `current`
     * again, and gets the same nodes, since only the neighbours' links
     * change.
     */
    method RemoveCurrent() returns (r: SongNode?)
      requires Closed()
      modifies this, Repr`next, Repr`prev
      ensures Closed() && Repr == old(Repr)
      ensures old(current) == null ==> r == null && unchanged(this) && unchanged(Repr)
      ensures old(current) != null ==>
                && old(current.prev).next == old(current.next)
                && old(current.next).prev == old(current.prev)
                && (forall m {:trigger m.next} :: m in Repr && m != old(current.prev) ==> m.next == old(m.next))
                && (forall m {:trigger m.prev} :: m in Repr && m != old(current.next) ==> m.prev == old(m.prev))
                && head == old(head) && tail == old(tail)
                && current == old(current.next) && r == current
                && size == old(size) - 1
      ensures old(Valid()) && old(current) != null ==>
                var k := IndexOf(old(Nodes), old(current));
                var n := |old(Nodes)|;
                && Nodes == Without(old(Nodes), k)
                && size == |Nodes|
                && (Valid() <==> 0 < k < n - 1)
                && (n == 1 ==> head == old(current) && tail == old(current) && current == old(current))
                && (n > 1 ==> RingLinked(Nodes) && current == old(Nodes)[Succ(k, n)])
                && (n > 1 ==> old(current).next == old(Nodes)[Succ(k, n)] && old(current).prev == old(Nodes)[Pred(k, n)])
                && (n > 1 && k == 0 ==> head == old(current) && head !in Nodes)
                && (n > 1 && k == n - 1 ==> tail == old(current) && tail !in Nodes)
    {
      if current == null {
        return null;
      }
      ghost var wasValid := Valid();
      ghost var k := if current in Nodes then IndexOf(Nodes, current) else 0;
      var before := current.prev;
      var after := current.next;
      Unlink(before, after);
      // `after` exists in a closed ring, so the inherited fallbacks to the
      // predecessor and to no node at all are never reached.
      if after != null {
        current := after;
      } else {
        assert false;
      }
      size := size - 1;
      if wasValid {
        Nodes := Without(Nodes, k);
        RemovalEffect(k);
      }
      r := current;
    }

    /**
     * The relinking step of the removal: the predecessor skips forward past
     * the current node and the successor skips back past it. In a closed
     * ring both neighbours exist, so `head` and `tail` never move.
     */
    method Unlink(before: SongNode?, after: SongNode?)
      requires Closed() && current != null && before == current.prev && after == current.next
      modifies Repr`next, Repr`prev
      ensures Closed()
      ensures before != null && after != null && before.next == after && after.prev == before
      ensures forall m {:trigger m.next} :: m in Repr && m != before ==> m.next == old(m.next)
      ensures forall m {:trigger m.prev} :: m in Repr && m != after ==> m.prev == old(m.prev)
    {
      // Both neighbours exist in a closed ring, so the inherited branches
      // that would move `head` or `tail` are never reached.
      if before != null {
        before.next := after;
      } else {
        assert false;
      }
      if after != null {
        after.prev := before;
      } else {
        assert false;
      }
    }

    /**
     * What the removal does to a valid ring, derived from its effect on the
     * links alone: the `k`-th node is gone from the order, and the rest is
     * a valid ring exactly when that node was neither the first nor the last.
     */
    twostate lemma RemovalEffect(k: nat)
      requires old(Valid()) && old(current) != null && k == IndexOf(old(Nodes), old(current))
      requires Closed() && Repr == old(Repr)
      requires old(current.prev).next == old(current.next) && old(current.next).prev == old(current.prev)
      requires forall m {:trigger m.next} :: m in Repr && m != old(current.prev) ==> m.next == old(m.next)
      requires forall m {:trigger m.prev} :: m in Repr && m != old(current.next) ==> m.prev == old(m.prev)
      requires head == old(head) && tail == old(tail)
      requires current == old(current.next) && size == old(size) - 1
      requires Nodes == Without(old(Nodes), k)
      ensures
        var n := |old(Nodes)|;
        && size == |Nodes|
        && (Valid() <==> 0 < k < n - 1)
        && (n == 1 ==> head == old(current) && tail == old(current) && current == old(current))
        && (n > 1 ==> RingLinked(Nodes) && current == old(Nodes)[Succ(k, n)])
        && (n > 1 ==> old(current).next == old(Nodes)[Succ(k, n)] && old(current).prev == old(Nodes)[Pred(k, n)])
        && (n > 1 && k == 0 ==> head == old(current) && head !in Nodes)
        && (n > 1 && k == n - 1 ==> tail == old(current) && tail !in Nodes)
    {
      var was, n := old(Nodes), |old(Nodes)|;
      if n > 1 {
        RingLinksAfterUnlink(k);
        RingAfterUnlink(was, k);
      }
      ValidAfterRemoval(was, k);
    }

    /**
     * The links of a valid ring once its `k`-th node is unlinked, by
     * position in the old order: unchanged except at the two neighbours,
     * which now link to each other.
     */
    twostate lemma RingLinksAfterUnlink(k: nat)
      requires old(Valid()) && old(current) != null && k == IndexOf(old(Nodes), old(current))
      requires 1 < |old(Nodes)| && Repr == old(Repr)
      requires old(current.prev).next == old(current.next) && old(current.next).prev == old(current.prev)
      requires forall m {:trigger m.next} :: m in Repr && m != old(current.prev) ==> m.next == old(m.next)
      requires forall m {:trigger m.prev} :: m in Repr && m != old(current.next) ==> m.prev == old(m.prev)
      ensures
        var s, n := old(Nodes), |old(Nodes)|;
        && old(current.prev) == s[Pred(k, n)] && old(current.next) == s[Succ(k, n)]
        && (forall i :: 0 <= i < n && i != Pred(k, n) ==> s[i].next == s[Succ(i, n)])
        && (forall i :: 0 <= i < n && i != Succ(k, n) ==> s[i].prev == s[Pred(i, n)])
        && s[Pred(k, n)].next == s[Succ(k, n)] && s[Succ(k, n)].prev == s[Pred(k, n)]
    {
      var was, n := old(Nodes), |old(Nodes)|;
      var before, after := old(current.prev), old(current.next);
      assert before == was[Pred(k, n)] && after == was[Succ(k, n)];
      forall i | 0 <= i < n && i != Pred(k, n)
        ensures was[i].next == was[Succ(i, n)]
      {
        assert was[i] in Repr && was[i] != before;
      }
      forall i | 0 <= i < n && i != Succ(k, n)
        ensures was[i].prev == was[Pred(i, n)]
      {
        assert was[i] in Repr && was[i] != after;
      }
    }

    /**
     * After the `k`-th node of the ring `was` has been unlinked, with `head`,
     * `tail` and `size` as the removal leaves them, the list is a valid ring
     * exactly when the removed node was neither the first nor the last.
     */
    lemma ValidAfterRemoval(was: seq<SongNode>, k: nat)
      requires Closed() && Distinct(was) && k < |was| && (forall i :: 0 <= i < |was| ==> was[i] in Repr)
      requires Nodes == Without(was, k) && size == |Nodes|
      requires head == was[0] && tail == was[|was| - 1] && current != null
      requires Nodes != [] ==> RingLinked(Nodes) && current in Nodes
      ensures Valid() <==> 0 < k < |was| - 1
      ensures k == 0 ==> head !in Nodes
      ensures k == |was| - 1 ==> tail !in Nodes
    {
    }

    /** Moves to the successor whenever there is a current node. */
    method NextSong() returns (r: SongNode?)
      requires Closed()
      modifies this`current
      ensures Closed()
      ensures current == (if old(current) != null then old(current.next) else null)
      ensures old(Valid()) ==> Valid()
      ensures old(Valid()) && old(current) != null ==>
                current == Nodes[Succ(IndexOf(Nodes, old(current)), |Nodes|)]
      ensures r == current
    {
      if current != null {
        if Valid() {
          ghost var k := IndexOf(Nodes, current);
          assert current.next == Nodes[Succ(k, |Nodes|)];
        }
        current := current.next;
      }
      r := current;
    }

    /** Moves to the predecessor whenever there is a current node. */
    method PrevSong() returns (r: SongNode?)
      requires Closed()
      modifies this`current
      ensures Closed()
      ensures current == (if old(current) != null then old(current.prev) else null)
      ensures old(Valid()) ==> Valid()
      ensures old(Valid()) && old(current) != null ==>
                current == Nodes[Pred(IndexOf(Nodes, old(current)), |Nodes|)]
      ensures r == current
    {
      if current != null {
        if Valid() {
          ghost var k := IndexOf(Nodes, current);
          assert current.prev == Nodes[Pred(k, |Nodes|)];
        }
        current := current.prev;
      }
      r := current;
    }

    /**
     * What the capped enumeration produces from node `t` when `count`
     * nodes have been listed before it: `t` itself, then either the marker
     * (when the walk is back at the head and fewer than MaxSongs - 1 nodes
     * preceded `t`), or the rest of the walk while the cap allows.
     */
    ghost function Walk(t: SongNode, count: nat): (w: seq<Entry>)
      requires Closed() && head != null && t in Repr && count < MaxSongs
      reads this, Repr`next, Repr`prev
      decreases MaxSongs - count
    {
      [Song(t)]
      + if t.next == head then
          (if count < MaxSongs - 1 then [Marker(MarkerText(head.title))] else [])
        else if count + 1 < MaxSongs then
          Walk(t.next, count + 1)
        else
          []
    }

    /**
     * Lists the nodes from `head` by following `next`, tagging each one,
     * until the walk is back at `head` (then the marker is appended, unless
     * MaxSongs nodes were listed) or MaxSongs nodes have been listed.
     */
    method GetAllSongs() returns (songs: seq<Entry>)
      requires Closed()
      modifies Repr`isCurrent
      ensures Closed()
      ensures songs == if head == null then [] else Walk(head, 0)
      ensures forall e :: e in songs && e.Song? ==> e.node.isCurrent == (e.node == current)
      ensures forall m :: m in Repr && Song(m) !in songs ==> m.isCurrent == old(m.isCurrent)
    {
      songs := [];
      if head == null {
        return;
      }
      var temp: SongNode? := head;
      var count: nat := 0;
      while temp != null && count < MaxSongs
        invariant Closed()
        invariant temp != null && temp in Repr
        invariant count <= MaxSongs
        invariant count < MaxSongs ==> songs + Walk(temp, count) == Walk(head, 0)
        invariant count == MaxSongs ==> songs == Walk(head, 0)
        invariant forall e :: e in songs && e.Song? ==> e.node.isCurrent == (e.node == current)
        invariant forall m :: m in Repr && Song(m) !in songs ==> m.isCurrent == old(m.isCurrent)
        decreases MaxSongs - count
      {
        WalkStep(songs, temp, count);
        temp.isCurrent := temp == current;
        songs := songs + [Song(temp)];
        temp := temp.next;
        if temp == head {
          if count < MaxSongs - 1 {
            songs := songs + [Marker(MarkerText(head.title))];
          }
          break;
        }
        count := count + 1;
      }
    }

    /** One step of the enumeration, with what has been listed so far in front. */
    lemma WalkStep(done: seq<Entry>, t: SongNode, count: nat)
      requires Closed() && head != null && t in Repr && count < MaxSongs
      ensures t.next == head ==>
                done + Walk(t, count)
                == done + [Song(t)] + (if count < MaxSongs - 1 then [Marker(MarkerText(head.title))] else [])
      ensures t.next != head && count + 1 < MaxSongs ==>
                done + Walk(t, count) == (done + [Song(t)]) + Walk(t.next, count + 1)
      ensures t.next != head && count + 1 == MaxSongs ==>
                done + Walk(t, count) == done + [Song(t)]
    {
    }

    /** Under `Closed()` alone, whatever the links, a walk lists at most MaxSongs entries. */
    lemma {:induction false} WalkBound(t: SongNode, count: nat)
      requires Closed() && head != null && t in Repr && count < MaxSongs
      ensures 0 < |Walk(t, count)| <= MaxSongs - count
      decreases MaxSongs - count
    {
      if t.next != head && count + 1 < MaxSongs {
        WalkBound(t.next, count + 1);
      }
    }

    /**
     * Along nodes `s` that start at `head`, each linked to the next and the
     * last back to `head`, the walk from the `c`-th node lists `s` from
     * there on, up to the cap, then the marker when `s` is short.
     */
    lemma {:induction false} WalkAlong(s: seq<SongNode>, c: nat)
      requires Closed() && s != [] && head == s[0] && c < |s| && c < MaxSongs
      requires forall i :: 0 <= i < |s| ==> s[i] in Repr
      requires forall i :: 0 < i < |s| ==> s[i] != head
      requires forall i :: 0 <= i < |s| - 1 ==> s[i].next == s[i + 1]
      requires s[|s| - 1].next == head
      ensures Walk(s[c], c) == AsEntries(s[c..Min(|s|, MaxSongs)]) + WrapMarker(s)
      decreases MaxSongs - c
    {
      var m := Min(|s|, MaxSongs);
      assert s[c..m][1..] == s[c + 1..m];
      if c < |s| - 1 && c + 1 < MaxSongs {
        WalkAlong(s, c + 1);
      }
    }

    /**
     * The enumeration of a valid non-empty ring: its first MaxSongs nodes
     * in order, then the marker unless there are MaxSongs nodes or more.
     */
    lemma ListingOfValid()
      requires Valid() && Nodes != []
      ensures Walk(head, 0) == RingListing(Nodes)
    {
      WalkAlong(Nodes, 0);
      assert Nodes[0..Min(|Nodes|, MaxSongs)] == Nodes[..Min(|Nodes|, MaxSongs)];
    }

    /**
     * A set of nodes that `next` never leaves and that does not contain
     * `head`: a walk into it never meets `head` and runs until the cap,
     * with no marker.
     */
    lemma {:induction false} WalkMissingHead(s: set<SongNode>, t: SongNode, count: nat)
      requires Closed() && head != null && count < MaxSongs
      requires s <= Repr && head !in s && t in s
      requires forall m {:trigger m.next} :: m in s ==> m.next in s
      ensures |Walk(t, count)| == MaxSongs - count
      ensures forall e :: e in Walk(t, count) ==> e.Song?
      decreases MaxSongs - count
    {
      if count + 1 < MaxSongs {
        WalkMissingHead(s, t.next, count + 1);
      }
    }

    /** The node reached from `t` by following `next` `steps` times. */
    ghost function Advance(t: SongNode, steps: nat): (r: SongNode)
      requires Closed() && t in Repr
      reads this, Repr`next, Repr`prev
      ensures r in Repr
      decreases steps
    {
      if steps == 0 then t else Advance(t.next, steps - 1)
    }

    /** The node reached from `t` by following `prev` `steps` times. */
    ghost function Retreat(t: SongNode, steps: nat): (r: SongNode)
      requires Closed() && t in Repr
      reads this, Repr`next, Repr`prev
      ensures r in Repr
      decreases steps
    {
      if steps == 0 then t else Retreat(t.prev, steps - 1)
    }

    /** Following `next` from the `i`-th node of a valid ring walks the order, wrapping to the head. */
    lemma {:induction false} AdvanceOnRing(i: nat, steps: nat)
      requires Valid() && i < |Nodes| && i + steps <= |Nodes|
      ensures Advance(Nodes[i], steps) == Nodes[if i + steps < |Nodes| then i + steps else 0]
      decreases steps
    {
      if steps > 0 {
        var n := |Nodes|;
        assert Nodes[i].next == Nodes[Succ(i, n)];
        if i + 1 < n {
          AdvanceOnRing(i + 1, steps - 1);
        }
      }
    }

    /** Following `prev` from the `i`-th node of a valid ring walks the order backwards, wrapping to the tail. */
    lemma {:induction false} RetreatOnRing(i: nat, steps: nat)
      requires Valid() && i < |Nodes| && steps <= i + 1
      ensures Retreat(Nodes[i], steps) == Nodes[if steps <= i then i - steps else |Nodes| - 1]
      decreases steps
    {
      if steps > 0 {
        var n := |Nodes|;
        assert Nodes[i].prev == Nodes[Pred(i, n)];
        if i > 0 {
          RetreatOnRing(i - 1, steps - 1);
        }
      }
    }

    /** Following `a + b` links is following `a` and then `b`. */
    lemma {:induction false} AdvanceSplit(t: SongNode, a: nat, b: nat)
      requires Closed() && t in Repr
      ensures Advance(t, a + b) == Advance(Advance(t, a), b)
      decreases a
    {
      if a > 0 {
        AdvanceSplit(t.next, a - 1, b);
      }
    }

    /** Following `prev` `a + b` times is following it `a` and then `b` times. */
    lemma {:induction false} RetreatSplit(t: SongNode, a: nat, b: nat)
      requires Closed() && t in Repr
      ensures Retreat(t, a + b) == Retreat(Retreat(t, a), b)
      decreases a
    {
      if a > 0 {
        RetreatSplit(t.prev, a - 1, b);
      }
    }

    /**
     * On a valid ring, as many forward steps as there are nodes come back
     * to the starting node, as do as many backward steps.
     */
    lemma FullTurn(t: SongNode)
      requires Valid() && t in Nodes
      ensures Advance(t, |Nodes|) == t
      ensures Retreat(t, |Nodes|) == t
    {
      var n, k := |Nodes|, IndexOf(Nodes, t);
      AdvanceOnRing(k, n - k);
      AdvanceOnRing(0, k);
      AdvanceSplit(t, n - k, k);
      RetreatOnRing(k, k + 1);
      RetreatOnRing(n - 1, n - k - 1);
      RetreatSplit(t, k + 1, n - k - 1);
    }

    /** Forgets every node; the nodes themselves are left as they are. */
    method Clear()
      modifies this
      ensures head == null && tail == null && current == null && size == 0
      ensures Nodes == [] && Repr == {} && Valid()
    {
      head := null;
      tail := null;
      current := null;
      size := 0;
      Repr := {};
      Nodes := [];
    }

    function GetStats(): (s: Stats)
      reads this
      ensures s.listType == listType && s.size == size
      ensures s.current == TitleOrNone(current) && s.head == TitleOrNone(head) && s.tail == TitleOrNone(tail)
    {
      Stats(listType, size, TitleOrNone(current), TitleOrNone(head), TitleOrNone(tail))
    }
  }

  /**
   * If every node of the ring `s` still links to its ring neighbours except
   * that the two neighbours of the `k`-th node now link to each other, the
   * other nodes form a ring in the same order.
   */
  lemma RingAfterUnlink(s: seq<SongNode>, k: nat)
    requires Distinct(s) && 1 < |s| && k < |s|
    requires forall i :: 0 <= i < |s| && i != Pred(k, |s|) ==> s[i].next == s[Succ(i, |s|)]
    requires forall i :: 0 <= i < |s| && i != Succ(k, |s|) ==> s[i].prev == s[Pred(i, |s|)]
    requires s[Pred(k, |s|)].next == s[Succ(k, |s|)] && s[Succ(k, |s|)].prev == s[Pred(k, |s|)]
    ensures RingLinked(Without(s, k))
  {
    var n, t := |s|, Without(s, k);
    forall i | 0 <= i < n - 2
      ensures t[i].next == t[i + 1] && t[i + 1].prev == t[i]
    {
      if i + 1 < k {
        assert t[i] == s[i] && t[i + 1] == s[i + 1];
        assert Succ(i, n) == i + 1 && Pred(i + 1, n) == i;
      } else if i + 1 == k {
        assert t[i] == s[Pred(k, n)] && t[i + 1] == s[Succ(k, n)];
      } else {
        assert t[i] == s[i + 1] && t[i + 1] == s[i + 2];
        assert Succ(i + 1, n) == i + 2 && Pred(i + 2, n) == i + 1;
      }
    }
    if 0 < k < n - 1 {
      assert t[n - 2] == s[n - 1] && t[0] == s[0];
      assert Succ(n - 1, n) == 0 && Pred(0, n) == n - 1;
    } else {
      assert t[n - 2] == s[Pred(k, n)] && t[0] == s[Succ(k, n)];
    }
  }

  /** Following `next` from a node of a ring stays in the ring. */
  lemma RingClosed(s: seq<SongNode>)
    requires RingLinked(s)
    ensures forall m :: m in s ==> m.next in s
  {
    forall m | m in s
      ensures m.next in s
    {
      var i := IndexOf(s, m);
      assert m.next == s[Succ(i, |s|)];
    }
  }

  /**
   * Removing the head of a valid ring of two or more nodes leaves `head`
   * on the removed node. The enumeration then starts there, never meets
   * `head` again, and runs to the cap with no marker.
   */
  method RemoveHeadThenList(l: CircularLinkedList) returns (songs: seq<Entry>)
    requires l.Valid() && |l.Nodes| > 1 && l.current == l.head
    modifies l, l.Repr`next, l.Repr`prev, l.Repr`isCurrent
    ensures |songs| == MaxSongs && songs[0] == Song(old(l.head))
    ensures forall e :: e in songs ==> e.Song?
  {
    var _ := l.RemoveCurrent();
    songs := l.GetAllSongs();
    assert songs[0] == Song(l.head);
    RingClosed(l.Nodes);
    l.WalkMissingHead((set m | m in l.Nodes), l.head.next, 1);
  }

  /**
   * On a valid ring, calling `NextSong` as many times as the list has
   * songs brings the cursor back to the song it started on.
   */
  method NextFullTurn(l: CircularLinkedList) returns (r: SongNode?)
    requires l.Valid() && l.current != null
    modifies l
    ensures l.Valid() && l.Nodes == old(l.Nodes) && l.Repr == old(l.Repr)
    ensures r == l.current == old(l.current)
  {
    var n := l.size;
    ghost var k := IndexOf(l.Nodes, l.current);
    ghost var j := k;
    var i := 0;
    r := l.current;
    while i < n
      invariant 0 <= i <= n && n == |l.Nodes| && l.Valid()
      invariant l.Nodes == old(l.Nodes) && l.Repr == old(l.Repr)
      invariant j == if k + i < n then k + i else k + i - n
      invariant l.current == l.Nodes[j] && r == l.current
    {
      r := l.NextSong();
      j := Succ(j, n);
      i := i + 1;
    }
  }

  /**
   * On a valid ring, calling `PrevSong` as many times as the list has
   * songs brings the cursor back to the song it started on.
   */
  method PrevFullTurn(l: CircularLinkedList) returns (r: SongNode?)
    requires l.Valid() && l.current != null
    modifies l
    ensures l.Valid() && l.Nodes == old(l.Nodes) && l.Repr == old(l.Repr)
    ensures r == l.current == old(l.current)
  {
    var n := l.size;
    ghost var k := IndexOf(l.Nodes, l.current);
    ghost var j := k;
    var i := 0;
    r := l.current;
    while i < n
      invariant 0 <= i <= n && n == |l.Nodes| && l.Valid()
      invariant l.Nodes == old(l.Nodes) && l.Repr == old(l.Repr)
      invariant j == if i <= k then k - i else k - i + n
      invariant l.current == l.Nodes[j] && r == l.current
    {
      r := l.PrevSong();
      j := Pred(j, n);
      i := i + 1;
    }
  }

  /**
   * On a valid ring the statistics describe the order: its length, the
   * first and last titles, and "None" everywhere when it is empty.
   */
  lemma StatsOfValid(l: CircularLinkedList)
    requires l.Valid()
    ensures l.GetStats().size == |l.Nodes|
    ensures l.Nodes == [] ==> l.GetStats() == Stats(l.listType, 0, "None", "None", "None")
    ensures l.Nodes != [] ==>
              && l.GetStats().head == l.Nodes[0].title
              && l.GetStats().tail == l.Nodes[|l.Nodes| - 1].title
              && exists k :: 0 <= k < |l.Nodes| && l.GetStats().current == l.Nodes[k].title
  {
    if l.Nodes != [] {
      var k := IndexOf(l.Nodes, l.current);
      assert l.GetStats().current == l.Nodes[k].title;
    }
  }

  /**
   * Removing the only song of a ring leaves it as head, tail and current,
   * so the statistics report size 0 and that song's title three times.
   */
  method RemoveSoleThenStats(l: CircularLinkedList) returns (s: Stats)
    requires l.Valid() && |l.Nodes| == 1
    modifies l, l.Repr`next, l.Repr`prev
    ensures l.head == l.tail == l.current == old(l.head)
    ensures s == Stats(l.listType, 0, old(l.head.title), old(l.head.title), old(l.head.title))
  {
    var _ := l.RemoveCurrent();
    s := l.GetStats();
  }
}
