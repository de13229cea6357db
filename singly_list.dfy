/**
 * The forward-only playlist: each node points to its successor only.
 *
 * The ghost sequence `Nodes` is the chain reachable from `head` along
 * `next`. `Valid()` is the invariant every operation keeps. It admits
 * the one defect of this class: `RemoveCurrent` never reassigns `tail`,
 * so after the last node is removed `tail` can be a node that is no
 * longer in the chain. `Consistent()` is the stronger invariant the
 * data structure is meant to have (tail is the last node, size is the
 * chain's length); the contracts say which operations keep it.
 */
module SinglyList {
  import opened Node

  /** What `GetStats` reports; a title is the literal "None" for a missing node. */
  datatype Stats = Stats(listType: string, size: int, current: string, head: string, tail: string)

  function TitleOrNone(n: SongNode?): (t: string)
    ensures n == null ==> t == "None"
    ensures n != null ==> t == n.title
  {
    if n == null then "None" else n.title
  }

  /** The links of `s` form a chain in order, ending in `null`. */
  ghost predicate Chain(s: seq<SongNode>)
    reads s`next
  {
    Distinct(s)
    && (forall i :: 0 <= i < |s| - 1 ==> s[i].next == s[i + 1])
    && (s != [] ==> s[|s| - 1].next == null)
  }

  class SinglyLinkedList {
    var head: SongNode?
    var tail: SongNode?
    var current: SongNode?
    var size: int
    const listType: string := "Singly Linked List"

    /** The nodes reachable from `head`, in `next` order. */
    ghost var Nodes: seq<SongNode>

    /** `tail` as a frame: empty when there is no tail. */
    ghost function TailSet(): set<SongNode>
      reads this
    {
      if tail == null then {} else {tail}
    }

    ghost predicate Valid()
      reads this, Nodes`next, TailSet()`next
    {
      Chain(Nodes)
      && (Nodes == [] ==> head == null && current == null)
      && (Nodes != [] ==> head == Nodes[0] && current in Nodes && tail != null)
      && (tail != null ==> tail.next == null)
    }

    /** The intended invariant: `tail` is the last node and `size` counts the chain. */
    ghost predicate Consistent()
      reads this, Nodes`next, TailSet()`next
    {
      Valid()
      && size == |Nodes|
      && tail == (if Nodes == [] then null else Nodes[|Nodes| - 1])
    }

    /** A `tail` that is not null and not in the chain: left behind by a removal. */
    ghost predicate StaleTail()
      reads this
    {
      tail != null && tail !in Nodes
    }

    constructor ()
      ensures Consistent() && Nodes == []
      ensures head == null && tail == null && current == null && size == 0
    {
      head := null;
      tail := null;
      current := null;
      size := 0;
      Nodes := [];
    }

    /**
     * Appends a new node. On an empty chain it becomes head, current and
     * tail. Otherwise it is hung off the old tail: when that tail is stale
     * the new node is not reachable from `head`.
     */
    method AddSong(title: string, artist: string, duration: string) returns (song: SongNode)
      requires Valid()
      modifies this, TailSet()`next
      ensures Valid()
      ensures fresh(song) && song.title == title && song.artist == artist && song.duration == duration
      ensures song.next == null && song.prev == null && !song.isCurrent
      ensures tail == song && size == old(size) + 1
      ensures old(head) == null ==> head == song && current == song && Nodes == [song]
      ensures old(head) == null && old(tail) != null ==> old(tail).next == old(tail.next)
      ensures old(head) != null ==> head == old(head) && current == old(current) && old(tail).next == song
      ensures old(head) != null && !old(StaleTail()) ==> Nodes == old(Nodes) + [song]
      ensures old(head) != null && old(StaleTail()) ==> Nodes == old(Nodes)
      ensures old(Consistent()) ==> Consistent()
    {
      song := new SongNode(title, artist, duration);
      if head == null {
        head := song;
        current := song;
        Nodes := [song];
      } else {
        assert tail in Nodes ==> tail == Nodes[|Nodes| - 1] by {
          forall i | 0 <= i < |Nodes| - 1 ensures Nodes[i] != tail {
            assert Nodes[i].next == Nodes[i + 1];
          }
        }
        tail.next := song;
        if tail in Nodes {
          Nodes := Nodes + [song];
        }
      }
      tail := song;
      size := size + 1;
    }

    /**
     * Removes the current node. The predecessor is found by a scan from
     * `head`; current moves to the removed node's successor, or to the
     * (possibly new) head. `tail` is never reassigned.
     */
    method RemoveCurrent() returns (r: SongNode?)
      requires Valid()
      modifies this, Nodes`next
      ensures Valid()
      ensures old(current) == null ==> r == null && unchanged(this)
      ensures old(current) != null ==>
                var k := IndexOf(old(Nodes), old(current));
                && Nodes == Without(old(Nodes), k)
                && head == (if k == 0 then old(current.next) else old(head))
                && (k > 0 ==> old(Nodes)[k - 1].next == old(current.next))
                && (forall j :: 0 <= j < |old(Nodes)| && j + 1 != k ==> old(Nodes)[j].next == old(Nodes[j].next))
                && current == (if old(current.next) != null then old(current.next) else head)
                && r == current
                && tail == old(tail)
                && size == old(size) - 1
    {
      if current == null {
        return null;
      }
      ghost var k := IndexOf(Nodes, current);
      if head == current {
        head := current.next;
      } else {
        var temp := FindPredecessor();
        // The scan always finds the predecessor, so the guard against
        // running off the end of the chain never fails.
        if temp != null {
          temp.next := current.next;
        }
      }
      ChainAfterUnlink(Nodes, k);
      Nodes := Without(Nodes, k);
      assert current.next != null ==> current.next == Nodes[k];
      current := if current.next != null then current.next else head;
      size := size - 1;
      r := current;
    }

    /**
     * The scan of the removal: from `head` along `next` until the node
     * whose successor is the current node, or the end of the chain.
     */
    method FindPredecessor() returns (temp: SongNode?)
      requires Valid() && current != null && current != head
      ensures var k := IndexOf(Nodes, current); k > 0 && temp == Nodes[k - 1]
    {
      ghost var k := IndexOf(Nodes, current);
      temp := head;
      ghost var j := 0;
      while temp != null && temp.next != current
        invariant 0 <= j < k && temp == Nodes[j]
        decreases k - j
      {
        temp := temp.next;
        j := j + 1;
      }
      assert temp.next == Nodes[j + 1] == Nodes[k];
    }

    /** Moves to the successor when there is one; stays on the last node. */
    method NextSong() returns (r: SongNode?)
      requires Valid()
      modifies this`current
      ensures Valid()
      ensures current == (if old(current) != null && old(current.next) != null then old(current.next) else old(current))
      ensures old(current) != null ==>
                var k := IndexOf(Nodes, old(current));
                current == Nodes[if k + 1 < |Nodes| then k + 1 else k]
      ensures r == current
    {
      if current != null && current.next != null {
        ghost var k := IndexOf(Nodes, current);
        assert current.next == Nodes[k + 1];
        current := current.next;
      }
      r := current;
    }

    /** A forward-only list cannot move back: the cursor stays where it is. */
    method PrevSong() returns (r: SongNode?)
      ensures r == current
    {
      r := current;
    }

    /**
     * The nodes from `head` to the end of the chain, each tagged as current
     * exactly when it is the current node.
     */
    method GetAllSongs() returns (songs: seq<SongNode>)
      requires Valid()
      modifies Nodes`isCurrent
      ensures Valid()
      ensures songs == Nodes
      ensures forall k :: 0 <= k < |songs| ==> songs[k].isCurrent == (songs[k] == current)
    {
      songs := [];
      var temp := head;
      ghost var j := 0;
      while temp != null
        invariant 0 <= j <= |Nodes|
        invariant temp == (if j < |Nodes| then Nodes[j] else null)
        invariant songs == Nodes[..j]
        invariant forall k :: 0 <= k < j ==> Nodes[k].isCurrent == (Nodes[k] == current)
        decreases |Nodes| - j
      {
        temp.isCurrent := temp == current;
        songs := songs + [temp];
        temp := temp.next;
        j := j + 1;
      }
    }

    /** Forgets every node; the nodes themselves are left as they are. */
    method Clear()
      modifies this
      ensures head == null && tail == null && current == null && size == 0
      ensures Nodes == [] && Consistent()
    {
      head := null;
      tail := null;
      current := null;
      size := 0;
      Nodes := [];
    }

    function GetStats(): (s: Stats)
      reads this
      ensures s.listType == listType && s.size == size
      ensures s.current == TitleOrNone(current) && s.head == TitleOrNone(head) && s.tail == TitleOrNone(tail)
    {
      Stats(listType, size, TitleOrNone(current), TitleOrNone(head), TitleOrNone(tail))
    }
  }

  /**
   * On a consistent list the statistics describe the chain: its length,
   * the first and last titles, and "None" everywhere when it is empty.
   */
  lemma StatsOfConsistent(l: SinglyLinkedList)
    requires l.Consistent()
    ensures l.GetStats().size == |l.Nodes|
    ensures l.Nodes == [] ==> l.GetStats() == Stats(l.listType, 0, "None", "None", "None")
    ensures l.Nodes != [] ==>
              && l.GetStats().head == l.Nodes[0].title
              && l.GetStats().tail == l.Nodes[|l.Nodes| - 1].title
              && exists k :: 0 <= k < |l.Nodes| && l.GetStats().current == l.Nodes[k].title
  {
    if l.Nodes != [] {
      var k := IndexOf(l.Nodes, l.current);
      assert l.GetStats().current == l.Nodes[k].title;
    }
  }

  /**
   * Removing the last node of a consistent list of two or more nodes and
   * then adding a song: the new node hangs off the stale tail, so it is
   * not reachable from `head`, and `size` counts one node more than the
   * chain holds. (With one node the removal empties the chain, and the
   * addition starts a fresh one.)
   */
  method RemoveTailThenAdd(l: SinglyLinkedList, title: string, artist: string, duration: string)
    returns (song: SongNode)
    requires l.Consistent() && |l.Nodes| > 1 && l.current == l.tail
    modifies l, l.Nodes`next
    ensures l.Valid() && l.tail == song && song !in l.Nodes
    ensures l.Nodes == old(l.Nodes)[..|old(l.Nodes)| - 1]
    ensures l.size == |l.Nodes| + 1
  {
    ghost var n := |l.Nodes|;
    var _ := l.RemoveCurrent();
    assert l.StaleTail() && l.Nodes == old(l.Nodes)[..n - 1];
    song := l.AddSong(title, artist, duration);
  }

  /**
   * If every node of the chain `s` but the one before the `k`-th still
   * links to its successor, and that one now links past the `k`-th, the
   * other nodes form a chain in the same order.
   */
  lemma ChainAfterUnlink(s: seq<SongNode>, k: nat)
    requires Distinct(s) && k < |s|
    requires forall j :: 0 <= j < |s| - 1 && j + 1 != k ==> s[j].next == s[j + 1]
    requires k > 0 ==> s[k - 1].next == (if k + 1 < |s| then s[k + 1] else null)
    requires k < |s| - 1 ==> s[|s| - 1].next == null
    ensures Chain(Without(s, k))
  {
    var t := Without(s, k);
    forall i | 0 <= i < |t| - 1
      ensures t[i].next == t[i + 1]
    {
      if i + 1 < k {
        assert t[i] == s[i] && t[i + 1] == s[i + 1];
      } else if i + 1 == k {
        assert t[i] == s[k - 1] && t[i + 1] == s[k + 1];
      } else {
        assert t[i] == s[i + 1] && t[i + 1] == s[i + 2];
      }
    }
  }

  /**
   * What a removal does to consistency, from the state it leaves: a list
   * whose chain lost its `k`-th node while `tail` stayed on the last node
   * and `size` dropped by one is consistent exactly when the lost node was
   * not the last; otherwise `tail` is stale.
   */
  lemma ConsistencyAfterRemoval(l: SinglyLinkedList, was: seq<SongNode>, k: nat)
    requires l.Valid() && Distinct(was) && k < |was|
    requires l.Nodes == Without(was, k) && l.tail == was[|was| - 1] && l.size == |was| - 1
    ensures l.Consistent() <==> k < |was| - 1
    ensures k == |was| - 1 <==> l.StaleTail()
  {
  }
}
