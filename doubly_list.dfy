/**
 * The bidirectional playlist: every node also points back to its
 * predecessor, so removal needs no scan and the cursor can move back.
 *
 * `next_song`, `get_all_songs`, `clear` and `get_stats` are inherited
 * unchanged from the forward-only list; they are written out again here
 * against this class's invariant.
 */
module DoublyList {
  import opened Node
  import opened SinglyList

  /** The links of `s` form a chain in both directions, `null` at both ends. */
  ghost predicate DoubleChain(s: seq<SongNode>)
    reads s`next, s`prev
  {
    Distinct(s)
    && (forall i :: 0 <= i < |s| - 1 ==> s[i].next == s[i + 1] && s[i + 1].prev == s[i])
    && (s != [] ==> s[0].prev == null && s[|s| - 1].next == null)
  }

  class DoublyLinkedList {
    var head: SongNode?
    var tail: SongNode?
    var current: SongNode?
    var size: int
    const listType: string := "Doubly Linked List"

    /** The nodes from `head` to `tail`, in `next` order. */
    ghost var Nodes: seq<SongNode>

    ghost predicate Valid()
      reads this, Nodes`next, Nodes`prev
    {
      DoubleChain(Nodes)
      && size == |Nodes|
      && (Nodes == [] ==> head == null && tail == null && current == null)
      && (Nodes != [] ==> head == Nodes[0] && tail == Nodes[|Nodes| - 1] && current in Nodes)
    }

    constructor ()
      ensures Valid() && Nodes == []
      ensures head == null && tail == null && current == null && size == 0
    {
      head := null;
      tail := null;
      current := null;
      size := 0;
      Nodes := [];
    }

    /** Appends a new node after the old tail, linked both ways. */
    method AddSong(title: string, artist: string, duration: string) returns (song: SongNode)
      requires Valid()
      modifies this, Nodes`next
      ensures Valid()
      ensures fresh(song) && song.title == title && song.artist == artist && song.duration == duration
      ensures !song.isCurrent && song.next == null && song.prev == old(tail)
      ensures Nodes == old(Nodes) + [song]
      ensures tail == song && size == old(size) + 1
      ensures old(head) == null ==> head == song && current == song
      ensures old(head) != null ==> head == old(head) && current == old(current) && old(tail).next == song
    {
      song := new SongNode(title, artist, duration);
      if head == null {
        head := song;
        current := song;
        tail := song;
      } else {
        song.prev := tail;
        tail.next := song;
        tail := song;
      }
      Nodes := Nodes + [song];
      size := size + 1;
    }

    /**
     * Removes the current node using its own links: the predecessor (or
     * `head`) skips forward past it, the successor (or `tail`) skips back
     * past it. Current moves to the successor, else the predecessor, else
     * nowhere.
     */
    method RemoveCurrent() returns (r: SongNode?)
      requires Valid()
      modifies this, Nodes`next, Nodes`prev
      ensures Valid()
      ensures old(current) == null ==> r == null && unchanged(this)
      ensures old(current) != null ==>
                var k := IndexOf(old(Nodes), old(current));
                var n := |old(Nodes)|;
                && Nodes == Without(old(Nodes), k)
                && size == old(size) - 1
                && head == (if k == 0 then old(current.next) else old(head))
                && tail == (if k == n - 1 then old(current.prev) else old(tail))
                && (k > 0 ==> old(Nodes)[k - 1].next == old(current.next))
                && (k < n - 1 ==> old(Nodes)[k + 1].prev == old(current.prev))
                && old(current).next == old(current.next) && old(current).prev == old(current.prev)
                && current == (if k + 1 < n then old(Nodes)[k + 1] else if k > 0 then old(Nodes)[k - 1] else null)
                && r == current
    {
      if current == null {
        return null;
      }
      ghost var k := IndexOf(Nodes, current);
      var before := current.prev;
      var after := current.next;
      assert before == if k > 0 then Nodes[k - 1] else null;
      assert after == if k + 1 < |Nodes| then Nodes[k + 1] else null;
      if before != null {
        before.next := after;
      } else {
        head := after;
      }
      if after != null {
        after.prev := before;
      } else {
        tail := before;
      }
      if after != null {
        current := after;
      } else if before != null {
        current := before;
      } else {
        current := null;
      }
      size := size - 1;
      Nodes := Without(Nodes, k);
      r := current;
    }

    /** Moves to the successor when there is one; stays on the last node. */
    method NextSong() returns (r: SongNode?)
      requires Valid()
      modifies this`current
      ensures Valid()
      ensures current == (if old(current) != null && old(current.next) != null then old(current.next) else old(current))
      ensures old(current) != null ==>
                var k := IndexOf(Nodes, old(current));
                current == Nodes[if k + 1 < |Nodes| then k + 1 else k]
      ensures r == current
    {
      if current != null && current.next != null {
        ghost var k := IndexOf(Nodes, current);
        assert current.next == Nodes[k + 1];
        current := current.next;
      }
      r := current;
    }

    /** Moves to the predecessor when there is one; stays on the first node. */
    method PrevSong() returns (r: SongNode?)
      requires Valid()
      modifies this`current
      ensures Valid()
      ensures current == (if old(current) != null && old(current.prev) != null then old(current.prev) else old(current))
      ensures old(current) != null ==>
                var k := IndexOf(Nodes, old(current));
                current == Nodes[if k > 0 then k - 1 else k]
      ensures r == current
    {
      if current != null && current.prev != null {
        ghost var k := IndexOf(Nodes, current);
        assert current.prev == Nodes[k - 1];
        current := current.prev;
      }
      r := current;
    }

    /**
     * The nodes from `head` to `tail`, each tagged as current exactly when
     * it is the current node.
     */
    method GetAllSongs() returns (songs: seq<SongNode>)
      requires Valid()
      modifies Nodes`isCurrent
      ensures Valid()
      ensures songs == Nodes
      ensures forall k :: 0 <= k < |songs| ==> songs[k].isCurrent == (songs[k] == current)
    {
      songs := [];
      var temp := head;
      ghost var j := 0;
      while temp != null
        invariant 0 <= j <= |Nodes|
        invariant temp == (if j < |Nodes| then Nodes[j] else null)
        invariant songs == Nodes[..j]
        invariant forall k :: 0 <= k < j ==> Nodes[k].isCurrent == (Nodes[k] == current)
        decreases |Nodes| - j
      {
        temp.isCurrent := temp == current;
        songs := songs + [temp];
        temp := temp.next;
        j := j + 1;
      }
    }

    /** Forgets every node; the nodes themselves are left as they are. */
    method Clear()
      modifies this
      ensures head == null && tail == null && current == null && size == 0
      ensures Nodes == [] && Valid()
    {
      head := null;
      tail := null;
      current := null;
      size := 0;
      Nodes := [];
    }

    function GetStats(): (s: Stats)
      reads this
      ensures s.listType == listType && s.size == size
      ensures s.current == TitleOrNone(current) && s.head == TitleOrNone(head) && s.tail == TitleOrNone(tail)
    {
      Stats(listType, size, TitleOrNone(current), TitleOrNone(head), TitleOrNone(tail))
    }
  }

  /** Stepping forward and then back returns to the starting node. */
  method NextThenPrev(l: DoublyLinkedList) returns (r: SongNode?)
    requires l.Valid() && l.current != null && l.current.next != null
    modifies l
    ensures l.Valid() && l.Nodes == old(l.Nodes)
    ensures r == l.current == old(l.current)
  {
    var _ := l.NextSong();
    r := l.PrevSong();
  }

  /** Stepping back and then forward returns to the starting node. */
  method PrevThenNext(l: DoublyLinkedList) returns (r: SongNode?)
    requires l.Valid() && l.current != null && l.current.prev != null
    modifies l
    ensures l.Valid() && l.Nodes == old(l.Nodes)
    ensures r == l.current == old(l.current)
  {
    var _ := l.PrevSong();
    r := l.NextSong();
  }

  /**
   * On a valid list the statistics describe the order: its length, the
   * first and last titles, and "None" everywhere when it is empty.
   */
  lemma StatsOfValid(l: DoublyLinkedList)
    requires l.Valid()
    ensures l.GetStats().size == |l.Nodes|
    ensures l.Nodes == [] ==> l.GetStats() == Stats(l.listType, 0, "None", "None", "None")
    ensures l.Nodes != [] ==>
              && l.GetStats().head == l.Nodes[0].title
              && l.GetStats().tail == l.Nodes[|l.Nodes| - 1].title
              && exists k :: 0 <= k < |l.Nodes| && l.GetStats().current == l.Nodes[k].title
  {
    if l.Nodes != [] {
      var k := IndexOf(l.Nodes, l.current);
      assert l.GetStats().current == l.Nodes[k].title;
    }
  }
}
