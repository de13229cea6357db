/**
 * The small helpers next to the lists: rendering a number of seconds as
 * "minutes:seconds", and building the four-song sample playlist of any of
 * the three kinds.
 */
module Helpers {
  import opened Node
  import opened SinglyList
  import opened DoublyList
  import opened CircularList

  // ---------------------------------------------------------------------
  // Decimal text

  predicate IsDigit(c: char) {
    '0' <= c <= '9'
  }

  predicate AllDigits(s: string) {
    forall i :: 0 <= i < |s| ==> IsDigit(s[i])
  }

  /** Decimal digits, with a leading minus sign for a negative number. */
  predicate IsIntString(s: string) {
    (|s| >= 1 && AllDigits(s)) || (|s| >= 2 && s[0] == '-' && AllDigits(s[1..]))
  }

  function DigitChar(d: nat): (c: char)
    requires d < 10
    ensures IsDigit(c) && c as int - '0' as int == d
  {
    ('0' as int + d) as char
  }

  /** The value of a string of decimal digits. */
  function ParseNat(s: string): (n: nat)
    requires AllDigits(s)
    decreases |s|
  {
    if s == [] then 0 else ParseNat(s[..|s| - 1]) * 10 + (s[|s| - 1] as int - '0' as int)
  }

  /** The value of a numeral with an optional minus sign. */
  function ParseInt(s: string): (i: int)
    requires IsIntString(s)
  {
    if s[0] == '-' then -(ParseNat(s[1..]) as int) else ParseNat(s)
  }

  /** The shortest decimal numeral of `n`, as Python's `str` writes it. */
  function NatToString(n: nat): (s: string)
    ensures |s| >= 1 && AllDigits(s) && ParseNat(s) == n
    ensures (s[0] == '0') == (n == 0)
    ensures |s| == 1 || s[0] != '0'
    decreases n
  {
    if n < 10 then
      [DigitChar(n)]
    else
      var s := NatToString(n / 10) + [DigitChar(n % 10)];
      assert s[..|s| - 1] == NatToString(n / 10);
      s
  }

  /** The decimal numeral of `i`, with a minus sign when it is negative. */
  function IntToString(i: int): (s: string)
    ensures IsIntString(s) && ParseInt(s) == i
    ensures (s[0] == '-') == (i < 0)
    ensures var digits := if i < 0 then s[1..] else s;
            |digits| == 1 || digits[0] != '0'
    ensures i < 0 ==> s[1] != '0'
  {
    if i < 0 then
      var s := "-" + NatToString(-i);
      assert s[1..] == NatToString(-i);
      s
    else
      NatToString(i)
  }

  /** A numeral without leading zeros: the only one `str` can print. */
  predicate IsCanonical(s: string) {
    |s| >= 1 && AllDigits(s) && (|s| == 1 || s[0] != '0')
  }

  /** A string of digits that starts with a non-zero digit has a positive value. */
  lemma {:induction false} ParseNatPositive(s: string)
    requires AllDigits(s) && |s| >= 1 && s[0] != '0'
    ensures ParseNat(s) > 0
    decreases |s|
  {
    if |s| > 1 {
      ParseNatPositive(s[..|s| - 1]);
    }
  }

  /**
   * A numeral without leading zeros is determined by its value: it is the
   * one `NatToString` gives, and so the one Python prints.
   */
  lemma {:induction false} CanonicalNumeral(s: string)
    requires IsCanonical(s)
    ensures s == NatToString(ParseNat(s))
    decreases |s|
  {
    var n := ParseNat(s);
    if |s| == 1 {
      assert s[..0] == [];
      assert n == s[0] as int - '0' as int < 10;
      assert s == [DigitChar(n)];
    } else {
      var p := s[..|s| - 1];
      assert p[0] == s[0];
      ParseNatPositive(p);
      CanonicalNumeral(p);
      var d := s[|s| - 1] as int - '0' as int;
      assert n / 10 == ParseNat(p) && n % 10 == d;
      assert s == p + [DigitChar(d)];
    }
  }

  /** `n` written with exactly two digits, zero-padded, as the `02d` format does. */
  function Pad2(n: nat): (s: string)
    requires n < 100
    ensures |s| == 2 && AllDigits(s) && ParseNat(s) == n
  {
    var s := [DigitChar(n / 10), DigitChar(n % 10)];
    assert s[..1] == [DigitChar(n / 10)] && s[..1][..0] == [];
    assert ParseNat(s[..1]) == n / 10;
    assert ParseNat(s) == ParseNat(s[..1]) * 10 + n % 10;
    s
  }

  // ---------------------------------------------------------------------
  // Times

  /** A rendered time: a numeral of minutes, a colon and two digits of seconds. */
  predicate IsTime(t: string) {
    |t| >= 4 && t[|t| - 3] == ':' && IsIntString(t[..|t| - 3]) && AllDigits(t[|t| - 2..])
  }

  function MinutesPart(t: string): (m: int)
    requires IsTime(t)
  {
    ParseInt(t[..|t| - 3])
  }

  function SecondsPart(t: string): (s: nat)
    requires IsTime(t)
  {
    ParseNat(t[|t| - 2..])
  }

  /**
   * `seconds` as "minutes:seconds". The minutes are the floor of
   * `seconds / 60` and the seconds the remainder in 0..59, so the two parts
   * add back up to `seconds`, negative inputs included.
   */
  function FormatTime(seconds: int): (t: string)
    ensures IsTime(t)
    ensures 0 <= SecondsPart(t) < 60
    ensures MinutesPart(t) * 60 + SecondsPart(t) == seconds
    ensures var m := t[..|t| - 3];
            && (m[0] == '-') == (seconds < 0)
            && IsCanonical(if m[0] == '-' then m[1..] else m)
            && (m[0] == '-' ==> m[1] != '0')
  {
    // Dafny's `/` and `%` agree with Python's `//` and `%` for the positive divisor 60.
    var m, r := IntToString(seconds / 60), Pad2(seconds % 60);
    var t := m + ":" + r;
    assert t[..|t| - 3] == m && t[|t| - 2..] == r;
    t
  }

  /** Different numbers of seconds render differently. */
  lemma FormatTimeInjective(a: int, b: int)
    requires FormatTime(a) == FormatTime(b)
    ensures a == b
  {
  }

  // ---------------------------------------------------------------------
  // The sample playlist

  /** The data of one sample song. */
  datatype SongData = SongData(title: string, artist: string, duration: string)

  /** The first four sample songs, the ones the sample playlist uses. */
  const SampleSongs: seq<SongData> := [
    SongData("Blinding Lights", "The Weeknd", "3:20"),
    SongData("Shape of You", "Ed Sheeran", "3:54"),
    SongData("Dance Monkey", "Tones and I", "3:30"),
    SongData("Bad Guy", "Billie Eilish", "3:14")
  ]

  /** The node carries exactly the data `d`. */
  predicate Holds(n: SongNode, d: SongData) {
    n.title == d.title && n.artist == d.artist && n.duration == d.duration
  }

  /** The nodes of `s` carry the sample songs, in order. */
  predicate IsSample(s: seq<SongNode>) {
    |s| == |SampleSongs| && forall j :: 0 <= j < |s| ==> Holds(s[j], SampleSongs[j])
  }

  /** A playlist of one of the three kinds. */
  datatype Playlist =
    | Singly(singly: SinglyLinkedList)
    | Doubly(doubly: DoublyLinkedList)
    | Circular(circular: CircularLinkedList)

  /** A new forward-only list holding the sample songs, cursor on the first. */
  method SampleSingly() returns (l: SinglyLinkedList)
    ensures fresh(l) && l.Consistent() && IsSample(l.Nodes)
    ensures forall j :: 0 <= j < |l.Nodes| ==> fresh(l.Nodes[j])
    ensures l.tail != null ==> fresh(l.tail)
    ensures l.head == l.Nodes[0] && l.current == l.head && l.size == 4
  {
    l := new SinglyLinkedList();
    for i := 0 to |SampleSongs|
      invariant fresh(l) && l.Consistent() && |l.Nodes| == i
      invariant forall j :: 0 <= j < |l.Nodes| ==> fresh(l.Nodes[j])
      invariant l.tail != null ==> fresh(l.tail)
      invariant forall j :: 0 <= j < i ==> Holds(l.Nodes[j], SampleSongs[j])
      invariant i > 0 ==> l.current == l.Nodes[0]
    {
      var song := SampleSongs[i];
      var _ := l.AddSong(song.title, song.artist, song.duration);
    }
  }

  /** A new bidirectional list holding the sample songs, cursor on the first. */
  method SampleDoubly() returns (l: DoublyLinkedList)
    ensures fresh(l) && l.Valid() && IsSample(l.Nodes)
    ensures forall j :: 0 <= j < |l.Nodes| ==> fresh(l.Nodes[j])
    ensures l.head == l.Nodes[0] && l.current == l.head && l.size == 4
  {
    l := new DoublyLinkedList();
    for i := 0 to |SampleSongs|
      invariant fresh(l) && l.Valid() && |l.Nodes| == i
      invariant forall j :: 0 <= j < |l.Nodes| ==> fresh(l.Nodes[j])
      invariant forall j :: 0 <= j < i ==> Holds(l.Nodes[j], SampleSongs[j])
      invariant i > 0 ==> l.current == l.Nodes[0]
    {
      var song := SampleSongs[i];
      var _ := l.AddSong(song.title, song.artist, song.duration);
    }
  }

  /** A new ring holding the sample songs, cursor on the first. */
  method SampleCircular() returns (l: CircularLinkedList)
    ensures fresh(l) && l.Valid() && IsSample(l.Nodes)
    ensures forall n :: n in l.Repr ==> fresh(n)
    ensures l.head == l.Nodes[0] && l.current == l.head && l.size == 4
  {
    l := new CircularLinkedList();
    for i := 0 to |SampleSongs|
      invariant fresh(l) && l.Valid() && |l.Nodes| == i
      invariant forall n :: n in l.Repr ==> fresh(n)
      invariant forall j :: 0 <= j < i ==> Holds(l.Nodes[j], SampleSongs[j])
      invariant i > 0 ==> l.current == l.Nodes[0]
    {
      var song := SampleSongs[i];
      var _ := l.AddSong(song.title, song.artist, song.duration);
    }
  }

  /**
   * The sample playlist of the named kind; any name other than the two
   * linear kinds gives a ring. Its head is "Blinding Lights", its tail
   * "Bad Guy", and the cursor is on the head.
   */
  method CreateSamplePlaylist(listType: string) returns (p: Playlist)
    ensures p.Singly? <==> listType == "Singly Linked List"
    ensures p.Doubly? <==> listType == "Doubly Linked List"
    ensures p.Singly? ==>
              && fresh(p.singly) && p.singly.Consistent()
              && (forall j :: 0 <= j < |p.singly.Nodes| ==> fresh(p.singly.Nodes[j]))
              && (p.singly.tail != null ==> fresh(p.singly.tail))
              && IsSample(p.singly.Nodes) && p.singly.size == 4
              && p.singly.current == p.singly.head && p.singly.head != null && p.singly.tail != null
              && p.singly.head.title == "Blinding Lights" && p.singly.tail.title == "Bad Guy"
    ensures p.Doubly? ==>
              && fresh(p.doubly) && p.doubly.Valid()
              && (forall j :: 0 <= j < |p.doubly.Nodes| ==> fresh(p.doubly.Nodes[j]))
              && IsSample(p.doubly.Nodes) && p.doubly.size == 4
              && p.doubly.current == p.doubly.head && p.doubly.head != null && p.doubly.tail != null
              && p.doubly.head.title == "Blinding Lights" && p.doubly.tail.title == "Bad Guy"
    ensures p.Circular? ==>
              && fresh(p.circular) && p.circular.Valid()
              && (forall n :: n in p.circular.Repr ==> fresh(n))
              && IsSample(p.circular.Nodes) && p.circular.size == 4
              && p.circular.current == p.circular.head && p.circular.head != null && p.circular.tail != null
              && p.circular.head.title == "Blinding Lights" && p.circular.tail.title == "Bad Guy"
  {
    if listType == "Singly Linked List" {
      var l := SampleSingly();
      p := Singly(l);
    } else if listType == "Doubly Linked List" {
      var l := SampleDoubly();
      p := Doubly(l);
    } else {
      var l := SampleCircular();
      p := Circular(l);
    }
  }

  /**
   * The sample forward list can be changed by its caller: removing the
   * song under the cursor (the head) makes "Shape of You" the head and the
   * current song, and leaves three songs.
   */
  method SampleRemoveFirst() returns (l: SinglyLinkedList)
    ensures l.Consistent() && |l.Nodes| == 3 && l.size == 3
    ensures l.head != null && l.head.title == "Shape of You" && l.current == l.head
  {
    l := SampleSingly();
    ghost var was := l.Nodes;
    var _ := l.RemoveCurrent();
    ConsistencyAfterRemoval(l, was, 0);
  }
}
