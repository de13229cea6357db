/**
 * One playlist entry: the song's data, the two links the list classes
 * rewrite in place, and the "is current" flag re-tagged on every
 * enumeration.
 */
module Node {

  class SongNode {
    // The song data is never reassigned after construction.
    const title: string
    const artist: string
    const duration: string

    var next: SongNode?
    var prev: SongNode?
    var isCurrent: bool

    /** A fresh node keeps its data exactly and starts unlinked and not current. */
    constructor (title: string, artist: string, duration: string)
      ensures this.title == title && this.artist == artist && this.duration == duration
      ensures next == null && prev == null
      ensures !isCurrent
    {
      this.title := title;
      this.artist := artist;
      this.duration := duration;
      next := null;
      prev := null;
      isCurrent := false;
    }
  }

  /** No node occurs twice in `s`. */
  ghost predicate Distinct(s: seq<SongNode>) {
    forall i, j :: 0 <= i < j < |s| ==> s[i] != s[j]
  }

  /** The position of `x` in `s`; the only one when `s` is distinct. */
  ghost function IndexOf(s: seq<SongNode>, x: SongNode): (k: nat)
    requires x in s
    ensures k < |s| && s[k] == x
    ensures Distinct(s) ==> forall j :: 0 <= j < |s| && s[j] == x ==> j == k
  {
    var k :| 0 <= k < |s| && s[k] == x; k
  }

  /** `s` with its `k`-th entry taken out, the rest in order. */
  ghost function Without(s: seq<SongNode>, k: nat): (r: seq<SongNode>)
    requires k < |s|
    ensures |r| == |s| - 1
    ensures forall j {:trigger r[j]} :: 0 <= j < k ==> r[j] == s[j]
    ensures forall j :: k <= j < |r| ==> r[j] == s[j + 1]
    ensures Distinct(s) ==> Distinct(r) && s[k] !in r
  {
    s[..k] + s[k + 1..]
  }
}
