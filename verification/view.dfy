/**
  The view factory: wraps the begin cursor and the end sentinel of an
  underlying sequence into a range of adjacent pairs, and the for-each
  protocol ("while not equal to end: dereference, advance") over it.
 */
module View {
  import opened ConsecutiveIterator

  /** The (begin, end) pair of cursors handed out by the factory. */
  datatype PairRange = PairRange(first: Cursor, last: Cursor)

  /** Reference definition: the adjacent pairs of `s`, the i-th being
      (s[i], s[i + 1]). */
  function AdjacentPairs<T>(s: seq<T>): seq<(T, T)>
  {
    seq(PairCount(|s|), i requires 0 <= i < PairCount(|s|) => (s[i], s[i + 1]))
  }

  /** The factory: begin cursor over the whole sequence, and its sentinel. */
  function Consecutive<T>(s: seq<T>): (v: PairRange)
    ensures IsLive(v.first, 0, |s|) && IsSentinel(v.last, |s|)
    ensures v.first.cur == 0 && Rank(v.first, 0, |s|) == 0
    ensures Eq(v.first, v.last) <==> |s| <= 1
  {
    PairRange(MakeBegin(0, |s|), MakeEnd(|s|))
  }

  /** The pairs a traversal yields from live cursor `c` until it equals the
      sentinel `last`: one pair per dereference, one advance per step. */
  function Collect<T>(s: seq<T>, c: Cursor, last: Cursor): (r: seq<(T, T)>)
    requires IsLive(c, 0, |s|) && IsSentinel(last, |s|)
    ensures |r| == Dist(last, c)
    ensures forall i :: 0 <= i < |r| ==> c.cur + i + 1 < |s| && r[i] == (s[c.cur + i], s[c.cur + i + 1])
    decreases |s| - c.nxt
  {
    if Eq(c, last) then []
    else
      NotAtEndInBounds(c, 0, |s|);
      AdvanceKeepsLive(c, 0, |s|);
      [Deref(s, c)] + Collect(s, Advance(c), last)
  }

  /** Everything the view over `s` yields: max(|s| - 1, 0) pairs, the i-th
      being (s[i], s[i + 1]). */
  function Elements<T>(s: seq<T>): (r: seq<(T, T)>)
    ensures |r| == PairCount(|s|)
    ensures forall i :: 0 <= i < |r| ==> r[i] == (s[i], s[i + 1])
  {
    var v := Consecutive(s);
    Collect(s, v.first, v.last)
  }

  /** The view yields exactly the reference list of adjacent pairs. */
  lemma ElementsAreAdjacentPairs<T>(s: seq<T>)
    ensures Elements(s) == AdjacentPairs(s)
  {
  }

  /** The distance from the view's begin to its end is the number of pairs
      a traversal yields. */
  lemma ViewDistanceIsPairCount<T>(s: seq<T>)
    ensures Dist(Consecutive(s).last, Consecutive(s).first) == |Elements(s)| == PairCount(|s|)
  {
    DistBeginToEnd(0, |s|);
  }

  /** The for-each loop over the view, written as the caller writes it. */
  method Traverse<T>(s: seq<T>) returns (pairs: seq<(T, T)>)
    ensures |pairs| == PairCount(|s|)
    ensures forall i :: 0 <= i < |pairs| ==> pairs[i] == (s[i], s[i + 1])
    ensures pairs == AdjacentPairs(s) == Elements(s)
  {
    var v := Consecutive(s);
    var it := v.first;
    pairs := [];
    while Neq(it, v.last)
      invariant IsLive(it, 0, |s|)
      invariant |pairs| == it.cur
      invariant forall i :: 0 <= i < |pairs| ==> pairs[i] == (s[i], s[i + 1])
      decreases |s| - it.nxt
    {
      NotAtEndInBounds(it, 0, |s|);
      AdvanceKeepsLive(it, 0, |s|);
      pairs := pairs + [Deref(s, it)];
      it := Advance(it);
    }
    assert it.cur == PairCount(|s|);
    ElementsAreAdjacentPairs(s);
  }

  /** Input [1, 2, 3, 4, 5, 6] yields five pairs. */
  lemma ExampleSix()
    ensures Elements([1, 2, 3, 4, 5, 6]) == [(1, 2), (2, 3), (3, 4), (4, 5), (5, 6)]
  {
  }

  /** The empty input yields nothing. */
  lemma ExampleEmpty()
    ensures Elements<int>([]) == []
  {
  }

  /** A single element yields nothing. */
  lemma ExampleSingleton()
    ensures Elements([7]) == []
  {
  }

  /** Two elements yield the single pair. */
  lemma ExampleTwo()
    ensures Elements(["a", "b"]) == [("a", "b")]
  {
  }
}
