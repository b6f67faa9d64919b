/**
  The cursor of the consecutive view: a position into an underlying
  sequence together with a lookahead position one step ahead of it, and a
  flag that marks the end sentinel.

  Positions are indices into the underlying sequence. A range is the
  half-open interval of positions [b, e) with b <= e; its elements sit at
  b, b + 1, ..., e - 1.
 */
module ConsecutiveIterator {

  /** `cur` is the current position, `nxt` the lookahead, `isEnd` marks the sentinel. */
  datatype Cursor = Cursor(cur: nat, nxt: nat, isEnd: bool)

  /** The number of adjacent pairs in a range of `n` elements: max(n - 1, 0). */
  function PairCount(n: nat): nat
  {
    if n == 0 then 0 else n - 1
  }

  // ---------------------------------------------------------------------
  // The cursors a range can produce
  // ---------------------------------------------------------------------

  /** A live cursor reachable from the begin cursor of [b, e): on an empty
      range both positions sit at `b`; otherwise the lookahead is one step
      ahead of the current position and at most `e`. */
  predicate IsLive(c: Cursor, b: nat, e: nat)
  {
    && !c.isEnd
    && b <= c.cur <= e
    && if b == e then c.nxt == c.cur else c.cur < e && c.nxt == c.cur + 1
  }

  /** The end sentinel of a range ending at `e`. */
  predicate IsSentinel(c: Cursor, e: nat)
  {
    c.isEnd && c.cur == e && c.nxt == e
  }

  /** A cursor that belongs to the range [b, e). */
  predicate Valid(c: Cursor, b: nat, e: nat)
  {
    b <= e && (IsLive(c, b, e) || IsSentinel(c, e))
  }

  /** The index, counted from the start of the range, of the pair a cursor
      stands on; the sentinel stands one past the last pair. This is the
      reference against which equality and distance are judged. */
  function Rank(c: Cursor, b: nat, e: nat): nat
    requires Valid(c, b, e)
  {
    if c.isEnd then PairCount(e - b) else c.cur - b
  }

  // ---------------------------------------------------------------------
  // Operations
  // ---------------------------------------------------------------------

  /** Live cursor from the begin and end positions of a range; the
      lookahead stays at `b` when the range is empty. */
  function MakeBegin(b: nat, e: nat): (r: Cursor)
    requires b <= e
    ensures !r.isEnd && r.cur == b
    ensures b == e ==> r.nxt == b
    ensures b < e ==> r.nxt == b + 1
    ensures IsLive(r, b, e) && Rank(r, b, e) == 0
  {
    Cursor(b, if b != e then b + 1 else b, false)
  }

  /** End sentinel from the end position of a range. */
  function MakeEnd(e: nat): (r: Cursor)
    ensures r.isEnd && r.cur == e && r.nxt == e
  {
    Cursor(e, e, true)
  }

  /** One step forward: both positions move, the flag stays. Advancing the
      sentinel is a caller contract violation. */
  function Advance(c: Cursor): (r: Cursor)
    requires !c.isEnd
    ensures r.cur == c.cur + 1 && r.nxt == c.nxt + 1 && r.isEnd == c.isEnd
  {
    Cursor(c.cur + 1, c.nxt + 1, c.isEnd)
  }

  /** The pair (element at the current position, element at the lookahead). */
  function Deref<T>(s: seq<T>, c: Cursor): (T, T)
    requires c.cur < |s| && c.nxt < |s|
  {
    (s[c.cur], s[c.nxt])
  }

  /** Equality with its three branches. Two cursors of the same kind compare
      their current positions; a live cursor compared with a sentinel
      compares its lookahead. The flags are booleans, so when they differ one
      of them is set and the fall-through after the last branch is dead. */
  function Eq(a: Cursor, b: Cursor): bool
  {
    if a.isEnd == b.isEnd then a.cur == b.cur
    else if b.isEnd then a.nxt == b.cur
    else if a.isEnd then a.cur == b.nxt
    else assert false; false
  }

  /** Inequality. */
  function Neq(a: Cursor, b: Cursor): (r: bool)
    ensures r <==> !Eq(a, b)
  {
    !Eq(a, b)
  }

  /** Distance: the difference of the lookahead positions. */
  function Dist(a: Cursor, b: Cursor): int
  {
    a.nxt - b.nxt
  }

  /** `k` successive advances. */
  function AdvanceN(c: Cursor, k: nat): (r: Cursor)
    requires !c.isEnd
    ensures !r.isEnd && r.cur == c.cur + k && r.nxt == c.nxt + k
    decreases k
  {
    if k == 0 then c else AdvanceN(Advance(c), k - 1)
  }

  // ---------------------------------------------------------------------
  // Lemmas
  // ---------------------------------------------------------------------

  /** The begin cursor equals the end sentinel right away exactly when the
      range holds fewer than two elements. */
  lemma BeginIsEndIffShort(b: nat, e: nat)
    requires b <= e
    ensures Eq(MakeBegin(b, e), MakeEnd(e)) <==> e - b <= 1
    ensures Eq(MakeEnd(e), MakeBegin(b, e)) <==> e - b <= 1
  {
  }

  /** The sentinel belongs to every range ending at `e` and stands one past
      its last pair. */
  lemma SentinelRank(b: nat, e: nat)
    requires b <= e
    ensures Valid(MakeEnd(e), b, e) && Rank(MakeEnd(e), b, e) == PairCount(e - b)
  {
  }

  /** Advancing a live cursor that is not at the end yields a live cursor of
      the same range, one pair further on. */
  lemma AdvanceKeepsLive(c: Cursor, b: nat, e: nat)
    requires IsLive(c, b, e) && Neq(c, MakeEnd(e))
    ensures IsLive(Advance(c), b, e)
    ensures Advance(c).nxt == Advance(c).cur + 1
    ensures Rank(Advance(c), b, e) == Rank(c, b, e) + 1
  {
  }

  /** A live cursor that is not at the end can be dereferenced: both of its
      positions are in bounds, and the lookahead is the next element. */
  lemma NotAtEndInBounds(c: Cursor, b: nat, e: nat)
    requires IsLive(c, b, e) && Neq(c, MakeEnd(e))
    ensures b <= c.cur < e && c.nxt < e && c.nxt == c.cur + 1
    ensures Rank(c, b, e) < PairCount(e - b)
  {
  }

  /** Two cursors of the same kind are equal iff their current positions are. */
  lemma EqSameKind(a: Cursor, c: Cursor)
    requires a.isEnd == c.isEnd
    ensures Eq(a, c) <==> a.cur == c.cur
  {
  }

  /** A live cursor and a sentinel, in either order, are equal iff the live
      cursor's lookahead is the sentinel's position. */
  lemma EqLiveWithSentinel(l: Cursor, t: Cursor)
    requires !l.isEnd && t.isEnd
    ensures Eq(l, t) <==> l.nxt == t.cur
    ensures Eq(t, l) <==> l.nxt == t.cur
  {
  }

  /** Equality is reflexive. */
  lemma EqReflexive(a: Cursor)
    ensures Eq(a, a)
  {
  }

  /** Equality is symmetric, for any two cursors. */
  lemma EqSymmetric(a: Cursor, c: Cursor)
    ensures Eq(a, c) <==> Eq(c, a)
  {
  }

  /** On the cursors of one range, equality is exactly equality of rank:
      two cursors are equal iff they stand on the same pair. */
  lemma EqIsRankEquality(x: Cursor, y: Cursor, b: nat, e: nat)
    requires Valid(x, b, e) && Valid(y, b, e)
    ensures Eq(x, y) <==> Rank(x, b, e) == Rank(y, b, e)
  {
  }

  /** Inequality is rank inequality on the cursors of one range. */
  lemma NeqIsRankInequality(x: Cursor, y: Cursor, b: nat, e: nat)
    requires Valid(x, b, e) && Valid(y, b, e)
    ensures Neq(x, y) <==> Rank(x, b, e) != Rank(y, b, e)
  {
    EqIsRankEquality(x, y, b, e);
  }

  /** Equality is transitive on the cursors of one range. */
  lemma EqTransitive(x: Cursor, y: Cursor, z: Cursor, b: nat, e: nat)
    requires Valid(x, b, e) && Valid(y, b, e) && Valid(z, b, e)
    requires Eq(x, y) && Eq(y, z)
    ensures Eq(x, z)
  {
    EqIsRankEquality(x, y, b, e);
    EqIsRankEquality(y, z, b, e);
    EqIsRankEquality(x, z, b, e);
  }

  /** Transitivity needs the common range: the last live cursor of [0, 1]
      and the live cursor of the empty range [1, 1] both equal the sentinel
      at 1, yet differ from each other. */
  lemma EqNeedsCommonRange()
    ensures Eq(MakeBegin(0, 1), MakeEnd(1))
    ensures Eq(MakeEnd(1), MakeBegin(1, 1))
    ensures !Eq(MakeBegin(0, 1), MakeBegin(1, 1))
  {
  }

  /** On the cursors of one range, distance is the difference of ranks. */
  lemma DistIsRankDifference(x: Cursor, y: Cursor, b: nat, e: nat)
    requires Valid(x, b, e) && Valid(y, b, e)
    ensures Dist(x, y) == Rank(x, b, e) - Rank(y, b, e)
  {
  }

  /** The distance from the begin cursor to the end sentinel is the number
      of pairs of the range, max(e - b - 1, 0). */
  lemma DistBeginToEnd(b: nat, e: nat)
    requires b <= e
    ensures Dist(MakeEnd(e), MakeBegin(b, e)) == PairCount(e - b)
    ensures Dist(MakeEnd(e), MakeBegin(b, e)) == if e - b >= 1 then e - b - 1 else 0
  {
  }

  /** Advancing the begin cursor `k` times visits the k-th live cursor:
      it is not at the end for k below the pair count, dereferences to
      the k-th adjacent pair, and reaches the end exactly at the pair count. */
  lemma TraversalVisits<T>(s: seq<T>, k: nat)
    requires k <= PairCount(|s|)
    ensures IsLive(AdvanceN(MakeBegin(0, |s|), k), 0, |s|)
    ensures Rank(AdvanceN(MakeBegin(0, |s|), k), 0, |s|) == k
    ensures Eq(AdvanceN(MakeBegin(0, |s|), k), MakeEnd(|s|)) <==> k == PairCount(|s|)
    ensures k < PairCount(|s|) ==> Deref(s, AdvanceN(MakeBegin(0, |s|), k)) == (s[k], s[k + 1])
  {
  }
}
