/** Streams of records read from a file by a function that says what stands at an offset.
    Everything here holds for any such function, so it serves both the byte-level reader and
    the decoded records of the storage engine. */
module Streams {
  import opened Folds

  datatype Outcome<+P, +R> = EndOfFile | Corrupt(reason: R) | Record(end: nat, payload: P)
  datatype Rec<+P> = Rec(start: nat, end: nat, payload: P)

  /** A valid record at `i` that makes progress and ends no later than `j`. */
  predicate Steps<P, R>(next: nat -> Outcome<P, R>, i: nat, j: nat) {
    next(i).Record? && i < next(i).end <= j
  }

  /** Valid records lie end to end from `i` to exactly `j`. */
  predicate Reach<P, R>(next: nat -> Outcome<P, R>, i: nat, j: nat)
    decreases j - i
  {
    i == j || (Steps(next, i, j) && Reach(next, next(i).end, j))
  }

  /** The valid records from `i` that end no later than `j`. */
  function Scan<P, R>(next: nat -> Outcome<P, R>, i: nat, j: nat): seq<Rec<P>>
    decreases j - i
  {
    if Steps(next, i, j) then [Rec(i, next(i).end, next(i).payload)] + Scan(next, next(i).end, j) else []
  }

  /** The end of the longest run of valid records from `i` within the first `size` bytes. */
  function Extent<P, R>(next: nat -> Outcome<P, R>, i: nat, size: nat): (e: nat)
    ensures e >= i
    decreases size - i
  {
    if Steps(next, i, size) then Extent(next, next(i).end, size) else i
  }

  lemma {:induction false} ReachOrder<P, R>(next: nat -> Outcome<P, R>, i: nat, j: nat)
    requires Reach(next, i, j)
    ensures i <= j
  {
  }

  lemma {:induction false} ReachConcat<P, R>(next: nat -> Outcome<P, R>, i: nat, j: nat, k: nat)
    requires Reach(next, i, j) && Reach(next, j, k)
    ensures Reach(next, i, k) && Scan(next, i, k) == Scan(next, i, j) + Scan(next, j, k)
    decreases j - i
  {
    ReachOrder(next, j, k);
    if i != j {
      ReachConcat(next, next(i).end, j, k);
    } else if Steps(next, i, i) {
      assert false;
    }
  }

  /** Where no record stands, scanning on finds nothing more. */
  lemma {:induction false} ScanStops<P, R>(next: nat -> Outcome<P, R>, i: nat, j: nat, size: nat)
    requires Reach(next, i, j) && !next(j).Record? && j <= size
    ensures Scan(next, i, size) == Scan(next, i, j)
    decreases j - i
  {
    if i != j {
      ReachOrder(next, next(i).end, j);
      ScanStops(next, next(i).end, j, size);
    }
  }

  /** Two runs from the same place: the longer one passes through the end of the shorter. */
  lemma {:induction false} ReachSplit<P, R>(next: nat -> Outcome<P, R>, i: nat, j: nat, k: nat)
    requires Reach(next, i, j) && Reach(next, i, k) && j <= k
    ensures Reach(next, j, k)
    decreases j - i
  {
    if i != j {
      ReachOrder(next, next(i).end, j);
      ReachSplit(next, next(i).end, j, k);
    }
  }

  /** A reader that agrees on all records ending by `j` sees the same run up to `j`. */
  lemma {:induction false} ReachAgrees<P, R>(next: nat -> Outcome<P, R>, other: nat -> Outcome<P, R>, i: nat, j: nat)
    requires forall p: nat {:trigger other(p)} {:trigger next(p)} :: Steps(next, p, j) ==> other(p) == next(p)
    requires Reach(next, i, j)
    ensures Reach(other, i, j) && Scan(other, i, j) == Scan(next, i, j)
    decreases j - i
  {
    if i != j {
      assert other(i) == next(i);
      ReachAgrees(next, other, next(i).end, j);
    } else {
      assert !Steps(next, i, j) && !Steps(other, i, j);
    }
  }

  lemma {:induction false} ExtentReached<P, R>(next: nat -> Outcome<P, R>, i: nat, size: nat)
    ensures var e := Extent(next, i, size); Reach(next, i, e) && !Steps(next, e, size) && (i <= size ==> e <= size)
    decreases size - i
  {
    if Steps(next, i, size) {
      ExtentReached(next, next(i).end, size);
      ReachOrder(next, next(i).end, Extent(next, i, size));
    }
  }

  /** No run leads beyond the extent, and a run that nothing continues leads exactly there. */
  lemma {:induction false} ExtentIsFurthest<P, R>(next: nat -> Outcome<P, R>, i: nat, j: nat, size: nat)
    requires Reach(next, i, j) && j <= size
    ensures Reach(next, j, Extent(next, i, size))
    ensures j <= Extent(next, i, size) == Extent(next, j, size)
    decreases j - i
  {
    if i == j {
      ExtentReached(next, i, size);
    } else {
      ReachOrder(next, next(i).end, j);
      ExtentIsFurthest(next, next(i).end, j, size);
    }
  }

  // ----- Tilings, stated without reference to the scan

  /** The records lie end to end from `from`, each of them what stands at its start. */
  predicate Tiles<P(==), R(==)>(next: nat -> Outcome<P, R>, from: nat, recs: seq<Rec<P>>)
    decreases |recs|
  {
    recs != [] ==>
      && recs[0].start == from
      && next(from) == Record(recs[0].end, recs[0].payload)
      && Tiles(next, recs[0].end, recs[1..])
  }

  function EndOf<P>(from: nat, recs: seq<Rec<P>>): nat {
    if recs == [] then from else recs[|recs| - 1].end
  }

  lemma {:induction false} TilesAppend<P, R>(next: nat -> Outcome<P, R>, from: nat, xs: seq<Rec<P>>, ys: seq<Rec<P>>)
    requires Tiles(next, from, xs) && Tiles(next, EndOf(from, xs), ys)
    ensures Tiles(next, from, xs + ys) && EndOf(from, xs + ys) == EndOf(EndOf(from, xs), ys)
    decreases |xs|
  {
    if xs == [] {
      assert xs + ys == ys;
    } else {
      assert (xs + ys)[1..] == xs[1..] + ys;
      assert EndOf(from, xs) == EndOf(xs[0].end, xs[1..]);
      TilesAppend(next, xs[0].end, xs[1..], ys);
    }
  }

  /** Every tiling is a prefix of one that cannot be continued. */
  lemma {:induction false} MaximalIsLongest<P, R>(
    next: nat -> Outcome<P, R>, from: nat, recs: seq<Rec<P>>, other: seq<Rec<P>>)
    requires Tiles(next, from, recs) && Tiles(next, from, other)
    requires !next(EndOf(from, recs)).Record?
    ensures other <= recs
    decreases |other|
  {
    if other != [] {
      if recs == [] { assert false; }
      assert recs[0] == other[0];
      assert EndOf(from, recs) == EndOf(recs[0].end, recs[1..]);
      MaximalIsLongest(next, recs[0].end, recs[1..], other[1..]);
      assert recs == [recs[0]] + recs[1..] && other == [other[0]] + other[1..];
    }
  }

  lemma MaximalIsUnique<P, R>(next: nat -> Outcome<P, R>, from: nat, recs: seq<Rec<P>>, other: seq<Rec<P>>)
    requires Tiles(next, from, recs) && Tiles(next, from, other)
    requires !next(EndOf(from, recs)).Record? && !next(EndOf(from, other)).Record?
    ensures recs == other
  {
    MaximalIsLongest(next, from, recs, other);
    MaximalIsLongest(next, from, other, recs);
  }

  // ----- Writing payloads one after the other

  /** Where the payloads come to lie when their frames are written end to end from `base`. */
  function Placed<P, B>(frame: P -> seq<B>, base: nat, payloads: seq<P>): (recs: seq<Rec<P>>)
    ensures |recs| == |payloads|
    decreases |payloads|
  {
    if payloads == [] then []
    else
      var end := base + |frame(payloads[0])|;
      [Rec(base, end, payloads[0])] + Placed(frame, end, payloads[1..])
  }

  lemma {:induction false} PlacedEnd<P, B>(frame: P -> seq<B>, base: nat, payloads: seq<P>)
    ensures EndOf(base, Placed(frame, base, payloads)) == base + |Expand(frame, payloads)|
    decreases |payloads|
  {
    if payloads != [] {
      var end := base + |frame(payloads[0])|;
      var rest := Placed(frame, end, payloads[1..]);
      PlacedEnd(frame, end, payloads[1..]);
      EndOfCons(base, Rec(base, end, payloads[0]), rest);
    }
  }

  lemma EndOfCons<P>(from: nat, first: Rec<P>, rest: seq<Rec<P>>)
    ensures EndOf(from, [first] + rest) == EndOf(first.end, rest)
  {
  }

  lemma {:induction false} PlacedPayload<P, B>(frame: P -> seq<B>, base: nat, payloads: seq<P>, k: nat)
    requires k < |payloads|
    ensures Placed(frame, base, payloads)[k].payload == payloads[k]
    decreases k
  {
    if k > 0 { PlacedPayload(frame, base + |frame(payloads[0])|, payloads[1..], k - 1); }
  }

  lemma {:induction false} PlacedConcat<P, B>(frame: P -> seq<B>, base: nat, xs: seq<P>, ys: seq<P>)
    ensures Placed(frame, base, xs + ys) == Placed(frame, base, xs) + Placed(frame, base + |Expand(frame, xs)|, ys)
    decreases |xs|
  {
    if xs == [] {
      assert xs + ys == ys;
    } else {
      assert (xs + ys)[1..] == xs[1..] + ys;
      PlacedConcat(frame, base + |frame(xs[0])|, xs[1..], ys);
    }
  }

  lemma PrefixSplits<B>(x: seq<B>, y: seq<B>, s: seq<B>)
    requires x + y <= s
    ensures x <= s && y <= s[|x|..]
  {
    assert x == (x + y)[..|x|] == s[..|x|];
    assert y == (x + y)[|x|..] == s[|x|..][..|y|];
  }

  /** If the reader recognises each single frame wherever it stands, it recognises all of them end to end. */
  lemma {:induction false} FramesTile<P, R, B>(
    next: nat -> Outcome<P, R>, frame: P -> seq<B>, b: seq<B>, base: nat, payloads: seq<P>)
    requires forall p, at: nat {:trigger frame(p), next(at)} ::
               p in payloads && at <= |b| && frame(p) <= b[at..] ==> next(at) == Record(at + |frame(p)|, p)
    requires base <= |b| && Expand(frame, payloads) <= b[base..]
    ensures Tiles(next, base, Placed(frame, base, payloads))
    decreases |payloads|
  {
    if payloads != [] {
      var p := payloads[0];
      var end := base + |frame(p)|;
      PrefixSplits(frame(p), Expand(frame, payloads[1..]), b[base..]);
      assert next(base) == Record(end, p);
      assert b[base..][|frame(p)|..] == b[end..];
      FramesTile(next, frame, b, end, payloads[1..]);
      var rest := Placed(frame, end, payloads[1..]);
      assert Placed(frame, base, payloads) == [Rec(base, end, p)] + rest;
      assert Placed(frame, base, payloads)[1..] == rest;
    }
  }

  /** A reader that recognises each frame and stops at the end returns exactly what was written. */
  lemma ReadsBack<P, R, B>(
    next: nat -> Outcome<P, R>, frame: P -> seq<B>, b: seq<B>, base: nat, payloads: seq<P>, recs: seq<Rec<P>>)
    requires forall p, at: nat {:trigger frame(p), next(at)} ::
               p in payloads && at <= |b| && frame(p) <= b[at..] ==> next(at) == Record(at + |frame(p)|, p)
    requires base <= |b| && b[base..] == Expand(frame, payloads)
    requires !next(|b|).Record?
    requires Tiles(next, base, recs) && !next(EndOf(base, recs)).Record?
    ensures recs == Placed(frame, base, payloads) && EndOf(base, recs) == |b|
  {
    FramesTile(next, frame, b, base, payloads);
    PlacedEnd(frame, base, payloads);
    MaximalIsUnique(next, base, recs, Placed(frame, base, payloads));
  }

  /** When nothing readable follows the frames, exactly they are read. */
  lemma ReadsUpTo<P, R, B>(
    next: nat -> Outcome<P, R>, frame: P -> seq<B>, b: seq<B>, payloads: seq<P>, recs: seq<Rec<P>>)
    requires forall p, at: nat {:trigger frame(p), next(at)} ::
               p in payloads && at <= |b| && frame(p) <= b[at..] ==> next(at) == Record(at + |frame(p)|, p)
    requires Expand(frame, payloads) <= b[0..]
    requires !next(|Expand(frame, payloads)|).Record?
    requires Tiles(next, 0, recs) && !next(EndOf(0, recs)).Record?
    ensures recs == Placed(frame, 0, payloads) && EndOf(0, recs) == |Expand(frame, payloads)|
  {
    FramesTile(next, frame, b, 0, payloads);
    PlacedEnd(frame, 0, payloads);
    MaximalIsUnique(next, 0, recs, Placed(frame, 0, payloads));
  }
}
