/** What replay protection is for, stated on sets of sequence numbers: one window
    remembers the set it has recorded, and the guard keeps one such set per stream.
    The bitmap of srp/replay.py is an encoding of that set (`Encode`). */
module ReplaySpec {
  import opened Basics
  import opened Bits

  datatype ReplayVerdict = FRESH | DUPLICATE | TOO_OLD | INVALID

  datatype StreamKey = StreamKey(sessionId: Bytes, streamId: int)

  /** Per-stream recorded sets; the domain is the set of tracked streams. */
  type GuardView = map<StreamKey, set<nat>>

  /** The largest member, or -1 for the empty set. */
  ghost function Highest(a: set<nat>): (h: int)
    ensures h >= -1
    ensures h == -1 <==> a == {}
    ensures a != {} ==> h in a
    ensures forall x :: x in a ==> x <= h
  {
    if a == {} then -1
    else
      HighestExists(a);
      var h :| h in a && forall x :: x in a ==> x <= h;
      h
  }

  lemma {:induction false} HighestExists(a: set<nat>)
    requires a != {}
    ensures exists h :: h in a && forall x :: x in a ==> x <= h
  {
    var y :| y in a;
    if a != {y} {
      HighestExists(a - {y});
      var h :| h in a - {y} && forall x :: x in a - {y} ==> x <= h;
      var top := if h >= y then h else y;
      assert top in a && forall x :: x in a ==> x <= top by {
        assert forall x :: x in a ==> x == y || x in a - {y};
      }
    }
  }

  // ---- One window ----

  /** The set-based classification: ahead is fresh, `size` or more behind is too
      old, and inside the window a number is a duplicate iff it was recorded. */
  ghost function Classify(size: nat, a: set<nat>, seqNo: int): ReplayVerdict {
    if seqNo < 0 then INVALID
    else if seqNo > Highest(a) then FRESH
    else if Highest(a) - seqNo >= size then TOO_OLD
    else if seqNo in a then DUPLICATE
    else FRESH
  }

  ghost function Record(size: nat, a: set<nat>, seqNo: int): set<nat> {
    if Classify(size, a, seqNo) == FRESH then a + {seqNo} else a
  }

  lemma HighestAfterInsert(a: set<nat>, x: nat)
    ensures Highest(a + {x}) == Max(Highest(a), x)
  {
    assert x in a + {x};
  }

  lemma HighestMonotone(a: set<nat>, b: set<nat>)
    requires a <= b
    ensures Highest(a) <= Highest(b)
  {}

  // ---- The bitmap as an encoding of the recorded set ----

  /** The number whose digit i says whether top - i is in `a`, for i < n. */
  ghost function EncodeDown(a: set<nat>, top: int, n: nat): nat
    decreases n
  {
    if n == 0 then 0
    else 2 * EncodeDown(a, top - 1, n - 1) + if top in a then 1 else 0
  }

  /** The bitmap that stands for `a`.  A window of size 0 still keeps bit 0. */
  ghost function Encode(size: nat, a: set<nat>): nat {
    EncodeDown(a, Highest(a), if size == 0 then 1 else size)
  }

  lemma {:induction false} EncodeDownBit(a: set<nat>, top: int, n: nat, i: nat)
    ensures Bit(EncodeDown(a, top, n), i) <==> i < n && top - i in a
    decreases n
  {
    if n == 0 {
      BitOfZero(i);
    } else if i > 0 {
      EncodeDownBit(a, top - 1, n - 1, i - 1);
    }
  }

  /** Bitmap refinement: digit i of the bitmap is set exactly when Highest - i was
      recorded and lies inside the window. */
  lemma EncodeBit(size: nat, a: set<nat>, i: nat)
    ensures Bit(Encode(size, a), i) <==> InWindow(size, a, i)
  {
    EncodeDownBit(a, Highest(a), if size == 0 then 1 else size, i);
  }

  ghost predicate InWindow(size: nat, a: set<nat>, i: nat) {
    i < Max(1, size) && Highest(a) - i in a
  }

  /** The bitmap is the only number with that meaning. */
  lemma EncodeUnique(bitmap: nat, size: nat, a: set<nat>)
    requires forall i: nat :: Bit(bitmap, i) <==> InWindow(size, a, i)
    ensures bitmap == Encode(size, a)
  {
    forall i: nat ensures Bit(bitmap, i) == Bit(Encode(size, a), i) {
      EncodeBit(size, a, i);
    }
    SameBits(bitmap, Encode(size, a));
  }

  /** Sliding the digits up by `shift`, setting digit 0 and keeping `size` digits
      moves the window up to a new highest number. */
  lemma AdvanceBitmap(size: nat, a: set<nat>, seqNo: nat, slid: nat)
    requires a != {} && 0 < seqNo - Highest(a) < size
    requires forall i: nat :: Bit(slid, i) <==>
                              i < size && (i == 0 || (i >= seqNo - Highest(a)
                                                      && Bit(Encode(size, a), i - (seqNo - Highest(a)))))
    ensures slid == Encode(size, a + {seqNo})
  {
    var shift: nat := seqNo - Highest(a);
    HighestAfterInsert(a, seqNo);
    forall i: nat ensures Bit(slid, i) <==> InWindow(size, a + {seqNo}, i) {
      if i >= shift {
        EncodeBit(size, a, i - shift);
        assert Highest(a) - (i - shift) == seqNo - i;
      }
    }
    EncodeUnique(slid, size, a + {seqNo});
  }

  /** The window-advancing expression of `commit` encodes the enlarged set. */
  lemma SlideUpdate(size: nat, a: set<nat>, seqNo: nat, bitmap: nat, shift: nat)
    requires a != {} && bitmap == Encode(size, a)
    requires shift == seqNo - Highest(a) && 0 < shift < size
    ensures And(Or(Shl(bitmap, shift), 1), Mask(size)) == Encode(size, a + {seqNo})
  {
    BitsOfSlide(bitmap, shift, size);
    AdvanceBitmap(size, a, seqNo, And(Or(Shl(bitmap, shift), 1), Mask(size)));
  }

  /** The bit-setting expression of `commit` encodes the enlarged set. */
  lemma MarkUpdate(size: nat, a: set<nat>, seqNo: nat, bitmap: nat, diff: nat)
    requires bitmap == Encode(size, a)
    requires diff == Highest(a) - seqNo && diff < size
    ensures Or(bitmap, Shl(1, diff)) == Encode(size, a + {seqNo})
  {
    BitsOfMark(bitmap, diff);
    InsertBitmap(size, a, seqNo, Or(bitmap, Shl(1, diff)));
  }

  /** When nothing but the highest number lies in the window, the bitmap is 1. */
  lemma EncodeOfLeader(size: nat, a: set<nat>)
    requires a != {}
    requires forall x :: x in a && x != Highest(a) ==> Highest(a) - x >= size
    ensures Encode(size, a) == 1
  {
    forall i: nat ensures Bit(1, i) <==> InWindow(size, a, i) {
      BitOne(i);
    }
    EncodeUnique(1, size, a);
  }

  /** Setting one more digit records one number inside the window. */
  lemma InsertBitmap(size: nat, a: set<nat>, seqNo: nat, marked: nat)
    requires seqNo <= Highest(a) && Highest(a) - seqNo < size
    requires forall i: nat :: Bit(marked, i) <==> Bit(Encode(size, a), i) || i == Highest(a) - seqNo
    ensures marked == Encode(size, a + {seqNo})
  {
    HighestAfterInsert(a, seqNo);
    forall i: nat ensures Bit(marked, i) <==> InWindow(size, a + {seqNo}, i) {
      EncodeBit(size, a, i);
    }
    EncodeUnique(marked, size, a + {seqNo});
  }

  /** Bitmap bounds: a non-empty window of size >= 1 has bit 0 set, fits in
      min(size, highest + 1) bits, and masking it with `size` ones is the identity. */
  lemma BitmapBounds(size: nat, a: set<nat>)
    requires a != {} && size >= 1
    ensures Bit(Encode(size, a), 0)
    ensures Encode(size, a) < Shl(1, Min(size, Highest(a) + 1))
    ensures And(Encode(size, a), Mask(size)) == Encode(size, a)
  {
    EncodeBit(size, a, 0);
    forall n: nat | n == size || n == Highest(a) + 1 ensures Encode(size, a) < Shl(1, n) {
      forall i: nat | i >= n ensures !Bit(Encode(size, a), i) {
        EncodeBit(size, a, i);
      }
      FitsInBits(Encode(size, a), n);
    }
    MaskIsIdentity(Encode(size, a), size);
  }

  /** No more bits are set than numbers were recorded. */
  lemma PopcountBound(size: nat, a: set<nat>)
    ensures Popcount(Encode(size, a)) <= |a|
  {
    var n := if size == 0 then 1 else size;
    PopcountOfEncodeDown(a, Highest(a), n);
    SubsetSize((set x | x in a && Highest(a) - n < x <= Highest(a)), a);
  }

  lemma PopcountOfDigits(x: nat, b: bool)
    ensures Popcount(2 * x + if b then 1 else 0) == Popcount(x) + if b then 1 else 0
  {}

  lemma {:induction false} PopcountOfEncodeDown(a: set<nat>, top: int, n: nat)
    ensures Popcount(EncodeDown(a, top, n)) == |set x | x in a && top - n < x <= top|
    decreases n
  {
    var here := set x | x in a && top - n < x <= top;
    if n == 0 {
      assert here == {};
    } else {
      var rest := set x | x in a && top - 1 - (n - 1) < x <= top - 1;
      PopcountOfEncodeDown(a, top - 1, n - 1);
      PopcountOfDigits(EncodeDown(a, top - 1, n - 1), top in a);
      assert here == if top in a then rest + {top} else rest;
    }
  }

  lemma {:induction false} SubsetSize<T>(a: set<T>, b: set<T>)
    requires a <= b
    ensures |a| <= |b|
  {
    assert b == a + (b - a);
  }

  // ---- Sequences of commits on one window ----

  /** `a` is what a window of this size keeps of the set `c` of all numbers ever
      committed: the same maximum, and everything of `c` inside the window. */
  ghost predicate Keeps(size: nat, a: set<nat>, c: set<nat>) {
    && a <= c
    && Highest(a) == Highest(c)
    && forall x :: x in c && Highest(c) - x < size ==> x in a
  }

  ghost function Committed(xs: seq<int>): set<nat> {
    set x | x in xs && x >= 0
  }

  ghost function RecordAll(size: nat, xs: seq<int>): set<nat> {
    if xs == [] then {} else Record(size, RecordAll(size, xs[..|xs| - 1]), xs[|xs| - 1])
  }

  lemma RecordAllAppend(size: nat, xs: seq<int>, x: int)
    ensures RecordAll(size, xs + [x]) == Record(size, RecordAll(size, xs), x)
  {
    assert (xs + [x])[..|xs + [x]| - 1] == xs;
  }

  lemma KeepsStep(size: nat, a: set<nat>, c: set<nat>, x: int)
    requires Keeps(size, a, c)
    ensures Keeps(size, Record(size, a, x), if x >= 0 then c + {x} else c)
  {
    if x >= 0 {
      HighestAfterInsert(c, x);
      HighestAfterInsert(a, x);
    }
  }

  lemma {:induction false} RecordAllKeeps(size: nat, xs: seq<int>)
    ensures Keeps(size, RecordAll(size, xs), Committed(xs))
  {
    if xs != [] {
      var init, last := xs[..|xs| - 1], xs[|xs| - 1];
      RecordAllKeeps(size, init);
      KeepsStep(size, RecordAll(size, init), Committed(init), last);
      assert xs == init + [last];
      assert Committed(xs) == if last >= 0 then Committed(init) + {last} else Committed(init);
    }
  }

  /** What a window keeps is indistinguishable from everything committed: the
      same bitmap, and the same answer to every query. */
  lemma KeepsIsEnough(size: nat, a: set<nat>, c: set<nat>)
    requires Keeps(size, a, c)
    ensures Encode(size, a) == Encode(size, c)
    ensures forall seqNo: int :: Classify(size, a, seqNo) == Classify(size, c, seqNo)
  {
    forall i: nat ensures Bit(Encode(size, a), i) <==> InWindow(size, c, i) {
      EncodeBit(size, a, i);
    }
    EncodeUnique(Encode(size, a), size, c);
  }

  /** Commit confluence: highest number and bitmap depend only on which values
      were committed, not on their order or repetition, although each order may
      drop different stale values. */
  lemma CommitConfluence(size: nat, xs: seq<int>, ys: seq<int>)
    requires Committed(xs) == Committed(ys)
    ensures Highest(RecordAll(size, xs)) == Highest(RecordAll(size, ys))
    ensures Encode(size, RecordAll(size, xs)) == Encode(size, RecordAll(size, ys))
  {
    RecordAllKeeps(size, xs);
    RecordAllKeeps(size, ys);
    KeepsIsEnough(size, RecordAll(size, xs), Committed(xs));
    KeepsIsEnough(size, RecordAll(size, ys), Committed(ys));
  }

  // ---- Verdicts over time ----

  function Age(v: ReplayVerdict): nat {
    match v
    case FRESH => 0
    case DUPLICATE => 1
    case TOO_OLD => 2
    case INVALID => 3
  }

  /** As the recorded set grows, the verdict on a fixed number only moves along
      FRESH, DUPLICATE, TOO_OLD, and INVALID never changes. */
  lemma VerdictsOnlyAge(size: nat, a: set<nat>, b: set<nat>, seqNo: int)
    requires a <= b
    ensures Age(Classify(size, a, seqNo)) <= Age(Classify(size, b, seqNo))
    ensures Classify(size, a, seqNo) == INVALID <==> Classify(size, b, seqNo) == INVALID
  {
    HighestMonotone(a, b);
  }

  // ---- The guard: one recorded set per stream, at most `cap` streams ----

  ghost function GuardClassify(size: nat, cap: int, g: GuardView, key: StreamKey, seqNo: int): ReplayVerdict {
    if key in g then Classify(size, g[key], seqNo)
    else if |g| >= cap || seqNo < 0 then INVALID
    else FRESH
  }

  /** A commit on an untracked stream starts tracking it, unless the cap is
      reached; a negative number then leaves an empty window behind. */
  ghost function GuardRecord(size: nat, cap: int, g: GuardView, key: StreamKey, seqNo: int): GuardView {
    if key in g then g[key := Record(size, g[key], seqNo)]
    else if |g| >= cap then g
    else g[key := Record(size, {}, seqNo)]
  }

  /** `check` says FRESH exactly when `commit` would record the number; otherwise
      the guard is left alone, except for the empty window of a negative number. */
  lemma CommitFollowsCheck(size: nat, cap: int, g: GuardView, key: StreamKey, seqNo: int)
    ensures var g' := GuardRecord(size, cap, g, key, seqNo);
            if GuardClassify(size, cap, g, key, seqNo) == FRESH then
              seqNo >= 0 && g' == g[key := (if key in g then g[key] else {}) + {seqNo}]
              && (key in g ==> seqNo !in g[key])
            else if key !in g && |g| < cap then
              seqNo < 0 && g' == g[key := {}]
            else g' == g
  {
    if key in g {
      FreshIsNew(size, g[key], seqNo);
      PutSame(g, key);
    }
  }

  lemma FreshIsNew(size: nat, a: set<nat>, seqNo: int)
    ensures Classify(size, a, seqNo) == FRESH ==> seqNo >= 0 && seqNo !in a
  {}

  lemma PutSame<K, V>(m: map<K, V>, k: K)
    requires k in m
    ensures m[k := m[k]] == m
  {}
}
