/** The replay window and guard of srp/replay.py: a bitmap per stream, updated in
    place, proved to behave as the recorded sets of ReplaySpec. */
module Replay {
  import opened Basics
  import opened Bits
  import opened ReplaySpec

  /** The parts of WindowSnapshot.describe: the range line and its binary digits,
      most significant first. */
  datatype Description =
    | EmptyWindow(size: nat)
    | WindowState(highest: nat, low: nat, accepted: nat, digits: seq<bool>)

  datatype WindowSnapshot = WindowSnapshot(highestSeq: int, windowSize: nat, accepted: nat, bitmap: nat) {

    function Describe(): Description {
      if highestSeq < 0 then EmptyWindow(windowSize)
      else
        var low: nat := Max(0, highestSeq - windowSize + 1);
        var width: nat := Min(windowSize, highestSeq + 1);
        WindowState(highestSeq, low, accepted, PaddedBinary(And(bitmap, Mask(width)), width))
    }
  }

  lemma DescribeEncoded(s: WindowSnapshot, a: set<nat>)
    requires s.windowSize >= 1 && a != {}
    requires s.highestSeq == Highest(a) && s.bitmap == Encode(s.windowSize, a)
    ensures s.Describe().WindowState?
    ensures var d := s.Describe();
            && |d.digits| == d.highest - d.low + 1
            && forall j: nat :: j < |d.digits| ==> (d.digits[j] <==> d.low + j in a)
  {
    var width: nat := Min(s.windowSize, s.highestSeq + 1);
    var d := s.Describe();
    BitmapBounds(s.windowSize, a);
    MaskIsIdentity(s.bitmap, width);
    PaddedBinaryShowsBits(s.bitmap, width);
    assert d.digits == PaddedBinary(s.bitmap, width);
    forall j: nat | j < width ensures d.digits[j] <==> d.low + j in a {
      DigitShows(s.windowSize, a, width, j);
    }
  }

  lemma DigitShows(size: nat, a: set<nat>, width: nat, j: nat)
    requires j < width <= size && Encode(size, a) < Shl(1, width)
    ensures PaddedBinary(Encode(size, a), width)[j] <==> Highest(a) - (width - 1 - j) in a
  {
    PaddedBinaryShowsBits(Encode(size, a), width);
    EncodeBit(size, a, width - 1 - j);
  }

  class ReplayWindow {
    const size: nat
    const mask: nat
    var highestSeq: int
    var bitmap: nat
    var accepted: nat
    /** Every argument `Commit` was ever given, oldest first. */
    ghost var history: seq<int>
    /** The numbers recorded so far. */
    ghost var recorded: set<nat>

    ghost predicate Valid()
      reads this
    {
      && mask == Mask(size)
      && recorded == RecordAll(size, history)
      && highestSeq == Highest(recorded)
      && bitmap == Encode(size, recorded)
      && accepted == |recorded|
    }

    constructor (size: nat)
      ensures Valid() && this.size == size
      ensures history == [] && recorded == {}
    {
      this.size := size;
      this.mask := Mask(size);
      highestSeq, bitmap, accepted := -1, 0, 0;
      history, recorded := [], {};
      new;
      forall i: nat ensures Bit(0, i) <==> InWindow(size, {}, i) {
        BitOfZero(i);
      }
      EncodeUnique(0, size, {});
    }

    /** The pre-authentication query: the set-based classification, computed from
        the bitmap alone. */
    function Check(seqNo: int): (v: ReplayVerdict)
      reads this
      requires Valid()
      ensures v == Classify(size, recorded, seqNo)
      ensures v == INVALID <==> seqNo < 0
      ensures v == FRESH <==>
              seqNo >= 0 && (seqNo > Highest(recorded) || (seqNo !in recorded && Highest(recorded) - seqNo < size))
      ensures v == DUPLICATE <==> seqNo in recorded && Highest(recorded) - seqNo < size
      ensures v == TOO_OLD <==> 0 <= seqNo <= Highest(recorded) - size
    {
      if seqNo < 0 then INVALID
      else if highestSeq < 0 then FRESH
      else if seqNo > highestSeq then FRESH
      else
        var diff: nat := highestSeq - seqNo;
        if diff >= size then TOO_OLD
        else
          assert Bit(bitmap, diff) <==> seqNo in recorded by {
            EncodeBit(size, recorded, diff);
          }
          SingleBitTest(bitmap, diff);
          if And(bitmap, Shl(1, diff)) != 0 then DUPLICATE else FRESH
    }

    /** Membership as far back as the window reaches; the same as `Check`
        answering DUPLICATE. */
    function Seen(seqNo: int): (b: bool)
      reads this
      requires Valid()
      ensures b <==> seqNo in recorded && Highest(recorded) - seqNo < size
      ensures b <==> Check(seqNo) == DUPLICATE
    {
      if highestSeq < 0 || seqNo < 0 then false
      else if seqNo > highestSeq then false
      else
        var diff: nat := highestSeq - seqNo;
        if diff >= size then false
        else
          assert Bit(bitmap, diff) <==> seqNo in recorded by {
            EncodeBit(size, recorded, diff);
          }
          SingleBitTest(bitmap, diff);
          And(bitmap, Shl(1, diff)) != 0
    }

    /** Record a number; reports whether the state changed. */
    method Commit(seqNo: int) returns (changed: bool)
      requires Valid()
      modifies this
      ensures Valid()
      ensures changed <==> Classify(size, old(recorded), seqNo) == FRESH
      ensures recorded == if changed then old(recorded) + {seqNo} else old(recorded)
      ensures history == old(history) + [seqNo]
      ensures !changed ==> highestSeq == old(highestSeq) && bitmap == old(bitmap) && accepted == old(accepted)
    {
      ghost var before := recorded;
      history := history + [seqNo];
      RecordAllAppend(size, old(history), seqNo);
      if seqNo < 0 {
        return false;
      }
      if highestSeq < 0 || seqNo > highestSeq {
        HighestAfterInsert(before, seqNo);
        if highestSeq >= 0 {
          var shift: nat := seqNo - highestSeq;
          if shift >= size {
            EncodeOfLeader(size, before + {seqNo});
            bitmap := 1;
          } else {
            SlideUpdate(size, before, seqNo, bitmap, shift);
            bitmap := And(Or(Shl(bitmap, shift), 1), mask);
          }
        } else {
          EncodeOfLeader(size, before + {seqNo});
          bitmap := 1;
        }
        highestSeq := seqNo;
        accepted := accepted + 1;
        recorded := recorded + {seqNo};
        return true;
      }

      var diff: nat := highestSeq - seqNo;
      if diff >= size {
        return false;
      }

      var bit := Shl(1, diff);
      SingleBitTest(bitmap, diff);
      EncodeBit(size, before, diff);
      if And(bitmap, bit) != 0 {
        return false;
      }

      HighestAfterInsert(before, seqNo);
      MarkUpdate(size, before, seqNo, bitmap, diff);
      bitmap := Or(bitmap, bit);
      accepted := accepted + 1;
      recorded := recorded + {seqNo};
      return true;
    }

    function Snapshot(): WindowSnapshot
      reads this
      requires Valid()
    {
      WindowSnapshot(highestSeq, size, accepted, And(bitmap, mask))
    }

    /** After any sequence of commits the highest number is the largest value
        committed, and bit i says whether highest - i was committed. */
    lemma BitmapRefinesHistory()
      requires Valid()
      ensures highestSeq == Highest(Committed(history))
      ensures forall i: nat :: i < size ==> (Bit(bitmap, i) <==> highestSeq - i in Committed(history))
    {
      RecordAllKeeps(size, history);
      forall i: nat | i < size ensures Bit(bitmap, i) <==> highestSeq - i in Committed(history) {
        EncodeBit(size, recorded, i);
      }
    }

    /** Two windows of one size that were given the same values, in whatever order
        and however often, hold the same highest number and the same bitmap. */
    static lemma Confluence(v: ReplayWindow, w: ReplayWindow)
      requires v.Valid() && w.Valid() && v.size == w.size
      requires Committed(v.history) == Committed(w.history)
      ensures v.highestSeq == w.highestSeq && v.bitmap == w.bitmap
    {
      CommitConfluence(v.size, v.history, w.history);
    }

    /** Every reachable non-empty window of size >= 1 has its newest bit set, fits
        in min(size, highest + 1) bits and counts at least its set bits, so taking
        a snapshot masks nothing away. */
    lemma Bounds()
      requires Valid() && highestSeq >= 0 && size >= 1
      ensures Bit(bitmap, 0)
      ensures bitmap < Shl(1, Min(size, highestSeq + 1))
      ensures Popcount(bitmap) <= accepted
      ensures Snapshot().bitmap == bitmap
    {
      BitmapBounds(size, recorded);
      PopcountBound(size, recorded);
    }

    /** What a snapshot shows: the highest number accepted, how many were, and the
        bitmap as it is, except that a window of size 0 shows none. */
    lemma SnapshotShows()
      requires Valid()
      ensures Snapshot() == WindowSnapshot(Highest(recorded), size, |recorded|, if size == 0 then 0 else bitmap)
    {
      if size == 0 {
        assert mask == 0;
      } else if highestSeq >= 0 {
        Bounds();
      } else {
        assert bitmap == 0 by {
          forall i: nat ensures Bit(0, i) <==> InWindow(size, recorded, i) {
            BitOfZero(i);
          }
          EncodeUnique(0, size, recorded);
        }
      }
    }

    /** The rendering of a non-empty window prints one digit per number of its
        stated range, and each digit says whether that number was recorded. */
    lemma DescribeShowsRecorded()
      requires Valid() && highestSeq >= 0 && size >= 1
      ensures var d := Snapshot().Describe();
              && d.WindowState?
              && d.highest == Highest(recorded)
              && d.low == Max(0, d.highest - size + 1)
              && d.accepted == |recorded|
              && |d.digits| == d.highest - d.low + 1
              && forall j: nat :: j < |d.digits| ==> (d.digits[j] <==> d.low + j in recorded)
    {
      Bounds();
      DescribeEncoded(Snapshot(), recorded);
    }

    /** A window is rendered as empty exactly while it has recorded nothing, and then
        with its own size. */
    lemma DescribeEmpty()
      requires Valid()
      ensures Snapshot().Describe().EmptyWindow? <==> recorded == {}
      ensures recorded == {} ==> Snapshot().Describe() == EmptyWindow(size)
    {}

    /** The exception: a non-empty window of size 0 states an empty range and
        still prints one digit, so one digit per number holds iff size >= 1. */
    lemma DescribeDigitCount()
      requires Valid() && highestSeq >= 0
      ensures var d := Snapshot().Describe();
              |d.digits| == d.highest - d.low + 1 <==> size >= 1
    {
      if size >= 1 {
        DescribeShowsRecorded();
      } else {
        assert Mask(0) == 0;
        assert Snapshot().Describe().digits == BinaryDigits(0);
      }
    }
  }

  lemma PutTwice<K, V>(m: map<K, V>, k: K, v: V, w: V)
    ensures m[k := v][k := w] == m[k := w]
  {}

  class ReplayGuard {
    const windowSize: nat
    const maxStreams: int
    var streams: map<StreamKey, ReplayWindow>

    /** What each tracked stream has recorded so far. */
    ghost var view: GuardView
    /** The windows this guard owns. */
    ghost var windows: set<ReplayWindow>

    /** Distinct streams have distinct windows, all of the configured size. */
    ghost predicate Valid()
      reads this, windows
    {
      && view.Keys == streams.Keys
      && (forall k :: k in streams ==> streams[k] in windows)
      && (forall k :: k in streams ==>
          streams[k].Valid() && streams[k].size == windowSize && streams[k].recorded == view[k])
      && (forall k, l :: k in streams && l in streams && k != l ==> streams[k] != streams[l])
    }

    constructor (windowSize: nat, maxStreams: int)
      ensures Valid() && streams == map[] && view == map[] && windows == {}
      ensures this.windowSize == windowSize && this.maxStreams == maxStreams
    {
      this.windowSize := windowSize;
      this.maxStreams := maxStreams;
      streams, view, windows := map[], map[], {};
    }

    /** The number of tracked streams, as the abstract view counts them. */
    lemma ViewSize()
      requires view.Keys == streams.Keys
      ensures |view| == |streams|
    {
      assert |view| == |view.Keys| && |streams| == |streams.Keys|;
    }

    function Check(key: StreamKey, seqNo: int): (v: ReplayVerdict)
      reads this, windows
      requires Valid()
      ensures v == GuardClassify(windowSize, maxStreams, view, key, seqNo)
    {
      ViewSize();
      if key !in streams then
        if |streams| >= maxStreams then INVALID
        else if seqNo < 0 then INVALID
        else FRESH
      else streams[key].Check(seqNo)
    }

    /** A tracked stream's own window answers; any other stream is fresh below the
        cap, for a number that is not negative, and invalid otherwise. */
    lemma CheckExactly(key: StreamKey, seqNo: int)
      requires Valid()
      ensures Check(key, seqNo) ==
                if key in streams then streams[key].Check(seqNo)
                else if |streams| < maxStreams && seqNo >= 0 then FRESH
                else INVALID
    {}

    /** The post-authentication update.  The windows of other streams keep their
        identity and their contents. */
    method Commit(key: StreamKey, seqNo: int) returns (changed: bool)
      requires Valid()
      modifies this, windows
      ensures Valid() && forall w :: w in windows ==> w in old(windows) || fresh(w)
      ensures view == GuardRecord(windowSize, maxStreams, old(view), key, seqNo)
      ensures changed <==> GuardClassify(windowSize, maxStreams, old(view), key, seqNo) == FRESH
      ensures forall k :: k in old(streams) ==> k in streams && streams[k] == old(streams[k])
      ensures forall k :: k in old(streams) && k != key ==> unchanged(old(streams[k]))
    {
      ViewSize();
      if key in streams {
        changed := CommitTracked(key, seqNo);
      } else if |streams| >= maxStreams {
        changed := false;
      } else {
        changed := CommitNew(key, seqNo);
      }
    }

    /** The first commit on a stream gives it a window of its own. */
    method CommitNew(key: StreamKey, seqNo: int) returns (changed: bool)
      requires Valid() && key !in streams
      modifies this
      ensures Valid() && forall w :: w in windows ==> w in old(windows) || fresh(w)
      ensures view == old(view)[key := Record(windowSize, {}, seqNo)]
      ensures changed <==> Classify(windowSize, {}, seqNo) == FRESH
      ensures forall k :: k in old(streams) ==> k in streams && streams[k] == old(streams[k])
    {
      Track(key);
      PutTwice(old(view), key, {}, Record(windowSize, {}, seqNo));
      changed := CommitTracked(key, seqNo);
    }

    /** Start an empty window for a new stream. */
    method Track(key: StreamKey)
      requires Valid() && key !in streams
      modifies this
      ensures Valid() && view == old(view)[key := {}]
      ensures key in streams && fresh(streams[key])
      ensures forall w :: w in windows ==> w in old(windows) || fresh(w)
      ensures forall k :: k in old(streams) ==> k in streams && streams[k] == old(streams[k])
    {
      var window := new ReplayWindow(windowSize);
      streams, view, windows := streams[key := window], view[key := {}], windows + {window};
    }

    /** Commit on a stream that has a window, reaching into that window alone. */
    method CommitTracked(key: StreamKey, seqNo: int) returns (changed: bool)
      requires Valid() && key in streams
      modifies this`view, streams[key]
      ensures Valid()
      ensures view == old(view)[key := Record(windowSize, old(view[key]), seqNo)]
      ensures changed <==> Classify(windowSize, old(view[key]), seqNo) == FRESH
    {
      var window := streams[key];
      changed := window.Commit(seqNo);
      view := view[key := window.recorded];
    }

    /** Drops all replay state. */
    method Reset()
      modifies this
      ensures Valid() && view == map[]
    {
      streams, view, windows := map[], map[], {};
    }
  }
}
