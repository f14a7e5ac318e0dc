/** What a receiver keeps over whole runs of deliveries.  Every delivery brings its
    own decryption backend, so nothing here rests on the cryptography. */
module ReceiverRuns {
  import opened Basics
  import opened Header
  import opened Suites
  import opened ReplaySpec
  import opened ReceiverSpec

  datatype Delivery = Delivery(opener: Opener, wire: Bytes)

  /** The verdict on one delivery and the state it leaves. */
  datatype Observation = Observation(verdict: Verdict, after: ReceiverState)

  function Present(cfg: ReceiverConfig, d: Delivery): (x: Screened)
    ensures x.Candidate? ==> x.header.Valid()
  {
    Screen(cfg, d.opener, d.wire)
  }

  ghost function Observe(cfg: ReceiverConfig, st: ReceiverState, d: Delivery): Observation {
    Observation(Judge(cfg, st.guard, Present(cfg, d)), After(cfg, st, Present(cfg, d)))
  }

  ghost function Trace(cfg: ReceiverConfig, st: ReceiverState, ds: seq<Delivery>): (os: seq<Observation>)
    ensures |os| == |ds|
    decreases |ds|
  {
    if ds == [] then []
    else
      var o := Observe(cfg, st, ds[0]);
      [o] + Trace(cfg, o.after, ds[1..])
  }

  /** The state in which delivery i arrives; for i == |ds|, the final state. */
  ghost function StateAt(cfg: ReceiverConfig, st: ReceiverState, ds: seq<Delivery>, i: nat): ReceiverState
    requires i <= |ds|
  {
    if i == 0 then st else Trace(cfg, st, ds)[i - 1].after
  }

  lemma TraceOfCons(cfg: ReceiverConfig, st: ReceiverState, d: Delivery, ds: seq<Delivery>)
    ensures Trace(cfg, st, [d] + ds) == [Observe(cfg, st, d)] + Trace(cfg, Observe(cfg, st, d).after, ds)
  {
    assert ([d] + ds)[1..] == ds;
  }

  lemma StateAtTail(cfg: ReceiverConfig, st: ReceiverState, ds: seq<Delivery>, i: nat)
    requires 0 < i <= |ds|
    ensures StateAt(cfg, st, ds, i) == StateAt(cfg, Observe(cfg, st, ds[0]).after, ds[1..], i - 1)
  {
    var o := Observe(cfg, st, ds[0]);
    var rest := Trace(cfg, o.after, ds[1..]);
    assert Trace(cfg, st, ds) == [o] + rest;
    if i > 1 {
      assert ([o] + rest)[i - 1] == rest[i - 2];
    }
  }

  lemma {:induction false} TraceStep(cfg: ReceiverConfig, st: ReceiverState, ds: seq<Delivery>, i: nat)
    requires i < |ds|
    ensures Trace(cfg, st, ds)[i] == Observe(cfg, StateAt(cfg, st, ds, i), ds[i])
    ensures StateAt(cfg, st, ds, i + 1) == Trace(cfg, st, ds)[i].after
    decreases |ds|
  {
    if i > 0 {
      var o := Observe(cfg, st, ds[0]);
      TraceStep(cfg, o.after, ds[1..], i - 1);
      StateAtTail(cfg, st, ds, i);
      assert Trace(cfg, st, ds)[i] == Trace(cfg, o.after, ds[1..])[i - 1];
      assert ds[i] == ds[1..][i - 1];
    }
  }

  lemma StateAtNext(cfg: ReceiverConfig, st: ReceiverState, ds: seq<Delivery>, i: nat)
    requires i < |ds|
    ensures StateAt(cfg, st, ds, i + 1) == After(cfg, StateAt(cfg, st, ds, i), Present(cfg, ds[i]))
  {
    TraceStep(cfg, st, ds, i);
  }

  predicate AcceptedAt(os: seq<Observation>, i: nat)
    requires i < |os|
  {
    os[i].verdict.Accepted() && os[i].verdict.header.Some?
  }

  function KeyAt(os: seq<Observation>, i: nat): StreamKey
    requires i < |os| && AcceptedAt(os, i)
  {
    KeyOf(os[i].verdict.header.value)
  }

  function SeqAt(os: seq<Observation>, i: nat): int
    requires i < |os| && AcceptedAt(os, i)
  {
    os[i].verdict.header.value.seqNo
  }

  // ---- Recorded numbers are never forgotten ----

  ghost predicate GuardGrows(g: GuardView, h: GuardView) {
    forall k :: k in g ==> k in h && g[k] <= h[k]
  }

  lemma GrowthChains(f: GuardView, g: GuardView, h: GuardView)
    requires GuardGrows(f, g) && GuardGrows(g, h)
    ensures GuardGrows(f, h)
  {}

  lemma StepGrows(cfg: ReceiverConfig, st: ReceiverState, x: Screened)
    requires x.Candidate? ==> x.header.Valid()
    ensures GuardGrows(st.guard, After(cfg, st, x).guard)
  {
    if Judge(cfg, st.guard, x).Accepted() {
      AcceptedStep(cfg, st, x);
    } else {
      RejectedStep(cfg, st, x);
    }
  }

  lemma GrowsAt(cfg: ReceiverConfig, st: ReceiverState, ds: seq<Delivery>, i: nat)
    requires i < |ds|
    ensures GuardGrows(StateAt(cfg, st, ds, i).guard, StateAt(cfg, st, ds, i + 1).guard)
  {
    StateAtNext(cfg, st, ds, i);
    StepGrows(cfg, StateAt(cfg, st, ds, i), Present(cfg, ds[i]));
  }

  lemma {:induction false} RunGrows(cfg: ReceiverConfig, st: ReceiverState, ds: seq<Delivery>, i: nat, j: nat)
    requires i <= j <= |ds|
    ensures GuardGrows(StateAt(cfg, st, ds, i).guard, StateAt(cfg, st, ds, j).guard)
    decreases j
  {
    if i < j {
      RunGrows(cfg, st, ds, i, j - 1);
      GrowsAt(cfg, st, ds, j - 1);
      GrowthChains(StateAt(cfg, st, ds, i).guard, StateAt(cfg, st, ds, j - 1).guard, StateAt(cfg, st, ds, j).guard);
    }
  }

  lemma AcceptedObservation(cfg: ReceiverConfig, st: ReceiverState, ds: seq<Delivery>, i: nat)
    requires i < |ds| && Trace(cfg, st, ds)[i].verdict.Accepted()
    ensures var os := Trace(cfg, st, ds);
            && AcceptedAt(os, i)
            && SeqAt(os, i) >= 0
            && SeqAt(os, i) !in RecordedOn(StateAt(cfg, st, ds, i).guard, KeyAt(os, i))
            && SeqAt(os, i) in RecordedOn(StateAt(cfg, st, ds, i + 1).guard, KeyAt(os, i))
  {
    TraceStep(cfg, st, ds, i);
    AcceptedStep(cfg, StateAt(cfg, st, ds, i), Present(cfg, ds[i]));
  }

  /** At most once: whatever the backends answer and wherever the run starts, no
      two accepted records share stream and sequence number. */
  lemma AtMostOnce(cfg: ReceiverConfig, st: ReceiverState, ds: seq<Delivery>, i: nat, j: nat)
    requires i < j < |ds|
    requires Trace(cfg, st, ds)[i].verdict.Accepted() && Trace(cfg, st, ds)[j].verdict.Accepted()
    ensures var os := Trace(cfg, st, ds);
            && AcceptedAt(os, i) && AcceptedAt(os, j)
            && (KeyAt(os, i) != KeyAt(os, j) || SeqAt(os, i) != SeqAt(os, j))
  {
    AcceptedObservation(cfg, st, ds, i);
    AcceptedObservation(cfg, st, ds, j);
    RunGrows(cfg, st, ds, i + 1, j);
  }

  /** Verdict monotonicity: on a tracked stream the highest number never falls,
      and the classification of a fixed number only ages. */
  lemma ClassificationOnlyAges(
    cfg: ReceiverConfig, st: ReceiverState, ds: seq<Delivery>, i: nat, j: nat, key: StreamKey, seqNo: int)
    requires i <= j <= |ds| && key in StateAt(cfg, st, ds, i).guard
    ensures var g, h := StateAt(cfg, st, ds, i).guard, StateAt(cfg, st, ds, j).guard;
            && key in h
            && Highest(g[key]) <= Highest(h[key])
            && Age(Classify(cfg.window, g[key], seqNo)) <= Age(Classify(cfg.window, h[key], seqNo))
  {
    RunGrows(cfg, st, ds, i, j);
    var g, h := StateAt(cfg, st, ds, i).guard, StateAt(cfg, st, ds, j).guard;
    HighestMonotone(g[key], h[key]);
    VerdictsOnlyAge(cfg.window, g[key], h[key], seqNo);
  }

  // ---- Rejected deliveries are stutters ----

  /** The members of a sequence that a mask keeps. */
  function Pick<T>(xs: seq<T>, keep: seq<bool>): seq<T>
    requires |xs| == |keep|
  {
    if xs == [] then []
    else (if keep[0] then [xs[0]] else []) + Pick(xs[1..], keep[1..])
  }

  lemma PickCons<T>(x: T, xs: seq<T>, b: bool, bs: seq<bool>)
    requires |xs| == |bs|
    ensures Pick([x] + xs, [b] + bs) == if b then [x] + Pick(xs, bs) else Pick(xs, bs)
  {
    assert ([x] + xs)[1..] == xs && ([b] + bs)[1..] == bs;
  }

  /** The same verdict, replay state and accepted-side counters. */
  ghost predicate SameOutside(o: Observation, p: Observation) {
    o.verdict == p.verdict && SameReplay(o.after, p.after)
  }

  ghost predicate SameReplay(s: ReceiverState, t: ReceiverState) {
    s.guard == t.guard && s.stats.accepted == t.stats.accepted && s.stats.plaintextBytes == t.stats.plaintextBytes
  }

  ghost predicate OnlyRejectionsDropped(os: seq<Observation>, keep: seq<bool>)
    requires |os| == |keep|
  {
    forall i :: 0 <= i < |os| && !keep[i] ==> !os[i].verdict.Accepted()
  }

  ghost predicate Matches(os: seq<Observation>, ps: seq<Observation>) {
    |os| == |ps| && forall i :: 0 <= i < |os| ==> SameOutside(os[i], ps[i])
  }

  lemma MatchesCons(o: Observation, os: seq<Observation>, p: Observation, ps: seq<Observation>)
    requires SameOutside(o, p) && Matches(os, ps)
    ensures Matches([o] + os, [p] + ps)
  {}

  lemma SameReplayAnswersAlike(cfg: ReceiverConfig, st: ReceiverState, tt: ReceiverState, d: Delivery)
    requires SameReplay(st, tt)
    ensures SameOutside(Observe(cfg, st, d), Observe(cfg, tt, d))
  {}

  lemma KeptStep(
    cfg: ReceiverConfig, st: ReceiverState, tt: ReceiverState, d: Delivery, ds: seq<Delivery>, keep: seq<bool>)
    requires |ds| == |keep| && SameReplay(st, tt)
    requires var o, p := Observe(cfg, st, d), Observe(cfg, tt, d);
             Matches(Pick(Trace(cfg, o.after, ds), keep), Trace(cfg, p.after, Pick(ds, keep)))
    ensures Matches(Pick(Trace(cfg, st, [d] + ds), [true] + keep), Trace(cfg, tt, Pick([d] + ds, [true] + keep)))
  {
    var o, p := Observe(cfg, st, d), Observe(cfg, tt, d);
    SameReplayAnswersAlike(cfg, st, tt, d);
    TraceOfCons(cfg, st, d, ds);
    PickCons(o, Trace(cfg, o.after, ds), true, keep);
    PickCons(d, ds, true, keep);
    TraceOfCons(cfg, tt, d, Pick(ds, keep));
    MatchesCons(o, Pick(Trace(cfg, o.after, ds), keep), p, Trace(cfg, p.after, Pick(ds, keep)));
  }

  lemma DroppedStep(
    cfg: ReceiverConfig, st: ReceiverState, tt: ReceiverState, d: Delivery, ds: seq<Delivery>, keep: seq<bool>)
    requires |ds| == |keep|
    requires Matches(Pick(Trace(cfg, Observe(cfg, st, d).after, ds), keep), Trace(cfg, tt, Pick(ds, keep)))
    ensures Matches(Pick(Trace(cfg, st, [d] + ds), [false] + keep), Trace(cfg, tt, Pick([d] + ds, [false] + keep)))
  {
    var o := Observe(cfg, st, d);
    TraceOfCons(cfg, st, d, ds);
    PickCons(o, Trace(cfg, o.after, ds), false, keep);
    PickCons(d, ds, false, keep);
  }

  /** Deleting any rejected deliveries from a run leaves every other verdict, the
      replay state after every remaining step and the accepted-side counters as
      they were. */
  lemma {:induction false} RejectionsAreStutters(
    cfg: ReceiverConfig, st: ReceiverState, tt: ReceiverState, ds: seq<Delivery>, keep: seq<bool>)
    requires |ds| == |keep| && SameReplay(st, tt)
    requires OnlyRejectionsDropped(Trace(cfg, st, ds), keep)
    ensures Matches(Pick(Trace(cfg, st, ds), keep), Trace(cfg, tt, Pick(ds, keep)))
    decreases |ds|
  {
    if ds != [] {
      var d, ds', b, keep' := ds[0], ds[1..], keep[0], keep[1..];
      var o := Observe(cfg, st, d);
      assert ds == [d] + ds' && keep == [b] + keep';
      TraceOfCons(cfg, st, d, ds');
      DroppedTail(o, Trace(cfg, o.after, ds'), b, keep');
      if b {
        SameReplayAnswersAlike(cfg, st, tt, d);
        RejectionsAreStutters(cfg, o.after, Observe(cfg, tt, d).after, ds', keep');
        KeptStep(cfg, st, tt, d, ds', keep');
      } else {
        RejectedStep(cfg, st, Present(cfg, d));
        RejectionsAreStutters(cfg, o.after, tt, ds', keep');
        DroppedStep(cfg, st, tt, d, ds', keep');
      }
    }
  }

  lemma DroppedTail(o: Observation, os: seq<Observation>, b: bool, bs: seq<bool>)
    requires |os| == |bs| && OnlyRejectionsDropped([o] + os, [b] + bs)
    ensures OnlyRejectionsDropped(os, bs) && (!b ==> !o.verdict.Accepted())
  {
    assert !b ==> !([o] + os)[0].verdict.Accepted();
    forall i | 0 <= i < |os| && !bs[i] ensures !os[i].verdict.Accepted() {
      assert ([o] + os)[i + 1] == os[i] && ([b] + bs)[i + 1] == bs[i];
    }
  }

  // ---- Streams do not disturb each other ----

  /** The stream a wire claims to belong to, if it can be read. */
  function StreamOf(wire: Bytes): Option<StreamKey> {
    match ParseRecord(wire)
    case Failure(_) => None
    case Success(record) => Some(KeyOf(record.header))
  }

  lemma CandidateStream(cfg: ReceiverConfig, d: Delivery)
    ensures Present(cfg, d).Candidate? ==> StreamOf(d.wire) == Some(KeyOf(Present(cfg, d).header))
  {}

  /** Both guards treat stream `key` alike: the same window, or room for one. */
  ghost predicate AlikeOn(key: StreamKey, cap: int, g: GuardView, h: GuardView) {
    if key in g then key in h && g[key] == h[key]
    else key !in h && |g| < cap && |h| < cap
  }

  lemma AlikeJudgesAlike(cfg: ReceiverConfig, key: StreamKey, st: ReceiverState, tt: ReceiverState, x: Screened)
    requires x.Candidate? ==> x.header.Valid() && KeyOf(x.header) == key
    requires AlikeOn(key, cfg.maxStreams, st.guard, tt.guard)
    ensures Judge(cfg, st.guard, x) == Judge(cfg, tt.guard, x)
    ensures AlikeOn(key, cfg.maxStreams, After(cfg, st, x).guard, After(cfg, tt, x).guard)
  {
    if x.Candidate? {
      assert GuardClassify(cfg.window, cfg.maxStreams, st.guard, key, x.header.seqNo)
          == GuardClassify(cfg.window, cfg.maxStreams, tt.guard, key, x.header.seqNo);
    }
    if Judge(cfg, st.guard, x).Accepted() {
      AcceptedStep(cfg, st, x);
      AcceptedStep(cfg, tt, x);
      AlikeAfterPut(key, cfg.maxStreams, st.guard, tt.guard, RecordedOn(st.guard, key) + {x.header.seqNo});
    } else {
      RejectedStep(cfg, st, x);
      RejectedStep(cfg, tt, x);
    }
  }

  lemma AlikeAfterPut(key: StreamKey, cap: int, g: GuardView, h: GuardView, s: set<nat>)
    ensures AlikeOn(key, cap, g[key := s], h[key := s])
  {}

  lemma RoomForOneMore<K, V>(g: map<K, V>, keys: set<K>, key: K)
    requires g.Keys <= keys && key in keys && key !in g
    ensures |g| < |keys|
  {
    assert |g| == |g.Keys|;
    assert g.Keys <= keys - {key};
    SubsetSize(g.Keys, keys - {key});
  }

  /** The delivery carries a record of stream `key` that opens. */
  predicate OpensOn(cfg: ReceiverConfig, d: Delivery, key: StreamKey) {
    var x := Present(cfg, d);
    x.Candidate? && x.recovered.Some? && KeyOf(x.header) == key
  }

  /** Every record that opens is of one of these streams; what other bytes claim
      does not matter. */
  ghost predicate StreamsWithin(cfg: ReceiverConfig, ds: seq<Delivery>, keys: set<StreamKey>) {
    forall d, k :: d in ds && OpensOn(cfg, d, k) ==> k in keys
  }

  /** Only streams of records that open can be tracked. */
  lemma StepStaysWithin(cfg: ReceiverConfig, st: ReceiverState, d: Delivery, keys: set<StreamKey>)
    requires st.guard.Keys <= keys
    requires forall k :: OpensOn(cfg, d, k) ==> k in keys
    ensures After(cfg, st, Present(cfg, d)).guard.Keys <= keys
  {
    if Judge(cfg, st.guard, Present(cfg, d)).Accepted() {
      AcceptedStep(cfg, st, Present(cfg, d));
      assert OpensOn(cfg, d, KeyOf(Present(cfg, d).header));
    } else {
      RejectedStep(cfg, st, Present(cfg, d));
    }
  }

  /** A delivery to another stream leaves `key` as it is. */
  lemma OtherStreamStep(cfg: ReceiverConfig, st: ReceiverState, d: Delivery, key: StreamKey)
    requires StreamOf(d.wire) != Some(key)
    ensures var g := After(cfg, st, Present(cfg, d)).guard;
            (key in g <==> key in st.guard) && (key in g ==> g[key] == st.guard[key])
  {
    CandidateStream(cfg, d);
    if Judge(cfg, st.guard, Present(cfg, d)).Accepted() {
      AcceptedStep(cfg, st, Present(cfg, d));
    } else {
      RejectedStep(cfg, st, Present(cfg, d));
    }
  }

  /** Which deliveries belong to one stream. */
  function OnStream(ds: seq<Delivery>, key: StreamKey): seq<bool> {
    seq(|ds|, i requires 0 <= i < |ds| => StreamOf(ds[i].wire) == Some(key))
  }

  lemma OnStreamCons(d: Delivery, ds: seq<Delivery>, key: StreamKey)
    ensures OnStream([d] + ds, key) == [StreamOf(d.wire) == Some(key)] + OnStream(ds, key)
  {}

  /** The same verdict, and the same window for one stream. */
  ghost predicate SameOn(key: StreamKey, o: Observation, p: Observation) {
    && o.verdict == p.verdict
    && RecordedOn(o.after.guard, key) == RecordedOn(p.after.guard, key)
    && (key in o.after.guard <==> key in p.after.guard)
  }

  ghost predicate MatchesOn(key: StreamKey, os: seq<Observation>, ps: seq<Observation>) {
    |os| == |ps| && forall i :: 0 <= i < |os| ==> SameOn(key, os[i], ps[i])
  }

  lemma MatchesOnCons(
    key: StreamKey, o: Observation, os: seq<Observation>, p: Observation, ps: seq<Observation>)
    requires SameOn(key, o, p) && MatchesOn(key, os, ps)
    ensures MatchesOn(key, [o] + os, [p] + ps)
  {}

  lemma {:induction false} StreamSimulation(
    cfg: ReceiverConfig, keys: set<StreamKey>, key: StreamKey, st: ReceiverState, tt: ReceiverState, ds: seq<Delivery>)
    requires key in keys && |keys| <= cfg.maxStreams && StreamsWithin(cfg, ds, keys)
    requires st.guard.Keys <= keys
    requires AlikeOn(key, cfg.maxStreams, st.guard, tt.guard)
    ensures MatchesOn(key, Pick(Trace(cfg, st, ds), OnStream(ds, key)), Trace(cfg, tt, Pick(ds, OnStream(ds, key))))
    decreases |ds|
  {
    if ds != [] {
      var d, ds' := ds[0], ds[1..];
      var o, keep' := Observe(cfg, st, d), OnStream(ds', key);
      var rest, b := Trace(cfg, o.after, ds'), StreamOf(d.wire) == Some(key);
      assert ds == [d] + ds';
      OnStreamCons(d, ds', key);
      TraceOfCons(cfg, st, d, ds');
      PickCons(d, ds', b, keep');
      PickCons(o, rest, b, keep');
      StepStaysWithin(cfg, st, d, keys);
      if b {
        var p := Observe(cfg, tt, d);
        CandidateStream(cfg, d);
        AlikeJudgesAlike(cfg, key, st, tt, Present(cfg, d));
        StreamSimulation(cfg, keys, key, o.after, p.after, ds');
        TraceOfCons(cfg, tt, d, Pick(ds', keep'));
        MatchesOnCons(key, o, Pick(rest, keep'), p, Trace(cfg, p.after, Pick(ds', keep')));
      } else {
        OtherStreamKeepsAlike(cfg, keys, key, st, tt, d);
        StreamSimulation(cfg, keys, key, o.after, tt, ds');
      }
    }
  }

  lemma OtherStreamKeepsAlike(
    cfg: ReceiverConfig, keys: set<StreamKey>, key: StreamKey, st: ReceiverState, tt: ReceiverState, d: Delivery)
    requires key in keys && |keys| <= cfg.maxStreams
    requires StreamOf(d.wire) != Some(key) && forall k :: OpensOn(cfg, d, k) ==> k in keys
    requires st.guard.Keys <= keys && AlikeOn(key, cfg.maxStreams, st.guard, tt.guard)
    ensures AlikeOn(key, cfg.maxStreams, After(cfg, st, Present(cfg, d)).guard, tt.guard)
  {
    OtherStreamStep(cfg, st, d, key);
    if key !in st.guard {
      StepStaysWithin(cfg, st, d, keys);
      RoomForOneMore(After(cfg, st, Present(cfg, d)).guard, keys, key);
    }
  }

  /** Stream independence: while the records that open are of no more than
      max_streams streams, counting this one, a stream's verdicts and its window
      after each of its deliveries are those of the run restricted to that stream,
      whatever streams unauthenticated bytes name. */
  lemma StreamIndependence(cfg: ReceiverConfig, keys: set<StreamKey>, key: StreamKey, ds: seq<Delivery>)
    requires key in keys && |keys| <= cfg.maxStreams && StreamsWithin(cfg, ds, keys)
    ensures MatchesOn(key, Pick(Trace(cfg, EMPTY_RECEIVER, ds), OnStream(ds, key)),
                      Trace(cfg, EMPTY_RECEIVER, Pick(ds, OnStream(ds, key))))
  {
    assert |keys| > 0 by {
      SubsetSize({key}, keys);
    }
    StreamSimulation(cfg, keys, key, EMPTY_RECEIVER, EMPTY_RECEIVER, ds);
  }
}
