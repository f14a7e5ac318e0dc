/** Bookkeeping over receiver runs: what the counters and the tracked windows add
    up to, and that the order of deliveries does not matter to the windows. */
module ReceiverLedger {
  import opened Basics
  import opened ReplaySpec
  import opened ReceiverSpec
  import opened ReceiverRuns

  // ---- Conservation ----

  /** How many numbers the streams of `keys` have recorded, summed. */
  ghost function SumOver(g: GuardView, keys: set<StreamKey>): nat {
    if keys == {} then 0
    else
      var k :| k in keys;
      |RecordedOn(g, k)| + SumOver(g, keys - {k})
  }

  lemma {:induction false} SumSplit(g: GuardView, keys: set<StreamKey>, k: StreamKey)
    requires k in keys
    ensures SumOver(g, keys) == |RecordedOn(g, k)| + SumOver(g, keys - {k})
  {
    var m :| m in keys && SumOver(g, keys) == |RecordedOn(g, m)| + SumOver(g, keys - {m});
    if m != k {
      SumSplit(g, keys - {m}, k);
      SumSplit(g, keys - {k}, m);
      assert keys - {m} - {k} == keys - {k} - {m};
    }
  }

  lemma {:induction false} SumDependsOnKeys(g: GuardView, h: GuardView, keys: set<StreamKey>)
    requires forall k :: k in keys ==> RecordedOn(g, k) == RecordedOn(h, k)
    ensures SumOver(g, keys) == SumOver(h, keys)
  {
    if keys != {} {
      var k :| k in keys;
      SumSplit(g, keys, k);
      SumSplit(h, keys, k);
      SumDependsOnKeys(g, h, keys - {k});
    }
  }

  /** The sum, over all tracked streams, of how many numbers each has recorded. */
  ghost function Total(g: GuardView): nat {
    SumOver(g, g.Keys)
  }

  /** Recording one new number adds one to the total. */
  lemma TotalAfterRecord(g: GuardView, key: StreamKey, x: nat)
    requires x !in RecordedOn(g, key)
    ensures Total(g[key := RecordedOn(g, key) + {x}]) == Total(g) + 1
  {
    var h := g[key := RecordedOn(g, key) + {x}];
    SumSplit(h, h.Keys, key);
    SumDependsOnKeys(g, h, h.Keys - {key});
    if key in g {
      SumSplit(g, g.Keys, key);
      assert h.Keys == g.Keys;
    } else {
      assert h.Keys - {key} == g.Keys;
    }
  }

  /** Stream `key` has recorded number x exactly when one of the first n verdicts
      accepted it. */
  ghost predicate AcceptedBefore(os: seq<Observation>, n: nat, key: StreamKey, x: int)
    requires n <= |os|
  {
    exists j: nat :: j < n && AcceptedAt(os, j) && KeyAt(os, j) == key && SeqAt(os, j) == x
  }

  /** What the receiver's books say after n deliveries from a fresh start. */
  ghost predicate Balanced(cfg: ReceiverConfig, st: ReceiverState, n: nat) {
    && Total(st.guard) == st.stats.accepted
    && st.stats.accepted + st.stats.RejectedTotal() == n
    && |st.guard| <= Max(0, cfg.maxStreams)
    && forall k :: k in st.guard ==> st.guard[k] != {}
  }

  lemma NothingIsBalanced(cfg: ReceiverConfig, st: ReceiverState)
    requires st.guard == map[] && st.stats.accepted == 0 && st.stats.RejectedTotal() == 0
    ensures Balanced(cfg, st, 0)
  {}

  lemma BalancedStep(cfg: ReceiverConfig, st: ReceiverState, x: Screened, n: nat)
    requires x.Candidate? ==> x.header.Valid()
    requires Balanced(cfg, st, n)
    ensures Balanced(cfg, After(cfg, st, x), n + 1)
  {
    if Judge(cfg, st.guard, x).Accepted() {
      AcceptedStep(cfg, st, x);
      var key := KeyOf(x.header);
      TotalAfterRecord(st.guard, key, x.header.seqNo);
      TrackedAfterRecord(st.guard, key, RecordedOn(st.guard, key) + {x.header.seqNo});
    } else {
      RejectedStep(cfg, st, x);
      RejectionCounted(st.stats, Judge(cfg, st.guard, x).reason.value);
    }
  }

  lemma RejectionCounted(stats: ReceiverTally, reason: RejectReason)
    ensures stats.NoteRejection(reason).RejectedTotal() == stats.RejectedTotal() + 1
  {}

  /** Conservation: the windows' accepted counts add up to the receiver's, accepted
      plus rejected is the number of deliveries, and the tracked streams, never
      more than the cap, have each accepted something. */
  lemma {:induction false} Conservation(cfg: ReceiverConfig, ds: seq<Delivery>, n: nat)
    requires n <= |ds|
    ensures Balanced(cfg, StateAt(cfg, EMPTY_RECEIVER, ds, n), n)
    decreases n
  {
    if n == 0 {
      NothingIsBalanced(cfg, EMPTY_RECEIVER);
    } else {
      Conservation(cfg, ds, n - 1);
      StateAtNext(cfg, EMPTY_RECEIVER, ds, n - 1);
      BalancedStep(cfg, StateAt(cfg, EMPTY_RECEIVER, ds, n - 1), Present(cfg, ds[n - 1]), n - 1);
    }
  }

  /** How many of the first n verdicts rejected for this reason. */
  function RejectedFor(os: seq<Observation>, n: nat, reason: RejectReason): nat
    requires n <= |os|
  {
    if n == 0 then 0
    else RejectedFor(os, n - 1, reason) + if os[n - 1].verdict.reason == Some(reason) then 1 else 0
  }

  /** How many plaintext bytes the first n verdicts released. */
  function Released(os: seq<Observation>, n: nat): nat
    requires n <= |os|
  {
    if n == 0 then 0
    else
      var p := os[n - 1].verdict.plaintext;
      Released(os, n - 1) + if p.Some? then |p.value| else 0
  }

  /** The counters count: per reason the verdicts that named it, and the bytes of
      the plaintexts released. */
  lemma {:induction false} CountersCount(cfg: ReceiverConfig, ds: seq<Delivery>, n: nat, reason: RejectReason)
    requires n <= |ds|
    ensures var os, stats := Trace(cfg, EMPTY_RECEIVER, ds), StateAt(cfg, EMPTY_RECEIVER, ds, n).stats;
            stats.Rejections(reason) == RejectedFor(os, n, reason) && stats.plaintextBytes == Released(os, n)
    decreases n
  {
    if n > 0 {
      CountersCount(cfg, ds, n - 1, reason);
      CountersNext(cfg, EMPTY_RECEIVER, ds, n - 1, reason);
    }
  }

  /** One delivery later, the counters have moved by its verdict. */
  lemma CountersNext(cfg: ReceiverConfig, st: ReceiverState, ds: seq<Delivery>, n: nat, reason: RejectReason)
    requires n < |ds|
    ensures var v, before, after :=
              Trace(cfg, st, ds)[n].verdict, StateAt(cfg, st, ds, n).stats, StateAt(cfg, st, ds, n + 1).stats;
            && after.Rejections(reason) == before.Rejections(reason) + (if v.reason == Some(reason) then 1 else 0)
            && after.plaintextBytes == before.plaintextBytes + if v.plaintext.Some? then |v.plaintext.value| else 0
  {
    TraceStep(cfg, st, ds, n);
    StepCounts(cfg, StateAt(cfg, st, ds, n), Present(cfg, ds[n]), reason);
  }

  lemma StepCounts(cfg: ReceiverConfig, st: ReceiverState, x: Screened, reason: RejectReason)
    ensures var v, after := Judge(cfg, st.guard, x), After(cfg, st, x).stats;
            && after.Rejections(reason) == st.stats.Rejections(reason) + (if v.reason == Some(reason) then 1 else 0)
            && after.plaintextBytes == st.stats.plaintextBytes + if v.plaintext.Some? then |v.plaintext.value| else 0
  {}

  /** One delivery later, a stream has recorded what it had and what was accepted. */
  lemma RecordedNext(cfg: ReceiverConfig, st: ReceiverState, ds: seq<Delivery>, n: nat, key: StreamKey, x: nat)
    requires n < |ds|
    ensures var os := Trace(cfg, st, ds);
            x in RecordedOn(StateAt(cfg, st, ds, n + 1).guard, key) <==>
            x in RecordedOn(StateAt(cfg, st, ds, n).guard, key)
            || (AcceptedAt(os, n) && KeyAt(os, n) == key && SeqAt(os, n) == x)
  {
    TraceStep(cfg, st, ds, n);
    ObservedRecords(cfg, StateAt(cfg, st, ds, n), ds[n], key, x);
  }

  lemma ObservedRecords(cfg: ReceiverConfig, st: ReceiverState, d: Delivery, key: StreamKey, x: nat)
    ensures var o := Observe(cfg, st, d);
            x in RecordedOn(o.after.guard, key) <==>
            x in RecordedOn(st.guard, key)
            || (o.verdict.Accepted() && o.verdict.header.Some?
                && KeyOf(o.verdict.header.value) == key && o.verdict.header.value.seqNo == x)
  {
    RecordsAfter(cfg, st, Present(cfg, d), key);
    AcceptedHeader(cfg, st.guard, Present(cfg, d));
  }

  lemma AcceptedHeader(cfg: ReceiverConfig, g: GuardView, x: Screened)
    ensures Judge(cfg, g, x).Accepted() ==> x.Candidate? && Judge(cfg, g, x).header == Some(x.header)
  {}

  /** The windows hold exactly the sequence numbers of the accepted records. */
  lemma {:induction false} RecordedIsAccepted(cfg: ReceiverConfig, ds: seq<Delivery>, n: nat, key: StreamKey, x: nat)
    requires n <= |ds|
    ensures x in RecordedOn(StateAt(cfg, EMPTY_RECEIVER, ds, n).guard, key)
            <==> AcceptedBefore(Trace(cfg, EMPTY_RECEIVER, ds), n, key, x)
    decreases n
  {
    if n > 0 {
      RecordedIsAccepted(cfg, ds, n - 1, key, x);
      RecordedNext(cfg, EMPTY_RECEIVER, ds, n - 1, key, x);
      AcceptedBeforeStep(Trace(cfg, EMPTY_RECEIVER, ds), n, key, x);
    }
  }

  lemma AcceptedBeforeStep(os: seq<Observation>, n: nat, key: StreamKey, x: int)
    requires 0 < n <= |os|
    ensures AcceptedBefore(os, n, key, x) <==>
            AcceptedBefore(os, n - 1, key, x)
            || (AcceptedAt(os, n - 1) && KeyAt(os, n - 1) == key && SeqAt(os, n - 1) == x)
  {}

  /** A stream is tracked exactly when one of its records was accepted. */
  lemma TrackedIffAccepted(cfg: ReceiverConfig, ds: seq<Delivery>, n: nat, key: StreamKey)
    requires n <= |ds|
    ensures key in StateAt(cfg, EMPTY_RECEIVER, ds, n).guard
            <==> exists x: nat :: AcceptedBefore(Trace(cfg, EMPTY_RECEIVER, ds), n, key, x)
  {
    var g := StateAt(cfg, EMPTY_RECEIVER, ds, n).guard;
    Conservation(cfg, ds, n);
    if key in g {
      var x :| x in g[key];
      RecordedIsAccepted(cfg, ds, n, key, x);
    }
    if x: nat :| AcceptedBefore(Trace(cfg, EMPTY_RECEIVER, ds), n, key, x) {
      RecordedIsAccepted(cfg, ds, n, key, x);
    }
  }

  // ---- Delivery order does not matter to the windows ----

  function NumberOf(cfg: ReceiverConfig, d: Delivery): nat {
    var x := Present(cfg, d);
    if x.Candidate? then x.header.seqNo else 0
  }

  /** The numbers of the records on `key` that open, accepted or not, in order. */
  function Numbers(cfg: ReceiverConfig, ds: seq<Delivery>, key: StreamKey): seq<int> {
    if ds == [] then []
    else
      var d := ds[|ds| - 1];
      Numbers(cfg, ds[..|ds| - 1], key) + if OpensOn(cfg, d, key) then [NumberOf(cfg, d)] else []
  }

  lemma NumbersSnoc(cfg: ReceiverConfig, ds: seq<Delivery>, d: Delivery, key: StreamKey)
    ensures RecordAll(cfg.window, Numbers(cfg, ds + [d], key))
            == if OpensOn(cfg, d, key)
               then Record(cfg.window, RecordAll(cfg.window, Numbers(cfg, ds, key)), NumberOf(cfg, d))
               else RecordAll(cfg.window, Numbers(cfg, ds, key))
  {
    assert (ds + [d])[..|ds|] == ds;
    RecordAllAppend(cfg.window, Numbers(cfg, ds, key), NumberOf(cfg, d));
    assert Numbers(cfg, ds, key) + [] == Numbers(cfg, ds, key);
  }

  lemma {:induction false} NumbersAre(cfg: ReceiverConfig, ds: seq<Delivery>, key: StreamKey, x: int)
    ensures x in Numbers(cfg, ds, key) <==> exists d :: d in ds && OpensOn(cfg, d, key) && NumberOf(cfg, d) == x
  {
    if ds != [] {
      var init, last := ds[..|ds| - 1], ds[|ds| - 1];
      NumbersAre(cfg, init, key, x);
      assert forall d :: d in ds <==> d in init || d == last;
    }
  }

  /** With room for the stream, a record that opens is recorded just as the
      window by itself would, and any other delivery leaves the stream alone. */
  lemma WindowStep(cfg: ReceiverConfig, st: ReceiverState, d: Delivery, key: StreamKey)
    requires key in st.guard || |st.guard| < cfg.maxStreams
    ensures RecordedOn(After(cfg, st, Present(cfg, d)).guard, key)
            == if OpensOn(cfg, d, key) then Record(cfg.window, RecordedOn(st.guard, key), NumberOf(cfg, d))
               else RecordedOn(st.guard, key)
  {
    var x := Present(cfg, d);
    if Judge(cfg, st.guard, x).Accepted() {
      AcceptedStep(cfg, st, x);
    } else {
      RejectedStep(cfg, st, x);
    }
  }

  lemma TrackedNext(cfg: ReceiverConfig, keys: set<StreamKey>, st: ReceiverState, ds: seq<Delivery>, n: nat)
    requires n < |ds| && StreamsWithin(cfg, ds, keys) && StateAt(cfg, st, ds, n).guard.Keys <= keys
    ensures StateAt(cfg, st, ds, n + 1).guard.Keys <= keys
  {
    StateAtNext(cfg, st, ds, n);
    StepStaysWithin(cfg, StateAt(cfg, st, ds, n), ds[n], keys);
  }

  lemma {:induction false} TrackedWithin(
    cfg: ReceiverConfig, keys: set<StreamKey>, st: ReceiverState, ds: seq<Delivery>, n: nat)
    requires n <= |ds| && StreamsWithin(cfg, ds, keys) && st.guard.Keys <= keys
    ensures StateAt(cfg, st, ds, n).guard.Keys <= keys
    decreases n
  {
    if n > 0 {
      TrackedWithin(cfg, keys, st, ds, n - 1);
      TrackedNext(cfg, keys, st, ds, n - 1);
    }
  }

  /** With room for every stream, a stream's window is a lone window fed with the
      numbers of that stream's records that open. */
  lemma {:induction false} WindowIsFed(
    cfg: ReceiverConfig, keys: set<StreamKey>, st: ReceiverState, ds: seq<Delivery>, n: nat, key: StreamKey)
    requires n <= |ds| && key in keys && |keys| <= cfg.maxStreams && StreamsWithin(cfg, ds, keys)
    requires st.guard.Keys <= keys && RecordedOn(st.guard, key) == {}
    ensures RecordedOn(StateAt(cfg, st, ds, n).guard, key) == RecordAll(cfg.window, Numbers(cfg, ds[..n], key))
    decreases n
  {
    if n == 0 {
      assert ds[..n] == [];
    } else {
      TrackedWithin(cfg, keys, st, ds, n - 1);
      StateAtNext(cfg, st, ds, n - 1);
      WindowIsFed(cfg, keys, st, ds, n - 1, key);
      assert ds[..n] == ds[..n - 1] + [ds[n - 1]];
      FeedOne(cfg, keys, StateAt(cfg, st, ds, n - 1), ds[..n - 1], ds[n - 1], key);
    }
  }

  lemma FeedOne(
    cfg: ReceiverConfig, keys: set<StreamKey>, st: ReceiverState, ds: seq<Delivery>, d: Delivery, key: StreamKey)
    requires key in keys && |keys| <= cfg.maxStreams && st.guard.Keys <= keys
    requires RecordedOn(st.guard, key) == RecordAll(cfg.window, Numbers(cfg, ds, key))
    ensures RecordedOn(After(cfg, st, Present(cfg, d)).guard, key)
            == RecordAll(cfg.window, Numbers(cfg, ds + [d], key))
  {
    if key !in st.guard {
      RoomForOneMore(st.guard, keys, key);
    }
    WindowStep(cfg, st, d, key);
    NumbersSnoc(cfg, ds, d, key);
  }

  /** Delivery confluence: two schedules of the same deliveries, in any order and
      with any repeats, leave every stream the same highest number and bitmap,
      although they may accept different records on the way. */
  lemma DeliveryConfluence(
    cfg: ReceiverConfig, keys: set<StreamKey>, ds: seq<Delivery>, es: seq<Delivery>, key: StreamKey)
    requires key in keys && |keys| <= cfg.maxStreams && StreamsWithin(cfg, ds, keys)
    requires forall d :: d in ds <==> d in es
    ensures var a := RecordedOn(StateAt(cfg, EMPTY_RECEIVER, ds, |ds|).guard, key);
            var b := RecordedOn(StateAt(cfg, EMPTY_RECEIVER, es, |es|).guard, key);
            Highest(a) == Highest(b) && Encode(cfg.window, a) == Encode(cfg.window, b)
  {
    WindowIsFed(cfg, keys, EMPTY_RECEIVER, ds, |ds|, key);
    WindowIsFed(cfg, keys, EMPTY_RECEIVER, es, |es|, key);
    assert ds[..|ds|] == ds && es[..|es|] == es;
    var xs, ys := Numbers(cfg, ds, key), Numbers(cfg, es, key);
    forall x ensures x in xs <==> x in ys {
      NumbersAre(cfg, ds, key, x);
      NumbersAre(cfg, es, key, x);
    }
    CommitConfluence(cfg.window, xs, ys);
  }
}
