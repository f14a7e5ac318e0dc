/** The receiver of srp/receiver.py, in place: its replay guard and counters,
    proved to follow the pipeline of ReceiverSpec on every byte string. */
module Receiver {
  import opened Basics
  import opened Header
  import opened Suites
  import opened Nonce
  import opened ReplaySpec
  import opened Replay
  import opened ReceiverSpec
  import opened ReceiverRuns

  class ReceiverStats {
    var accepted: nat
    var plaintextBytes: nat
    var rejected: map<RejectReason, nat>

    function Tally(): ReceiverTally
      reads this
    {
      ReceiverTally(accepted, plaintextBytes, rejected)
    }

    constructor ()
      ensures Tally() == ZERO_TALLY
    {
      accepted, plaintextBytes, rejected := 0, 0, map[];
    }

    method NoteRejection(reason: RejectReason)
      modifies this
      ensures Tally() == old(Tally()).NoteRejection(reason)
    {
      rejected := rejected[reason := (if reason in rejected then rejected[reason] else 0) + 1];
    }
  }

  class Receiver {
    const suite: IdealAead
    const expectedSessionId: Option<Bytes>
    const guard: ReplayGuard
    const stats: ReceiverStats

    ghost predicate Valid()
      reads this, guard, guard.windows
    {
      guard.Valid()
    }

    ghost function Config(): ReceiverConfig {
      ReceiverConfig(suite.suiteId, expectedSessionId, guard.windowSize, guard.maxStreams)
    }

    ghost function State(): ReceiverState
      reads this, guard, stats
    {
      ReceiverState(guard.view, stats.Tally())
    }

    constructor (suite: IdealAead, expectedSessionId: Option<Bytes>, replayWindow: nat, maxStreams: int)
      ensures Valid() && fresh(guard) && fresh(stats) && guard.windows == {}
      ensures this.suite == suite && State() == EMPTY_RECEIVER
      ensures Config() == ReceiverConfig(suite.suiteId, expectedSessionId, replayWindow, maxStreams)
    {
      this.suite := suite;
      this.expectedSessionId := expectedSessionId;
      this.guard := new ReplayGuard(replayWindow, maxStreams);
      this.stats := new ReceiverStats();
    }

    /** Build a rejection and count it. */
    method Reject(reason: RejectReason, header: Option<RecordHeader>) returns (v: Verdict)
      modifies stats
      ensures v == Rejection(reason, header)
      ensures stats.Tally() == old(stats.Tally()).NoteRejection(reason)
    {
      stats.NoteRejection(reason);
      v := MakeVerdict(Rejection(reason, header)).Extract();
    }

    /** Total: every byte string gets a verdict.  Each `Extract` below has the
        precondition that the extracted call did not raise. */
    method Receive(wire: Bytes) returns (v: Verdict)
      requires Valid()
      modifies stats, guard, guard.windows
      ensures Valid() && forall w :: w in guard.windows ==> w in old(guard.windows) || fresh(w)
      ensures v == Judge(Config(), old(guard.view), Screen(Config(), TableOpener(suite.table), wire))
      ensures State() == After(Config(), old(State()), Screen(Config(), TableOpener(suite.table), wire))
      ensures v.FailClosed()
    {
      ghost var x := Screen(Config(), TableOpener(suite.table), wire);
      var parsed := ParseRecord(wire);
      if parsed.Failure? {
        v := Reject(MALFORMED, None);
        return;
      }
      var record := parsed.value;
      var header := record.header;

      if header.suiteId != suite.suiteId {
        v := Reject(SUITE_MISMATCH, Some(header));
        return;
      }
      if expectedSessionId.Some? && header.sessionId != expectedSessionId.value {
        v := Reject(SESSION_MISMATCH, Some(header));
        return;
      }

      PrintOfParse(wire);
      ghost var recovered := Recover(TableOpener(suite.table), record);
      assert x == Candidate(header, recovered);

      var key := StreamKey(header.sessionId, header.streamId);
      var replay := guard.Check(key, header.seqNo);
      if replay == DUPLICATE {
        v := Reject(REPLAY_DETECTED, Some(header));
        return;
      }
      if replay == TOO_OLD || replay == INVALID {
        v := Reject(STALE_RECORD, Some(header));
        return;
      }

      var nonce := DeriveNonce(header.noncePrefix, header.seqNo).Extract();
      var aad := header.Aad().Extract();
      var plaintext := suite.Open(nonce, record.ciphertextAndTag, aad);
      if plaintext.Failure? {
        assert plaintext.error == AuthenticationFailure;
        v := Reject(AUTH_FAILED, Some(header));
        return;
      }

      v := Accept(header, plaintext.value);
    }

    /** The last two steps of `receive`, after the record has opened: commit, then
        count.  `Commit` cannot report "unchanged" after `Check` said FRESH. */
    method Accept(header: RecordHeader, plaintext: Bytes) returns (v: Verdict)
      requires Valid()
      requires guard.Check(KeyOf(header), header.seqNo) == FRESH
      modifies stats, guard, guard.windows
      ensures Valid() && forall w :: w in guard.windows ==> w in old(guard.windows) || fresh(w)
      ensures guard.view
              == GuardRecord(guard.windowSize, guard.maxStreams, old(guard.view), KeyOf(header), header.seqNo)
      ensures stats.Tally() == old(stats.Tally()).NoteAcceptance(plaintext)
      ensures v == Acceptance(plaintext, header)
    {
      var changed := guard.Commit(KeyOf(header), header.seqNo);
      ghost var recorded := guard.view;
      assert changed;
      stats.accepted := stats.accepted + 1;
      stats.plaintextBytes := stats.plaintextBytes + |plaintext|;
      v := MakeVerdict(Acceptance(plaintext, header)).Extract();
      assert guard.view == recorded;
    }

    /** One verdict per record, in order. */
    method ReceiveAll(wires: seq<Bytes>) returns (vs: seq<Verdict>)
      requires Valid()
      modifies stats, guard, guard.windows
      ensures Valid() && forall w :: w in guard.windows ==> w in old(guard.windows) || fresh(w)
      ensures var os := Trace(Config(), old(State()), Deliveries(suite.table, wires));
              && AreVerdictsOf(vs, os)
              && State() == StateAt(Config(), old(State()), Deliveries(suite.table, wires), |wires|)
    {
      vs := [];
      ghost var cfg, before, table := Config(), State(), suite.table;
      ghost var ds := Deliveries(table, wires);
      ghost var os := Trace(cfg, before, ds);
      for i := 0 to |wires|
        invariant Valid() && forall w :: w in guard.windows ==> w in old(guard.windows) || fresh(w)
        invariant suite.table == table && State() == StateAt(cfg, before, ds, i)
        invariant AreVerdictsOf(vs, os[..i])
      {
        WireTrace(cfg, before, table, wires, i, ds, os);
        var v := Receive(wires[i]);
        VerdictsSnoc(vs, os, i, v);
        vs := vs + [v];
      }
      assert os[..|wires|] == os;
    }
  }

  ghost predicate AreVerdictsOf(vs: seq<Verdict>, os: seq<Observation>) {
    |vs| == |os| && forall i :: 0 <= i < |vs| ==> vs[i] == os[i].verdict
  }

  lemma VerdictsSnoc(vs: seq<Verdict>, os: seq<Observation>, i: nat, v: Verdict)
    requires i < |os| && AreVerdictsOf(vs, os[..i]) && v == os[i].verdict
    ensures AreVerdictsOf(vs + [v], os[..i + 1])
  {}

  lemma WireTrace(
    cfg: ReceiverConfig, st: ReceiverState, table: seq<SealEntry>, wires: seq<Bytes>, i: nat,
    ds: seq<Delivery>, os: seq<Observation>)
    requires ds == Deliveries(table, wires) && os == Trace(cfg, st, ds) && i < |wires|
    ensures var x := Screen(cfg, TableOpener(table), wires[i]);
            && os[i].verdict == Judge(cfg, StateAt(cfg, st, ds, i).guard, x)
            && StateAt(cfg, st, ds, i + 1) == After(cfg, StateAt(cfg, st, ds, i), x)
  {
    TraceStep(cfg, st, ds, i);
  }

  /** The wires as deliveries to a receiver whose AEAD has sealed `table`. */
  function Deliveries(table: seq<SealEntry>, wires: seq<Bytes>): seq<Delivery> {
    seq(|wires|, i requires 0 <= i < |wires| => Delivery(TableOpener(table), wires[i]))
  }
}
