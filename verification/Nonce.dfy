/** Nonce management of srp/nonce.py: nonce = prefix || 64-bit counter, the
    deterministic construction of section 8.2.1 of NIST SP 800-38D, under a record
    budget. */
module Nonce {
  import opened Basics
  import opened Header
  import opened Suites
  import BigEndian

  const SEQ_SPACE := 0x1_0000_0000_0000_0000

  function NonceOf(prefix: Bytes, seqNo: nat): Bytes {
    prefix + BigEndian.Encode(seqNo, 8)
  }

  function DeriveNonce(prefix: Bytes, seqNo: int): (r: Result<Bytes, SrpError>)
    ensures r.Success? <==> |prefix| == 4 && 0 <= seqNo < 0x1_0000_0000_0000_0000
    ensures r.Success? ==> |r.value| == 12 && r.value == NonceOf(prefix, seqNo)
    ensures r.Failure? ==> r.error == ConfigurationError
  {
    if |prefix| != NONCE_PREFIX_LEN then Failure(ConfigurationError)
    else if !(0 <= seqNo < SEQ_SPACE) then Failure(ConfigurationError)
    else Success(prefix + BigEndian.Encode(seqNo, 8))
  }

  /** The first four bytes are the prefix, the other eight the number, big-endian. */
  lemma NonceStructure(prefix: Bytes, seqNo: nat)
    requires |prefix| == 4 && seqNo < 0x1_0000_0000_0000_0000
    ensures DeriveNonce(prefix, seqNo).Success?
    ensures var nonce := DeriveNonce(prefix, seqNo).value;
            && nonce[..4] == prefix
            && BigEndian.Decode(nonce[4..]) == seqNo
            && forall i: nat :: i < 8 ==> nonce[4..][i] == seqNo / BigEndian.Space(7 - i) % 256
  {
    var nonce := DeriveNonce(prefix, seqNo).value;
    assert nonce[4..] == BigEndian.Encode(seqNo, 8);
    BigEndian.SpaceValues();
    BigEndian.DecodeEncode(seqNo, 8);
    forall i: nat | i < 8 ensures nonce[4..][i] == seqNo / BigEndian.Space(7 - i) % 256 {
      BigEndian.EncodeIsBigEndian(seqNo, 8, i);
    }
  }

  /** Equal nonces have equal prefixes and equal sequence numbers. */
  lemma NonceInjective(p: Bytes, m: nat, q: Bytes, n: nat)
    requires |p| == |q| && m < SEQ_SPACE && n < SEQ_SPACE
    requires NonceOf(p, m) == NonceOf(q, n)
    ensures p == q && m == n
  {
    assert p == NonceOf(p, m)[..|p|] && q == NonceOf(q, n)[..|p|];
    assert BigEndian.Encode(m, 8) == NonceOf(p, m)[|p|..] && BigEndian.Encode(n, 8) == NonceOf(q, n)[|p|..];
    BigEndian.SpaceValues();
    BigEndian.EncodeInjective(m, n, 8);
  }

  /** What a manager is: its fixed prefix, start and budget, and how many nonces
      it has issued. */
  datatype NonceState = NonceState(prefix: Bytes, start: int, limit: int, issued: int) {

    /** What the constructor checks, kept by every allocation. */
    predicate Valid() {
      && |prefix| == NONCE_PREFIX_LEN
      && 0 <= start < SEQ_SPACE
      && limit > 0
      && start + limit <= SEQ_SPACE
      && 0 <= issued <= limit
    }

    function Next(): int {
      start + issued
    }

    predicate Exhausted() {
      issued >= limit
    }
  }

  /** The constructor admits exactly the budgets, of at least one record, every
      number of which makes a nonce. */
  lemma BudgetFits(prefix: Bytes, start: int, limit: int)
    ensures NonceState(prefix, start, limit, 0).Valid()
            <==> limit > 0 && forall m :: start <= m < start + limit ==> DeriveNonce(prefix, m).Success?
  {
    if limit > 0 && forall m :: start <= m < start + limit ==> DeriveNonce(prefix, m).Success? {
      assert DeriveNonce(prefix, start).Success? && DeriveNonce(prefix, start + limit - 1).Success?;
    }
  }

  datatype NonceAllocation = NonceAllocation(seqNo: int, nonce: Bytes)

  function Issue(s: NonceState): (NonceState, Result<NonceAllocation, SrpError>)
    requires s.Valid()
  {
    if s.Exhausted() then (s, Failure(NonceExhaustedError))
    else (s.(issued := s.issued + 1), Success(NonceAllocation(s.Next(), NonceOf(s.prefix, s.Next()))))
  }

  /** n calls in a row, with their results. */
  function IssueMany(s: NonceState, n: nat): (r: (NonceState, seq<Result<NonceAllocation, SrpError>>))
    requires s.Valid()
    ensures |r.1| == n
    decreases n
  {
    if n == 0 then (s, [])
    else
      var (s1, r) := Issue(s);
      var (s2, rs) := IssueMany(s1, n - 1);
      (s2, [r] + rs)
  }

  /** Exact budget: call k yields sequence number start + k while the budget lasts
      and fails from then on, with the state unchanged. */
  lemma {:induction false} ExactBudget(s: NonceState, n: nat)
    requires s.Valid()
    ensures IssueMany(s, n).0 == s.(issued := Min(s.limit, s.issued + n))
    ensures var rs := IssueMany(s, n).1;
            forall k :: 0 <= k < n ==>
                 rs[k] == if s.issued + k < s.limit
                          then Success(NonceAllocation(s.Next() + k, NonceOf(s.prefix, s.Next() + k)))
                          else Failure(NonceExhaustedError)
    decreases n
  {
    if n > 0 {
      ExactBudget(Issue(s).0, n - 1);
    }
  }

  /** No nonce is ever issued twice, and none wraps past 2^64. */
  lemma NoncesAreUnique(s: NonceState, n: nat, i: nat, j: nat)
    requires s.Valid() && i < j < n
    requires IssueMany(s, n).1[i].Success? && IssueMany(s, n).1[j].Success?
    ensures IssueMany(s, n).1[i].value.nonce != IssueMany(s, n).1[j].value.nonce
    ensures 0 <= IssueMany(s, n).1[i].value.seqNo < IssueMany(s, n).1[j].value.seqNo < SEQ_SPACE
  {
    ExactBudget(s, n);
    if NonceOf(s.prefix, s.Next() + i) == NonceOf(s.prefix, s.Next() + j) {
      NonceInjective(s.prefix, s.Next() + i, s.prefix, s.Next() + j);
    }
  }

  /** Whether two managers could ever issue the same nonce. */
  ghost predicate NeverShare(s: NonceState, t: NonceState) {
    forall m: nat, n: nat ::
      s.start <= m < s.start + s.limit && t.start <= n < t.start + t.limit
      ==> NonceOf(s.prefix, m) != NonceOf(t.prefix, n)
  }

  predicate DisjointSpaces(s: NonceState, t: NonceState) {
    s.prefix != t.prefix || s.start + s.limit <= t.start || t.start + t.limit <= s.start
  }

  /** Two managers never share a nonce exactly when their prefixes differ or their
      budgeted ranges of sequence numbers do not meet. */
  lemma NeverShareIffDisjoint(s: NonceState, t: NonceState)
    requires s.Valid() && t.Valid()
    ensures NeverShare(s, t) <==> DisjointSpaces(s, t)
  {
    if DisjointSpaces(s, t) {
      forall m: nat, n: nat | s.start <= m < s.start + s.limit && t.start <= n < t.start + t.limit
        ensures NonceOf(s.prefix, m) != NonceOf(t.prefix, n)
      {
        if NonceOf(s.prefix, m) == NonceOf(t.prefix, n) {
          NonceInjective(s.prefix, m, t.prefix, n);
        }
      }
    } else {
      var m: nat := Max(s.start, t.start);
      assert NonceOf(s.prefix, m) == NonceOf(t.prefix, m);
    }
  }

  class NonceManager {
    const prefix: Bytes
    const start: int
    const limit: int
    var next: int
    var issued: int

    ghost predicate Valid()
      reads this
    {
      next == start + issued && State().Valid()
    }

    ghost function State(): NonceState
      reads this
    {
      NonceState(prefix, start, limit, issued)
    }

    /** The requirements are those whose violation raises ConfigurationError. */
    constructor (prefix: Bytes, start: int, limit: int)
      requires |prefix| == 4 && 0 <= start && limit > 0 && start + limit <= 0x1_0000_0000_0000_0000
      ensures Valid() && State() == NonceState(prefix, start, limit, 0)
    {
      this.prefix := prefix;
      this.start := start;
      this.limit := limit;
      next, issued := start, 0;
    }

    method Allocate() returns (r: Result<NonceAllocation, SrpError>)
      requires Valid()
      modifies this
      ensures Valid()
      ensures (State(), r) == Issue(old(State()))
    {
      if issued >= limit {
        return Failure(NonceExhaustedError);
      }
      var seqNo := next;
      // Extract's precondition: a reachable manager never hands derive_nonce bad input.
      var nonce := DeriveNonce(prefix, seqNo).Extract();
      next := seqNo + 1;
      issued := issued + 1;
      return Success(NonceAllocation(seqNo, nonce));
    }

    /** The records still permitted are exactly the allocations that would still
        succeed, and a manager is exhausted when there are none. */
    function Remaining(): (n: int)
      reads this
      requires Valid()
      ensures n >= 0 && (n == 0 <==> Exhausted())
      ensures forall k: nat :: IssueMany(State(), k).0.issued == issued + Min(k, n)
    {
      assert forall k: nat :: IssueMany(State(), k).0.issued == issued + Min(k, limit - issued) by {
        forall k: nat ensures IssueMany(State(), k).0.issued == issued + Min(k, limit - issued) {
          ExactBudget(State(), k);
        }
      }
      Max(0, limit - issued)
    }

    predicate Exhausted()
      reads this
    {
      issued >= limit
    }
  }
}
