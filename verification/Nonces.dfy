/**
 The client nonce of pkg/client/base_client.go: a cached account sequence that is asked from the chain
 once and then counted locally. Calls are sequential; the chain's answer to each possible query is a
 parameter.
 */
module Nonces {
  import opened Wire

  /** What `GetUser` answers: an error, no such account, or the account's sequence. */
  datatype Answer = Failure | NoUser | User(sequence: int64)

  datatype State = State(nonce: int64, fromQuery: bool)

  const UNINITIALISED := State(0, false)

  /** The state after a call and what the call returned, if it succeeded. */
  datatype Outcome = Outcome(state: State, result: Option<int64>)

  function Queried(s: State, a: Answer): Outcome {
    match a
    case Failure => Outcome(s, None)
    case NoUser => Outcome(State(0, true), Some(0))
    case User(n) => Outcome(State(n, true), Some(n))
  }

  function Advanced(s: State, a: Answer): Outcome {
    if !s.fromQuery && s.nonce == 0 then Queried(s, a)
    else Outcome(State(Add64(s.nonce, 1), false), Some(Add64(s.nonce, 1)))
  }

  class Nonce {
    var nonce: int64
    var fromQuery: bool

    constructor ()
      ensures View() == UNINITIALISED
    {
      nonce, fromQuery := 0, false;
    }

    ghost function View(): State
      reads this
    {
      State(nonce, fromQuery)
    }

    method Query(user: Answer) returns (r: Option<int64>)
      modifies this
      ensures Outcome(View(), r) == Queried(old(View()), user)
    {
      if user.Failure? {
        return None;
      }
      if user.User? {
        nonce := user.sequence;
      } else {
        nonce := 0;
      }
      fromQuery := true;
      return Some(nonce);
    }

    method Next(user: Answer) returns (r: Option<int64>)
      modifies this
      ensures Outcome(View(), r) == Advanced(old(View()), user)
    {
      var initializedFromBlockchain := !fromQuery && nonce == 0;
      if initializedFromBlockchain {
        r := Query(user);
        return;
      }
      nonce := Add64(nonce, 1);
      fromQuery := false;
      return Some(nonce);
    }
  }

  // ----- Runs -----

  datatype Call = QueryCall(answer: Answer) | NextCall(answer: Answer)

  function Step(s: State, c: Call): Outcome {
    match c
    case QueryCall(a) => Queried(s, a)
    case NextCall(a) => Advanced(s, a)
  }

  function Run(s: State, calls: seq<Call>): (r: (State, seq<Option<int64>>))
    ensures |r.1| == |calls|
    decreases |calls|
  {
    if calls == [] then (s, [])
    else
      var (before, results) := Run(s, calls[..|calls| - 1]);
      var o := Step(before, calls[|calls| - 1]);
      (o.state, results + [o.result])
  }

  /**
   What the callers want: the value of the last query that succeeded and how often it was advanced
   since. A first `Next` asks the chain, a later one never does.
   */
  datatype Count = Unknown | Since(base: int, advances: nat)

  function CountOne(k: Count, c: Call): (Count, Option<int>) {
    if c.NextCall? && k.Since? then (Since(k.base, k.advances + 1), Some(k.base + k.advances + 1))
    else match c.answer
         case Failure => (k, None)
         case NoUser => (Since(0, 0), Some(0))
         case User(n) => (Since(n, 0), Some(n as int))
  }

  function Counted(calls: seq<Call>): (r: (Count, seq<Option<int>>))
    ensures |r.1| == |calls|
    decreases |calls|
  {
    if calls == [] then (Unknown, [])
    else
      var (before, results) := Counted(calls[..|calls| - 1]);
      var (k, r) := CountOne(before, calls[|calls| - 1]);
      (k, results + [r])
  }

  ghost predicate Represents(k: Count, s: State) {
    match k
    case Unknown => s == UNINITIALISED
    case Since(base, advances) => 0 <= base && s.nonce == base + advances && s.fromQuery == (advances == 0)
  }

  ghost predicate Agree(a: Option<int64>, b: Option<int>) {
    a.Some? == b.Some? && (a.Some? ==> a.value as int == b.value)
  }

  /** The base is a sequence of the chain, so `limit` more nexts fit. */
  ghost predicate Fits(k: Count, limit: nat) {
    k.Since? ==> k.base + limit < TWO_63
  }

  lemma StepCounts(k: Count, s: State, c: Call, limit: nat)
    requires Represents(k, s) && Fits(k, limit)
    requires Small(c, limit) && limit < TWO_63 && (k.Since? ==> k.advances < limit)
    ensures Represents(CountOne(k, c).0, Step(s, c).state) && Fits(CountOne(k, c).0, limit)
    ensures Agree(Step(s, c).result, CountOne(k, c).1)
  {
    if c.NextCall? && k.Since? {
      assert s.fromQuery || s.nonce != 0;
      assert s.nonce + 1 < TWO_63;
      assert Add64(s.nonce, 1) == s.nonce + 1;
      assert Step(s, c) == Outcome(State(s.nonce + 1, false), Some(s.nonce + 1));
    } else {
      assert Step(s, c) == Queried(s, c.answer);
    }
  }

  ghost predicate Small(c: Call, limit: nat) {
    c.answer.User? ==> 0 <= c.answer.sequence && c.answer.sequence + limit < TWO_63
  }

  /** The chain answers with sequences that the calls cannot push out of 64 bits. */
  ghost predicate Plausible(calls: seq<Call>) {
    forall c | c in calls :: Small(c, |calls|)
  }

  ghost predicate InStep(calls: seq<Call>, limit: nat) {
    var k := Counted(calls).0;
    Represents(k, Run(UNINITIALISED, calls).0) && Fits(k, limit) && (k.Since? ==> k.advances <= |calls|)
  }

  lemma {:induction false} StatesInStep(calls: seq<Call>, limit: nat)
    requires |calls| <= limit < TWO_63 && forall c | c in calls :: Small(c, limit)
    ensures InStep(calls, limit)
    decreases |calls|
  {
    if calls != [] {
      var front, last := calls[..|calls| - 1], calls[|calls| - 1];
      assert last in calls;
      StatesInStep(front, limit);
      StepCounts(Counted(front).0, Run(UNINITIALISED, front).0, last, limit);
    }
  }

  lemma {:induction false} ResultsInStep(calls: seq<Call>, limit: nat, i: nat)
    requires i < |calls| <= limit < TWO_63 && forall c | c in calls :: Small(c, limit)
    ensures Agree(Run(UNINITIALISED, calls).1[i], Counted(calls).1[i])
    decreases |calls|
  {
    var front, last := calls[..|calls| - 1], calls[|calls| - 1];
    if i < |front| {
      ResultsInStep(front, limit, i);
    } else {
      assert last in calls;
      StatesInStep(front, limit);
      StepCounts(Counted(front).0, Run(UNINITIALISED, front).0, last, limit);
    }
  }

  /** Every run of queries and nexts counts from the last successful query, with no gap or repeat. */
  lemma RunCounts(calls: seq<Call>)
    requires Plausible(calls) && |calls| < TWO_63
    ensures forall i | 0 <= i < |calls| :: Agree(Run(UNINITIALISED, calls).1[i], Counted(calls).1[i])
    ensures Represents(Counted(calls).0, Run(UNINITIALISED, calls).0)
  {
    forall i | 0 <= i < |calls| ensures Agree(Run(UNINITIALISED, calls).1[i], Counted(calls).1[i]) {
      ResultsInStep(calls, |calls|, i);
    }
    StatesInStep(calls, |calls|);
  }

  /** Once a query has succeeded the uninitialised state never comes back. */
  lemma {:induction false} NeverUninitialisedAgain(calls: seq<Call>, i: nat)
    requires Plausible(calls) && |calls| < TWO_63
    requires i < |calls| && Run(UNINITIALISED, calls).1[i].Some?
    ensures Run(UNINITIALISED, calls).0 != UNINITIALISED
  {
    RunCounts(calls);
    SuccessIsRemembered(calls, i);
  }

  lemma {:induction false} SuccessIsRemembered(calls: seq<Call>, i: nat)
    requires i < |calls| && Counted(calls).1[i].Some?
    ensures Counted(calls).0.Since?
    decreases |calls|
  {
    if i < |calls| - 1 {
      SuccessIsRemembered(calls[..|calls| - 1], i);
    }
  }

  // ----- Exactly when counting works -----

  function Nexts(answers: seq<Answer>): seq<Call> {
    seq(|answers|, i requires 0 <= i < |answers| => NextCall(answers[i]))
  }

  /** After a query that returned `s`, the i-th of these nexts returns s + i. */
  ghost predicate NextsCount(s: int64, answers: seq<Answer>) {
    forall i | 0 <= i < |answers| ::
      var r := Run(State(s, true), Nexts(answers)).1[i];
      r.Some? && r.value == s + i + 1
  }

  /** No overflow, and the counter is not asked to go on from zero. */
  predicate CountsThrough(s: int64, k: nat) {
    if s >= 0 then s + k < TWO_63 else s + k <= 0
  }

  lemma {:induction false} NextsCountUpTo(s: int64, answers: seq<Answer>)
    requires CountsThrough(s, |answers|)
    ensures Run(State(s, true), Nexts(answers)).0 == State(s + |answers|, answers == [])
    ensures NextsCount(s, answers)
    decreases |answers|
  {
    if answers != [] {
      var front := answers[..|answers| - 1];
      NextsCountUpTo(s, front);
      assert Nexts(answers)[..|answers| - 1] == Nexts(front);
    }
  }

  /** With a silent chain the first next beyond the limit does not count on. */
  lemma {:induction false} SilentChainStops(s: int64, answers: seq<Answer>)
    requires !CountsThrough(s, |answers|)
    requires forall a | a in answers :: a.Failure?
    ensures !NextsCount(s, answers)
    decreases |answers|
  {
    var n := |answers| - 1;
    var front := answers[..n];
    assert Nexts(answers)[..n] == Nexts(front);
    if CountsThrough(s, n) {
      NextsCountUpTo(s, front);
      assert answers[n] in answers;
      assert Run(State(s, true), Nexts(answers)).1[n] == Step(State(s + n, n == 0), NextCall(answers[n])).result;
    } else {
      SilentChainStops(s, front);
      var i :| 0 <= i < n && !(var r := Run(State(s, true), Nexts(front)).1[i]; r.Some? && r.value == s + i + 1);
      assert Run(State(s, true), Nexts(answers)).1[i] == Run(State(s, true), Nexts(front)).1[i];
    }
  }

  /**
   Whatever the chain answers, k nexts count on from s exactly when s is not negative and s + k fits
   in 64 bits, or s is negative and s + k does not pass zero: a counter that has climbed to zero is
   taken for an uninitialised one.
   */
  lemma CountsExactlyWhen(s: int64, k: nat)
    ensures (forall answers | |answers| == k :: NextsCount(s, answers)) <==> CountsThrough(s, k)
  {
    if CountsThrough(s, k) {
      forall answers | |answers| == k ensures NextsCount(s, answers) {
        NextsCountUpTo(s, answers);
      }
    } else {
      var answers := seq(k, _ => Failure);
      SilentChainStops(s, answers);
    }
  }

  /** An account sequence of -1: the second next asks the chain again and fails with it. */
  lemma NegativeSequenceRestarts()
    ensures Run(State(-1, true), [NextCall(Failure), NextCall(Failure)]).1 == [Some(0), None]
  {
    var calls := [NextCall(Failure), NextCall(Failure)];
    assert calls[..1] == Nexts([Failure]);
    NextsCountUpTo(-1, [Failure]);
    assert Run(State(-1, true), calls[..1]).1 == [Some(0)];
  }
}
