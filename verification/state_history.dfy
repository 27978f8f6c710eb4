/**
  The bounded state history of a connection record: an append-only log of TCP
  state codes in an 8-slot array, with one absolute base cycle stamp and up to
  six compressed deltas (cycles since the base, divided by 1000 and truncated
  to 32 bits). The cycle counter is passed in as `now`.
 */
module StateHistory {
  import opened Wrappers
  import opened Ints
  import opened Tcp

  const STATE_SLOTS: nat := 8
  const STAMP_SLOTS: nat := 6
  const TIME_STAMP_REDUCTION_FACTOR: nat := 1000
  const MAX_U64: int := TWO_TO_THE_64 - 1

  datatype StateLog = StateLog(
    stamps: seq<uint32>,
    state: seq<uint16>,
    baseStamp: uint64,
    stateCount: nat)

  /**
    What every reachable log satisfies: the arrays have their fixed sizes, the
    count fits the state array, every slot holds a state code, and every
    written delta, scaled back, stays within `u64` when added to the base.
   */
  predicate Valid(log: StateLog) {
    && |log.stamps| == STAMP_SLOTS
    && |log.state| == STATE_SLOTS
    && log.stateCount <= STATE_SLOTS
    && (forall i :: 0 <= i < STATE_SLOTS ==> IsCode(log.state[i]))
    && (forall j :: 0 <= j < log.stateCount - 2 ==>
          log.baseStamp + log.stamps[j] * TIME_STAMP_REDUCTION_FACTOR <= MAX_U64)
  }

  /** The compressed form of a cycle difference. */
  function ReduceDelta(delta: nat): (r: uint32)
    ensures r * TIME_STAMP_REDUCTION_FACTOR <= delta
    ensures delta < TWO_TO_THE_32 * TIME_STAMP_REDUCTION_FACTOR ==>
              delta - TIME_STAMP_REDUCTION_FACTOR < r * TIME_STAMP_REDUCTION_FACTOR
  {
    var q := delta / TIME_STAMP_REDUCTION_FACTOR;
    assert q * TIME_STAMP_REDUCTION_FACTOR <= delta < q * TIME_STAMP_REDUCTION_FACTOR + TIME_STAMP_REDUCTION_FACTOR;
    q % TWO_TO_THE_32
  }

  /** A log as a default-constructed record holds it: empty, every slot `Closed`. */
  function NewLog(): (log: StateLog)
    ensures Valid(log)
    ensures States(log) == []
    ensures GetFirstStamp(log).None? && GetLastStamp(log).None?
  {
    StateLog(seq(STAMP_SLOTS, _ => 0), seq(STATE_SLOTS, _ => Code(Closed)), 0, 0)
  }

  /** Restarts the log with the role's starting state; the delta array is left as it was. */
  function InitLog(log: StateLog, role: TcpRole): (r: StateLog)
    requires Valid(log)
    ensures Valid(r)
    ensures States(r) == [StartState(role)]
    ensures r.baseStamp == 0
    ensures r.stamps == log.stamps && r.state[1..] == log.state[1..]
  {
    log.(state := log.state[0 := Code(StartState(role))], stateCount := 1, baseStamp := 0)
  }

  /**
    When `push_state` does not fault: there is a slot for the state and a slot
    for its delta (the count is 1..7; on a count of 0 the delta index would
    underflow), and the clock has not gone back behind the base stamp.
   */
  predicate PushAllowed(log: StateLog, now: uint64) {
    && 1 <= log.stateCount <= STATE_SLOTS - 1
    && (log.stateCount >= 2 ==> now >= log.baseStamp)
  }

  /** Appends a state at cycle `now`. */
  function PushState(log: StateLog, s: TcpState, now: uint64): (r: StateLog)
    requires Valid(log) && PushAllowed(log, now)
    ensures Valid(r)
    ensures r.stateCount == log.stateCount + 1
    ensures States(r) == States(log) + [s]
    ensures LastState(r) == s
    ensures r.baseStamp == (if log.stateCount == 1 then now else log.baseStamp)
    ensures log.stateCount >= 2 ==> r.stamps[log.stateCount - 2] == ReduceDelta(now - log.baseStamp)
    ensures forall j :: 0 <= j < STAMP_SLOTS && j != log.stateCount - 2 ==> r.stamps[j] == log.stamps[j]
  {
    var state := log.state[log.stateCount := Code(s)];
    if log.stateCount == 1 then
      log.(state := state, baseStamp := now, stateCount := 2)
    else
      var delta := ReduceDelta(now - log.baseStamp);
      log.(state := state, stamps := log.stamps[log.stateCount - 2 := delta], stateCount := log.stateCount + 1)
  }

  /** The states recorded so far, in push order. */
  function States(log: StateLog): (r: seq<TcpState>)
    requires Valid(log)
    ensures |r| == log.stateCount
    ensures forall i :: 0 <= i < |r| ==> Code(r[i]) == log.state[i]
  {
    seq(log.stateCount, i requires 0 <= i < log.stateCount => Decode(log.state[i]).value)
  }

  /** The most recent state; faults (index underflow) on an empty log. */
  function LastState(log: StateLog): (r: TcpState)
    requires Valid(log) && log.stateCount >= 1
    ensures r == States(log)[log.stateCount - 1]
  {
    Decode(log.state[log.stateCount - 1]).value
  }

  /** The base stamp, once a transition has been pushed after `init`. */
  function GetFirstStamp(log: StateLog): (r: Option<uint64>)
    ensures r.Some? <==> log.stateCount > 1
    ensures r.Some? ==> r.value == log.baseStamp
  {
    if log.stateCount > 1 then Some(log.baseStamp) else None
  }

  /** The stamp of the latest transition, decompressed from its delta. */
  function GetLastStamp(log: StateLog): (r: Option<uint64>)
    requires Valid(log)
    ensures r.Some? <==> log.stateCount >= 2
    ensures r.Some? ==> log.baseStamp <= r.value
  {
    if log.stateCount <= 1 then None
    else if log.stateCount == 2 then Some(log.baseStamp)
    else Some(log.baseStamp + log.stamps[log.stateCount - 3] * TIME_STAMP_REDUCTION_FACTOR)
  }

  /** The deltas of all transitions but the latest, after the first two transitions. */
  function Deltas(log: StateLog): (r: seq<uint32>)
    requires Valid(log)
    ensures |r| == if log.stateCount >= 3 then log.stateCount - 3 else 0
    ensures r <= log.stamps
  {
    if log.stateCount >= 3 then log.stamps[0..log.stateCount - 3] else []
  }

  /** Whenever both stamps are defined, the first is not after the last. */
  lemma FirstNotAfterLast(log: StateLog)
    requires Valid(log)
    ensures GetFirstStamp(log).Some? <==> GetLastStamp(log).Some?
    ensures GetFirstStamp(log).Some? ==> GetFirstStamp(log).value <= GetLastStamp(log).value
  {
  }

  /** One `push_state` call: the state pushed and the cycle counter it read. */
  datatype Push = Push(state: TcpState, at: uint64)

  function StatesOf(ps: seq<Push>): (r: seq<TcpState>)
    ensures |r| == |ps|
    ensures forall i :: 0 <= i < |ps| ==> r[i] == ps[i].state
  {
    seq(|ps|, i requires 0 <= i < |ps| => ps[i].state)
  }

  /** The base stamp the log will have once all of `ps` is pushed. */
  function Origin(log: StateLog, ps: seq<Push>): uint64 {
    if log.stateCount == 1 && |ps| > 0 then ps[0].at else log.baseStamp
  }

  /** `ps` can be pushed onto `log` in order without a fault. */
  predicate Replayable(log: StateLog, ps: seq<Push>) {
    && Valid(log)
    && 1 <= log.stateCount
    && log.stateCount + |ps| <= STATE_SLOTS
    && forall i :: 0 <= i < |ps| ==> ps[i].at >= Origin(log, ps)
  }

  /** The log after pushing `ps` in order. */
  function Replay(log: StateLog, ps: seq<Push>): (r: StateLog)
    requires Replayable(log, ps)
    ensures Valid(r)
    decreases |ps|
  {
    if ps == [] then log
    else
      var next := PushState(log, ps[0].state, ps[0].at);
      assert Origin(next, ps[1..]) == Origin(log, ps);
      Replay(next, ps[1..])
  }

  /** Pushing a sequence counts each push and fixes the base stamp. */
  lemma {:induction false} ReplayCount(log: StateLog, ps: seq<Push>)
    requires Replayable(log, ps)
    ensures Replay(log, ps).stateCount == log.stateCount + |ps|
    ensures Replay(log, ps).baseStamp == Origin(log, ps)
    decreases |ps|
  {
    if ps != [] {
      var next := PushState(log, ps[0].state, ps[0].at);
      assert Origin(next, ps[1..]) == Origin(log, ps);
      ReplayCount(next, ps[1..]);
    }
  }

  /** A push keeps the codes already logged and writes the new one right after them. */
  lemma PushStateCodes(log: StateLog, s: TcpState, now: uint64)
    requires Valid(log) && PushAllowed(log, now)
    ensures var r := PushState(log, s, now);
            && (forall i :: 0 <= i < log.stateCount ==> r.state[i] == log.state[i])
            && r.state[log.stateCount] == Code(s)
  {
  }

  /** Pushing a sequence keeps the codes already logged and writes the pushed ones after them. */
  lemma {:induction false} ReplayCodes(log: StateLog, ps: seq<Push>)
    requires Replayable(log, ps)
    ensures forall i :: 0 <= i < log.stateCount ==> Replay(log, ps).state[i] == log.state[i]
    ensures forall j :: 0 <= j < |ps| ==> Replay(log, ps).state[log.stateCount + j] == Code(ps[j].state)
    decreases |ps|
  {
    ReplayCount(log, ps);
    if ps != [] {
      var next := PushState(log, ps[0].state, ps[0].at);
      PushStateCodes(log, ps[0].state, ps[0].at);
      var rest := ps[1..];
      assert Origin(next, rest) == Origin(log, ps);
      ReplayCodes(next, rest);
      var r := Replay(next, rest);
      assert Replay(log, ps) == r;
      forall j | 1 <= j < |ps|
        ensures r.state[log.stateCount + j] == Code(ps[j].state)
      {
        assert rest[j - 1] == ps[j];
      }
    }
  }

  /** Pushing a sequence appends its states in call order. */
  lemma {:induction false} ReplayStates(log: StateLog, ps: seq<Push>)
    requires Replayable(log, ps)
    ensures States(Replay(log, ps)) == States(log) + StatesOf(ps)
  {
    ReplayCount(log, ps);
    ReplayCodes(log, ps);
    var got := States(Replay(log, ps));
    var want := States(log) + StatesOf(ps);
    forall i | 0 <= i < |got|
      ensures got[i] == want[i]
    {
      if i < log.stateCount {
        assert Code(got[i]) == Code(want[i]);
      } else {
        assert Code(got[i]) == Code(ps[i - log.stateCount].state);
      }
      CodeInjective(got[i], want[i]);
    }
  }

  /**
    Pushing a sequence writes each pushed transition's compressed delta into
    its own slot (the push at position j lands in slot count + j - 2) and
    keeps the deltas already written.
   */
  lemma {:induction false} ReplayStamps(log: StateLog, ps: seq<Push>)
    requires Replayable(log, ps)
    ensures forall j :: 0 <= j < |ps| && log.stateCount + j >= 2 ==>
              Replay(log, ps).stamps[log.stateCount + j - 2] == ReduceDelta(ps[j].at - Origin(log, ps))
    ensures forall k :: 0 <= k < log.stateCount - 2 ==> Replay(log, ps).stamps[k] == log.stamps[k]
    decreases |ps|
  {
    ReplayCount(log, ps);
    if ps != [] {
      var next := PushState(log, ps[0].state, ps[0].at);
      var rest := ps[1..];
      var o := Origin(log, ps);
      assert Origin(next, rest) == o;
      ReplayStamps(next, rest);
      var r := Replay(next, rest);
      assert Replay(log, ps) == r;
      forall j | 1 <= j < |ps|
        ensures r.stamps[log.stateCount + j - 2] == ReduceDelta(ps[j].at - o)
      {
        assert rest[j - 1] == ps[j];
      }
    }
  }

  /**
    The history of a freshly initialised log after a sequence of pushes: the
    states in call order after the starting one, the first stamp is the time
    of the first push, and the last stamp is that plus the compressed span to
    the latest push.
   */
  lemma {:induction false} HistoryAfterInit(log: StateLog, ps: seq<Push>)
    requires Replayable(log, ps) && log.stateCount == 1
    ensures States(Replay(log, ps)) == States(log) + StatesOf(ps)
    ensures GetFirstStamp(Replay(log, ps)) == if ps == [] then None else Some(ps[0].at)
    ensures GetLastStamp(Replay(log, ps)) ==
              if ps == [] then None
              else Some(ps[0].at + ReduceDelta(ps[|ps| - 1].at - ps[0].at) * TIME_STAMP_REDUCTION_FACTOR)
  {
    ReplayStates(log, ps);
    FirstStampAfterInit(log, ps);
    LastStampAfterInit(log, ps);
  }

  lemma {:induction false} FirstStampAfterInit(log: StateLog, ps: seq<Push>)
    requires Replayable(log, ps) && log.stateCount == 1
    ensures GetFirstStamp(Replay(log, ps)) == if ps == [] then None else Some(ps[0].at)
  {
    ReplayCount(log, ps);
  }

  lemma {:induction false} LastStampAfterInit(log: StateLog, ps: seq<Push>)
    requires Replayable(log, ps) && log.stateCount == 1
    ensures GetLastStamp(Replay(log, ps)) ==
              if ps == [] then None
              else Some(ps[0].at + ReduceDelta(ps[|ps| - 1].at - ps[0].at) * TIME_STAMP_REDUCTION_FACTOR)
  {
    ReplayCount(log, ps);
    if |ps| >= 2 {
      LastStampAfterPushes(log, ps);
    }
  }

  /** After two or more pushes the last stamp decompresses the latest push's delta. */
  lemma {:induction false} LastStampAfterPushes(log: StateLog, ps: seq<Push>)
    requires Replayable(log, ps) && log.stateCount == 1 && |ps| >= 2
    ensures var r := Replay(log, ps);
            r.stateCount == |ps| + 1 && r.baseStamp == ps[0].at &&
            r.stamps[|ps| - 2] == ReduceDelta(ps[|ps| - 1].at - ps[0].at)
  {
    ReplayStamps(log, ps);
    ReplayCount(log, ps);
  }

  /** The deltas after init and pushes are the compressed spans of the pushes in between. */
  lemma {:induction false} DeltasAfterInit(log: StateLog, ps: seq<Push>)
    requires Replayable(log, ps) && log.stateCount == 1
    ensures var d := Deltas(Replay(log, ps));
            && |d| == (if |ps| >= 2 then |ps| - 2 else 0)
            && forall i :: 0 <= i < |d| ==> d[i] == ReduceDelta(ps[i + 1].at - ps[0].at)
  {
    ReplayCount(log, ps);
    var d := Deltas(Replay(log, ps));
    forall i | 0 <= i < |d|
      ensures d[i] == ReduceDelta(ps[i + 1].at - ps[0].at)
    {
      DeltaAfterInit(log, ps, i);
    }
  }

  /** The delta in slot i after init and pushes is the compressed span to push i + 1. */
  lemma {:induction false} DeltaAfterInit(log: StateLog, ps: seq<Push>, i: nat)
    requires Replayable(log, ps) && log.stateCount == 1 && i + 2 < |ps|
    ensures Replay(log, ps).stamps[i] == ReduceDelta(ps[i + 1].at - ps[0].at)
  {
    ReplayStampAt(log, ps, i + 1);
  }

  /** The delta written by the push at position j, read from its slot after all of `ps`. */
  lemma {:induction false} ReplayStampAt(log: StateLog, ps: seq<Push>, j: nat)
    requires Replayable(log, ps) && j < |ps| && log.stateCount + j >= 2
    ensures Replay(log, ps).stamps[log.stateCount + j - 2] == ReduceDelta(ps[j].at - Origin(log, ps))
  {
    ReplayStamps(log, ps);
  }

  /**
    As long as the latest push is less than 2^32 * 1000 cycles after the
    first, the decompressed last stamp lies within one reduction step below
    the true cycle count of the latest push.
   */
  lemma {:induction false} LastStampAccuracy(log: StateLog, ps: seq<Push>)
    requires Replayable(log, ps) && log.stateCount == 1 && ps != []
    requires ps[|ps| - 1].at - ps[0].at < TWO_TO_THE_32 * TIME_STAMP_REDUCTION_FACTOR
    ensures GetLastStamp(Replay(log, ps)).Some?
    ensures ps[|ps| - 1].at - TIME_STAMP_REDUCTION_FACTOR < GetLastStamp(Replay(log, ps)).value <= ps[|ps| - 1].at
  {
    HistoryAfterInit(log, ps);
  }
}
