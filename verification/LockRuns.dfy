// What toy locks keep over whole runs.
module LockRuns {
  import opened Bitwise
  import opened Locks
  import opened Options

  datatype Op =
    | Create(id: Id, lock: Lock)
    | Try(id: Id, right: bool, now: int)
    | Relock(id: Id)
    | Remove(id: Id)
    | ClearWait(id: Id)
    | Spend(now: int)
    | Look(now: int)
    | Restart

  function Step(s: State, op: Op): State {
    match op
    case Create(id, lock) => Created(s, id, lock)
    case Try(id, right, now) => Tried(s, id, right, now).0
    case Relock(id) => Relocked(s, id)
    case Remove(id) => Removed(s, id)
    case ClearWait(id) => WaitCleared(s, id)
    case Spend(now) => Spent(s, now).0
    case Look(now) => s.(uses := Pruned(s.uses, now - HOUR))
    case Restart => State(s.locks, {}, map[], [])
  }

  function After(ops: seq<Op>): State {
    if ops == [] then START else Step(After(ops[..|ops| - 1]), ops[|ops| - 1])
  }

  function OutcomeAfter(ops: seq<Op>, op: Op): Outcome
    requires op.Try?
  {
    Tried(After(ops), op.id, op.right, op.now).1
  }

  // ------------------------------------------------------------ one lock at a time

  predicate Concerns(op: Op, id: Id) {
    op.Restart? || (!op.Spend? && !op.Look? && op.id == id)
  }

  /** Nothing about the lock differs: its record, whether it is open, its attempts. */
  predicate SameLock(s: State, t: State, id: Id) {
    && (id in s.locks <==> id in t.locks) && (id in s.locks ==> s.locks[id] == t.locks[id])
    && (id in s.open <==> id in t.open)
    && (id in s.attempts <==> id in t.attempts) && (id in s.attempts ==> s.attempts[id] == t.attempts[id])
  }

  lemma StepElsewhere(s: State, op: Op, id: Id)
    requires !Concerns(op, id)
    ensures SameLock(s, Step(s, op), id)
  {
    hide Tried, Spent, Pruned;
    match op {
      case Try(other, right, now) => TrialElsewhere(s, other, right, now, id);
      case Spend(now) => SpendingElsewhere(s, now);
      case _ =>
    }
  }

  lemma SpendingElsewhere(s: State, now: int)
    ensures Spent(s, now).0 == s.(uses := Spent(s, now).0.uses)
  {
    hide Pruned;
  }

  lemma TrialElsewhere(s: State, other: Id, right: bool, now: int, id: Id)
    requires other != id
    ensures SameLock(s, Tried(s, other, right, now).0, id)
  {
    hide Penalty, Seconds, OpenedFor;
  }

  /** Operations on other locks and on the ladder, however many, leave a lock exactly as it was. */
  lemma {:induction false} RunElsewhere(ops: seq<Op>, n: nat, id: Id)
    requires n <= |ops| && forall i :: n <= i < |ops| ==> !Concerns(ops[i], id)
    ensures SameLock(After(ops[..n]), After(ops), id)
    ensures forall now :: IsLocked(After(ops), id, now) == IsLocked(After(ops[..n]), id, now)
  {
    hide Step;
    if n == |ops| {
      assert ops[..n] == ops;
    } else {
      var k := |ops| - 1;
      assert ops[..k][..n] == ops[..n];
      RunElsewhere(ops[..k], n, id);
      StepElsewhere(After(ops[..k]), ops[k], id);
    }
  }

  lemma StepKeepsLocked(s: State, op: Op, id: Id, now: int)
    requires IsLocked(s, id, now) && !IsLocked(Step(s, op), id, now)
    ensures op == Remove(id) || (op.Try? && op.id == id && op.right && op.now >= AttemptsOn(s, id).until_)
  {
    hide Penalty, Seconds, Pruned;
  }

  // ------------------------------------------------------------ openings

  predicate EndsWithSession(s: State, id: Id) {
    id in s.locks && s.locks[id].duration.UntilClosed?
  }

  /** When the lock was opening, read off the run, if it was and has not been closed since. */
  function OpenedAt(ops: seq<Op>, id: Id): Option<int> {
    if ops == [] then None
    else
      var before, op := ops[..|ops| - 1], ops[|ops| - 1];
      if op.Restart? then if EndsWithSession(After(before), id) then None else OpenedAt(before, id)
      else if !Concerns(op, id) || op.ClearWait? then OpenedAt(before, id)
      else if !op.Try? then None
      else if OutcomeAfter(before, op).Opened? then Some(op.now) else OpenedAt(before, id)
  }

  /** Whether an opening at `at` still lasts, as long as nothing closes the lock; a time of 0 is no time. */
  predicate Lasts(d: Duration, at: int, now: int) {
    match d
    case UntilClosed => true
    case SurfaceOnly => at != 0 && now <= at
    case Minutes(n) => at + n * 60000 != 0 && now <= at + n * 60000
  }

  /** What is stored of a lock that was opened at the given time, or is closed. */
  predicate OpenAs(s: State, id: Id, opening: Option<int>) {
    if id !in s.locks then opening == None
    else
      var lock := s.locks[id];
      match opening
      case None => lock.openUntil.NotOpen? || (lock.openUntil.Session? && id !in s.open)
      case Some(at) => lock.openUntil == OpenedFor(lock.duration, at) && (lock.openUntil.Session? ==> id in s.open)
  }

  /** The opening in effect after a step, given the one before it. */
  function OpenedNext(s: State, op: Op, id: Id, opening: Option<int>): Option<int> {
    if op.Restart? then if EndsWithSession(s, id) then None else opening
    else if !Concerns(op, id) || op.ClearWait? then opening
    else if !op.Try? then None
    else if Tried(s, id, op.right, op.now).1.Opened? then Some(op.now) else opening
  }

  lemma TrialOpens(s: State, id: Id, right: bool, now: int, opening: Option<int>)
    requires OpenAs(s, id, opening)
    ensures var (t, outcome) := Tried(s, id, right, now); OpenAs(t, id, if outcome.Opened? then Some(now) else opening)
  {
    hide Penalty, Seconds;
  }

  lemma StepOpens(s: State, op: Op, id: Id, opening: Option<int>)
    requires OpenAs(s, id, opening)
    ensures OpenAs(Step(s, op), id, OpenedNext(s, op, id, opening))
  {
    hide Tried, Spent, Pruned;
    if op.Try? && op.id == id {
      hide OpenAs;
      TrialOpens(s, id, op.right, op.now, opening);
    } else if !Concerns(op, id) {
      hide Step;
      StepElsewhere(s, op, id);
      SameOpening(s, Step(s, op), id, opening);
    }
  }

  lemma SameOpening(s: State, t: State, id: Id, opening: Option<int>)
    requires SameLock(s, t, id) && OpenAs(s, id, opening)
    ensures OpenAs(t, id, opening)
  {
  }

  lemma {:induction false} RunOpens(ops: seq<Op>, id: Id)
    ensures OpenAs(After(ops), id, OpenedAt(ops, id))
  {
    hide OpenAs, Step, Tried, Concerns, EndsWithSession;
    if ops == [] {
      NothingOpen(id);
    } else {
      var before, op := ops[..|ops| - 1], ops[|ops| - 1];
      RunOpens(before, id);
      StepOpens(After(before), op, id, OpenedAt(before, id));
      OpenedStep(ops, id);
    }
  }

  lemma NothingOpen(id: Id)
    ensures OpenAs(START, id, None)
  {
  }

  lemma OpenedStep(ops: seq<Op>, id: Id)
    requires ops != []
    ensures var before, op := ops[..|ops| - 1], ops[|ops| - 1];
            OpenedAt(ops, id) == OpenedNext(After(before), op, id, OpenedAt(before, id))
  {
    hide Tried, After, EndsWithSession;
  }

  /**
   * After any run a lock is open if and only if the last of its right answers outside
   * a wait came after its last creation, closing and removal, its duration from then
   * still lasts, and the application was not closed since if it lasts until then.
   */
  lemma OpenIffOpened(ops: seq<Op>, id: Id, now: int)
    ensures id !in After(ops).locks ==> !IsLocked(After(ops), id, now)
    ensures id in After(ops).locks ==>
            (!IsLocked(After(ops), id, now) <==>
            OpenedAt(ops, id).Some? && Lasts(After(ops).locks[id].duration, OpenedAt(ops, id).value, now))
  {
    RunOpens(ops, id);
    hide After, OpenedAt;
  }

  /** Closing the application closes exactly the locks that are to stay open until then. */
  lemma RestartRelocks(ops: seq<Op>, id: Id, now: int)
    requires id in After(ops).locks
    ensures id in After(ops + [Restart]).locks
    ensures IsLocked(After(ops + [Restart]), id, now) <==>
            IsLocked(After(ops), id, now) || After(ops).locks[id].duration.UntilClosed?
  {
    var all := ops + [Restart];
    assert all[..|all| - 1] == ops;
    OpenedStep(all, id);
    OpenIffOpened(ops, id, now);
    OpenIffOpened(all, id, now);
    hide IsLocked, OpenedAt, Lasts;
  }

  // ------------------------------------------------------------ attempts

  /** Failures graded since the last opening, or the last start of the application, read off the run. */
  function Failures(ops: seq<Op>, id: Id): nat {
    if ops == [] then 0
    else
      var before, op := ops[..|ops| - 1], ops[|ops| - 1];
      if op.Restart? then 0
      else if !op.Try? || op.id != id then Failures(before, id)
      else
        match OutcomeAfter(before, op)
        case Opened => 0
        case Wrong(_, _) => Failures(before, id) + 1
        case _ => Failures(before, id)
  }

  /** Until when the run makes the lock wait: the penalty of the last failure, unless it was lifted since. */
  function WaitsUntil(ops: seq<Op>, id: Id): int {
    if ops == [] then 0
    else
      var before, op := ops[..|ops| - 1], ops[|ops| - 1];
      if op == ClearWait(id) || op.Restart? then 0
      else if !op.Try? || op.id != id then WaitsUntil(before, id)
      else
        match OutcomeAfter(before, op)
        case Opened => 0
        case Wrong(_, _) => if Failures(ops, id) >= 3 then op.now + 1000 * Penalty(Failures(ops, id)) else 0
        case _ => WaitsUntil(before, id)
  }

  predicate Counted(s: State, id: Id, failures: nat, until_: int) {
    && AttemptsOn(s, id) == Attempts(failures, until_)
    && (id in s.attempts ==> failures > 0)
    && (failures < 3 ==> until_ == 0)
  }

  lemma TrialCounts(s: State, id: Id, right: bool, now: int, failures: nat, until_: int)
    requires Counted(s, id, failures, until_)
    ensures var (t, outcome) := Tried(s, id, right, now);
            match outcome
            case Opened => Counted(t, id, 0, 0)
            case Wrong(k, _) => k == failures + 1 && Counted(t, id, k, if k >= 3 then now + 1000 * Penalty(k) else 0)
            case _ => Counted(t, id, failures, until_)
  {
    hide Penalty, Seconds, OpenedFor;
  }

  lemma OtherCounts(s: State, op: Op, id: Id, failures: nat, until_: int)
    requires Counted(s, id, failures, until_) && !(op.Try? && op.id == id)
    ensures if op.Restart? then Counted(Step(s, op), id, 0, 0)
            else Counted(Step(s, op), id, failures, if op == ClearWait(id) then 0 else until_)
  {
    hide Penalty, Seconds, OpenedFor;
  }

  /** In every run the attempt record is the number of failures since the last opening, and the wait of the last. */
  lemma {:induction false} AttemptsAreFailures(ops: seq<Op>, id: Id)
    ensures Counted(After(ops), id, Failures(ops, id), WaitsUntil(ops, id))
  {
    hide Counted, Tried, Penalty;
    if ops == [] {
      NothingCounted(id);
    } else {
      var before, op := ops[..|ops| - 1], ops[|ops| - 1];
      AttemptsAreFailures(before, id);
      if op.Try? && op.id == id {
        TrialCounts(After(before), id, op.right, op.now, Failures(before, id), WaitsUntil(before, id));
      } else {
        hide Step, Failures, WaitsUntil;
        OtherCounts(After(before), op, id, Failures(before, id), WaitsUntil(before, id));
        QuietStep(ops, id);
      }
    }
  }

  lemma NothingCounted(id: Id)
    ensures Counted(START, id, 0, 0)
  {
  }

  lemma QuietStep(ops: seq<Op>, id: Id)
    requires ops != [] && !(ops[|ops| - 1].Try? && ops[|ops| - 1].id == id)
    ensures var before := ops[..|ops| - 1];
            if ops[|ops| - 1].Restart? then Failures(ops, id) == 0 && WaitsUntil(ops, id) == 0
            else
              && Failures(ops, id) == Failures(before, id)
              && WaitsUntil(ops, id) == if ops[|ops| - 1] == ClearWait(id) then 0 else WaitsUntil(before, id)
  {
    hide OutcomeAfter;
  }

  /** The waits after the first seven failures in a row, in seconds. */
  const WAITS: seq<nat> := [0, 0, 2, 4, 8, 16, 32]

  /**
   * After any run: a try on a lock is refused exactly while the penalty of the last
   * failure runs; else it is graded. The first two failures in a row impose no wait,
   * the third one of 2 seconds, each after it one of twice that, and from the eighth
   * on it is 60.
   */
  lemma TryAfterRun(ops: seq<Op>, id: Id, right: bool, now: int)
    requires id in After(ops).locks
    ensures var k := Failures(ops, id);
            OutcomeAfter(ops, Try(id, right, now)) ==
            if now < WaitsUntil(ops, id) then Wait(Seconds(WaitsUntil(ops, id) - now))
            else if right then Opened
            else Wrong(k + 1, if k < 7 then WAITS[k] else 60)
  {
    AttemptsAreFailures(ops, id);
    hide After, Failures, WaitsUntil, OpenedFor;
    WholeSeconds(Penalty(Failures(ops, id) + 1));
    PenaltyIs(Failures(ops, id) + 1);
    hide Penalty, Seconds;
    PenaltyFromThird(Failures(ops, id) + 1);
  }

  lemma PenaltyIs(k: nat)
    requires k > 0
    ensures Penalty(k) == if k <= 7 then WAITS[k - 1] else 60
  {
    assert Pow2(1) == 2 && Pow2(2) == 4 && Pow2(3) == 8;
    assert Pow2(4) == 16 && Pow2(5) == 32 && Pow2(6) == 64;
    if k >= 8 { AtLeast64(k - 2); }
  }

  lemma {:induction false} AtLeast64(n: nat)
    requires n >= 6
    ensures Pow2(n) >= 64
  {
    if n == 6 { assert Pow2(3) == 8; } else { AtLeast64(n - 1); }
  }

  /** From the third failure in a row on, each wait is the smaller of twice the one before and 60 seconds. */
  lemma WaitsDouble(k: nat)
    requires k >= 3
    ensures Penalty(3) == 2 && Penalty(k + 1) == if 2 * Penalty(k) < 60 then 2 * Penalty(k) else 60
  {
    hide Penalty;
    PenaltyIs(3);
    PenaltyIs(k);
    PenaltyIs(k + 1);
  }

  /** What WaitsUntil says of the last operation, in milliseconds and without the penalty function. */
  lemma FailureWaits(ops: seq<Op>, id: Id)
    requires ops != [] && ops[|ops| - 1].Try? && ops[|ops| - 1].id == id
    requires OutcomeAfter(ops[..|ops| - 1], ops[|ops| - 1]).Wrong?
    ensures var k := Failures(ops, id);
            && k == Failures(ops[..|ops| - 1], id) + 1
            && WaitsUntil(ops, id) ==
               if k < 3 then 0 else ops[|ops| - 1].now + 1000 * (if k <= 7 then WAITS[k - 1] else 60)
  {
    hide OutcomeAfter, Penalty;
    PenaltyIs(Failures(ops, id));
  }

  /** Operation i is the right answer to the lock, given when no wait is running. */
  predicate RightOutsideWait(ops: seq<Op>, i: nat, id: Id)
    requires i < |ops|
  {
    ops[i].Try? && ops[i].id == id && ops[i].right && ops[i].now >= WaitsUntil(ops[..i], id)
  }

  /** Between a state in which a lock is locked and one in which it is not, it was answered rightly, or removed. */
  lemma {:induction false} OnlyRightAnswerOpens(ops: seq<Op>, n: nat, id: Id, now: int)
    requires n <= |ops| && IsLocked(After(ops[..n]), id, now) && !IsLocked(After(ops), id, now)
    ensures exists i :: n <= i < |ops| && (ops[i] == Remove(id) || RightOutsideWait(ops, i, id))
  {
    hide Step, IsLocked, WaitsUntil, Failures;
    assert ops[..|ops|] == ops;
    if n < |ops| {
      var k := |ops| - 1;
      assert ops[..k][..n] == ops[..n];
      if IsLocked(After(ops[..k]), id, now) {
        StepKeepsLocked(After(ops[..k]), ops[k], id, now);
        AttemptsAreFailures(ops[..k], id);
        assert ops[k] == Remove(id) || RightOutsideWait(ops, k, id);
      } else {
        OnlyRightAnswerOpens(ops[..k], n, id, now);
        var i :| n <= i < k && (ops[..k][i] == Remove(id) || RightOutsideWait(ops[..k], i, id));
        assert ops[..k][..i] == ops[..i];
        assert ops[i] == Remove(id) || RightOutsideWait(ops, i, id);
      }
    }
  }

  /** The seconds announced are the milliseconds left, rounded up. */
  lemma SecondsRoundUp(ms: int)
    ensures ms > 0 ==> 1000 * (Seconds(ms) - 1) < ms <= 1000 * Seconds(ms)
    ensures ms <= 0 ==> Seconds(ms) == 0
  {
  }

  lemma WholeSeconds(n: nat)
    ensures Seconds(n * 1000) == n
  {
  }

  lemma PenaltyFromThird(k: nat)
    ensures k < 3 ==> Penalty(k) == 0
    ensures forall ms: int :: ms <= 0 ==> Seconds(ms) == 0
  {
  }

  /** While the application runs, only graded tries change the count of failures: no refused try, no cleared wait. */
  lemma {:induction false} OnlyGradedTriesCount(ops: seq<Op>, n: nat, id: Id)
    requires n <= |ops| && forall i :: n <= i < |ops| ==> !ops[i].Restart?
    requires forall i :: n <= i < |ops| && ops[i].Try? && ops[i].id == id ==> OutcomeAfter(ops[..i], ops[i]).Wait?
    ensures Failures(ops, id) == Failures(ops[..n], id)
  {
    if n == |ops| {
      assert ops[..n] == ops;
    } else {
      hide OutcomeAfter, Failures, WaitsUntil;
      var k := |ops| - 1;
      assert ops[..k][..n] == ops[..n];
      forall i | n <= i < k && ops[..k][i].Try? && ops[..k][i].id == id
        ensures OutcomeAfter(ops[..k][..i], ops[..k][i]).Wait?
      {
        assert ops[..k][..i] == ops[..i];
      }
      OnlyGradedTriesCount(ops[..k], n, id);
      if ops[k].Try? && ops[k].id == id { RefusedStep(ops, id); } else { QuietStep(ops, id); }
    }
  }

  lemma RefusedStep(ops: seq<Op>, id: Id)
    requires ops != [] && ops[|ops| - 1].Try? && OutcomeAfter(ops[..|ops| - 1], ops[|ops| - 1]).Wait?
    ensures Failures(ops, id) == Failures(ops[..|ops| - 1], id)
  {
    hide OutcomeAfter;
  }

  // ------------------------------------------------------------ the ladder's rolling hour

  predicate Ladder(op: Op) {
    op.Spend? || op.Look?
  }

  /** The times of the uses granted in a run since the application was last started. */
  function Granted(ops: seq<Op>): seq<int> {
    if ops == [] then []
    else
      var before, op := ops[..|ops| - 1], ops[|ops| - 1];
      if op.Restart? then [] else Granted(before) + if op.Spend? && Spent(After(before), op.now).1 then [op.now] else []
  }

  /** The clock never goes back between uses of the ladder, and reads at most `now` at the end. */
  predicate Forward(ops: seq<Op>, now: int) {
    if ops == [] then true
    else
      var op := ops[|ops| - 1];
      (Ladder(op) ==> op.now <= now) && Forward(ops[..|ops| - 1], if Ladder(op) then op.now else now)
  }

  /** The uses kept are the last of those granted; those dropped are more than an hour old, by any later clock. */
  predicate Remembers(uses: seq<int>, granted: seq<int>, now: int) {
    && |uses| <= |granted| && uses == granted[|granted| - |uses|..]
    && |uses| <= LADDER_CAP
    && (forall i :: 0 <= i < |granted| - |uses| ==> granted[i] < now - HOUR)
    && (forall i :: 0 <= i < |granted| ==> granted[i] <= now)
    && NonDecreasing(granted)
  }

  predicate NonDecreasing(s: seq<int>) {
    forall i, j :: 0 <= i < j < |s| ==> s[i] <= s[j]
  }

  /** Any four uses in a row take more than an hour. */
  predicate Spaced(granted: seq<int>) {
    forall i :: 0 <= i && i + LADDER_CAP < |granted| ==> granted[i + LADDER_CAP] - granted[i] > HOUR
  }

  lemma {:induction false} PruningRemembers(uses: seq<int>, granted: seq<int>, now: int)
    requires Remembers(uses, granted, now)
    ensures Remembers(Pruned(uses, now - HOUR), granted, now)
    decreases |uses|
  {
    hide Remembers;
    if uses != [] && uses[0] < now - HOUR {
      ForgettingRemembers(uses, granted, now);
      PruningRemembers(uses[1..], granted, now);
    }
  }

  lemma ForgettingRemembers(uses: seq<int>, granted: seq<int>, now: int)
    requires Remembers(uses, granted, now) && uses != [] && uses[0] < now - HOUR
    ensures Remembers(uses[1..], granted, now)
  {
    assert uses[0] == granted[|granted| - |uses|];
  }

  lemma LaterRemembers(uses: seq<int>, granted: seq<int>, now: int, later: int)
    requires Remembers(uses, granted, now) && now <= later
    ensures Remembers(uses, granted, later)
  {
  }

  lemma SpendingRemembers(s: State, granted: seq<int>, now: int)
    requires Remembers(s.uses, granted, now) && Spaced(granted)
    ensures var (t, spent) := Spent(s, now);
            var next := if spent then granted + [now] else granted;
            Remembers(t.uses, next, now) && Spaced(next)
  {
    hide Pruned, Remembers, Spaced;
    PruningRemembers(s.uses, granted, now);
    var uses := Pruned(s.uses, now - HOUR);
    if |uses| < LADDER_CAP {
      AppendRemembers(uses, granted, now);
      AppendSpaced(uses, granted, now);
    }
  }

  lemma AppendRemembers(uses: seq<int>, granted: seq<int>, now: int)
    requires Remembers(uses, granted, now) && |uses| < LADDER_CAP
    ensures Remembers(uses + [now], granted + [now], now)
  {
  }

  lemma AppendSpaced(uses: seq<int>, granted: seq<int>, now: int)
    requires Remembers(uses, granted, now) && |uses| < LADDER_CAP && Spaced(granted)
    ensures Spaced(granted + [now])
  {
  }

  lemma {:induction false} LadderRemembers(ops: seq<Op>, now: int)
    requires Forward(ops, now)
    ensures Remembers(After(ops).uses, Granted(ops), now) && Spaced(Granted(ops))
  {
    hide Remembers, Spaced, Spent, Pruned, Granted;
    if ops == [] {
      NothingGranted(now);
    } else {
      var before, op := ops[..|ops| - 1], ops[|ops| - 1];
      GrantedStep(ops);
      if Ladder(op) {
        LadderRemembers(before, op.now);
        if op.Spend? {
          SpendingRemembers(After(before), Granted(before), op.now);
        } else {
          PruningRemembers(After(before).uses, Granted(before), op.now);
        }
        LaterRemembers(After(ops).uses, Granted(ops), op.now, now);
      } else if op.Restart? {
        NothingGranted(now);
      } else {
        LadderRemembers(before, now);
        UsesElsewhere(After(before), op);
      }
    }
  }

  lemma UsesElsewhere(s: State, op: Op)
    requires !Ladder(op) && !op.Restart?
    ensures Step(s, op).uses == s.uses
  {
    hide Penalty, Seconds, OpenedFor;
  }

  lemma NothingGranted(now: int)
    ensures Granted([]) == [] && Remembers(START.uses, [], now) && Spaced([])
  {
  }

  lemma GrantedStep(ops: seq<Op>)
    requires ops != []
    ensures var before, op := ops[..|ops| - 1], ops[|ops| - 1];
            Granted(ops) ==
            if op.Restart? then [] else if op.Spend? && Spent(After(before), op.now).1 then Granted(before) + [op.now]
            else Granted(before)
  {
    hide Spent, After;
    assert Granted(ops[..|ops| - 1]) + [] == Granted(ops[..|ops| - 1]);
  }

  /** How many of the times lie in the closed hour that begins at `from`. */
  function InHour(granted: seq<int>, from: int): nat {
    if granted == [] then 0
    else
      var k := |granted| - 1;
      InHour(granted[..k], from) + if from <= granted[k] <= from + 60 * 60 * 1000 then 1 else 0
  }

  lemma {:induction false} NoneInHour(granted: seq<int>, from: int)
    requires forall i :: 0 <= i < |granted| ==> granted[i] < from
    ensures InHour(granted, from) == 0
  {
    if granted != [] { NoneInHour(granted[..|granted| - 1], from); }
  }

  lemma {:induction false} HourFrom(granted: seq<int>, from: int, k: nat)
    requires k <= |granted|
    ensures InHour(granted, from) <= InHour(granted[..k], from) + |granted| - k
    ensures (forall i :: k <= i < |granted| ==> from <= granted[i] <= from + HOUR) ==>
      InHour(granted, from) == InHour(granted[..k], from) + |granted| - k
  {
    if k == |granted| {
      assert granted[..k] == granted;
    } else {
      var init := granted[..|granted| - 1];
      HourFrom(init, from, k);
      assert init[..k] == granted[..k];
    }
  }

  /** If the last use is in the hour, those before the last three are not. */
  lemma LastUsesFitHour(granted: seq<int>, from: int)
    requires granted != [] && Spaced(granted) && NonDecreasing(granted)
    requires from <= granted[|granted| - 1] <= from + HOUR
    ensures InHour(granted, from) <= LADDER_CAP
  {
    hide InHour;
    var k := if |granted| <= LADDER_CAP then 0 else |granted| - LADDER_CAP;
    forall i | 0 <= i < k ensures granted[i] < from {
      assert granted[k - 1 + LADDER_CAP] - granted[k - 1] > HOUR;
      assert granted[i] <= granted[k - 1];
    }
    hide Spaced, NonDecreasing;
    NoneInHour(granted[..k], from);
    HourFrom(granted, from, k);
  }

  lemma {:induction false} SpacedFitsHour(granted: seq<int>, from: int)
    requires Spaced(granted) && NonDecreasing(granted)
    ensures InHour(granted, from) <= LADDER_CAP
  {
    if granted != [] {
      var last := |granted| - 1;
      if from <= granted[last] <= from + HOUR {
        LastUsesFitHour(granted, from);
      } else {
        SpacedFitsHour(granted[..last], from);
      }
    }
  }

  /** Over every run with a clock that never goes back, no closed hour holds more than three uses. */
  lemma LadderBudgetHolds(ops: seq<Op>, now: int, from: int)
    requires Forward(ops, now)
    ensures InHour(Granted(ops), from) <= 3
  {
    LadderRemembers(ops, now);
    hide After, Granted, Forward;
    SpacedFitsHour(Granted(ops), from);
  }

  /** A use is granted exactly when fewer than three were in the hour up to now. */
  lemma GrantedIffRoom(ops: seq<Op>, now: int)
    requires Forward(ops, now)
    ensures Spent(After(ops), now).1 <==> InHour(Granted(ops), now - 60 * 60 * 1000) < 3
  {
    hide After, Granted, Forward, Remembers, Spaced, Pruned, InHour;
    LadderRemembers(ops, now);
    PruningRemembers(After(ops).uses, Granted(ops), now);
    RecentAreKept(Granted(ops), now, Pruned(After(ops).uses, now - HOUR));
  }

  lemma RecentAreKept(granted: seq<int>, now: int, uses: seq<int>)
    requires Remembers(uses, granted, now) && (uses != [] ==> uses[0] >= now - HOUR)
    ensures InHour(granted, now - HOUR) == |uses|
  {
    var k := |granted| - |uses|;
    forall i | k <= i < |granted| ensures granted[i] >= now - HOUR {
      assert uses[0] == granted[k];
    }
    NoneInHour(granted[..k], now - HOUR);
    HourFrom(granted, now - HOUR, k);
  }
}
