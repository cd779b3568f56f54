// Toy locks: attempts, waits and openings, one lock at a time, and the ladder's budget.
module Locks {
  import opened Bitwise
  import opened Options
  import Base32

  type Id = string

  datatype Credential = Password(hash: string) | OneTimeCode(secret: string)

  /** How long an opened lock stays open: until the application closes, some minutes, or not past now. */
  datatype Duration = UntilClosed | Minutes(n: int) | SurfaceOnly

  /** A time of 0 reads as no time at all. */
  datatype OpenUntil = NotOpen | Session | Until(ms: int)

  datatype Lock = Lock(label_: string, credential: Credential, duration: Duration, createdAt: int, openUntil: OpenUntil)

  datatype Attempts = Attempts(count: nat, until_: int)

  /** The stored locks; and, in memory only, those open this session, the attempts, and the uses of the ladder. */
  datatype State = State(locks: map<Id, Lock>, open: set<Id>, attempts: map<Id, Attempts>, uses: seq<int>)

  const START := State(map[], {}, map[], [])

  // ------------------------------------------------------------ locked or not

  predicate IsLocked(s: State, id: Id, now: int) {
    if id !in s.locks then false
    else
      match s.locks[id].openUntil
      case NotOpen => true
      case Session => id !in s.open
      case Until(ms) => ms == 0 || now > ms
  }

  // ------------------------------------------------------------ trying an answer

  datatype Outcome = NoLock | Wait(seconds: nat) | Wrong(attempts: nat, wait: nat) | Opened

  /** Math.ceil of milliseconds in seconds, for a time that is still to come. */
  function Seconds(ms: int): nat {
    if ms <= 0 then 0 else (ms + 999) / 1000
  }

  /** The wait after the k-th graded failure in a row, in seconds. */
  function Penalty(k: nat): nat {
    if k < 3 then 0 else if Pow2(k - 2) < 60 then Pow2(k - 2) else 60
  }

  function AttemptsOn(s: State, id: Id): Attempts {
    if id in s.attempts then s.attempts[id] else Attempts(0, 0)
  }

  function OpenedFor(d: Duration, now: int): OpenUntil {
    match d
    case UntilClosed => Session
    case Minutes(n) => Until(now + n * 60000)
    case SurfaceOnly => Until(now)
  }

  /** tryUnlock, given whether the answer is right. */
  function Tried(s: State, id: Id, right: bool, now: int): (State, Outcome) {
    if id !in s.locks then (s, NoLock)
    else
      var record := AttemptsOn(s, id);
      if now < record.until_ then (s, Wait(Seconds(record.until_ - now)))
      else if right then
        var lock := s.locks[id];
        (s.(attempts := s.attempts - {id},
            open := if lock.duration.UntilClosed? then s.open + {id} else s.open,
            locks := s.locks[id := lock.(openUntil := OpenedFor(lock.duration, now))]), Opened)
      else
        var count := record.count + 1;
        var until_ := if count >= 3 then now + Penalty(count) * 1000 else record.until_;
        (s.(attempts := s.attempts[id := Attempts(count, until_)]), Wrong(count, Seconds(until_ - now)))
  }

  function Created(s: State, id: Id, lock: Lock): State {
    s.(locks := s.locks[id := lock.(openUntil := NotOpen)])
  }

  function Relocked(s: State, id: Id): State {
    if id !in s.locks then s
    else s.(open := s.open - {id}, locks := s.locks[id := s.locks[id].(openUntil := NotOpen)])
  }

  function Removed(s: State, id: Id): State {
    s.(open := s.open - {id}, locks := s.locks - {id})
  }

  function WaitCleared(s: State, id: Id): State {
    if id !in s.attempts then s else s.(attempts := s.attempts[id := s.attempts[id].(until_ := 0)])
  }

  // ------------------------------------------------------------ the ladder

  const HOUR: int := 3_600_000

  const LADDER_CAP: nat := 3

  /** The uses without those at the front that are before the cutoff. */
  function Pruned(uses: seq<int>, cutoff: int): (r: seq<int>)
    ensures |r| <= |uses|
    ensures r != [] ==> r[0] >= cutoff
  {
    if uses != [] && uses[0] < cutoff then Pruned(uses[1..], cutoff) else uses
  }

  function Spent(s: State, now: int): (State, bool) {
    var uses := Pruned(s.uses, now - HOUR);
    if |uses| < LADDER_CAP then (s.(uses := uses + [now]), true) else (s.(uses := uses), false)
  }

  // ------------------------------------------------------------ the module, updating in place

  datatype Refusal = NoTarget | UnsupportedMethod | ShortPassword | NoSecret | InvalidSecret

  class Store {
    var locks: map<Id, Lock>
    var open: set<Id>
    var attempts: map<Id, Attempts>
    var uses: seq<int>

    ghost function View(): State
      reads this
    {
      State(locks, open, attempts, uses)
    }

    constructor ()
      ensures View() == START
    {
      locks, open, attempts, uses := map[], {}, map[], [];
    }

    /** create; `hash` is SHA-256 in hexadecimal, `strip` removes white space, `upper` is toUpperCase. */
    method Create(hash: string -> string, strip: string -> string, upper: string -> string,
                  id: Id, label_: string, how: string, password: string, secret: string, duration: Duration, now: int)
      returns (refused: Option<Refusal>)
      modifies this
      ensures refused == Some(NoTarget) <==> id == ""
      ensures refused == Some(UnsupportedMethod) <==> id != "" && how != "password" && how != "totp"
      ensures refused == Some(ShortPassword) <==> id != "" && how == "password" && |password| < 4
      ensures refused == Some(NoSecret) <==> id != "" && how == "totp" && strip(secret) == ""
      ensures refused == Some(InvalidSecret) <==>
              id != "" && how == "totp" && strip(secret) != "" && |Base32.Kept(upper(strip(secret)))| < 2
      ensures refused.Some? ==> View() == old(View())
      ensures refused.None? ==>
                var credential := if how == "password" then Password(hash(password)) else OneTimeCode(strip(secret));
                View() == Created(old(View()), id,
                                  Lock(if label_ == "" then id else label_, credential, duration, now, NotOpen))
    {
      if id == "" { return Some(NoTarget); }
      if how != "password" && how != "totp" { return Some(UnsupportedMethod); }
      var credential;
      if how == "password" {
        if |password| < 4 { return Some(ShortPassword); }
        credential := Password(hash(password));
      } else {
        var cleaned := strip(secret);
        if cleaned == "" { return Some(NoSecret); }
        var bytes := Base32.Decode(upper, cleaned);
        if bytes == [] { return Some(InvalidSecret); }
        credential := OneTimeCode(cleaned);
      }
      var lock := Lock(if label_ == "" then id else label_, credential, duration, now, NotOpen);
      locks := locks[id := lock];
      refused := None;
    }

    /** tryUnlock; `matches` compares the hash of the answer, or the codes around now. */
    method TryUnlock(matches: (Credential, string, int) -> bool, id: Id, answer: string, now: int) returns (r: Outcome)
      modifies this
      ensures var right := id in old(locks) && matches(old(locks)[id].credential, answer, now);
              (View(), r) == Tried(old(View()), id, right, now)
    {
      if id !in locks { return NoLock; }
      var lock := locks[id];
      var record := if id in attempts then attempts[id] else Attempts(0, 0);
      if now < record.until_ { return Wait(Seconds(record.until_ - now)); }
      if !matches(lock.credential, answer, now) {
        record := record.(count := record.count + 1);
        if record.count >= 3 {
          record := record.(until_ := now + Penalty(record.count) * 1000);
        }
        attempts := attempts[id := record];
        return Wrong(record.count, Seconds(record.until_ - now));
      }
      attempts := attempts - {id};
      locks := locks[id := lock.(openUntil := OpenedFor(lock.duration, now))];
      if lock.duration.UntilClosed? { open := open + {id}; }
      r := Opened;
    }

    method Relock(id: Id)
      modifies this
      ensures View() == Relocked(old(View()), id)
    {
      if id !in locks { return; }
      open := open - {id};
      locks := locks[id := locks[id].(openUntil := NotOpen)];
    }

    method Remove(id: Id)
      modifies this
      ensures View() == Removed(old(View()), id)
    {
      locks := locks - {id};
      open := open - {id};
    }

    method ClearWait(id: Id) returns (cleared: bool)
      modifies this
      ensures cleared == (id in old(attempts)) && View() == WaitCleared(old(View()), id)
    {
      if id !in attempts { return false; }
      attempts := attempts[id := attempts[id].(until_ := 0)];
      cleared := true;
    }

    method LadderBudget(now: int) returns (used: nat, remaining: nat)
      modifies this`uses
      ensures uses == Pruned(old(uses), now - HOUR) && used == |uses|
      ensures remaining == if used < LADDER_CAP then LADDER_CAP - used else 0
    {
      var cutoff := now - HOUR;
      while uses != [] && uses[0] < cutoff
        invariant Pruned(uses, cutoff) == Pruned(old(uses), cutoff)
        decreases |uses|
      {
        uses := uses[1..];
      }
      used := |uses|;
      remaining := if used < LADDER_CAP then LADDER_CAP - used else 0;
    }

    method SpendLadder(now: int) returns (spent: bool)
      modifies this`uses
      ensures (View(), spent) == Spent(old(View()), now)
    {
      var used, remaining := LadderBudget(now);
      if remaining == 0 { return false; }
      uses := uses + [now];
      spent := true;
    }
  }
}
