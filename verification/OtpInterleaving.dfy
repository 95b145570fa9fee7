/** Concurrent calls for one phone, at the grain of single Redis commands. The limit is read
    and the counter charged in two separate steps, and a password is read, checked with the
    provider and deleted in separate steps, so other calls can come in between. The bounds of
    OtpClaims then weaken by the number of calls in flight, and no further. What OtpClaims says
    of the pending password holds only for calls one after the other; OtpPending says what
    holds here. */
module OtpInterleaving {
  import opened Wrappers
  import opened Redis
  import opened HubtelOtp
  import opened OtpHistory
  import OtpClaims

  /** A stored password, named by the order of its store. */
  datatype Password = Password(id: nat, expiresAt: nat)

  /** passed: resends that have passed the limit and not yet charged the counter.
      admitted: when the counter was charged.
      reading: the passwords that verify calls in flight have read.
      successes: the passwords for which verify has answered True, with repetitions. */
  datatype Shared = Shared(now: nat, otp: Option<Password>, counter: Slot,
                           passed: nat, admitted: seq<nat>,
                           reading: multiset<nat>, successes: multiset<nat>, issued: nat)

  datatype Move =
    | Pass(delay: nat)
    | CheckLimit
    | ChargeCounter
    | StoreNew
    | ReadOtp
    | Answered(id: nat, ok: bool)

  function ReadableCount(s: Shared): Option<int> {
    match Get(s.counter, s.now)
    case None => Some(0)
    case Some(Count(n)) => Some(n)
    case Some(Otp(_, _)) => None
  }

  /** With at most k resends between their two steps, and at most k verify calls in flight. */
  predicate Enabled(s: Shared, m: Move, k: nat) {
    match m
    case Pass(_) => true
    case CheckLimit => s.passed < k && ReadableCount(s).Some? && ReadableCount(s).value < RESEND_MAX
    case ChargeCounter => s.passed > 0 && ReadableCount(s).Some?
    case StoreNew => true
    case ReadOtp => s.otp.Some? && s.now < s.otp.value.expiresAt && |s.reading| < k
    case Answered(id, _) => id in s.reading
  }

  function Apply(s: Shared, m: Move): Shared
    requires m.ChargeCounter? ==> s.passed > 0 && ReadableCount(s).Some?
    requires m.ReadOtp? ==> s.otp.Some?
  {
    match m
    case Pass(d) => s.(now := s.now + d)
    case CheckLimit => s.(passed := s.passed + 1)
    case ChargeCounter =>
      s.(counter := Expire(Incr(s.counter, s.now), s.now, RESEND_WINDOW),
         passed := s.passed - 1, admitted := s.admitted + [s.now])
    case StoreNew => s.(otp := Some(Password(s.issued, s.now + OTP_TTL)), issued := s.issued + 1)
    case ReadOtp => s.(reading := s.reading + multiset{s.otp.value.id})
    case Answered(id, ok) =>
      var done := s.(reading := s.reading - multiset{id});
      if ok then done.(otp := None, successes := s.successes + multiset{id}) else done
  }

  function Initial(start: nat): Shared {
    Shared(start, None, None, 0, [], multiset{}, multiset{}, 0)
  }

  /** The states that runs reach. */
  ghost predicate Reaches(start: nat, moves: seq<Move>, s: Shared, k: nat)
    decreases |moves|
  {
    if moves == [] then s == Initial(start)
    else
      var m := moves[|moves| - 1];
      exists before: Shared {:trigger Enabled(before, m, k)} ::
        && Reaches(start, moves[..|moves| - 1], before, k)
        && Enabled(before, m, k)
        && s == Apply(before, m)
  }

  // ---- The resend limit ----

  predicate LimitInv(s: Shared, k: nat) {
    && s.counter == CounterSlot(s.admitted)
    && Ascending(s.admitted, s.now)
    && s.passed <= k
    && CountFrom(s.admitted, s.now) + s.passed <= 3 + k - 1
    && ChainsWithin(s.admitted, 3 + k - 1)
  }

  lemma ReadableIs(s: Shared, k: nat)
    requires LimitInv(s, k)
    ensures ReadableCount(s) == Some(CountFrom(s.admitted, s.now))
  {
  }

  lemma LimitStep(s: Shared, m: Move, k: nat)
    requires k >= 1 && LimitInv(s, k) && Enabled(s, m, k)
    ensures LimitInv(Apply(s, m), k)
  {
    match m {
      case ChargeCounter => ChargeStep(s, k);
      case _ =>
    }
  }

  lemma ChargeStep(s: Shared, k: nat)
    requires k >= 1 && LimitInv(s, k) && Enabled(s, ChargeCounter, k)
    ensures LimitInv(Apply(s, ChargeCounter), k)
  {
    ChargedTimes(s.admitted, s.now, 3 + k - 1);
    ChainGrows(s.admitted, s.now);
  }

  // ---- Passwords ----

  /** No password succeeds more often than there are calls in flight, and one that is still
      stored has not succeeded at all. */
  ghost predicate PasswordInv(s: Shared, k: nat) {
    && |s.reading| <= k
    && (s.otp.Some? ==> s.otp.value.id < s.issued && s.successes[s.otp.value.id] == 0)
    && (forall id :: id >= s.issued ==> s.successes[id] == 0 && s.reading[id] == 0)
    && (forall id :: s.successes[id] + s.reading[id] <= k)
  }

  lemma CountAtMostAll(m: multiset<nat>, id: nat)
    ensures m[id] <= |m|
  {
  }

  lemma PasswordStep(s: Shared, m: Move, k: nat)
    requires PasswordInv(s, k) && Enabled(s, m, k)
    ensures PasswordInv(Apply(s, m), k)
  {
    var s' := Apply(s, m);
    match m {
      case ReadOtp =>
        forall id ensures s'.successes[id] + s'.reading[id] <= k {
          CountAtMostAll(s'.reading, id);
          assert s.successes[id] + s.reading[id] <= k;
        }
      case Answered(id, ok) =>
        forall other ensures s'.successes[other] + s'.reading[other] <= k {
          assert s.successes[other] + s.reading[other] <= k;
        }
      case _ =>
    }
  }

  lemma {:induction false} LimitHolds(start: nat, moves: seq<Move>, s: Shared, k: nat)
    requires k >= 1 && Reaches(start, moves, s, k)
    ensures LimitInv(s, k)
    decreases |moves|
  {
    if moves != [] {
      var rest, m := moves[..|moves| - 1], moves[|moves| - 1];
      var before :| Reaches(start, rest, before, k) && Enabled(before, m, k) && s == Apply(before, m);
      LimitHolds(start, rest, before, k);
      LimitStep(before, m, k);
    }
  }

  lemma {:induction false} PasswordsHold(start: nat, moves: seq<Move>, s: Shared, k: nat)
    requires k >= 1 && Reaches(start, moves, s, k)
    ensures PasswordInv(s, k)
    decreases |moves|
  {
    if moves != [] {
      var rest, m := moves[..|moves| - 1], moves[|moves| - 1];
      var before :| Reaches(start, rest, before, k) && Enabled(before, m, k) && s == Apply(before, m);
      PasswordsHold(start, rest, before, k);
      PasswordStep(before, m, k);
    }
  }

  lemma OvershootOf(s: Shared, k: nat, t: nat)
    requires k >= 1 && LimitInv(s, k)
    ensures ReadableCount(s).Some? && ReadableCount(s).value + s.passed <= 3 + k - 1
    ensures OtpClaims.InWindow(s.admitted, t) <= 3 + k - 1
  {
    ReadableIs(s, k);
    OtpClaims.WindowBound(s.admitted, t, s.now, 3 + k - 1);
  }

  /** With k resends in flight the counter and the callers that have passed it never exceed
      three plus k - 1, and no window of 900 seconds holds more admissions than that. */
  lemma BoundedOvershoot(start: nat, moves: seq<Move>, s: Shared, k: nat, t: nat)
    requires k >= 1 && Reaches(start, moves, s, k)
    ensures ReadableCount(s).Some? && ReadableCount(s).value + s.passed <= 3 + k - 1
    ensures OtpClaims.InWindow(s.admitted, t) <= 3 + k - 1
  {
    LimitHolds(start, moves, s, k);
    OvershootOf(s, k, t);
  }

  /** With k verify calls in flight a password succeeds at most k times; with one call at a
      time it is single-use. */
  lemma BoundedReuse(start: nat, moves: seq<Move>, s: Shared, k: nat, id: nat)
    requires k >= 1 && Reaches(start, moves, s, k)
    ensures s.successes[id] <= k
  {
    PasswordsHold(start, moves, s, k);
  }

  /** A resend passes the limit exactly when fewer than three admissions with gaps under 900
      seconds lead up to less than 900 seconds ago, and fewer than k callers have passed it. */
  lemma PassesIff(start: nat, moves: seq<Move>, s: Shared, k: nat)
    requires k >= 1 && Reaches(start, moves, s, k)
    ensures
      var n := |s.admitted|;
      Enabled(s, CheckLimit, k)
      <==> s.passed < k && !(Chain(s.admitted) >= 3 && s.now < s.admitted[n - 1] + 900)
  {
    LimitHolds(start, moves, s, k);
    PassesFrom(s, k);
  }

  lemma PassesFrom(s: Shared, k: nat)
    requires LimitInv(s, k)
    ensures
      var n := |s.admitted|;
      ReadableCount(s).Some?
      && (ReadableCount(s).value < 3 <==> !(Chain(s.admitted) >= 3 && s.now < s.admitted[n - 1] + 900))
  {
    ReadableIs(s, k);
  }

  // ---- Both bounds are attained ----

  lemma Extend(start: nat, moves: seq<Move>, s: Shared, m: Move, k: nat) returns (longer: seq<Move>)
    requires Reaches(start, moves, s, k) && Enabled(s, m, k)
    ensures Reaches(start, longer, Apply(s, m), k)
  {
    longer := moves + [m];
    assert longer[..|longer| - 1] == moves && longer[|longer| - 1] == m;
  }

  /** n callers in a row pass the limit. */
  lemma {:induction false} PassMany(start: nat, moves: seq<Move>, s: Shared, k: nat, n: nat)
    returns (longer: seq<Move>)
    requires Reaches(start, moves, s, k) && s.passed == 0 && n <= k
    requires ReadableCount(s).Some? && ReadableCount(s).value < 3
    ensures Reaches(start, longer, s.(passed := n), k)
    decreases n
  {
    if n == 0 {
      longer := moves;
      assert s == s.(passed := 0);
    } else {
      longer := PassMany(start, moves, s, k, n - 1);
      longer := Extend(start, longer, s.(passed := n - 1), CheckLimit, k);
    }
  }

  /** n callers that have passed charge the counter at one moment. */
  lemma {:induction false} ChargeMany(start: nat, moves: seq<Move>, s: Shared, k: nat, n: nat)
    returns (longer: seq<Move>, s': Shared)
    requires k >= 1 && Reaches(start, moves, s, k) && n <= s.passed
    ensures Reaches(start, longer, s', k)
    ensures s'.now == s.now && s'.passed == s.passed - n
    ensures |s'.admitted| == |s.admitted| + n
    ensures (forall i :: 0 <= i < |s.admitted| ==> s.admitted[i] == s.now)
            ==> (forall i :: 0 <= i < |s'.admitted| ==> s'.admitted[i] == s.now)
    decreases n
  {
    if n == 0 {
      longer, s' := moves, s;
    } else {
      var s1: Shared;
      longer, s1 := ChargeMany(start, moves, s, k, n - 1);
      LimitHolds(start, longer, s1, k);
      longer := Extend(start, longer, s1, ChargeCounter, k);
      s' := Apply(s1, ChargeCounter);
    }
  }

  lemma {:induction false} AllInWindow(times: seq<nat>, t: nat)
    requires forall i :: 0 <= i < |times| ==> times[i] == t
    ensures OtpClaims.InWindow(times, t) == |times| && Chain(times) == |times|
    decreases |times|
  {
    if times != [] {
      AllInWindow(times[..|times| - 1], t);
    }
  }

  /** Two resends one after the other, then k at once: k + 2 admissions in one second. */
  lemma OvershootAttained(start: nat, k: nat) returns (moves: seq<Move>, s: Shared)
    requires k >= 1
    ensures Reaches(start, moves, s, k)
    ensures OtpClaims.InWindow(s.admitted, start) == 3 + k - 1
  {
    moves, s := [], Initial(start);
    moves := PassMany(start, moves, s, k, 1);
    moves, s := ChargeMany(start, moves, s.(passed := 1), k, 1);
    LimitOpen(start, moves, s, k);
    moves := PassMany(start, moves, s, k, 1);
    moves, s := ChargeMany(start, moves, s.(passed := 1), k, 1);
    LimitOpen(start, moves, s, k);
    moves := PassMany(start, moves, s, k, k);
    moves, s := ChargeMany(start, moves, s.(passed := k), k, k);
    AllInWindow(s.admitted, start);
  }

  /** After fewer than three admissions the limit is still open. */
  lemma LimitOpen(start: nat, moves: seq<Move>, s: Shared, k: nat)
    requires k >= 1 && Reaches(start, moves, s, k)
    requires |s.admitted| < 3
    ensures ReadableCount(s).Some? && ReadableCount(s).value < 3
  {
    LimitHolds(start, moves, s, k);
  }

  /** n verify calls read the same stored password. */
  lemma {:induction false} ReadMany(start: nat, moves: seq<Move>, s: Shared, k: nat, n: nat)
    returns (longer: seq<Move>, s': Shared)
    requires Reaches(start, moves, s, k) && n <= k
    requires s.otp.Some? && s.now < s.otp.value.expiresAt && s.reading == multiset{}
    ensures Reaches(start, longer, s', k)
    ensures s' == s.(reading := s'.reading)
    ensures |s'.reading| == n && s'.reading[s.otp.value.id] == n
    decreases n
  {
    if n == 0 {
      longer, s' := moves, s;
    } else {
      longer, s' := ReadMany(start, moves, s, k, n - 1);
      longer := Extend(start, longer, s', ReadOtp, k);
      s' := Apply(s', ReadOtp);
    }
  }

  /** n calls that have read a password are all told 200 for it. */
  lemma {:induction false} SucceedMany(start: nat, moves: seq<Move>, s: Shared, k: nat, id: nat, n: nat)
    returns (longer: seq<Move>, s': Shared)
    requires Reaches(start, moves, s, k) && n <= s.reading[id]
    ensures Reaches(start, longer, s', k)
    ensures s'.successes[id] == s.successes[id] + n && s'.reading[id] == s.reading[id] - n
    ensures s'.issued == s.issued
    decreases n
  {
    if n == 0 {
      longer, s' := moves, s;
    } else {
      longer, s' := SucceedMany(start, moves, s, k, id, n - 1);
      assert id in s'.reading;
      longer := Extend(start, longer, s', Answered(id, true), k);
      s' := Apply(s', Answered(id, true));
    }
  }

  /** One password, k verify calls at once: k successes. */
  lemma ReuseAttained(start: nat, k: nat) returns (moves: seq<Move>, s: Shared)
    requires k >= 1
    ensures Reaches(start, moves, s, k)
    ensures s.issued == 1 && s.successes[0] == k
  {
    moves, s := [], Initial(start);
    moves := Extend(start, moves, s, StoreNew, k);
    s := Apply(s, StoreNew);
    moves, s := ReadMany(start, moves, s, k, k);
    moves, s := SucceedMany(start, moves, s, k, 0, k);
  }
}
