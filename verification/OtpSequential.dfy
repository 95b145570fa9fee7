/** Every sequential run, seen from one phone, is an interleaved run with one call in flight.
    So the machine of OtpInterleaving is no other protocol than that of HubtelOtp, and its
    bounds for k = 1 are those of OtpClaims. */
module OtpSequential {
  import opened Wrappers
  import opened Redis
  import opened HubtelOtp
  import opened OtpHistory
  import opened OtpInterleaving
  import OtpClaims

  /** The shared state of a phone between two calls. */
  ghost predicate Matches(w: World, phone: string, s: Shared) {
    && s.now == w.now
    && s.counter == At(w.db, ResendKey(phone))
    && s.admitted == Admissions(w.log, phone)
    && s.passed == 0
    && s.reading == multiset{}
    && s.issued == OtpClaims.Stores(w.log, phone)
    && |s.successes| == OtpClaims.Successes(w.log, phone)
    && SamePassword(At(w.db, OtpKey(phone)), s.otp)
  }

  predicate SamePassword(slot: Slot, otp: Option<Password>) {
    match slot
    case None => otp.None?
    case Some(e) => otp.Some? && e.value.Otp? && e.expiresAt == Some(otp.value.expiresAt)
  }

  ghost predicate Simulated(start: nat, moves: seq<Move>, w: World, phone: string, s: Shared) {
    Reaches(start, moves, s, 1) && Matches(w, phone, s)
  }

  lemma WaitMoves(start: nat, moves: seq<Move>, w: World, phone: string, s: Shared, d: nat)
    returns (moves': seq<Move>, s': Shared)
    requires Simulated(start, moves, w, phone, s)
    ensures Simulated(start, moves', Wait(w, d), phone, s')
  {
    moves' := Extend(start, moves, s, Pass(d), 1);
    s' := Apply(s, Pass(d));
  }

  lemma StoreMatches(w: World, phone: string, s: Shared, p: string, c: Credentials)
    requires Matches(w, phone, s)
    ensures Matches(Store(w, p, c), phone, if p == phone then Apply(s, StoreNew) else s)
  {
    KeysApart(p, phone);
    KeysApart(phone, p);
    AdmissionsAfter(w.log, Stored(p, w.now, c), phone);
    OtpClaims.CountsAfter(w.log, Stored(p, w.now, c), phone);
  }

  lemma StoreMoves(start: nat, moves: seq<Move>, w: World, phone: string, s: Shared, p: string, c: Credentials)
    returns (moves': seq<Move>, s': Shared)
    requires Simulated(start, moves, w, phone, s)
    ensures Simulated(start, moves', Store(w, p, c), phone, s')
  {
    StoreMatches(w, phone, s, p, c);
    moves', s' := moves, s;
    if p == phone {
      moves' := Extend(start, moves, s, StoreNew, 1);
      s' := Apply(s, StoreNew);
    }
  }

  lemma ChargeMatches(w: World, phone: string, s: Shared, p: string)
    requires Matches(w, phone, s)
    requires ReadCount(w, p).Some?
    ensures Matches(Charge(w, p), phone,
                    if p == phone then Apply(Apply(s, CheckLimit), ChargeCounter) else s)
  {
    KeysApart(p, phone);
    KeysApart(phone, p);
    AdmissionsAfter(w.log, Admitted(p, w.now), phone);
    OtpClaims.CountsAfter(w.log, Admitted(p, w.now), phone);
  }

  lemma ChargeMoves(start: nat, moves: seq<Move>, w: World, phone: string, s: Shared, p: string)
    returns (moves': seq<Move>, s': Shared)
    requires Simulated(start, moves, w, phone, s)
    requires ReadCount(w, p).Some? && ReadCount(w, p).value < RESEND_MAX
    ensures Simulated(start, moves', Charge(w, p), phone, s')
  {
    ChargeMatches(w, phone, s, p);
    moves', s' := moves, s;
    if p == phone {
      var s1 := Apply(s, CheckLimit);
      moves' := Extend(start, moves, s, CheckLimit, 1);
      moves' := Extend(start, moves', s1, ChargeCounter, 1);
      s' := Apply(s1, ChargeCounter);
    }
  }

  lemma SendMoves(start: nat, moves: seq<Move>, w: World, phone: string, s: Shared, p: string, a: SendAnswer)
    returns (moves': seq<Move>, s': Shared)
    requires Simulated(start, moves, w, phone, s)
    ensures Simulated(start, moves', Send(w, p, a).0, phone, s')
  {
    moves', s' := WaitMoves(start, moves, w, phone, s, a.delay);
    if a.body.Some? {
      moves', s' := StoreMoves(start, moves', Wait(w, a.delay), phone, s', p, a.body.value);
    }
  }

  /** A verify call on the phone itself reads, waits and is answered. */
  lemma OwnVerifyMoves(start: nat, moves: seq<Move>, w: World, phone: string, s: Shared, a: VerifyAnswer)
    returns (moves': seq<Move>, s': Shared)
    requires Simulated(start, moves, w, phone, s)
    ensures Simulated(start, moves', Verify(w, phone, a).0, phone, s')
  {
    if Load(w, phone).Present? {
      var answer := Answered(s.otp.value.id, a.status == Some(200));
      var s1 := Apply(s, ReadOtp);
      moves' := Extend(start, moves, s, ReadOtp, 1);
      var s2 := Apply(s1, Pass(a.delay));
      moves' := Extend(start, moves', s1, Pass(a.delay), 1);
      moves' := Extend(start, moves', s2, answer, 1);
      s' := Apply(s2, answer);
      VerifyMatches(w, phone, s, a, s');
    } else {
      moves', s' := moves, s;
    }
  }

  lemma VerifyMatches(w: World, phone: string, s: Shared, a: VerifyAnswer, s': Shared)
    requires Matches(w, phone, s) && Load(w, phone).Present?
    requires s' == Apply(Apply(Apply(s, ReadOtp), Pass(a.delay)),
                         Answered(s.otp.value.id, a.status == Some(200)))
    ensures Matches(Verify(w, phone, a).0, phone, s')
  {
    assert multiset{} + multiset{s.otp.value.id} - multiset{s.otp.value.id} == multiset{};
    KeysApart(phone, phone);
    AdmissionsAfter(w.log, Verified(phone, w.now, Load(w, phone).credentials), phone);
    OtpClaims.CountsAfter(w.log, Verified(phone, w.now, Load(w, phone).credentials), phone);
  }

  lemma OtherVerifyMatches(w: World, phone: string, s: Shared, p: string, c: Credentials, readAt: nat)
    requires Matches(w, phone, s) && p != phone
    ensures Matches(Put(w, OtpKey(p), None, [Verified(p, readAt, c)]), phone, s)
  {
    KeysApart(p, phone);
    KeysApart(phone, p);
    AdmissionsAfter(w.log, Verified(p, readAt, c), phone);
    OtpClaims.CountsAfter(w.log, Verified(p, readAt, c), phone);
  }

  lemma VerifyMoves(start: nat, moves: seq<Move>, w: World, phone: string, s: Shared, p: string, a: VerifyAnswer)
    returns (moves': seq<Move>, s': Shared)
    requires Simulated(start, moves, w, phone, s)
    ensures Simulated(start, moves', Verify(w, p, a).0, phone, s')
  {
    if p == phone {
      moves', s' := OwnVerifyMoves(start, moves, w, phone, s, a);
    } else if Load(w, p).Present? {
      moves', s' := WaitMoves(start, moves, w, phone, s, a.delay);
      OtherVerifyMatches(Wait(w, a.delay), phone, s', p, Load(w, p).credentials, w.now);
    } else {
      moves', s' := moves, s;
    }
  }

  lemma ResendMoves(start: nat, moves: seq<Move>, w: World, phone: string, s: Shared,
                    p: string, again: SendAnswer, anew: SendAnswer)
    returns (moves': seq<Move>, s': Shared)
    requires Simulated(start, moves, w, phone, s)
    ensures Simulated(start, moves', Resend(w, p, again, anew).0, phone, s')
  {
    moves', s' := moves, s;
    var n := ReadCount(w, p);
    if n.Some? && n.value < RESEND_MAX {
      var w1 := Charge(w, p);
      moves', s' := ChargeMoves(start, moves, w, phone, s, p);
      if Load(w1, p).Present? {
        moves', s' := WaitMoves(start, moves', w1, phone, s', again.delay);
        if again.body.Some? {
          moves', s' := StoreMoves(start, moves', Wait(w1, again.delay), phone, s', p, again.body.value);
        } else {
          moves', s' := SendMoves(start, moves', Wait(w1, again.delay), phone, s', p, anew);
        }
      } else if Load(w1, p).Absent? {
        moves', s' := SendMoves(start, moves', w1, phone, s', p, anew);
      }
    }
  }

  lemma StepMoves(start: nat, moves: seq<Move>, w: World, phone: string, s: Shared, op: Op)
    returns (moves': seq<Move>, s': Shared)
    requires Simulated(start, moves, w, phone, s)
    ensures Simulated(start, moves', Step(w, op), phone, s')
  {
    match op {
      case Tick(d) => moves', s' := WaitMoves(start, moves, w, phone, s, d);
      case SendOp(p, a) => moves', s' := SendMoves(start, moves, w, phone, s, p, a);
      case VerifyOp(p, a) => moves', s' := VerifyMoves(start, moves, w, phone, s, p, a);
      case ResendOp(p, a, b) => moves', s' := ResendMoves(start, moves, w, phone, s, p, a, b);
    }
  }

  lemma {:induction false} SequentialIsInterleaved(start: nat, ops: seq<Op>, phone: string)
    returns (moves: seq<Move>, s: Shared)
    ensures Reaches(start, moves, s, 1) && Matches(Run(start, ops), phone, s)
    decreases |ops|
  {
    if ops == [] {
      moves, s := [], Initial(start);
    } else {
      var rest := ops[..|ops| - 1];
      moves, s := SequentialIsInterleaved(start, rest, phone);
      moves, s := StepMoves(start, moves, Run(start, rest), phone, s, ops[|ops| - 1]);
    }
  }
}
