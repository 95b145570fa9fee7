/** One store for all phones behaves like a separate pair of slots for every phone. */
module OtpIsolation {
  import opened Wrappers
  import opened Redis
  import opened HubtelOtp
  import opened OtpHistory

  /** What one phone has in the store: its pending password and its resend counter. */
  datatype Phone = Phone(otp: Slot, counter: Slot)

  function View(db: Db, phone: string): Phone {
    Phone(At(db, OtpKey(phone)), At(db, ResendKey(phone)))
  }

  // ---- The client of a single phone, without keys ----

  datatype Outcome = NoOutcome | SendOutcome(s: SendResult) | VerifyOutcome(v: VerifyResult)

  /** The state, the time and the result after an operation on the phone itself. */
  datatype PhoneStep = PhoneStep(phone: Phone, now: nat, outcome: Outcome)

  function PhoneSend(s: Phone, now: nat, a: SendAnswer): PhoneStep {
    match a.body
    case None => PhoneStep(s, now + a.delay, SendOutcome(SendRaised))
    case Some(c) =>
      PhoneStep(s.(otp := SetEx(now + a.delay, Otp(c.requestId, c.prefix), 300)), now + a.delay,
                SendOutcome(Sent(c)))
  }

  function PhoneVerify(s: Phone, now: nat, a: VerifyAnswer): PhoneStep {
    match Get(s.otp, now)
    case None => PhoneStep(s, now, VerifyOutcome(Rejected))
    case Some(Count(_)) => PhoneStep(s, now, VerifyOutcome(VerifyRaised))
    case Some(Otp(_, _)) =>
      if a.status == Some(200) then PhoneStep(s.(otp := None), now + a.delay, VerifyOutcome(Accepted))
      else PhoneStep(s, now + a.delay, VerifyOutcome(Rejected))
  }

  function PhoneResend(s: Phone, now: nat, again: SendAnswer, anew: SendAnswer): PhoneStep {
    var count := Get(s.counter, now);
    if count.Some? && count.value.Otp? then PhoneStep(s, now, SendOutcome(SendRaised))
    else if count.Some? && count.value.n >= 3 then PhoneStep(s, now, SendOutcome(RateLimited))
    else
      var s1 := s.(counter := Expire(Incr(s.counter, now), now, 900));
      match Get(s.otp, now)
      case None => PhoneSend(s1, now, anew)
      case Some(Count(_)) => PhoneStep(s1, now, SendOutcome(SendRaised))
      case Some(Otp(_, _)) =>
        if again.body.Some? then PhoneSend(s1, now, again)
        else PhoneSend(s1, now + again.delay, anew)
  }

  function PhoneOp(s: Phone, now: nat, op: Op): PhoneStep {
    match op
    case Tick(d) => PhoneStep(s, now + d, NoOutcome)
    case SendOp(_, a) => PhoneSend(s, now, a)
    case VerifyOp(_, a) => PhoneVerify(s, now, a)
    case ResendOp(_, a, b) => PhoneResend(s, now, a, b)
  }

  function OutcomeOf(w: World, op: Op): Outcome {
    match op
    case Tick(_) => NoOutcome
    case SendOp(p, a) => SendOutcome(Send(w, p, a).1)
    case VerifyOp(p, a) => VerifyOutcome(Verify(w, p, a).1)
    case ResendOp(p, a, b) => SendOutcome(Resend(w, p, a, b).1)
  }

  predicate IsFor(op: Op, phone: string) {
    op.Tick? || op.phone == phone
  }

  // ---- Refinement ----

  lemma PutView(w: World, key: string, slot: Slot, events: seq<Event>, phone: string)
    ensures key == OtpKey(phone) ==> View(Put(w, key, slot, events).db, phone) == View(w.db, phone).(otp := slot)
    ensures key == ResendKey(phone) ==> View(Put(w, key, slot, events).db, phone) == View(w.db, phone).(counter := slot)
    ensures key != OtpKey(phone) && key != ResendKey(phone) ==>
              View(Put(w, key, slot, events).db, phone) == View(w.db, phone)
  {
  }

  lemma StoreView(w: World, p: string, c: Credentials, phone: string)
    ensures View(Store(w, p, c).db, phone) ==
            if p == phone then View(w.db, phone).(otp := SetEx(w.now, Otp(c.requestId, c.prefix), 300))
            else View(w.db, phone)
  {
    KeysApart(p, phone);
    KeysApart(phone, p);
    PutView(w, OtpKey(p), SetEx(w.now, Otp(c.requestId, c.prefix), 300), [Stored(p, w.now, c)], phone);
  }

  lemma ChargeView(w: World, p: string, phone: string)
    requires ReadCount(w, p).Some?
    ensures View(Charge(w, p).db, phone) ==
            if p == phone then
              View(w.db, phone).(counter := Expire(Incr(At(w.db, ResendKey(p)), w.now), w.now, 900))
            else View(w.db, phone)
  {
    KeysApart(p, phone);
    KeysApart(phone, p);
    PutView(w, ResendKey(p), Expire(Incr(At(w.db, ResendKey(p)), w.now), w.now, 900),
            [Admitted(p, w.now)], phone);
  }

  lemma VerifyView(w: World, p: string, a: VerifyAnswer, phone: string)
    ensures
      var w' := Verify(w, p, a).0;
      if p == phone then PhoneStep(View(w'.db, phone), w'.now, VerifyOutcome(Verify(w, p, a).1))
                         == PhoneVerify(View(w.db, phone), w.now, a)
      else View(w'.db, phone) == View(w.db, phone)
  {
    KeysApart(p, phone);
    KeysApart(phone, p);
    match Load(w, p) {
      case Present(c) =>
        PutView(Wait(w, a.delay), OtpKey(p), None, [Verified(p, w.now, c)], phone);
      case Absent =>
      case Corrupt =>
    }
  }

  lemma SendView(w: World, p: string, a: SendAnswer, phone: string)
    ensures
      var w' := Send(w, p, a).0;
      if p == phone then PhoneStep(View(w'.db, phone), w'.now, SendOutcome(Send(w, p, a).1))
                         == PhoneSend(View(w.db, phone), w.now, a)
      else View(w'.db, phone) == View(w.db, phone)
  {
    if a.body.Some? {
      StoreView(Wait(w, a.delay), p, a.body.value, phone);
    }
  }

  lemma ResendView(w: World, p: string, again: SendAnswer, anew: SendAnswer, phone: string)
    ensures
      var w' := Resend(w, p, again, anew).0;
      if p == phone then PhoneStep(View(w'.db, phone), w'.now, SendOutcome(Resend(w, p, again, anew).1))
                         == PhoneResend(View(w.db, phone), w.now, again, anew)
      else View(w'.db, phone) == View(w.db, phone)
  {
    var n := ReadCount(w, p);
    if n.Some? && n.value < 3 {
      var w1 := Charge(w, p);
      ChargeView(w, p, phone);
      ChargeView(w, p, p);
      assert At(w1.db, OtpKey(p)) == View(w1.db, p).otp;
      if Load(w1, p).Present? {
        if again.body.Some? {
          StoreView(Wait(w1, again.delay), p, again.body.value, phone);
        } else {
          SendView(Wait(w1, again.delay), p, anew, phone);
        }
      } else if Load(w1, p).Absent? {
        SendView(w1, p, anew, phone);
      }
    }
  }

  /** The flat store refines independent phones: an operation on one phone does to its two
      slots what the keyless client does, with the same result and in the same time, and leaves
      the slots of every other phone alone. */
  lemma Refines(w: World, op: Op, phone: string)
    ensures IsFor(op, phone) ==>
              PhoneStep(View(Step(w, op).db, phone), Step(w, op).now, OutcomeOf(w, op))
              == PhoneOp(View(w.db, phone), w.now, op)
    ensures !IsFor(op, phone) ==> View(Step(w, op).db, phone) == View(w.db, phone)
  {
    match op {
      case Tick(d) =>
      case SendOp(p, a) => SendView(w, p, a, phone);
      case VerifyOp(p, a) => VerifyView(w, p, a, phone);
      case ResendOp(p, a, b) => ResendView(w, p, a, b, phone);
    }
  }

  // ---- Whole runs ----

  /** The run as one phone sees it: operations on other phones only take time. */
  function Projected(start: nat, ops: seq<Op>, phone: string): seq<Op>
    decreases |ops|
  {
    if ops == [] then []
    else
      var rest, op := ops[..|ops| - 1], ops[|ops| - 1];
      var w := Run(start, rest);
      TimePasses(w, op);
      Projected(start, rest, phone)
      + [if IsFor(op, phone) then op else Tick(Step(w, op).now - w.now)]
  }

  lemma TimePasses(w: World, op: Op)
    ensures Step(w, op).now >= w.now
  {
  }

  /** The results that the operations on one phone gave, in order. */
  function Outcomes(start: nat, ops: seq<Op>, phone: string): seq<Outcome>
    decreases |ops|
  {
    if ops == [] then []
    else
      var rest, op := ops[..|ops| - 1], ops[|ops| - 1];
      Outcomes(start, rest, phone)
      + (if !op.Tick? && op.phone == phone then [OutcomeOf(Run(start, rest), op)] else [])
  }

  /** Other phones are invisible: replacing every operation on them by a mere delay changes
      none of the results for this phone, nor its slots, nor the clock. */
  lemma {:induction false} Isolation(start: nat, ops: seq<Op>, phone: string)
    ensures
      var alone := Projected(start, ops, phone);
      && Outcomes(start, alone, phone) == Outcomes(start, ops, phone)
      && View(Run(start, alone).db, phone) == View(Run(start, ops).db, phone)
      && Run(start, alone).now == Run(start, ops).now
    decreases |ops|
  {
    if ops != [] {
      var rest, op := ops[..|ops| - 1], ops[|ops| - 1];
      var w := Run(start, rest);
      TimePasses(w, op);
      var op' := if IsFor(op, phone) then op else Tick(Step(w, op).now - w.now);
      var alone := Projected(start, rest, phone);
      Isolation(start, rest, phone);
      assert (alone + [op'])[..|alone|] == alone;
      Refines(w, op, phone);
      Refines(Run(start, alone), op', phone);
    }
  }

  // ---- The lifetime of a password ----

  predicate Elsewhere(ops: seq<Op>, phone: string) {
    forall i :: 0 <= i < |ops| ==> ops[i].Tick? || ops[i].phone != phone
  }

  lemma {:induction false} Untouched(start: nat, ops: seq<Op>, rest: seq<Op>, phone: string)
    requires Elsewhere(rest, phone)
    ensures At(Run(start, ops + rest).db, OtpKey(phone)) == At(Run(start, ops).db, OtpKey(phone))
    decreases |rest|
  {
    if rest == [] {
      assert ops + rest == ops;
    } else {
      var n := |rest| - 1;
      var w, all := Run(start, ops + rest[..n]), ops + rest;
      Untouched(start, ops, rest[..n], phone);
      assert all[..|all| - 1] == ops + rest[..n] && all[|all| - 1] == rest[n];
      OneStepElsewhere(w, rest[n], phone);
    }
  }

  lemma OneStepElsewhere(w: World, op: Op, phone: string)
    requires op.Tick? || op.phone != phone
    ensures At(Step(w, op).db, OtpKey(phone)) == At(w.db, OtpKey(phone))
  {
    Refines(w, op, phone);
    assert View(Step(w, op).db, phone).otp == At(Step(w, op).db, OtpKey(phone));
    assert View(w.db, phone).otp == At(w.db, OtpKey(phone));
  }

  /** In every run a password is good for 300 seconds from its store: if nothing else happens to
      the phone, a verify call succeeds exactly when it starts before they are over and the
      provider says 200. */
  lemma GoodFor300Seconds(start: nat, ops: seq<Op>, phone: string, a: SendAnswer, c: Credentials,
                          rest: seq<Op>, reply: VerifyAnswer)
    requires a.body == Some(c) && Elsewhere(rest, phone)
    ensures
      var sentAt := Run(start, ops).now + a.delay;
      var w := Run(start, ops + [SendOp(phone, a)] + rest);
      Verify(w, phone, reply).1 == if reply.status == Some(200) && w.now < sentAt + 300 then Accepted else Rejected
  {
    var before, sent := Run(start, ops), ops + [SendOp(phone, a)];
    assert sent[..|sent| - 1] == ops && sent[|sent| - 1] == SendOp(phone, a);
    Untouched(start, sent, rest, phone);
    SentSlot(before, phone, a, c);
  }

  lemma SentSlot(w: World, phone: string, a: SendAnswer, c: Credentials)
    requires a.body == Some(c)
    ensures At(Step(w, SendOp(phone, a)).db, OtpKey(phone))
         == Some(Entry(Otp(c.requestId, c.prefix), Some(w.now + a.delay + 300)))
  {
  }
}
