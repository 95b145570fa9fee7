/** What holds of every run of the one-time-password client, told from its event log. */
module OtpHistory {
  import opened Wrappers
  import opened Redis
  import opened HubtelOtp

  datatype Op =
    | Tick(delay: nat)
    | SendOp(phone: string, answer: SendAnswer)
    | VerifyOp(phone: string, reply: VerifyAnswer)
    | ResendOp(phone: string, again: SendAnswer, anew: SendAnswer)

  function Step(w: World, op: Op): World {
    match op
    case Tick(d) => Wait(w, d)
    case SendOp(p, a) => Send(w, p, a).0
    case VerifyOp(p, a) => Verify(w, p, a).0
    case ResendOp(p, a, b) => Resend(w, p, a, b).0
  }

  /** A run from an empty store. */
  function Run(start: nat, ops: seq<Op>): World {
    if ops == [] then World(start, map[], [])
    else Step(Run(start, ops[..|ops| - 1]), ops[|ops| - 1])
  }

  // ---- The pending password, told from the log ----

  predicate Concerns(e: Event, phone: string) {
    !e.Admitted? && e.phone == phone
  }

  /** The index of the last store or success for this phone before position j, or -1. */
  function LastBefore(log: seq<Event>, phone: string, j: nat): (k: int)
    requires j <= |log|
    ensures -1 <= k < j
    ensures k >= 0 ==> Concerns(log[k], phone)
    ensures forall i :: k < i < j ==> !Concerns(log[i], phone)
  {
    if j == 0 then -1
    else if Concerns(log[j - 1], phone) then j - 1
    else LastBefore(log, phone, j - 1)
  }

  /** The slot that the store must hold for this phone. */
  function PendingSlot(log: seq<Event>, phone: string): Slot {
    var k := LastBefore(log, phone, |log|);
    if k < 0 || log[k].Verified? then None
    else Some(Entry(Otp(log[k].credentials.requestId, log[k].credentials.prefix), Some(log[k].at + 300)))
  }

  // ---- The admitted resends, told from the log ----

  function Admissions(log: seq<Event>, phone: string): seq<nat> {
    if log == [] then []
    else
      var rest := Admissions(log[..|log| - 1], phone);
      var e := log[|log| - 1];
      if e.Admitted? && e.phone == phone then rest + [e.at] else rest
  }

  /** How many of the last times follow one another with gaps shorter than the window. */
  function Chain(times: seq<nat>): (n: nat)
    ensures times != [] ==> n >= 1
    ensures n <= |times|
    decreases |times|
  {
    var m := |times|;
    if m == 0 then 0
    else if m == 1 || times[m - 1] >= times[m - 2] + 900 then 1
    else 1 + Chain(times[..m - 1])
  }

  function CounterSlot(times: seq<nat>): Slot {
    if times == [] then None
    else Some(Entry(Count(Chain(times)), Some(times[|times| - 1] + 900)))
  }

  predicate Ascending(times: seq<nat>, now: nat) {
    && (forall i, j :: 0 <= i < j < |times| ==> times[i] <= times[j])
    && (forall i :: 0 <= i < |times| ==> times[i] <= now)
  }

  /** No such chain, at any time so far, was longer than the limit. */
  predicate ChainsWithin(times: seq<nat>, limit: nat)
    decreases |times|
  {
    times == [] || (Chain(times) <= limit && ChainsWithin(times[..|times| - 1], limit))
  }

  // ---- The keys ----

  /** The key builders put a prefix in front of the phone, so they are injective, and their
      ranges do not meet. */
  lemma KeysApart(p: string, q: string)
    ensures OtpKey(p) == "hubtel_otp:" + p && ResendKey(p) == "hubtel_otp_resend:" + p
    ensures OtpKey(p) == OtpKey(q) <==> p == q
    ensures ResendKey(p) == ResendKey(q) <==> p == q
    ensures OtpKey(p) != ResendKey(q)
  {
    assert OtpKey(p)[11..] == p && OtpKey(q)[11..] == q;
    assert ResendKey(p)[18..] == p && ResendKey(q)[18..] == q;
    assert OtpKey(p)[10] == ':' && ResendKey(q)[10] == '_';
  }

  // ---- The invariant ----

  /** Every True of verify in the log has its own password: the last event before it that
      concerns the phone is the store of that password, and it was read while live. */
  predicate Justified(log: seq<Event>, j: nat)
    requires j < |log|
  {
    log[j].Verified? ==>
      var k := LastBefore(log, log[j].phone, j);
      && k >= 0
      && log[k].Stored?
      && log[k].credentials == log[j].credentials
      && log[k].at <= log[j].at < log[k].at + 300
  }

  ghost predicate PhoneInv(w: World, phone: string) {
    var times := Admissions(w.log, phone);
    && At(w.db, OtpKey(phone)) == PendingSlot(w.log, phone)
    && At(w.db, ResendKey(phone)) == CounterSlot(times)
    && Ascending(times, w.now)
    && ChainsWithin(times, 3)
  }

  ghost predicate Inv(w: World) {
    && (forall phone :: PhoneInv(w, phone))
    && (forall j :: 0 <= j < |w.log| ==> Justified(w.log, j))
    && (forall j :: 0 <= j < |w.log| ==> w.log[j].at <= w.now)
  }

  // ---- The log grows by one event ----

  lemma {:induction false} LastBeforePrefix(log: seq<Event>, e: Event, phone: string, j: nat)
    requires j <= |log|
    ensures LastBefore(log + [e], phone, j) == LastBefore(log, phone, j)
  {
    if j > 0 {
      assert (log + [e])[j - 1] == log[j - 1];
      LastBeforePrefix(log, e, phone, j - 1);
    }
  }

  lemma PendingAfter(log: seq<Event>, e: Event, phone: string)
    ensures PendingSlot(log + [e], phone) ==
            if !Concerns(e, phone) then PendingSlot(log, phone)
            else if e.Verified? then None
            else SetEx(e.at, Otp(e.credentials.requestId, e.credentials.prefix), 300)
  {
    LastBeforePrefix(log, e, phone, |log|);
  }

  lemma AdmissionsAfter(log: seq<Event>, e: Event, phone: string)
    ensures Admissions(log + [e], phone) ==
            if e.Admitted? && e.phone == phone then Admissions(log, phone) + [e.at] else Admissions(log, phone)
  {
  }

  lemma JustifiedAfter(log: seq<Event>, e: Event)
    requires forall j :: 0 <= j < |log| ==> Justified(log, j)
    requires Justified(log + [e], |log|)
    ensures forall j :: 0 <= j < |log| + 1 ==> Justified(log + [e], j)
  {
    forall j | 0 <= j < |log| ensures Justified(log + [e], j) {
      assert Justified(log, j);
      LastBeforePrefix(log, e, log[j].phone, j);
    }
  }

  // ---- Preservation ----

  lemma WaitKeeps(w: World, d: nat)
    requires Inv(w)
    ensures Inv(Wait(w, d))
  {
    forall phone ensures PhoneInv(Wait(w, d), phone) {
      assert PhoneInv(w, phone);
    }
  }

  lemma StoreKeeps(w: World, phone: string, c: Credentials)
    requires Inv(w)
    ensures Inv(Store(w, phone, c))
  {
    var e := Stored(phone, w.now, c);
    var w' := Store(w, phone, c);
    forall p ensures PhoneInv(w', p) {
      assert PhoneInv(w, p);
      KeysApart(phone, p);
      KeysApart(p, phone);
      PendingAfter(w.log, e, p);
      AdmissionsAfter(w.log, e, p);
    }
    JustifiedAfter(w.log, e);
  }

  lemma SucceedKeeps(w: World, phone: string, readAt: nat, c: Credentials)
    requires Inv(w)
    requires readAt <= w.now
    requires Get(At(w.db, OtpKey(phone)), readAt) == Some(Otp(c.requestId, c.prefix))
    requires var k := LastBefore(w.log, phone, |w.log|); k >= 0 ==> w.log[k].at <= readAt
    ensures Inv(Put(w, OtpKey(phone), None, [Verified(phone, readAt, c)]))
  {
    var e := Verified(phone, readAt, c);
    var w' := Put(w, OtpKey(phone), None, [e]);
    assert PhoneInv(w, phone);
    forall p ensures PhoneInv(w', p) {
      assert PhoneInv(w, p);
      KeysApart(phone, p);
      KeysApart(p, phone);
      PendingAfter(w.log, e, p);
      AdmissionsAfter(w.log, e, p);
    }
    LastBeforePrefix(w.log, e, phone, |w.log|);
    JustifiedAfter(w.log, e);
  }

  /** The slot after the increment and the renewed expiry is the slot for the longer list. */
  lemma ChargedSlot(times: seq<nat>, now: nat)
    requires Ascending(times, now)
    ensures Get(CounterSlot(times), now).Some? ==> Get(CounterSlot(times), now).value.Count?
    ensures Expire(Incr(CounterSlot(times), now), now, 900) == CounterSlot(times + [now])
  {
  }

  /** What the limiter reads: the length of the running chain, unless it has ended. */
  function CountFrom(times: seq<nat>, now: nat): nat {
    if times == [] || now >= times[|times| - 1] + 900 then 0 else Chain(times)
  }

  lemma ReadCountIs(w: World, phone: string)
    requires PhoneInv(w, phone)
    ensures ReadCount(w, phone) == Some(CountFrom(Admissions(w.log, phone), w.now))
  {
  }

  lemma ChainsLonger(times: seq<nat>, now: nat, limit: nat)
    requires ChainsWithin(times, limit)
    requires Chain(times + [now]) <= limit
    ensures ChainsWithin(times + [now], limit)
  {
  }

  lemma ChainGrows(times: seq<nat>, now: nat)
    requires Ascending(times, now)
    ensures Chain(times + [now]) == CountFrom(times, now) + 1
  {
  }

  /** One more charge keeps the counter in step with the list and the chains within a limit
      that the counter is still below. */
  lemma ChargedTimes(times: seq<nat>, now: nat, limit: nat)
    requires Ascending(times, now) && ChainsWithin(times, limit)
    requires CountFrom(times, now) < limit
    ensures Get(CounterSlot(times), now).Some? ==> Get(CounterSlot(times), now).value.Count?
    ensures Expire(Incr(CounterSlot(times), now), now, 900) == CounterSlot(times + [now])
    ensures Ascending(times + [now], now) && ChainsWithin(times + [now], limit)
  {
    ChargedSlot(times, now);
    ChainGrows(times, now);
    ChainsLonger(times, now, limit);
  }

  lemma ChargeOwn(w: World, phone: string)
    requires PhoneInv(w, phone)
    requires ReadCount(w, phone).Some? && ReadCount(w, phone).value < 3
    ensures PhoneInv(Charge(w, phone), phone)
  {
    var e := Admitted(phone, w.now);
    ReadCountIs(w, phone);
    ChargedTimes(Admissions(w.log, phone), w.now, 3);
    KeysApart(phone, phone);
    PendingAfter(w.log, e, phone);
    AdmissionsAfter(w.log, e, phone);
  }

  lemma ChargeOther(w: World, phone: string, p: string)
    requires PhoneInv(w, p) && p != phone
    requires ReadCount(w, phone).Some?
    ensures PhoneInv(Charge(w, phone), p)
  {
    var e := Admitted(phone, w.now);
    KeysApart(phone, p);
    KeysApart(p, phone);
    PendingAfter(w.log, e, p);
    AdmissionsAfter(w.log, e, p);
  }

  lemma ChargeKeeps(w: World, phone: string)
    requires Inv(w)
    requires ReadCount(w, phone).Some? && ReadCount(w, phone).value < 3
    ensures Inv(Charge(w, phone))
  {
    forall p ensures PhoneInv(Charge(w, phone), p) {
      assert PhoneInv(w, p);
      if p == phone {
        ChargeOwn(w, phone);
      } else {
        ChargeOther(w, phone, p);
      }
    }
    JustifiedAfter(w.log, Admitted(phone, w.now));
  }

  /** While the invariant holds the store never holds a value of the wrong kind. */
  lemma LoadIs(w: World, phone: string)
    requires Inv(w)
    ensures !Load(w, phone).Corrupt?
  {
    assert PhoneInv(w, phone);
  }

  lemma SendKeeps(w: World, phone: string, a: SendAnswer)
    requires Inv(w)
    ensures Inv(Send(w, phone, a).0)
  {
    WaitKeeps(w, a.delay);
    if a.body.Some? {
      StoreKeeps(Wait(w, a.delay), phone, a.body.value);
    }
  }

  lemma VerifyKeeps(w: World, phone: string, a: VerifyAnswer)
    requires Inv(w)
    ensures Inv(Verify(w, phone, a).0)
  {
    var l := Load(w, phone);
    LoadIs(w, phone);
    if l.Present? {
      WaitKeeps(w, a.delay);
      if a.status == Some(200) {
        SucceedKeeps(Wait(w, a.delay), phone, w.now, l.credentials);
      }
    }
  }

  lemma ResendKeeps(w: World, phone: string, again: SendAnswer, anew: SendAnswer)
    requires Inv(w)
    ensures Inv(Resend(w, phone, again, anew).0)
  {
    assert PhoneInv(w, phone);
    ReadCountIs(w, phone);
    if ReadCount(w, phone).value < 3 {
      var w1 := Charge(w, phone);
      ChargeKeeps(w, phone);
      LoadIs(w1, phone);
      if Load(w1, phone).Present? {
        var w2 := Wait(w1, again.delay);
        WaitKeeps(w1, again.delay);
        if again.body.Some? {
          StoreKeeps(w2, phone, again.body.value);
        } else {
          SendKeeps(w2, phone, anew);
        }
      } else {
        SendKeeps(w1, phone, anew);
      }
    }
  }

  lemma StepKeeps(w: World, op: Op)
    requires Inv(w)
    ensures Inv(Step(w, op))
  {
    match op {
      case Tick(d) => WaitKeeps(w, d);
      case SendOp(p, a) => SendKeeps(w, p, a);
      case VerifyOp(p, a) => VerifyKeeps(w, p, a);
      case ResendOp(p, a, b) => ResendKeeps(w, p, a, b);
    }
  }

  lemma {:induction false} RunKeeps(start: nat, ops: seq<Op>)
    ensures Inv(Run(start, ops))
    decreases |ops|
  {
    if ops == [] {
      assert forall phone :: PhoneInv(World(start, map[], []), phone);
    } else {
      RunKeeps(start, ops[..|ops| - 1]);
      StepKeeps(Run(start, ops[..|ops| - 1]), ops[|ops| - 1]);
    }
  }
}
