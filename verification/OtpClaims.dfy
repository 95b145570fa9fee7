/** The promises of the one-time-password client, for every sequential run: resends are
    limited, and each success has a password of its own. */
module OtpClaims {
  import opened Wrappers
  import opened Redis
  import opened HubtelOtp
  import opened OtpHistory

  // ---- The resend limit ----

  /** How many of the times lie in the half-open window of 900 seconds from t. */
  function InWindow(times: seq<nat>, t: nat): nat
    decreases |times|
  {
    if times == [] then 0
    else
      var x := times[|times| - 1];
      InWindow(times[..|times| - 1], t) + (if t <= x < t + 900 then 1 else 0)
  }

  lemma {:induction false} NoneInWindow(times: seq<nat>, t: nat)
    requires forall i :: 0 <= i < |times| ==> times[i] < t
    ensures InWindow(times, t) == 0
    decreases |times|
  {
    if times != [] {
      NoneInWindow(times[..|times| - 1], t);
    }
  }

  /** A window that reaches to the last time sees nothing but its chain. */
  lemma {:induction false} WindowInChain(times: seq<nat>, t: nat, now: nat)
    requires Ascending(times, now)
    requires times != [] && t <= times[|times| - 1] < t + 900
    ensures InWindow(times, t) <= Chain(times)
    decreases |times|
  {
    var m := |times|;
    var rest := times[..m - 1];
    if m > 1 {
      if t <= times[m - 2] {
        WindowInChain(rest, t, now);
      } else {
        NoneInWindow(rest, t);
      }
    }
  }

  lemma {:induction false} WindowBound(times: seq<nat>, t: nat, now: nat, limit: nat)
    requires Ascending(times, now) && ChainsWithin(times, limit)
    ensures InWindow(times, t) <= limit
    decreases |times|
  {
    if times != [] {
      var m := |times|;
      if t <= times[m - 1] < t + 900 {
        WindowInChain(times, t, now);
      } else {
        WindowBound(times[..m - 1], t, now, limit);
      }
    }
  }

  /** In every run every window of 900 seconds holds at most three admitted resends of one
      phone, although each of them renews the counter's expiry. */
  lemma SlidingWindow(start: nat, ops: seq<Op>, phone: string, t: nat)
    ensures InWindow(Admissions(Run(start, ops).log, phone), t) <= 3
  {
    RunKeeps(start, ops);
    var w := Run(start, ops);
    assert PhoneInv(w, phone);
    WindowBound(Admissions(w.log, phone), t, w.now, 3);
  }

  /** Exactly when a resend is refused: three or more admissions with gaps under 900 seconds
      lead up to less than 900 seconds ago. The outcome is never an exception of the store. */
  lemma RefusedIff(start: nat, ops: seq<Op>, phone: string, again: SendAnswer, anew: SendAnswer)
    ensures
      var w := Run(start, ops);
      var times := Admissions(w.log, phone);
      Resend(w, phone, again, anew).1.RateLimited? <==>
        Chain(times) >= 3 && w.now < times[|times| - 1] + 900
  {
    RunKeeps(start, ops);
    assert PhoneInv(Run(start, ops), phone);
    RefusedFrom(Run(start, ops), phone, again, anew);
  }

  lemma RefusedFrom(w: World, phone: string, again: SendAnswer, anew: SendAnswer)
    requires PhoneInv(w, phone)
    ensures
      var times := Admissions(w.log, phone);
      Resend(w, phone, again, anew).1.RateLimited? <==>
        Chain(times) >= 3 && w.now < times[|times| - 1] + 900
  {
    ReadCountIs(w, phone);
  }

  /** How many of the times lie in the 900 seconds up to now. */
  function Recent(times: seq<nat>, now: nat): nat
    decreases |times|
  {
    if times == [] then 0
    else Recent(times[..|times| - 1], now) + (if now < times[|times| - 1] + 900 then 1 else 0)
  }

  lemma {:induction false} NoneRecent(times: seq<nat>, now: nat)
    requires forall i :: 0 <= i < |times| ==> times[i] + 900 <= now
    ensures Recent(times, now) == 0
    decreases |times|
  {
    if times != [] {
      NoneRecent(times[..|times| - 1], now);
    }
  }

  /** The recent times are the last ones: at least k of them lie in the window exactly when the
      k-th from the end does. */
  lemma {:induction false} RecentAtLeast(times: seq<nat>, now: nat, k: nat)
    requires Ascending(times, now) && k >= 1
    ensures Recent(times, now) >= k <==> |times| >= k && now < times[|times| - k] + 900
    decreases |times|
  {
    if times != [] {
      var n := |times| - 1;
      if times[n] + 900 <= now {
        NoneRecent(times, now);
      } else if k > 1 {
        RecentAtLeast(times[..n], now, k - 1);
      }
    }
  }

  /** Three recent times are a chain. */
  lemma ThreeRecentChain(times: seq<nat>, now: nat)
    requires Ascending(times, now)
    requires |times| >= 3 && now < times[|times| - 3] + 900
    ensures Chain(times) >= 3
  {
    var n := |times|;
    assert times[..n - 1][..n - 2] == times[..n - 2];
    assert Chain(times[..n - 1]) == 1 + Chain(times[..n - 2]);
    assert Chain(times) == 1 + Chain(times[..n - 1]);
  }

  /** The documented rule refuses a resend when three have been accepted in the 900 seconds
      before it. */
  predicate RefusedAsDocumented(w: World, phone: string) {
    Recent(Admissions(w.log, phone), w.now) >= 3
  }

  /** A chain of three or more has not ended, but the third admission from its end has left the
      window: the renewed expiry has kept the counter alive for longer than the window. */
  predicate KeptAlive(w: World, phone: string) {
    var times := Admissions(w.log, phone);
    var n := |times|;
    Chain(times) >= 3 && times[n - 3] + 900 <= w.now < times[n - 1] + 900
  }

  lemma DocumentedFrom(w: World, phone: string, again: SendAnswer, anew: SendAnswer)
    requires PhoneInv(w, phone)
    ensures RefusedAsDocumented(w, phone) ==> Resend(w, phone, again, anew).1.RateLimited?
    ensures (Resend(w, phone, again, anew).1.RateLimited? <==> RefusedAsDocumented(w, phone))
            <==> !KeptAlive(w, phone)
  {
    var times := Admissions(w.log, phone);
    RefusedFrom(w, phone, again, anew);
    RecentAtLeast(times, w.now, 3);
    if RefusedAsDocumented(w, phone) {
      ThreeRecentChain(times, w.now);
    }
  }

  /** Exactly when the code keeps the documented rule, for every run and every phone. Where it
      does not, it is the stricter one: whoever the rule refuses, the code refuses too. */
  lemma DocumentedLimitIff(start: nat, ops: seq<Op>, phone: string, again: SendAnswer, anew: SendAnswer)
    ensures
      var w := Run(start, ops);
      && (RefusedAsDocumented(w, phone) ==> Resend(w, phone, again, anew).1.RateLimited?)
      && ((Resend(w, phone, again, anew).1.RateLimited? <==> RefusedAsDocumented(w, phone))
          <==> !KeptAlive(w, phone))
  {
    RunKeeps(start, ops);
    assert PhoneInv(Run(start, ops), phone);
    DocumentedFrom(Run(start, ops), phone, again, anew);
  }

  /** The store never holds a value of the wrong kind, so a resend fails only with the
      provider. */
  lemma ResendRaisesIff(start: nat, ops: seq<Op>, phone: string, again: SendAnswer, anew: SendAnswer)
    ensures
      var w := Run(start, ops);
      var pending := LastBefore(w.log, phone, |w.log|);
      var live := pending >= 0 && w.log[pending].Stored? && w.now < w.log[pending].at + 300;
      Resend(w, phone, again, anew).1.SendRaised? <==>
        && !Resend(w, phone, again, anew).1.RateLimited?
        && anew.body.None?
        && (live ==> again.body.None?)
  {
    RunKeeps(start, ops);
    var w := Run(start, ops);
    assert PhoneInv(w, phone);
    ReadCountIs(w, phone);
    if ReadCount(w, phone).value < 3 {
      KeysApart(phone, phone);
      assert At(Charge(w, phone).db, OtpKey(phone)) == At(w.db, OtpKey(phone));
    }
  }

  // ---- Verification ----

  /** Exactly when verify answers True: a password was stored for the phone, nothing stored
      or verified for it since, less than 300 seconds have passed, and the provider says 200.
      Otherwise it answers False; it never raises. */
  lemma AcceptedIff(start: nat, ops: seq<Op>, phone: string, a: VerifyAnswer)
    ensures
      var w := Run(start, ops);
      var k := LastBefore(w.log, phone, |w.log|);
      && (Verify(w, phone, a).1.Accepted? <==>
            && k >= 0
            && w.log[k].Stored?
            && w.now < w.log[k].at + 300
            && a.status == Some(200))
      && !Verify(w, phone, a).1.VerifyRaised?
  {
    RunKeeps(start, ops);
    assert PhoneInv(Run(start, ops), phone);
  }

  /** Each success in a run follows the store of its own password, read less than 300 seconds
      after it, with nothing stored or verified for the phone in between. */
  lemma SuccessHasStore(start: nat, ops: seq<Op>, j: nat)
    requires j < |Run(start, ops).log| && Run(start, ops).log[j].Verified?
    ensures
      var log := Run(start, ops).log;
      exists k :: && 0 <= k < j
                  && log[k] == Stored(log[j].phone, log[k].at, log[j].credentials)
                  && log[k].at <= log[j].at < log[k].at + 300
                  && forall i :: k < i < j ==> !Concerns(log[i], log[j].phone)
  {
    RunKeeps(start, ops);
    var log := Run(start, ops).log;
    assert Justified(log, j);
    var k := LastBefore(log, log[j].phone, j);
    assert log[k] == Stored(log[j].phone, log[k].at, log[j].credentials);
  }

  /** The stores of two successes of one phone are different. */
  lemma OwnStore(start: nat, ops: seq<Op>, i: nat, j: nat)
    requires i < j < |Run(start, ops).log|
    requires Run(start, ops).log[i].Verified? && Run(start, ops).log[j].Verified?
    requires Run(start, ops).log[i].phone == Run(start, ops).log[j].phone
    ensures
      var log := Run(start, ops).log;
      var m, n := LastBefore(log, log[i].phone, i), LastBefore(log, log[j].phone, j);
      && 0 <= m < i < n < j
      && log[m] == Stored(log[i].phone, log[m].at, log[i].credentials)
      && log[n] == Stored(log[j].phone, log[n].at, log[j].credentials)
      && log[m].at <= log[i].at < log[m].at + 300
      && log[n].at <= log[j].at < log[n].at + 300
  {
    RunKeeps(start, ops);
    var log := Run(start, ops).log;
    assert Justified(log, i) && Justified(log, j);
    assert Concerns(log[i], log[j].phone);
  }

  function Successes(log: seq<Event>, phone: string): nat {
    if log == [] then 0
    else
      var e := log[|log| - 1];
      Successes(log[..|log| - 1], phone) + (if e.Verified? && e.phone == phone then 1 else 0)
  }

  function Stores(log: seq<Event>, phone: string): nat {
    if log == [] then 0
    else
      var e := log[|log| - 1];
      Stores(log[..|log| - 1], phone) + (if e.Stored? && e.phone == phone then 1 else 0)
  }

  lemma CountsAfter(log: seq<Event>, e: Event, phone: string)
    ensures Successes(log + [e], phone) == Successes(log, phone) + (if e.Verified? && e.phone == phone then 1 else 0)
    ensures Stores(log + [e], phone) == Stores(log, phone) + (if e.Stored? && e.phone == phone then 1 else 0)
  {
    assert (log + [e])[..|log|] == log;
  }

  lemma LastBeforeSlice(log: seq<Event>, phone: string, j: nat, n: nat)
    requires j <= n <= |log|
    ensures LastBefore(log[..n], phone, j) == LastBefore(log, phone, j)
    decreases j
  {
  }

  lemma {:induction false} PasswordsSpent(log: seq<Event>, phone: string)
    requires forall j :: 0 <= j < |log| ==> Justified(log, j)
    ensures Successes(log, phone) + (if PendingSlot(log, phone).Some? then 1 else 0) <= Stores(log, phone)
    decreases |log|
  {
    if log != [] {
      var n := |log| - 1;
      var rest := log[..n];
      forall j | 0 <= j < n ensures Justified(rest, j) {
        assert Justified(log, j);
        LastBeforeSlice(log, log[j].phone, j, n);
      }
      PasswordsSpent(rest, phone);
      assert Justified(log, n);
      LastBeforeSlice(log, phone, n, n);
    }
  }

  /** A password is good for one success: in no run, and in no prefix of one, are there more
      successes than stores for a phone. */
  lemma SingleUse(start: nat, ops: seq<Op>, phone: string)
    ensures Successes(Run(start, ops).log, phone) <= Stores(Run(start, ops).log, phone)
  {
    RunKeeps(start, ops);
    PasswordsSpent(Run(start, ops).log, phone);
  }

  /** Whatever send or resend reports as sent is what a verify call would now check: the
      provider's second answer counts only when there was no live password or the first failed. */
  lemma SentIsPending(w: World, phone: string, again: SendAnswer, anew: SendAnswer, c: Credentials)
    ensures Send(w, phone, anew).1 == Sent(c) ==>
              anew.body == Some(c) && Load(Send(w, phone, anew).0, phone) == Present(c)
    ensures Resend(w, phone, again, anew).1 == Sent(c) ==>
              && Load(Resend(w, phone, again, anew).0, phone) == Present(c)
              && (if Load(w, phone).Present? && again.body.Some? then again.body == Some(c) else anew.body == Some(c))
  {
    KeysApart(phone, phone);
    var n := ReadCount(w, phone);
    if n.Some? && n.value < 3 {
      assert At(Charge(w, phone).db, OtpKey(phone)) == At(w.db, OtpKey(phone));
    }
  }

  /** After a True every later verify of the phone answers False until a new password is
      stored for it. */
  lemma SpentUntilStored(start: nat, ops: seq<Op>, j: nat, a: VerifyAnswer)
    requires j < |Run(start, ops).log| && Run(start, ops).log[j].Verified?
    requires forall i :: j < i < |Run(start, ops).log| && Run(start, ops).log[i].Stored?
                         ==> Run(start, ops).log[i].phone != Run(start, ops).log[j].phone
    ensures Verify(Run(start, ops), Run(start, ops).log[j].phone, a).1 == Rejected
  {
    var log := Run(start, ops).log;
    var k := LastBefore(log, log[j].phone, |log|);
    assert Concerns(log[j], log[j].phone);
    assert k >= j && Concerns(log[k], log[j].phone);
    AcceptedIff(start, ops, log[j].phone, a);
  }

  // ---- The limit is stricter than three per window ----

  const SILENT := SendAnswer(0, None)

  lemma SilentStep(w: World, phone: string)
    requires Inv(w) && ReadCount(w, phone).Some? && ReadCount(w, phone).value < 3
    ensures Resend(w, phone, SILENT, SILENT).0.now == w.now
    ensures Resend(w, phone, SILENT, SILENT).0.log == w.log + [Admitted(phone, w.now)]
  {
    ChargeKeeps(w, phone);
    LoadIs(Charge(w, phone), phone);
  }

  lemma SilentResend(ops: seq<Op>, phone: string, times: seq<nat>) returns (longer: seq<Op>)
    requires Admissions(Run(0, ops).log, phone) == times
    requires CountFrom(times, Run(0, ops).now) < 3
    ensures Run(0, longer).now == Run(0, ops).now
    ensures Admissions(Run(0, longer).log, phone) == times + [Run(0, ops).now]
  {
    var w := Run(0, ops);
    longer := ops + [ResendOp(phone, SILENT, SILENT)];
    assert longer[..|ops|] == ops;
    RunKeeps(0, ops);
    assert PhoneInv(w, phone);
    ReadCountIs(w, phone);
    SilentStep(w, phone);
    AdmissionsAfter(w.log, Admitted(phone, w.now), phone);
  }

  lemma SilentTick(ops: seq<Op>, d: nat) returns (longer: seq<Op>)
    ensures Run(0, longer).now == Run(0, ops).now + d && Run(0, longer).log == Run(0, ops).log
  {
    longer := ops + [OtpHistory.Tick(d)];
    assert longer[..|ops|] == ops;
  }

  lemma Chains()
    ensures Chain([0]) == 1 && Chain([0, 800]) == 2 && Chain([0, 800, 1600]) == 3
    ensures Recent([0, 800, 1600], 1701) == 1
  {
    assert [0, 800][..1] == [0] && [0, 800, 1600][..2] == [0, 800];
    assert Recent([0], 1701) == 0;
    assert Recent([0, 800], 1701) == 0;
  }

  lemma RefusedAtThree(ops: seq<Op>, phone: string)
    requires CountFrom(Admissions(Run(0, ops).log, phone), Run(0, ops).now) >= 3
    ensures Resend(Run(0, ops), phone, SILENT, SILENT).1.RateLimited?
  {
    RunKeeps(0, ops);
    assert PhoneInv(Run(0, ops), phone);
    ReadCountIs(Run(0, ops), phone);
  }

  /** Resends at 0, 800 and 1600 seconds are admitted and one at 1701 is refused, although the
      window of 900 seconds before it holds only the admission at 1600. */
  lemma RefusedBelowTheLimit(phone: string) returns (ops: seq<Op>)
    ensures KeptAlive(Run(0, ops), phone)
    ensures Recent(Admissions(Run(0, ops).log, phone), Run(0, ops).now) == 1
    ensures Resend(Run(0, ops), phone, SILENT, SILENT).1.RateLimited?
  {
    Chains();
    ops := [];
    ops := SilentResend(ops, phone, []);
    ops := SilentTick(ops, 800);
    ops := SilentResend(ops, phone, [0]);
    ops := SilentTick(ops, 800);
    assert [0] + [800] == [0, 800];
    ops := SilentResend(ops, phone, [0, 800]);
    ops := SilentTick(ops, 101);
    assert [0, 800] + [1600] == [0, 800, 1600];
    RefusedAtThree(ops, phone);
  }
}
