/** The one-time-password client: send, verify and resend over one flat Redis store. The
    answers of the provider, and how long they take, are inputs. */
module HubtelOtp {
  import opened Wrappers
  import opened Redis

  const OTP_TTL := 300
  const RESEND_MAX := 3
  const RESEND_WINDOW := 900

  function OtpKey(phone: string): string {
    "hubtel_otp:" + phone
  }

  function ResendKey(phone: string): string {
    "hubtel_otp_resend:" + phone
  }

  // ---- Inputs and results ----

  datatype Credentials = Credentials(requestId: string, prefix: string)

  /** The answer to a send or resend request: None for any failure that raises. */
  datatype SendAnswer = SendAnswer(delay: nat, body: Option<Credentials>)

  /** The answer to a verify request: None for a request that raises. */
  datatype VerifyAnswer = VerifyAnswer(delay: nat, status: Option<int>)

  datatype SendResult = Sent(credentials: Credentials) | RateLimited | SendRaised

  datatype VerifyResult = Accepted | Rejected | VerifyRaised

  /** What an observer writes down: each stored password, each True of verify with the time at
      which it read the password, and each resend that passes the limit. */
  datatype Event =
    | Stored(phone: string, at: nat, credentials: Credentials)
    | Verified(phone: string, at: nat, credentials: Credentials)
    | Admitted(phone: string, at: nat)

  // ---- The steps as functions ----

  datatype World = World(now: nat, db: Db, log: seq<Event>)

  datatype Loaded = Absent | Present(credentials: Credentials) | Corrupt

  function Load(w: World, phone: string): Loaded {
    match Get(At(w.db, OtpKey(phone)), w.now)
    case None => Absent
    case Some(Otp(r, p)) => Present(Credentials(r, p))
    case Some(Count(_)) => Corrupt
  }

  function Put(w: World, key: string, slot: Slot, events: seq<Event>): World {
    match slot
    case Some(e) => World(w.now, w.db[key := e], w.log + events)
    case None => World(w.now, w.db - {key}, w.log + events)
  }

  function Wait(w: World, delay: nat): World {
    World(w.now + delay, w.db, w.log)
  }

  function Store(w: World, phone: string, c: Credentials): World {
    Put(w, OtpKey(phone), SetEx(w.now, Otp(c.requestId, c.prefix), OTP_TTL), [Stored(phone, w.now, c)])
  }

  function Send(w: World, phone: string, a: SendAnswer): (World, SendResult) {
    var w1 := Wait(w, a.delay);
    match a.body
    case None => (w1, SendRaised)
    case Some(c) => (Store(w1, phone, c), Sent(c))
  }

  function Verify(w: World, phone: string, a: VerifyAnswer): (World, VerifyResult) {
    match Load(w, phone)
    case Absent => (w, Rejected)
    case Corrupt => (w, VerifyRaised)
    case Present(c) =>
      var w1 := Wait(w, a.delay);
      if a.status == Some(200) then
        (Put(w1, OtpKey(phone), None, [Verified(phone, w.now, c)]), Accepted)
      else (w1, Rejected)
  }

  /** The counter as the limiter reads it; None when the stored text is not a number. */
  function ReadCount(w: World, phone: string): Option<int> {
    match Get(At(w.db, ResendKey(phone)), w.now)
    case None => Some(0)
    case Some(Count(n)) => Some(n)
    case Some(Otp(_, _)) => None
  }

  function Charge(w: World, phone: string): World
    requires ReadCount(w, phone).Some?
  {
    var key := ResendKey(phone);
    var counted := Incr(At(w.db, key), w.now);
    Put(w, key, Expire(counted, w.now, RESEND_WINDOW), [Admitted(phone, w.now)])
  }

  function Resend(w: World, phone: string, again: SendAnswer, anew: SendAnswer): (World, SendResult) {
    match ReadCount(w, phone)
    case None => (w, SendRaised)
    case Some(n) =>
      if n >= RESEND_MAX then (w, RateLimited)
      else
        var w1 := Charge(w, phone);
        match Load(w1, phone)
        case Corrupt => (w1, SendRaised)
        case Absent => Send(w1, phone, anew)
        case Present(_) =>
          var w2 := Wait(w1, again.delay);
          match again.body
          case Some(c) => (Store(w2, phone, c), Sent(c))
          case None => Send(w2, phone, anew)
  }

  // ---- The client object ----

  class Client {
    var now: nat
    var db: Db
    ghost var log: seq<Event>

    ghost function State(): World
      reads this
    {
      World(now, db, log)
    }

    constructor (start: nat)
      ensures State() == World(start, map[], [])
    {
      now, db, log := start, map[], [];
    }

    /** Time passes, between calls or while an answer is awaited. */
    method Tick(delay: nat)
      modifies this
      ensures State() == Wait(old(State()), delay)
    {
      now := now + delay;
    }

    method LoadOtp(phone: string) returns (r: Loaded)
      ensures r == Load(State(), phone)
    {
      match Get(At(db, OtpKey(phone)), now) {
        case None => r := Absent;
        case Some(v) =>
          match v {
            case Otp(id, prefix) => r := Present(Credentials(id, prefix));
            case Count(_) => r := Corrupt;
          }
      }
    }

    method StoreOtp(phone: string, c: Credentials)
      modifies this
      ensures State() == Store(old(State()), phone, c)
    {
      db := db[OtpKey(phone) := Entry(Otp(c.requestId, c.prefix), Some(now + OTP_TTL))];
      log := log + [Stored(phone, now, c)];
    }

    method SendOtp(phone: string, a: SendAnswer) returns (r: SendResult)
      modifies this
      ensures (State(), r) == Send(old(State()), phone, a)
    {
      Tick(a.delay);
      if a.body.None? {
        return SendRaised;
      }
      StoreOtp(phone, a.body.value);
      return Sent(a.body.value);
    }

    method VerifyOtp(phone: string, a: VerifyAnswer) returns (r: VerifyResult)
      modifies this
      ensures (State(), r) == Verify(old(State()), phone, a)
    {
      var stored := LoadOtp(phone);
      if stored.Absent? {
        return Rejected;
      }
      if stored.Corrupt? {
        return VerifyRaised;
      }
      ghost var readAt := now;
      Tick(a.delay);
      if a.status == Some(200) {
        db := db - {OtpKey(phone)};
        log := log + [Verified(phone, readAt, stored.credentials)];
        return Accepted;
      }
      return Rejected;
    }

    method ResendOtp(phone: string, again: SendAnswer, anew: SendAnswer) returns (r: SendResult)
      modifies this
      ensures (State(), r) == Resend(old(State()), phone, again, anew)
    {
      var rateKey := ResendKey(phone);
      var raw := Get(At(db, rateKey), now);
      if raw.Some? && !raw.value.Count? {
        return SendRaised;
      }
      var count := if raw.Some? then raw.value.n else 0;
      if count >= RESEND_MAX {
        return RateLimited;
      }
      var counted := Incr(At(db, rateKey), now);
      var timed := Expire(counted, now, RESEND_WINDOW);
      db := db[rateKey := timed.value];
      log := log + [Admitted(phone, now)];
      var stored := LoadOtp(phone);
      if stored.Corrupt? {
        return SendRaised;
      }
      if stored.Present? {
        Tick(again.delay);
        if again.body.Some? {
          StoreOtp(phone, again.body.value);
          return Sent(again.body.value);
        }
      }
      r := SendOtp(phone, anew);
    }
  }
}
