/** The part of Redis that the one-time-password client uses: string keys, values with an
    optional expiry time, and a counter. Time is in whole seconds. */
module Redis {
  import opened Wrappers

  /** A pending password, stored as JSON text, or a counter. */
  datatype Value = Otp(requestId: string, prefix: string) | Count(n: int)

  datatype Entry = Entry(value: Value, expiresAt: Option<nat>)

  /** What is stored under one key; an entry stays in place after it has expired. */
  type Slot = Option<Entry>

  type Db = map<string, Entry>

  function At(db: Db, key: string): Slot {
    if key in db then Some(db[key]) else None
  }

  /** GET: an expired entry counts as absent. */
  function Get(slot: Slot, now: nat): Option<Value> {
    match slot
    case None => None
    case Some(e) => if e.expiresAt.Some? && e.expiresAt.value <= now then None else Some(e.value)
  }

  /** SET with EX. */
  function SetEx(now: nat, value: Value, ttl: nat): Slot {
    Some(Entry(value, Some(now + ttl)))
  }

  /** INCR: an absent counter starts at one without an expiry, and a present one keeps its
      expiry. The slot must not hold anything but a number. */
  function Incr(slot: Slot, now: nat): Slot
    requires Get(slot, now).Some? ==> Get(slot, now).value.Count?
  {
    match Get(slot, now)
    case None => Some(Entry(Count(1), None))
    case Some(v) => Some(Entry(Count(v.n + 1), slot.value.expiresAt))
  }

  /** EXPIRE: has no effect on an absent key. */
  function Expire(slot: Slot, now: nat, ttl: nat): Slot {
    match Get(slot, now)
    case None => slot
    case Some(v) => Some(Entry(v, Some(now + ttl)))
  }
}
