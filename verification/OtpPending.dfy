/** Which password is pending when the calls for one phone interleave. Deletion goes by phone
    and not by password, so a late success of an old password takes a fresh one away. */
module OtpPending {
  import opened Wrappers
  import opened OtpInterleaving

  // ---- The moves of a run ----

  predicate Succeeds(m: Move) {
    m.Answered? && m.ok
  }

  function Stores(moves: seq<Move>): nat {
    if moves == [] then 0
    else Stores(moves[..|moves| - 1]) + (if moves[|moves| - 1].StoreNew? then 1 else 0)
  }

  function Clock(start: nat, moves: seq<Move>): nat {
    if moves == [] then start
    else
      var m := moves[|moves| - 1];
      Clock(start, moves[..|moves| - 1]) + (if m.Pass? then m.delay else 0)
  }

  /** The password stored by move i. */
  function StoredBy(start: nat, moves: seq<Move>, i: nat): Password
    requires i < |moves|
  {
    Password(Stores(moves[..i]), Clock(start, moves[..i]) + 300)
  }

  ghost predicate LastStore(moves: seq<Move>, i: nat) {
    && i < |moves|
    && moves[i].StoreNew?
    && forall j :: i < j < |moves| ==> !moves[j].StoreNew?
  }

  /** After that store no verify call was answered with success, whatever its password. */
  ghost predicate Undisturbed(moves: seq<Move>, i: nat) {
    LastStore(moves, i) && forall j :: i < j < |moves| ==> !Succeeds(moves[j])
  }

  lemma {:induction false} StoresUntil(moves: seq<Move>, i: nat, j: nat)
    requires i <= j <= |moves|
    ensures Stores(moves[..i]) <= Stores(moves[..j])
    ensures (forall l :: i <= l < j ==> !moves[l].StoreNew?) ==> Stores(moves[..i]) == Stores(moves[..j])
    decreases j
  {
    if i < j {
      StoresUntil(moves, i, j - 1);
      assert moves[..j][..j - 1] == moves[..j - 1];
    }
  }

  lemma StoresOfLast(moves: seq<Move>, i: nat)
    requires LastStore(moves, i)
    ensures Stores(moves) == Stores(moves[..i]) + 1
  {
    assert moves[..i + 1][..i] == moves[..i];
    StoresUntil(moves, i + 1, |moves|);
    assert moves[..|moves|] == moves;
  }

  // ---- What the state knows of the moves ----

  /** The state is what the moves say: the clock, the number of stores, the slot, and who has
      succeeded. */
  ghost predicate Told(start: nat, moves: seq<Move>, s: Shared) {
    && s.now == Clock(start, moves)
    && s.issued == Stores(moves)
    && (s.otp.Some? <==> exists i :: Undisturbed(moves, i))
    && (forall i :: Undisturbed(moves, i) ==> s.otp == Some(StoredBy(start, moves, i)))
    && (forall id :: s.successes[id] > 0 <==> Answered(id, true) in moves)
  }

  lemma UndisturbedAfter(rest: seq<Move>, m: Move, i: nat)
    requires i < |rest|
    ensures Undisturbed(rest + [m], i) <==> Undisturbed(rest, i) && !m.StoreNew? && !Succeeds(m)
  {
    var moves := rest + [m];
    assert moves[|rest|] == m;
    assert forall j :: 0 <= j < |rest| ==> moves[j] == rest[j];
  }

  lemma UndisturbedLast(rest: seq<Move>, m: Move)
    ensures Undisturbed(rest + [m], |rest|) <==> m.StoreNew?
  {
  }

  lemma StoredByRest(start: nat, rest: seq<Move>, m: Move, i: nat)
    requires i <= |rest|
    ensures (rest + [m])[..i] == rest[..i]
  {
  }

  lemma CountsAfter(start: nat, rest: seq<Move>, m: Move)
    ensures Stores(rest + [m]) == Stores(rest) + (if m.StoreNew? then 1 else 0)
    ensures Clock(start, rest + [m]) == Clock(start, rest) + (if m.Pass? then m.delay else 0)
  {
    assert (rest + [m])[..|rest|] == rest;
  }

  lemma SlotTold(start: nat, rest: seq<Move>, s: Shared, m: Move, k: nat)
    requires Told(start, rest, s) && Enabled(s, m, k)
    ensures Apply(s, m).otp.Some? <==> exists i :: Undisturbed(rest + [m], i)
    ensures forall i :: Undisturbed(rest + [m], i) ==> Apply(s, m).otp == Some(StoredBy(start, rest + [m], i))
  {
    var moves, s' := rest + [m], Apply(s, m);
    UndisturbedLast(rest, m);
    forall i: nat | Undisturbed(moves, i) ensures s'.otp == Some(StoredBy(start, moves, i)) {
      StoredByRest(start, rest, m, i);
      if i < |rest| {
        UndisturbedAfter(rest, m, i);
      } else {
        assert rest[..|rest|] == rest;
      }
    }
    if s'.otp.Some? && !m.StoreNew? {
      var i :| Undisturbed(rest, i);
      UndisturbedAfter(rest, m, i);
    }
  }

  lemma SuccessTold(start: nat, rest: seq<Move>, s: Shared, m: Move, k: nat)
    requires Told(start, rest, s) && Enabled(s, m, k)
    ensures forall id :: Apply(s, m).successes[id] > 0 <==> Answered(id, true) in rest + [m]
  {
    forall id ensures Apply(s, m).successes[id] > 0 <==> Answered(id, true) in rest + [m] {
      assert s.successes[id] > 0 <==> Answered(id, true) in rest;
    }
  }

  lemma ToldAfter(start: nat, rest: seq<Move>, s: Shared, m: Move, k: nat)
    requires Told(start, rest, s) && Enabled(s, m, k)
    ensures Told(start, rest + [m], Apply(s, m))
  {
    CountsAfter(start, rest, m);
    SlotTold(start, rest, s, m, k);
    SuccessTold(start, rest, s, m, k);
  }

  /** The last move of a run and the state before it. */
  lemma LastMove(start: nat, moves: seq<Move>, s: Shared, k: nat) returns (before: Shared)
    requires moves != [] && Reaches(start, moves, s, k)
    ensures Reaches(start, moves[..|moves| - 1], before, k)
    ensures Enabled(before, moves[|moves| - 1], k) && s == Apply(before, moves[|moves| - 1])
  {
    before :| && Reaches(start, moves[..|moves| - 1], before, k)
              && Enabled(before, moves[|moves| - 1], k)
              && s == Apply(before, moves[|moves| - 1]);
  }

  lemma ToldByAll(start: nat, moves: seq<Move>, before: Shared, k: nat)
    requires moves != [] && Told(start, moves[..|moves| - 1], before)
    requires Enabled(before, moves[|moves| - 1], k)
    ensures Told(start, moves, Apply(before, moves[|moves| - 1]))
  {
    var n := |moves| - 1;
    ToldAfter(start, moves[..n], before, moves[n], k);
    assert moves[..n] + [moves[n]] == moves;
  }

  lemma ToldAtFirst(start: nat)
    ensures Told(start, [], Initial(start))
  {
  }

  lemma {:induction false} RunTells(start: nat, moves: seq<Move>, s: Shared, k: nat)
    requires Reaches(start, moves, s, k)
    ensures Told(start, moves, s)
    decreases |moves|
  {
    if moves != [] {
      var n := |moves| - 1;
      var before := LastMove(start, moves, s, k);
      RunTells(start, moves[..n], before, k);
      ToldByAll(start, moves, before, k);
    } else {
      ToldAtFirst(start);
    }
  }

  /** In every run the slot holds a password exactly when neither a store nor a success of any
      password has come after its own store, and it expires 300 seconds after that store. */
  lemma PendingIff(start: nat, moves: seq<Move>, s: Shared, k: nat, p: Password)
    requires Reaches(start, moves, s, k)
    ensures s.otp == Some(p) <==> exists i :: Undisturbed(moves, i) && p == StoredBy(start, moves, i)
    ensures s.otp.Some? ==> s.otp.value.id == s.issued - 1
  {
    RunTells(start, moves, s, k);
    if s.otp.Some? {
      var i :| Undisturbed(moves, i);
      StoresOfLast(moves, i);
    }
  }

  /** A verify call can read a password exactly when one is pending that was stored less than
      300 seconds ago, and fewer than k calls are under way. */
  lemma ReadableIff(start: nat, moves: seq<Move>, s: Shared, k: nat)
    requires Reaches(start, moves, s, k)
    ensures Enabled(s, ReadOtp, k)
            <==> && |s.reading| < k
                 && exists i: nat :: Undisturbed(moves, i) && Clock(start, moves) < Clock(start, moves[..i]) + 300
  {
    RunTells(start, moves, s, k);
    ReadableFrom(start, moves, s);
  }

  lemma ReadableFrom(start: nat, moves: seq<Move>, s: Shared)
    requires Told(start, moves, s)
    ensures s.otp.Some? && s.now < s.otp.value.expiresAt
            <==> exists i: nat :: Undisturbed(moves, i) && Clock(start, moves) < Clock(start, moves[..i]) + 300
  {
    if s.otp.Some? {
      var i: nat :| Undisturbed(moves, i);
      assert s.otp == Some(StoredBy(start, moves, i));
    }
    if i: nat :| Undisturbed(moves, i) && Clock(start, moves) < Clock(start, moves[..i]) + 300 {
      assert s.otp == Some(StoredBy(start, moves, i));
    }
  }

  // ---- Passwords lost to a late success ----

  /** The latest password is gone from the slot, and no verify call has succeeded with it. */
  predicate LostUnused(s: Shared) {
    s.issued > 0 && s.otp.None? && s.successes[s.issued - 1] == 0
  }

  /** After the last store there were successes, all of them for older passwords. */
  ghost predicate OnlyLateSuccesses(moves: seq<Move>, i: nat) {
    && LastStore(moves, i)
    && (exists j :: i < j < |moves| && Succeeds(moves[j]))
    && (forall j :: i < j < |moves| && Succeeds(moves[j]) ==> moves[j].id < Stores(moves[..i]))
  }

  /** An answer is for a password that was stored before it. */
  lemma {:induction false} AnsweredIsOld(start: nat, moves: seq<Move>, s: Shared, k: nat, j: nat)
    requires k >= 1 && Reaches(start, moves, s, k)
    requires j < |moves| && moves[j].Answered?
    ensures moves[j].id < Stores(moves[..j])
    decreases |moves|
  {
    var n := |moves| - 1;
    var before := LastMove(start, moves, s, k);
    if j < n {
      AnsweredIsOld(start, moves[..n], before, k, j);
      assert moves[..n][..j] == moves[..j];
    } else {
      ReadIsIssued(start, moves[..n], before, k, moves[n].id);
    }
  }

  lemma ReadIsIssued(start: nat, moves: seq<Move>, s: Shared, k: nat, id: nat)
    requires k >= 1 && Reaches(start, moves, s, k) && id in s.reading
    ensures id < Stores(moves)
  {
    PasswordsHold(start, moves, s, k);
    RunTells(start, moves, s, k);
    assert s.reading[id] > 0;
  }

  lemma {:induction false} HasLastStore(moves: seq<Move>) returns (i: nat)
    requires Stores(moves) > 0
    ensures LastStore(moves, i)
    decreases |moves|
  {
    var n := |moves| - 1;
    if moves[n].StoreNew? {
      i := n;
    } else {
      i := HasLastStore(moves[..n]);
      assert forall j :: 0 <= j < n ==> moves[..n][j] == moves[j];
    }
  }

  /** The latest password has succeeded exactly when an answer after the last store says so. */
  lemma LatestSucceeded(start: nat, moves: seq<Move>, s: Shared, k: nat, i: nat)
    requires k >= 1 && Reaches(start, moves, s, k) && LastStore(moves, i)
    ensures s.issued == Stores(moves[..i]) + 1
    ensures s.successes[s.issued - 1] > 0
            <==> exists j :: i < j < |moves| && Succeeds(moves[j]) && moves[j].id == s.issued - 1
  {
    var id := Stores(moves[..i]);
    RunTells(start, moves, s, k);
    StoresOfLast(moves, i);
    if s.successes[id] > 0 {
      var j :| 0 <= j < |moves| && moves[j] == Answered(id, true);
      AnsweredIsOld(start, moves, s, k, j);
      if j <= i {
        StoresUntil(moves, j, i);
      }
    }
    if j :| i < j < |moves| && Succeeds(moves[j]) && moves[j].id == id {
      assert moves[j] == Answered(id, true);
    }
  }

  lemma AnsweredAfterLast(start: nat, moves: seq<Move>, s: Shared, k: nat, i: nat, j: nat)
    requires k >= 1 && Reaches(start, moves, s, k) && LastStore(moves, i)
    requires i < j < |moves| && moves[j].Answered?
    ensures moves[j].id <= Stores(moves[..i])
  {
    AnsweredIsOld(start, moves, s, k, j);
    StoresUntil(moves, j, |moves|);
    assert moves[..|moves|] == moves;
    StoresOfLast(moves, i);
  }

  /** A password is lost unused exactly when after the last store there were successes, all of
      them for older passwords. */
  lemma LostUnusedIff(start: nat, moves: seq<Move>, s: Shared, k: nat)
    requires k >= 1 && Reaches(start, moves, s, k)
    ensures LostUnused(s) <==> exists i :: OnlyLateSuccesses(moves, i)
  {
    RunTells(start, moves, s, k);
    if LostUnused(s) {
      var i := HasLastStore(moves);
      LatestSucceeded(start, moves, s, k, i);
      assert !Undisturbed(moves, i);
      forall j | i < j < |moves| && Succeeds(moves[j]) ensures moves[j].id < Stores(moves[..i]) {
        AnsweredAfterLast(start, moves, s, k, i, j);
      }
      assert OnlyLateSuccesses(moves, i);
    }
    if i :| OnlyLateSuccesses(moves, i) {
      LatestSucceeded(start, moves, s, k, i);
      forall l ensures !Undisturbed(moves, l) {
        if LastStore(moves, l) {
          assert l == i;
        }
      }
    }
  }

  lemma {:induction false} ReachesOne(start: nat, moves: seq<Move>, s: Shared, t: Shared, k: nat)
    requires Reaches(start, moves, s, k) && Reaches(start, moves, t, k)
    ensures s == t
    decreases |moves|
  {
    if moves != [] {
      var a := LastMove(start, moves, s, k);
      var b := LastMove(start, moves, t, k);
      ReachesOne(start, moves[..|moves| - 1], a, b, k);
    }
  }

  /** Only the password with this number has been issued last, read, or kept. */
  ghost predicate OnlyLatest(s: Shared, id: nat) {
    && s.issued == id + 1
    && (forall other :: other in s.reading ==> other == id)
    && (s.otp.Some? ==> s.otp.value.id == id)
    && (s.otp.None? <==> s.successes[id] > 0)
  }

  lemma OnlyLatestStored(s: Shared, k: nat)
    requires PasswordInv(s, k) && s.reading == multiset{}
    ensures OnlyLatest(Apply(s, StoreNew), s.issued)
  {
  }

  lemma OnlyLatestKept(s: Shared, m: Move, k: nat, id: nat)
    requires OnlyLatest(s, id) && Enabled(s, m, k) && !m.StoreNew?
    ensures OnlyLatest(Apply(s, m), id)
  {
  }

  lemma LastStoreBefore(moves: seq<Move>, i: nat)
    requires LastStore(moves, i) && i < |moves| - 1
    ensures LastStore(moves[..|moves| - 1], i) && moves[..|moves| - 1][..i] == moves[..i]
    ensures !moves[|moves| - 1].StoreNew?
  {
    assert forall j :: 0 <= j < |moves| - 1 ==> moves[..|moves| - 1][j] == moves[j];
  }

  lemma StoredLatest(start: nat, moves: seq<Move>, s: Shared, k: nat)
    requires k >= 1 && Reaches(start, moves, s, k) && s.reading == multiset{}
    ensures OnlyLatest(Apply(s, StoreNew), s.issued)
  {
    PasswordsHold(start, moves, s, k);
    OnlyLatestStored(s, k);
  }

  lemma KeptAtStore(start: nat, moves: seq<Move>, s: Shared, k: nat, at: Shared)
    requires k >= 1 && moves != [] && moves[|moves| - 1].StoreNew? && Reaches(start, moves, s, k)
    requires Reaches(start, moves[..|moves| - 1], at, k) && at.reading == multiset{}
    ensures OnlyLatest(s, at.issued)
  {
    var before := LastMove(start, moves, s, k);
    ReachesOne(start, moves[..|moves| - 1], before, at, k);
    StoredLatest(start, moves[..|moves| - 1], at, k);
  }

  lemma {:induction false} KeptSince(start: nat, moves: seq<Move>, s: Shared, k: nat, i: nat, at: Shared)
    requires k >= 1 && Reaches(start, moves, s, k) && LastStore(moves, i)
    requires Reaches(start, moves[..i], at, k) && at.reading == multiset{}
    ensures OnlyLatest(s, at.issued)
    decreases |moves|
  {
    if i == |moves| - 1 {
      KeptAtStore(start, moves, s, k, at);
    } else {
      var before := LastMove(start, moves, s, k);
      LastStoreBefore(moves, i);
      KeptSince(start, moves[..|moves| - 1], before, k, i, at);
      OnlyLatestKept(before, moves[|moves| - 1], k, at.issued);
    }
  }

  /** If no verify call was under way at the last store, every later one has read that
      password, and the slot is empty exactly when it has succeeded. */
  lemma KeptWithoutOverlap(start: nat, moves: seq<Move>, s: Shared, k: nat, i: nat, at: Shared)
    requires k >= 1 && Reaches(start, moves, s, k) && LastStore(moves, i)
    requires Reaches(start, moves[..i], at, k) && at.reading == multiset{}
    ensures OnlyLatest(s, at.issued) && !LostUnused(s)
  {
    KeptSince(start, moves, s, k, i, at);
  }

  /** Two stores with a verify call between its two steps around the second one: the old
      password succeeds, and the fresh one is gone. One call of each kind is enough. */
  lemma FreshPasswordLost(start: nat) returns (moves: seq<Move>, s: Shared)
    ensures Reaches(start, moves, s, 1)
    ensures s.now == start && s.issued == 2 && s.otp == None && LostUnused(s)
  {
    moves, s := [], Initial(start);
    moves := Extend(start, moves, s, StoreNew, 1);
    s := Apply(s, StoreNew);
    moves := Extend(start, moves, s, ReadOtp, 1);
    s := Apply(s, ReadOtp);
    moves := Extend(start, moves, s, StoreNew, 1);
    s := Apply(s, StoreNew);
    moves := Extend(start, moves, s, Answered(0, true), 1);
    s := Apply(s, Answered(0, true));
  }
}
