/** The freeze-time roster resolver, and its use of the connection pool.

    One resolver call enumerates the members over one pooled connection, gives that back, and then
    visits the members in order: for each it takes a scope connection, lets the validity engine take
    and give back further connections of the same pool (one at a time), reads the verdict and gives
    the scope connection back. */
module Roster {
  import opened Wrappers

  type MemberId = nat
  type Instant = int

  /** The two verdict fields the resolver could read; it reads one of them. */
  datatype Payload = Payload(isValid: bool, isAssignable: bool)

  predicate IsMemberAssignable(p: Payload) {
    p.isAssignable
  }

  /** The validity engine as an assumed function; `None` is a thrown error. */
  type Engine = (MemberId, Instant) -> Option<Payload>

  /** One resolver call: what its enumeration reads, and how many engine connections each member costs. */
  datatype Call = Call(commit: Option<Instant>, members: seq<MemberId>, trips: seq<nat>) {
    predicate Valid() {
      |trips| == |members|
    }
  }

  // ---------------------------------------------------------------- what a call returns

  predicate Answered(engine: Engine, at: Instant, members: seq<MemberId>) {
    forall m | m in members :: engine(m, at).Some?
  }

  predicate Keeps(engine: Engine, at: Instant, m: MemberId) {
    engine(m, at).Some? && IsMemberAssignable(engine(m, at).value)
  }

  function Kept(engine: Engine, at: Instant, members: seq<MemberId>): seq<MemberId> {
    if members == [] then []
    else
      var last := members[|members| - 1];
      Kept(engine, at, members[..|members| - 1]) + if Keeps(engine, at, last) then [last] else []
  }

  /** The roster of a call, or `None` when the call throws. */
  function RosterOf(engine: Engine, c: Call): Option<seq<MemberId>> {
    if c.commit.Some? && Answered(engine, c.commit.value, c.members)
    then Some(Kept(engine, c.commit.value, c.members))
    else None
  }

  ghost predicate Ascending(s: seq<MemberId>) {
    forall i, j | 0 <= i < j < |s| :: s[i] < s[j]
  }

  /** The ids a scoped read of the membership `ms` returns. */
  ghost predicate Enumerates(s: seq<MemberId>, ms: set<MemberId>) {
    Ascending(s) && forall m :: m in s <==> m in ms
  }

  lemma {:induction false} KeptExact(engine: Engine, at: Instant, s: seq<MemberId>)
    ensures forall m :: m in Kept(engine, at, s) <==> m in s && Keeps(engine, at, m)
    ensures Ascending(s) ==> Ascending(Kept(engine, at, s))
  {
    if s != [] {
      var front, last := s[..|s| - 1], s[|s| - 1];
      KeptExact(engine, at, front);
      assert s == front + [last];
      if Ascending(s) {
        var kept := Kept(engine, at, front);
        forall i | 0 <= i < |kept| ensures kept[i] < last { assert kept[i] in front; }
      }
    }
  }

  lemma LastIsGreatest(s: seq<MemberId>, m: MemberId)
    requires Ascending(s) && m in s
    ensures m <= s[|s| - 1]
    ensures m in s[..|s| - 1] <==> m != s[|s| - 1]
  {
    assert s == s[..|s| - 1] + [s[|s| - 1]];
  }

  lemma SameLast(a: seq<MemberId>, b: seq<MemberId>)
    requires Ascending(a) && Ascending(b) && a != [] && b != []
    requires forall m :: m in a <==> m in b
    ensures a[|a| - 1] == b[|b| - 1]
  {
    assert a[|a| - 1] in a && b[|b| - 1] in b;
    LastIsGreatest(a, b[|b| - 1]);
    LastIsGreatest(b, a[|a| - 1]);
  }

  lemma {:induction false} AscendingUnique(a: seq<MemberId>, b: seq<MemberId>)
    requires Ascending(a) && Ascending(b)
    requires forall m :: m in a <==> m in b
    ensures a == b
  {
    assert a != [] ==> a[0] in a;
    assert b != [] ==> b[0] in b;
    if a != [] {
      SameLast(a, b);
      var a', b', last := a[..|a| - 1], b[..|b| - 1], a[|a| - 1];
      forall m: MemberId ensures m in a' <==> m in a && m != last {
        if m in a { LastIsGreatest(a, m); }
      }
      forall m: MemberId ensures m in b' <==> m in b && m != last {
        if m in b { LastIsGreatest(b, m); }
      }
      AscendingUnique(a', b');
      assert a == a' + [last] && b == b' + [last];
    }
  }

  /** The roster is exactly the assignable members, ascending; it is withheld exactly when the freeze
      commit is missing or some member's verdict throws. */
  lemma RosterExact(engine: Engine, c: Call, ms: set<MemberId>)
    requires Enumerates(c.members, ms)
    ensures RosterOf(engine, c).Some? <==> c.commit.Some? && forall m | m in ms :: engine(m, c.commit.value).Some?
    ensures RosterOf(engine, c).Some? ==>
              Enumerates(RosterOf(engine, c).value, set m | m in ms && engine(m, c.commit.value).value.isAssignable)
  {
    if c.commit.Some? {
      KeptExact(engine, c.commit.value, c.members);
    }
  }

  /** A re-run at the same instant over a membership that grew only by members not assignable at that
      instant gives the identical list. */
  lemma RerunIdentical(engine: Engine, c: Call, c': Call, ms: set<MemberId>, ms': set<MemberId>)
    requires Enumerates(c.members, ms) && Enumerates(c'.members, ms') && ms <= ms'
    requires c.commit == c'.commit && c.commit.Some?
    requires forall m | m in ms' - ms ::
               engine(m, c.commit.value).Some? && !engine(m, c.commit.value).value.isAssignable
    ensures RosterOf(engine, c) == RosterOf(engine, c')
  {
    var at := c.commit.value;
    KeptExact(engine, at, c.members);
    KeptExact(engine, at, c'.members);
    if Answered(engine, at, c.members) {
      AscendingUnique(Kept(engine, at, c.members), Kept(engine, at, c'.members));
    }
  }

  // ---------------------------------------------------------------- one call, step by step

  /** The `pg.Pool` seen by one call: of its connections, how many are free. */
  class Pool {
    const capacity: nat
    var free: nat

    predicate Valid()
      reads this
    {
      free <= capacity
    }

    constructor (capacity: nat)
      ensures Valid() && this.capacity == capacity == free
    {
      this.capacity, free := capacity, capacity;
    }

    method Connect()
      requires Valid() && free > 0
      modifies this
      ensures Valid() && free == old(free) - 1
    {
      free := free - 1;
    }

    /** Only a connection taken before can be given back. */
    method Release()
      requires Valid() && free < capacity
      modifies this
      ensures Valid() && free == old(free) + 1
    {
      free := free + 1;
    }
  }

  /** The call reaches a member whose engine asks for a second connection. */
  ghost predicate NeedsSecond(engine: Engine, c: Call)
    requires c.Valid()
  {
    c.commit.Some? &&
    exists j :: 0 <= j < |c.members| && c.trips[j] > 0 && Answered(engine, c.commit.value, c.members[..j])
  }

  /** The resolver. Every exit, the throwing ones included, gives back what it took. */
  method ResolveRoster(pool: Pool, engine: Engine, c: Call) returns (r: Option<seq<MemberId>>)
    requires c.Valid() && pool.Valid()
    requires pool.free >= if NeedsSecond(engine, c) then 2 else 1
    modifies pool
    ensures r == RosterOf(engine, c)
    ensures pool.Valid() && pool.free == old(pool.free)
  {
    pool.Connect();
    if c.commit.None? {
      pool.Release();
      return None;
    }
    var at := c.commit.value;
    pool.Release();
    var assignable := [];
    for i := 0 to |c.members|
      invariant pool.Valid() && pool.free == old(pool.free)
      invariant Answered(engine, at, c.members[..i])
      invariant assignable == Kept(engine, at, c.members[..i])
    {
      pool.Connect();
      for t := 0 to c.trips[i]
        invariant pool.Valid() && pool.free == old(pool.free) - 1
      {
        assert c.trips[i] > 0;
        pool.Connect();
        pool.Release();
      }
      var payload := engine(c.members[i], at);
      pool.Release();
      assert c.members[..i + 1] == c.members[..i] + [c.members[i]];
      if payload.None? {
        assert c.members[i] in c.members;
        return None;
      }
      if IsMemberAssignable(payload.value) {
        assignable := assignable + [c.members[i]];
      }
    }
    assert c.members[..|c.members|] == c.members;
    r := Some(assignable);
  }

  // ---------------------------------------------------------------- many calls on one pool

  datatype Phase =
    | WantsEnum
    | Enumerating
    | WantsScope(next: nat, roster: seq<MemberId>)
    | Scoped(next: nat, left: nat, roster: seq<MemberId>)
    | InEngine(next: nat, left: nat, roster: seq<MemberId>)
    | Done(roster: seq<MemberId>)
    | Failed

  function Held(p: Phase): nat {
    match p
    case Enumerating => 1
    case Scoped(_, _, _) => 1
    case InEngine(_, _, _) => 2
    case _ => 0
  }

  predicate Finished(p: Phase) {
    p.Done? || p.Failed?
  }

  predicate Acquires(p: Phase) {
    p.WantsEnum? || p.WantsScope? || (p.Scoped? && p.left > 0)
  }

  function HeldSum(ps: seq<Phase>): nat {
    if ps == [] then 0 else Held(ps[0]) + HeldSum(ps[1..])
  }

  /** The environment of a run: the engine, the pool size and the concurrent calls. */
  datatype World = World(engine: Engine, capacity: nat, calls: seq<Call>) {
    predicate Valid() {
      forall i | 0 <= i < |calls| :: calls[i].Valid()
    }
  }

  predicate InRange(c: Call, p: Phase) {
    match p
    case WantsScope(n, _) => c.commit.Some? && n < |c.members|
    case Scoped(n, _, _) => c.commit.Some? && n < |c.members|
    case InEngine(n, _, _) => c.commit.Some? && n < |c.members|
    case _ => true
  }

  /** The next member's scope, or the end of the loop. */
  function Continue(c: Call, n: nat, roster: seq<MemberId>): Phase {
    if n < |c.members| then WantsScope(n, roster) else Done(roster)
  }

  /** What one step of one call does to it. */
  function Advance(engine: Engine, c: Call, p: Phase): (q: Phase)
    requires c.Valid() && InRange(c, p)
    ensures c.commit.Some? || !p.Enumerating? ==> InRange(c, q)
  {
    match p
    case WantsEnum => Enumerating
    case Enumerating => if c.commit.None? then Failed else Continue(c, 0, [])
    case WantsScope(n, r) => Scoped(n, c.trips[n], r)
    case Scoped(n, left, r) =>
      if left > 0 then InEngine(n, left - 1, r)
      else
        (match engine(c.members[n], c.commit.value)
         case None => Failed
         case Some(p) => Continue(c, n + 1, if IsMemberAssignable(p) then r + [c.members[n]] else r))
    case InEngine(n, left, r) => Scoped(n, left, r)
    case Done(_) => p
    case Failed => p
  }

  /** Every step of a call takes one connection or gives one back. It starts and ends with none, and holds two
      exactly while its engine has one. */
  lemma OneConnectionPerStep(engine: Engine, c: Call, p: Phase)
    requires c.Valid() && InRange(c, p) && !Finished(p)
    ensures Held(Advance(engine, c, p)) == Held(p) + if Acquires(p) then 1 else -1
    ensures Held(WantsEnum) == 0 && (Finished(Advance(engine, c, p)) ==> Held(Advance(engine, c, p)) == 0)
    ensures Held(p) == 2 <==> p.InEngine?
  {
  }

  /** Where a call can be, and what it has gathered by then. */
  ghost predicate PhaseInv(engine: Engine, c: Call, p: Phase)
    requires c.Valid()
  {
    InRange(c, p) &&
    match p
    case WantsScope(n, r) => Gathered(engine, c, n, r)
    case Scoped(n, left, r) => Gathered(engine, c, n, r) && left <= c.trips[n]
    case InEngine(n, left, r) => Gathered(engine, c, n, r) && left < c.trips[n]
    case Done(r) => RosterOf(engine, c) == Some(r)
    case Failed => RosterOf(engine, c) == None
    case _ => true
  }

  ghost predicate Gathered(engine: Engine, c: Call, n: nat, r: seq<MemberId>) {
    c.commit.Some? && n <= |c.members| &&
    Answered(engine, c.commit.value, c.members[..n]) && r == Kept(engine, c.commit.value, c.members[..n])
  }

  ghost predicate Inv(w: World, s: seq<Phase>)
    requires w.Valid()
  {
    |s| == |w.calls| && HeldSum(s) <= w.capacity &&
    forall i | 0 <= i < |s| :: PhaseInv(w.engine, w.calls[i], s[i])
  }

  ghost predicate Enabled(w: World, s: seq<Phase>, i: int) {
    0 <= i < |s| && !Finished(s[i]) && (Acquires(s[i]) ==> HeldSum(s) < w.capacity)
  }

  ghost function Step(w: World, s: seq<Phase>, i: int): seq<Phase>
    requires w.Valid() && Inv(w, s) && Enabled(w, s, i)
  {
    s[i := Advance(w.engine, w.calls[i], s[i])]
  }

  ghost function Initial(w: World): (s: seq<Phase>)
    requires w.Valid()
    ensures Inv(w, s) && HeldSum(s) == 0
  {
    var s := seq(|w.calls|, _ => WantsEnum);
    AllIdle(s);
    s
  }

  lemma {:induction false} HeldSumUpdate(s: seq<Phase>, i: nat, p: Phase)
    requires i < |s|
    ensures HeldSum(s[i := p]) == HeldSum(s) - Held(s[i]) + Held(p)
  {
    if i > 0 {
      assert s[i := p][1..] == s[1..][i - 1 := p];
      HeldSumUpdate(s[1..], i - 1, p);
    }
  }

  lemma AdvanceInv(engine: Engine, c: Call, p: Phase)
    requires c.Valid() && PhaseInv(engine, c, p)
    ensures PhaseInv(engine, c, Advance(engine, c, p))
  {
    match p
    case Enumerating =>
      assert c.members[..0] == [];
      if c.commit.Some? && |c.members| == 0 { assert Kept(engine, c.commit.value, c.members) == []; }
    case Scoped(n, left, r) =>
      if left == 0 {
        var m := c.members[n];
        assert c.members[..n + 1] == c.members[..n] + [m];
        if engine(m, c.commit.value).None? {
          assert m in c.members;
        } else {
          assert Gathered(engine, c, n + 1, if Keeps(engine, c.commit.value, m) then r + [m] else r);
          if n + 1 == |c.members| { assert c.members[..n + 1] == c.members; }
        }
      }
    case _ =>
  }

  lemma StepInv(w: World, s: seq<Phase>, i: int)
    requires w.Valid() && Inv(w, s) && Enabled(w, s, i)
    ensures Inv(w, Step(w, s, i))
  {
    AdvanceInv(w.engine, w.calls[i], s[i]);
    HeldSumUpdate(s, i, Advance(w.engine, w.calls[i], s[i]));
  }

  /** `schedule` is a legal run from `s` to `t`. */
  ghost predicate Runs(w: World, s: seq<Phase>, schedule: seq<int>, t: seq<Phase>)
    requires w.Valid() && Inv(w, s)
    decreases |schedule|
  {
    if schedule == [] then s == t
    else
      Enabled(w, s, schedule[0]) &&
      (StepInv(w, s, schedule[0]);
       Runs(w, Step(w, s, schedule[0]), schedule[1..], t))
  }

  lemma {:induction false} AllIdle(s: seq<Phase>)
    requires forall i | 0 <= i < |s| :: Held(s[i]) == 0
    ensures HeldSum(s) == 0
  {
    if s != [] { AllIdle(s[1..]); }
  }

  lemma {:induction false} RunsInv(w: World, s: seq<Phase>, schedule: seq<int>, t: seq<Phase>)
    requires w.Valid() && Inv(w, s) && Runs(w, s, schedule, t)
    ensures Inv(w, t)
    decreases |schedule|
  {
    if schedule != [] {
      StepInv(w, s, schedule[0]);
      RunsInv(w, Step(w, s, schedule[0]), schedule[1..], t);
    }
  }

  lemma {:induction false} RunsThen(w: World, s: seq<Phase>, a: seq<int>, t: seq<Phase>, b: seq<int>, u: seq<Phase>)
    requires w.Valid() && Inv(w, s) && Runs(w, s, a, t)
    requires Inv(w, t) && Runs(w, t, b, u)
    ensures Runs(w, s, a + b, u)
    decreases |a|
  {
    if a == [] {
      assert a + b == b;
    } else {
      StepInv(w, s, a[0]);
      RunsThen(w, Step(w, s, a[0]), a[1..], t, b, u);
      assert (a + b)[1..] == a[1..] + b;
    }
  }

  lemma RunsOne(w: World, s: seq<Phase>, i: int)
    requires w.Valid() && Inv(w, s) && Enabled(w, s, i)
    ensures Inv(w, Step(w, s, i)) && Runs(w, s, [i], Step(w, s, i))
  {
    StepInv(w, s, i);
    assert [i][1..] == [];
  }

  // ---------------------------------------------------------------- every run ends

  /** An upper bound on the steps a call still takes. */
  function Remaining(c: Call, p: Phase): nat
    requires c.Valid() && InRange(c, p)
  {
    match p
    case WantsEnum => 2 + Cost(c, 0)
    case Enumerating => 1 + Cost(c, 0)
    case WantsScope(n, _) => Cost(c, n)
    case Scoped(n, left, _) => 1 + 2 * left + Cost(c, n + 1)
    case InEngine(n, left, _) => 2 + 2 * left + Cost(c, n + 1)
    case _ => 0
  }

  function Cost(c: Call, n: nat): nat
    requires c.Valid()
    decreases |c.members| - n
  {
    if n >= |c.members| then 0 else 2 + 2 * c.trips[n] + Cost(c, n + 1)
  }

  ghost function TotalFrom(w: World, s: seq<Phase>, k: nat): nat
    requires w.Valid() && |s| == |w.calls| && k <= |s|
    requires forall i | 0 <= i < |s| :: InRange(w.calls[i], s[i])
    decreases |s| - k
  {
    if k == |s| then 0 else Remaining(w.calls[k], s[k]) + TotalFrom(w, s, k + 1)
  }

  lemma {:induction false} TotalUpdate(w: World, s: seq<Phase>, i: nat, p: Phase, k: nat)
    requires w.Valid() && |s| == |w.calls| && i < |s| && k <= |s|
    requires forall j | 0 <= j < |s| :: InRange(w.calls[j], s[j])
    requires InRange(w.calls[i], p) && Remaining(w.calls[i], p) < Remaining(w.calls[i], s[i])
    ensures if k <= i then TotalFrom(w, s[i := p], k) < TotalFrom(w, s, k)
            else TotalFrom(w, s[i := p], k) == TotalFrom(w, s, k)
    decreases |s| - k
  {
    if k < |s| { TotalUpdate(w, s, i, p, k + 1); }
  }

  lemma StepShrinks(w: World, s: seq<Phase>, i: int)
    requires w.Valid() && Inv(w, s) && Enabled(w, s, i)
    ensures Inv(w, Step(w, s, i)) && TotalFrom(w, Step(w, s, i), 0) < TotalFrom(w, s, 0)
  {
    StepInv(w, s, i);
    TotalUpdate(w, s, i, Advance(w.engine, w.calls[i], s[i]), 0);
  }

  /** No run is longer than the bound computed from its first state. */
  lemma {:induction false} RunsBounded(w: World, s: seq<Phase>, schedule: seq<int>, t: seq<Phase>)
    requires w.Valid() && Inv(w, s) && Runs(w, s, schedule, t)
    ensures |schedule| <= TotalFrom(w, s, 0)
    decreases |schedule|
  {
    if schedule != [] {
      StepShrinks(w, s, schedule[0]);
      RunsBounded(w, Step(w, s, schedule[0]), schedule[1..], t);
    }
  }

  // ---------------------------------------------------------------- deadlock

  /** Some call is unfinished and no call can move. */
  ghost predicate Deadlocked(w: World, s: seq<Phase>) {
    (exists i :: 0 <= i < |s| && !Finished(s[i])) && forall i | 0 <= i < |s| :: !Enabled(w, s, i)
  }

  ghost function Contenders(engine: Engine, calls: seq<Call>): nat
    requires forall i | 0 <= i < |calls| :: calls[i].Valid()
  {
    if calls == [] then 0 else (if NeedsSecond(engine, calls[0]) then 1 else 0) + Contenders(engine, calls[1..])
  }

  lemma {:induction false} StuckHolds(engine: Engine, calls: seq<Call>, s: seq<Phase>)
    requires |s| == |calls|
    requires forall i | 0 <= i < |s| :: calls[i].Valid() && PhaseInv(engine, calls[i], s[i])
    requires forall i | 0 <= i < |s| :: Finished(s[i]) || Acquires(s[i])
    ensures HeldSum(s) <= Contenders(engine, calls)
  {
    if s != [] {
      StuckHolds(engine, calls[1..], s[1..]);
    }
  }

  lemma NoDeadlock(w: World, s: seq<Phase>)
    requires w.Valid() && Inv(w, s) && Contenders(w.engine, w.calls) < w.capacity
    ensures !Deadlocked(w, s)
  {
    if Deadlocked(w, s) {
      forall i | 0 <= i < |s| ensures Finished(s[i]) || Acquires(s[i]) { assert !Enabled(w, s, i); }
      StuckHolds(w.engine, w.calls, s);
      var i :| 0 <= i < |s| && !Finished(s[i]);
      assert Enabled(w, s, i);
    }
  }

  /** A call parked with its scope connection in hand, waiting for an engine connection. */
  predicate Parked(p: Phase) {
    p.Scoped? && p.left > 0
  }

  /** Alone, a call that needs a second connection gets as far as asking for it with one connection. */
  lemma {:induction false} ReachScope(w: World, s: seq<Phase>, i: nat, n: nat, j: nat, r: seq<MemberId>)
      returns (schedule: seq<int>, t: seq<Phase>)
    requires w.Valid() && Inv(w, s) && i < |s| && HeldSum(s) < w.capacity
    requires n <= j < |w.calls[i].members| && s[i] == WantsScope(n, r) && w.calls[i].trips[j] > 0
    requires forall k | 0 <= k < j :: w.calls[i].trips[k] == 0
    requires Answered(w.engine, w.calls[i].commit.value, w.calls[i].members[..j])
    ensures Inv(w, t) && Runs(w, s, schedule, t) && Parked(t[i]) && t == s[i := t[i]]
    decreases j - n
  {
    RunsOne(w, s, i);
    var s1 := Step(w, s, i);
    HeldSumUpdate(s, i, s1[i]);
    if n == j {
      schedule, t := [i], s1;
    } else {
      RunsOne(w, s1, i);
      var s2 := Step(w, s1, i);
      HeldSumUpdate(s1, i, s2[i]);
      assert w.calls[i].members[n] in w.calls[i].members[..j];
      var rest, t' := ReachScope(w, s2, i, n + 1, j, s2[i].roster);
      t := t';
      RunsThen(w, s, [i], s1, [i], s2);
      RunsThen(w, s, [i] + [i], s2, rest, t);
      schedule := [i] + [i] + rest;
    }
  }

  lemma FirstTrip(engine: Engine, c: Call) returns (j: nat)
    requires c.Valid() && NeedsSecond(engine, c)
    ensures j < |c.members| && c.trips[j] > 0 && Answered(engine, c.commit.value, c.members[..j])
    ensures forall k | 0 <= k < j :: c.trips[k] == 0
  {
    j :| 0 <= j < |c.members| && c.trips[j] > 0 && Answered(engine, c.commit.value, c.members[..j]);
    while exists k :: 0 <= k < j && c.trips[k] > 0
      invariant j < |c.members| && c.trips[j] > 0 && Answered(engine, c.commit.value, c.members[..j])
      decreases j
    {
      var k :| 0 <= k < j && c.trips[k] > 0;
      assert forall m | m in c.members[..k] :: m in c.members[..j];
      j := k;
    }
  }

  lemma ParkOne(w: World, s: seq<Phase>, i: nat) returns (schedule: seq<int>, t: seq<Phase>)
    requires w.Valid() && Inv(w, s) && i < |s| && HeldSum(s) < w.capacity
    requires s[i] == WantsEnum && NeedsSecond(w.engine, w.calls[i])
    ensures Inv(w, t) && Runs(w, s, schedule, t) && Parked(t[i]) && t == s[i := t[i]]
  {
    var j := FirstTrip(w.engine, w.calls[i]);
    RunsOne(w, s, i);
    var s1 := Step(w, s, i);
    HeldSumUpdate(s, i, s1[i]);
    RunsOne(w, s1, i);
    var s2 := Step(w, s1, i);
    HeldSumUpdate(s1, i, s2[i]);
    var rest, t' := ReachScope(w, s2, i, 0, j, []);
    t := t';
    RunsThen(w, s, [i], s1, [i], s2);
    RunsThen(w, s, [i] + [i], s2, rest, t);
    schedule := [i] + [i] + rest;
  }

  lemma {:induction false} FillPool(w: World, s: seq<Phase>, i: nat) returns (schedule: seq<int>, t: seq<Phase>)
    requires w.Valid() && Inv(w, s) && i <= |s| && |s| > 0
    requires forall k | 0 <= k < |s| :: s[k].WantsEnum? || (k < i && Parked(s[k]))
    requires HeldSum(s) + Contenders(w.engine, w.calls[i..]) >= w.capacity
    ensures Inv(w, t) && Runs(w, s, schedule, t) && Deadlocked(w, t)
    decreases |s| - i
  {
    if HeldSum(s) == w.capacity {
      schedule, t := [], s;
      assert !Finished(s[0]);
    } else {
      assert w.calls[i..][1..] == w.calls[i + 1..];
      if NeedsSecond(w.engine, w.calls[i]) {
        var first, s1 := ParkOne(w, s, i);
        HeldSumUpdate(s, i, s1[i]);
        var rest, t' := FillPool(w, s1, i + 1);
        t := t';
        RunsThen(w, s, first, s1, rest, t);
        schedule := first + rest;
      } else {
        schedule, t := FillPool(w, s, i + 1);
      }
    }
  }

  /** Some legal run of the calls, started together, deadlocks. */
  ghost predicate CanDeadlock(w: World)
    requires w.Valid()
  {
    exists schedule, t :: Runs(w, Initial(w), schedule, t) && Deadlocked(w, t)
  }

  /** The pool can deadlock exactly when at least as many calls ask for a second connection as the pool
      has connections. */
  lemma DeadlockExactly(w: World)
    requires w.Valid() && |w.calls| > 0
    ensures CanDeadlock(w) <==> w.capacity <= Contenders(w.engine, w.calls)
  {
    if w.capacity <= Contenders(w.engine, w.calls) {
      assert w.calls[0..] == w.calls;
      var schedule, t := FillPool(w, Initial(w), 0);
      assert Runs(w, Initial(w), schedule, t) && Deadlocked(w, t);
    } else {
      forall schedule, t | Runs(w, Initial(w), schedule, t)
        ensures !Deadlocked(w, t)
      {
        RunsInv(w, Initial(w), schedule, t);
        NoDeadlock(w, t);
      }
    }
  }

  /** The jobs application builds a pool of two connections; two concurrent calls that each ask for an
      engine connection are enough to deadlock it, until a connection timeout fails one of them. */
  lemma TwoCallsOnTwoConnections(w: World, i: nat, j: nat)
    requires w.Valid() && w.capacity == 2 && i < j < |w.calls|
    requires NeedsSecond(w.engine, w.calls[i]) && NeedsSecond(w.engine, w.calls[j])
    ensures CanDeadlock(w)
  {
    TwoContenders(w.engine, w.calls, i, j);
    DeadlockExactly(w);
  }

  lemma {:induction false} SomeoneHolds(s: seq<Phase>) returns (i: nat)
    requires HeldSum(s) > 0
    ensures i < |s| && Held(s[i]) > 0
  {
    if Held(s[0]) > 0 {
      i := 0;
    } else {
      var j := SomeoneHolds(s[1..]);
      i := j + 1;
    }
  }

  /** What the pool's connection timeout does to a deadlock: some call is parked, and when its wait is
      given up its roster is lost and every other waiting call can go on. */
  lemma TimeoutRelieves(w: World, s: seq<Phase>) returns (i: nat)
    requires w.Valid() && Inv(w, s) && Deadlocked(w, s) && w.capacity > 0
    ensures i < |s| && Parked(s[i])
    ensures forall j | 0 <= j < |s| && j != i && !Finished(s[j]) :: Enabled(w, s[i := Failed], j)
  {
    var k :| 0 <= k < |s| && !Finished(s[k]);
    assert !Enabled(w, s, k);
    i := SomeoneHolds(s);
    assert !Enabled(w, s, i);
    HeldSumUpdate(s, i, Failed);
  }

  lemma {:induction false} OneContender(engine: Engine, calls: seq<Call>, i: nat)
    requires forall k | 0 <= k < |calls| :: calls[k].Valid()
    requires i < |calls| && NeedsSecond(engine, calls[i])
    ensures Contenders(engine, calls) >= 1
  {
    if i > 0 { OneContender(engine, calls[1..], i - 1); }
  }

  lemma {:induction false} TwoContenders(engine: Engine, calls: seq<Call>, i: nat, j: nat)
    requires forall k | 0 <= k < |calls| :: calls[k].Valid()
    requires i < j < |calls| && NeedsSecond(engine, calls[i]) && NeedsSecond(engine, calls[j])
    ensures Contenders(engine, calls) >= 2
  {
    if i > 0 {
      TwoContenders(engine, calls[1..], i - 1, j - 1);
    } else {
      OneContender(engine, calls[1..], j - 1);
    }
  }

  /** With a large enough pool, a run that cannot go on has finished every call with its own roster
      (or its own failure), within the computed number of steps, and every connection is back. */
  lemma EveryCallEnds(w: World, schedule: seq<int>, t: seq<Phase>)
    requires w.Valid() && Runs(w, Initial(w), schedule, t)
    requires Contenders(w.engine, w.calls) < w.capacity
    requires forall i | 0 <= i < |t| :: !Enabled(w, t, i)
    ensures |t| == |w.calls| && |schedule| <= TotalFrom(w, Initial(w), 0) && HeldSum(t) == 0
    ensures forall i | 0 <= i < |t| ::
              t[i] == match RosterOf(w.engine, w.calls[i]) case Some(r) => Done(r) case None => Failed
  {
    RunsInv(w, Initial(w), schedule, t);
    RunsBounded(w, Initial(w), schedule, t);
    NoDeadlock(w, t);
    AllIdle(t);
  }
}
