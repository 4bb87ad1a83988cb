/** CreateUser and RemoveUser under interleaving. Each count is taken under a read lock and
    each change made under a write lock, so these are the atomic steps; between them other
    callers run. At most `threads` calls to CreateUser are in progress at once. */
module RegistryRace {
  import opened Collections

  type Ref = nat
  type Tid = nat

  /** A call to CreateUser: `Created` has passed the first count, `Counted` the second. */
  datatype Call = Created(id: int, user: Ref) | Counted(id: int, user: Ref)

  datatype State = State(
    max: nat,
    threads: nat,
    users: map<int, Ref>,
    calls: map<Tid, Call>,
    added: set<Ref>,       // users put into the map by a finished call
    returned: set<Ref>)    // users whose call returned a pointer to them

  datatype Event =
    | Create(tid: Tid, id: int, user: Ref)   // the count in CreateUser
    | Step(tid: Tid)                         // the count in AddUser, then the insertion
    | Remove(id: int, user: Ref)             // RemoveUser

  function Initial(max: nat, threads: nat): State {
    State(max, threads, map[], map[], {}, {})
  }

  function Next(st: State, e: Event): State {
    match e
    case Create(tid, id, user) =>
      if tid in st.calls || |st.calls| >= st.threads || |st.users| >= st.max then st
      else st.(calls := st.calls[tid := Created(id, user)])
    case Step(tid) =>
      if tid !in st.calls then st
      else (
        match st.calls[tid]
        case Created(id, user) =>
          if |st.users| < st.max then st.(calls := st.calls[tid := Counted(id, user)])
          else st.(calls := st.calls - {tid}, returned := st.returned + {user})
        case Counted(id, user) =>
          st.(calls := st.calls - {tid}, users := st.users[id := user],
              added := st.added + {user}, returned := st.returned + {user}))
    case Remove(id, user) =>
      if id in st.users && st.users[id] == user then st.(users := st.users - {id}) else st
  }

  function Run(st: State, es: seq<Event>): State
    decreases |es|
  {
    if es == [] then st else Run(Next(st, es[0]), es[1..])
  }

  // ----- Capacity -----

  /** The callers that have counted and not yet inserted. */
  function Waiting(st: State): set<Tid> {
    set tid | tid in st.calls && st.calls[tid].Counted?
  }

  predicate Inv(st: State) {
    && |st.calls| <= st.threads
    && (st.max == 0 || st.threads == 0 ==> st.calls == map[] && st.users == map[])
    && (st.max > 0 && st.threads > 0 ==> |st.users| + |Waiting(st)| <= st.max + st.threads - 1)
  }

  lemma WaitingSize(st: State)
    ensures |Waiting(st)| <= |st.calls|
  {
    assert Waiting(st) <= st.calls.Keys;
    SubsetSize(Waiting(st), st.calls.Keys);
    assert |st.calls.Keys| == |st.calls|;
  }

  lemma CreateKeepsInv(st: State, tid: Tid, id: int, user: Ref)
    requires Inv(st)
    ensures Inv(Next(st, Create(tid, id, user)))
  {
    var r := Next(st, Create(tid, id, user));
    if r != st {
      MapUpdateSize(st.calls, tid, Created(id, user));
      assert Waiting(r) == Waiting(st);
    }
  }

  lemma CountKeepsInv(st: State, tid: Tid)
    requires Inv(st) && tid in st.calls && st.calls[tid].Created?
    ensures Inv(Next(st, Step(tid)))
  {
    var r := Next(st, Step(tid));
    if |st.users| < st.max {
      MapUpdateSize(st.calls, tid, r.calls[tid]);
      WaitingSize(r);
    } else {
      MapRemoveSize(st.calls, tid);
      assert Waiting(r) == Waiting(st);
    }
  }

  lemma InsertKeepsInv(st: State, tid: Tid)
    requires Inv(st) && tid in st.calls && st.calls[tid].Counted?
    ensures Inv(Next(st, Step(tid)))
  {
    var r := Next(st, Step(tid));
    var c := st.calls[tid];
    MapRemoveSize(st.calls, tid);
    MapUpdateSize(st.users, c.id, c.user);
    assert Waiting(r) == Waiting(st) - {tid};
    assert tid in Waiting(st);
  }

  lemma {:induction false} RunKeepsInv(st: State, es: seq<Event>)
    requires Inv(st)
    ensures Inv(Run(st, es)) && Run(st, es).max == st.max && Run(st, es).threads == st.threads
    decreases |es|
  {
    if es != [] {
      match es[0] {
        case Create(tid, id, user) => CreateKeepsInv(st, tid, id, user);
        case Step(tid) =>
          if tid in st.calls {
            if st.calls[tid].Created? {
              CountKeepsInv(st, tid);
            } else {
              InsertKeepsInv(st, tid);
            }
          }
        case Remove(id, user) =>
          if id in st.users && st.users[id] == user {
            MapRemoveSize(st.users, id);
            assert Waiting(Next(st, es[0])) == Waiting(st);
          }
      }
      RunKeepsInv(Next(st, es[0]), es[1..]);
    }
  }

  /** The most users there can be. */
  function Bound(max: nat, threads: nat): nat {
    if max == 0 || threads == 0 then 0 else max + threads - 1
  }

  /** In every interleaving of up to `threads` callers the registry stays within the bound;
      one caller at a time never exceeds the configured maximum. */
  lemma CapacityBound(max: nat, threads: nat, es: seq<Event>)
    ensures |Run(Initial(max, threads), es).users| <= Bound(max, threads)
  {
    var st := Initial(max, threads);
    assert Waiting(st) == {};
    RunKeepsInv(st, es);
  }

  // ----- The bound is reached -----

  lemma {:induction false} RunAppend(st: State, a: seq<Event>, b: seq<Event>)
    ensures Run(st, a + b) == Run(Run(st, a), b)
    decreases |a|
  {
    if a == [] {
      assert a + b == b;
    } else {
      assert (a + b)[1..] == a[1..] + b;
      RunAppend(Next(st, a[0]), a[1..], b);
    }
  }

  /** Callers 0 to n - 1 waiting to insert the users from `base` on. */
  function Waiters(n: nat, base: nat): (m: map<Tid, Call>)
    ensures |m| == n
    ensures forall k :: k in m <==> 0 <= k < n
  {
    if n == 0 then map[]
    else
      MapUpdateSize(Waiters(n - 1, base), n - 1, Counted(base + n - 1, base + n - 1));
      Waiters(n - 1, base)[n - 1 := Counted(base + n - 1, base + n - 1)]
  }

  lemma RunOne(st: State, e: Event)
    ensures Run(st, [e]) == Next(st, e)
  {
    assert [e][1..] == [];
  }

  lemma {:induction false} RunTwo(st: State, a: Event, b: Event)
    ensures Run(st, [a, b]) == Next(Next(st, a), b)
  {
    assert [a, b][1..] == [b];
    RunOne(Next(st, a), b);
  }

  /** A caller that finds room both times is waiting to insert. */
  lemma CreateOne(st: State, tid: Tid, user: Ref)
    requires tid !in st.calls && |st.calls| < st.threads && |st.users| < st.max
    ensures Next(Next(st, Create(tid, user, user)), Step(tid)) == st.(calls := st.calls[tid := Counted(user, user)])
  {
    assert st.calls[tid := Created(user, user)][tid := Counted(user, user)] == st.calls[tid := Counted(user, user)];
  }

  /** One caller alone registers a user. */
  lemma Register(st: State, user: Ref)
    requires st.calls == map[] && st.threads > 0 && |st.users| < st.max
    ensures var r := Run(st, [Create(0, user, user), Step(0)] + [Step(0)]);
            && r.users == st.users[user := user] && r.calls == map[]
            && r.added == st.added + {user} && r.max == st.max && r.threads == st.threads
  {
    CreateOne(st, 0, user);
    RunTwo(st, Create(0, user, user), Step(0));
    var counted := Run(st, [Create(0, user, user), Step(0)]);
    assert counted.calls == map[0 := Counted(user, user)];
    RunOne(counted, Step(0));
    RunAppend(st, [Create(0, user, user), Step(0)], [Step(0)]);
    assert map[0 := Counted(user, user)] - {0} == map[];
  }

  /** n users, numbered from 0, and nobody about. */
  predicate Filled(st: State, n: nat) {
    && st.calls == map[] && |st.users| == n
    && (forall k | k in st.users :: k < n)
    && forall u | u in st.added :: u < n
  }

  /** One caller registers n users one after the other. */
  lemma {:induction false} Fill(st: State, n: nat) returns (es: seq<Event>)
    requires Filled(st, 0) && st.threads > 0 && n < st.max
    ensures Filled(Run(st, es), n) && Run(st, es).max == st.max && Run(st, es).threads == st.threads
    decreases n
  {
    es := [];
    if n > 0 {
      var front := Fill(st, n - 1);
      var r := Run(st, front);
      var more := [Create(0, n - 1, n - 1), Step(0)] + [Step(0)];
      Register(r, n - 1);
      MapUpdateSize(r.users, n - 1, n - 1);
      RunAppend(st, front, more);
      es := front + more;
    }
  }

  lemma WaitersNext(n: nat, base: nat)
    ensures Waiters(n + 1, base) == Waiters(n, base)[n := Counted(base + n, base + n)]
  {
  }

  function CountIn(n: nat, base: nat): seq<Event> {
    [Create(n, base + n, base + n), Step(n)]
  }

  lemma GatherOne(st: State, n: nat, base: nat)
    requires |st.users| == base < st.max
    requires st.calls == Waiters(n, base) && n < st.threads
    ensures Run(st, CountIn(n, base)) == st.(calls := Waiters(n + 1, base))
  {
    WaitersNext(n, base);
    assert n !in st.calls && |st.calls| == n;
    CreateOne(st, n, base + n);
    RunTwo(st, Create(n, base + n, base + n), Step(n));
  }

  /** With one place left, n callers all count before any inserts. */
  lemma {:induction false} Gather(st: State, n: nat, base: nat) returns (es: seq<Event>)
    requires st.calls == map[] && |st.users| == base < st.max && n <= st.threads
    ensures Run(st, es) == st.(calls := Waiters(n, base))
    decreases n
  {
    es := [];
    if n > 0 {
      var front := Gather(st, n - 1, base);
      var r := Run(st, front);
      var more := CountIn(n - 1, base);
      GatherOne(r, n - 1, base);
      RunAppend(st, front, more);
      es := front + more;
    }
  }

  lemma WaitersLess(n: nat, base: nat)
    requires n > 0
    ensures Waiters(n, base) - {n - 1} == Waiters(n - 1, base)
    ensures n - 1 in Waiters(n, base) && Waiters(n, base)[n - 1] == Counted(base + n - 1, base + n - 1)
  {
    WaitersNext(n - 1, base);
  }

  lemma Insert(st: State, tid: Tid, user: Ref)
    requires tid in st.calls && st.calls[tid] == Counted(user, user) && user !in st.users
    ensures var r := Next(st, Step(tid));
            && r.calls == st.calls - {tid} && r.users == st.users[user := user] && |r.users| == |st.users| + 1
  {
    MapUpdateSize(st.users, user, user);
  }

  /** The waiting callers insert, the last first. */
  lemma {:induction false} Flush(st: State, n: nat, base: nat) returns (es: seq<Event>)
    requires st.calls == Waiters(n, base)
    requires forall k | k in st.users :: k < base || k >= base + n
    ensures |Run(st, es).users| == |st.users| + n
    decreases n
  {
    es := [];
    if n > 0 {
      WaitersLess(n, base);
      Insert(st, n - 1, base + n - 1);
      es := Flush(Next(st, Step(n - 1)), n - 1, base);
      RunOne(st, Step(n - 1));
      RunAppend(st, [Step(n - 1)], es);
      es := [Step(n - 1)] + es;
    }
  }

  /** With one place left, every caller gets in. */
  lemma Overfill(st: State, base: nat) returns (es: seq<Event>)
    requires Filled(st, base) && st.max == base + 1
    ensures |Run(st, es).users| == base + st.threads
  {
    var gather := Gather(st, st.threads, base);
    var flush := Flush(Run(st, gather), st.threads, base);
    RunAppend(st, gather, flush);
    es := gather + flush;
  }

  /** The bound is the best possible: some interleaving reaches it. */
  lemma BoundReached(max: nat, threads: nat) returns (es: seq<Event>)
    ensures |Run(Initial(max, threads), es).users| == Bound(max, threads)
  {
    es := [];
    if max > 0 && threads > 0 {
      var st := Initial(max, threads);
      var fill := Fill(st, max - 1);
      var over := Overfill(Run(st, fill), max - 1);
      RunAppend(st, fill, over);
      es := fill + over;
    }
  }

  /** The configured maximum holds for exactly those servers whose calls never overlap (or
      where nobody can be registered). */
  lemma WithinMaxIff(max: nat, threads: nat)
    ensures (forall es :: |Run(Initial(max, threads), es).users| <= max) <==> max == 0 || threads <= 1
  {
    if max == 0 || threads <= 1 {
      forall es ensures |Run(Initial(max, threads), es).users| <= max {
        CapacityBound(max, threads, es);
      }
    } else {
      var es := BoundReached(max, threads);
      assert |Run(Initial(max, threads), es).users| > max;
    }
  }

  // ----- Who is registered -----

  /** Whether an event can put another user in the place of `id`, or remove this one. */
  predicate Concerns(st: State, e: Event, id: int, user: Ref) {
    || e == Remove(id, user)
    || (e.Step? && e.tid in st.calls && st.calls[e.tid].Counted? && st.calls[e.tid].id == id)
  }

  predicate Undisturbed(st: State, es: seq<Event>, id: int, user: Ref)
    decreases |es|
  {
    es == [] || (!Concerns(st, es[0], id, user) && Undisturbed(Next(st, es[0]), es[1..], id, user))
  }

  /** A registered user leaves the registry only by its own removal or by another insertion
      under its id: removing a user it displaced, or any other, does nothing to it. */
  lemma {:induction false} StaysRegistered(st: State, es: seq<Event>, id: int, user: Ref)
    requires id in st.users && st.users[id] == user
    requires Undisturbed(st, es, id, user)
    ensures id in Run(st, es).users && Run(st, es).users[id] == user
    decreases |es|
  {
    if es != [] {
      StaysRegistered(Next(st, es[0]), es[1..], id, user);
    }
  }

  predicate Registered(st: State, id: int, user: Ref) {
    id in st.users && st.users[id] == user
  }

  /** The event is the insertion of this user under `id`. */
  predicate Inserts(st: State, e: Event, id: int, user: Ref) {
    e.Step? && e.tid in st.calls && st.calls[e.tid] == Counted(id, user)
  }

  /** The event is this user's removal, or the insertion of another under its id. */
  ghost predicate Ends(st: State, e: Event, id: int, user: Ref) {
    e == Remove(id, user) || exists u :: u != user && Inserts(st, e, id, u)
  }

  /** After an event a user is registered exactly if it was just inserted, or was registered
      and the event is neither its removal nor the insertion of another under its id. */
  lemma RegisteredAfter(st: State, e: Event, id: int, user: Ref)
    ensures Registered(Next(st, e), id, user)
       <==> Inserts(st, e, id, user) || (Registered(st, id, user) && !Ends(st, e, id, user))
  {
    if e.Step? && e.tid in st.calls && st.calls[e.tid].Counted? && st.calls[e.tid].id == id {
      assert Inserts(st, e, id, st.calls[e.tid].user);
    }
  }

  predicate InsertedAt(max: nat, threads: nat, es: seq<Event>, k: nat, id: int, user: Ref)
    requires k < |es|
  {
    Inserts(Run(Initial(max, threads), es[..k]), es[k], id, user)
  }

  ghost predicate EndedAt(max: nat, threads: nat, es: seq<Event>, k: nat, id: int, user: Ref)
    requires k < |es|
  {
    Ends(Run(Initial(max, threads), es[..k]), es[k], id, user)
  }

  ghost predicate NotEnded(max: nat, threads: nat, es: seq<Event>, k: nat, id: int, user: Ref) {
    forall j | k < j < |es| :: !EndedAt(max, threads, es, j, id, user)
  }

  /** In a run some insertion of the user has not been ended. */
  ghost predicate InsertedLast(max: nat, threads: nat, es: seq<Event>, id: int, user: Ref) {
    exists k | 0 <= k < |es| :: InsertedAt(max, threads, es, k, id, user) && NotEnded(max, threads, es, k, id, user)
  }

  /** Positions in a run do not depend on what comes after them. */
  lemma SamePositions(max: nat, threads: nat, es: seq<Event>, e: Event, k: nat, id: int, user: Ref)
    requires k < |es|
    ensures InsertedAt(max, threads, es + [e], k, id, user) <==> InsertedAt(max, threads, es, k, id, user)
    ensures EndedAt(max, threads, es + [e], k, id, user) <==> EndedAt(max, threads, es, k, id, user)
  {
    assert (es + [e])[..k] == es[..k];
  }

  lemma LastPosition(max: nat, threads: nat, es: seq<Event>, e: Event, id: int, user: Ref)
    ensures var st := Run(Initial(max, threads), es);
            && (InsertedAt(max, threads, es + [e], |es|, id, user) <==> Inserts(st, e, id, user))
            && (EndedAt(max, threads, es + [e], |es|, id, user) <==> Ends(st, e, id, user))
  {
    assert (es + [e])[..|es|] == es;
  }

  lemma InsertedLastAfter(max: nat, threads: nat, es: seq<Event>, e: Event, id: int, user: Ref)
    ensures var st := Run(Initial(max, threads), es);
            InsertedLast(max, threads, es + [e], id, user)
            <==> Inserts(st, e, id, user) || (InsertedLast(max, threads, es, id, user) && !Ends(st, e, id, user))
  {
    var st := Run(Initial(max, threads), es);
    LastPosition(max, threads, es, e, id, user);
    forall k: nat | k < |es|
      ensures InsertedAt(max, threads, es + [e], k, id, user) <==> InsertedAt(max, threads, es, k, id, user)
      ensures EndedAt(max, threads, es + [e], k, id, user) <==> EndedAt(max, threads, es, k, id, user)
    {
      SamePositions(max, threads, es, e, k, id, user);
    }
    if InsertedLast(max, threads, es + [e], id, user) && !Inserts(st, e, id, user) {
      var k :| 0 <= k < |es + [e]| && InsertedAt(max, threads, es + [e], k, id, user)
               && NotEnded(max, threads, es + [e], k, id, user);
      assert !EndedAt(max, threads, es + [e], |es|, id, user);
      assert InsertedAt(max, threads, es, k, id, user) && NotEnded(max, threads, es, k, id, user);
    }
    if Inserts(st, e, id, user) {
      assert NotEnded(max, threads, es + [e], |es|, id, user);
    } else if InsertedLast(max, threads, es, id, user) && !Ends(st, e, id, user) {
      var k :| 0 <= k < |es| && InsertedAt(max, threads, es, k, id, user) && NotEnded(max, threads, es, k, id, user);
      assert InsertedAt(max, threads, es + [e], k, id, user) && NotEnded(max, threads, es + [e], k, id, user);
    }
  }

  /** In every run a user is registered exactly if some insertion of it was followed by
      neither its removal nor the insertion of another under its id. */
  lemma {:induction false} RegisteredIff(max: nat, threads: nat, es: seq<Event>, id: int, user: Ref)
    ensures Registered(Run(Initial(max, threads), es), id, user) <==> InsertedLast(max, threads, es, id, user)
    decreases |es|
  {
    if es != [] {
      var before, e := es[..|es| - 1], es[|es| - 1];
      assert es == before + [e];
      RegisteredIff(max, threads, before, id, user);
      RunAppend(Initial(max, threads), before, [e]);
      RunOne(Run(Initial(max, threads), before), e);
      RegisteredAfter(Run(Initial(max, threads), before), e, id, user);
      InsertedLastAfter(max, threads, before, e, id, user);
    }
  }

  /** A full registry refuses; one removal, and the next caller is registered. */
  lemma RemovalMakesRoom(st: State, id: int, user: Ref, tid: Tid, newId: int, newUser: Ref)
    requires |st.users| == st.max && Registered(st, id, user)
    requires tid !in st.calls && |st.calls| < st.threads
    ensures Next(st, Create(tid, newId, newUser)) == st
    ensures var r := Run(st, [Remove(id, user), Create(tid, newId, newUser)] + [Step(tid), Step(tid)]);
            r.users == (st.users - {id})[newId := newUser]
  {
    MapRemoveSize(st.users, id);
    RunAppend(st, [Remove(id, user), Create(tid, newId, newUser)], [Step(tid), Step(tid)]);
    RunTwo(st, Remove(id, user), Create(tid, newId, newUser));
    RunTwo(Next(Next(st, Remove(id, user)), Create(tid, newId, newUser)), Step(tid), Step(tid));
  }

  /** Every pointer returned by a call belongs to a user that was registered. */
  ghost predicate NoOrphans(max: nat, threads: nat) {
    forall es :: Run(Initial(max, threads), es).returned <= Run(Initial(max, threads), es).added
  }

  /** One caller: between its two counts only removals can run. */
  predicate Alone(st: State) {
    && st.threads <= 1 && |st.calls| <= st.threads
    && st.returned <= st.added
    && (st.calls != map[] ==> |st.users| < st.max)
  }

  lemma AloneStep(st: State, e: Event)
    requires Alone(st)
    ensures Alone(Next(st, e))
  {
    match e
    case Create(tid, id, user) =>
      MapUpdateSize(st.calls, tid, Created(id, user));
    case Step(tid) =>
      if tid in st.calls {
        var r := Next(st, e);
        if st.calls[tid].Created? {
          MapUpdateSize(st.calls, tid, r.calls[tid]);
        } else {
          MapRemoveSize(st.calls, tid);
          assert |r.calls| == 0;
        }
      }
    case Remove(id, user) =>
      if id in st.users && st.users[id] == user {
        MapRemoveSize(st.users, id);
      }
  }

  lemma {:induction false} AloneRun(st: State, es: seq<Event>)
    requires Alone(st)
    ensures Run(st, es).returned <= Run(st, es).added
    decreases |es|
  {
    if es != [] {
      AloneStep(st, es[0]);
      AloneRun(Next(st, es[0]), es[1..]);
    }
  }

  /** Caller 1 has passed the first count and the registry is full: it returns a user that
      is not registered. */
  lemma ReturnsOrphan(st: State, v: Ref)
    requires 1 in st.calls && st.calls[1] == Created(v, v) && |st.users| == st.max && v !in st.added
    ensures var r := Next(st, Step(1)); v in r.returned && v !in r.added
  {
  }

  /** Caller 0 registers while caller 1 has passed the first count. */
  lemma Overtakes(st: State, u: Ref, v: Ref)
    requires st.calls == map[1 := Created(v, v)] && st.threads >= 2 && |st.users| == st.max - 1
    requires u !in st.users
    ensures var r := Next(Next(Next(st, Create(0, u, u)), Step(0)), Step(0));
            1 in r.calls && r.calls[1] == Created(v, v) && |r.users| == r.max && r.added == st.added + {u}
  {
    assert |st.calls| == 1;
    CreateOne(st, 0, u);
    MapUpdateSize(st.users, u, u);
  }

  /** Two callers and one free place: both pass the first count, one is registered, the
      other finds the registry full and returns a user that is not in it. */
  lemma Race(st: State, u: Ref, v: Ref)
    requires st.calls == map[] && st.threads >= 2 && |st.users| == st.max - 1
    requires u !in st.users && v !in st.added && u != v
    ensures var r := Run(st, [Create(1, v, v), Create(0, u, u)] + ([Step(0), Step(0)] + [Step(1)]));
            v in r.returned && v !in r.added
  {
    var s1 := Next(st, Create(1, v, v));
    assert s1.calls == map[1 := Created(v, v)];
    Overtakes(s1, u, v);
    var s2 := Next(s1, Create(0, u, u));
    var s4 := Next(Next(s2, Step(0)), Step(0));
    ReturnsOrphan(s4, v);
    RunTwo(st, Create(1, v, v), Create(0, u, u));
    RunTwo(s2, Step(0), Step(0));
    RunOne(s4, Step(1));
    RunAppend(st, [Create(1, v, v), Create(0, u, u)], [Step(0), Step(0)] + [Step(1)]);
    RunAppend(s2, [Step(0), Step(0)], [Step(1)]);
  }

  lemma Orphan(max: nat, threads: nat) returns (es: seq<Event>)
    requires max > 0 && threads >= 2
    ensures !(Run(Initial(max, threads), es).returned <= Run(Initial(max, threads), es).added)
  {
    var st := Initial(max, threads);
    var before := Fill(st, max - 1);
    var u, v := max - 1, max;
    var race := [Create(1, v, v), Create(0, u, u)] + ([Step(0), Step(0)] + [Step(1)]);
    Race(Run(st, before), u, v);
    RunAppend(st, before, race);
    es := before + race;
  }

  lemma {:induction false} FullStays(st: State, es: seq<Event>)
    requires st.max == 0 && st.calls == map[] && st.users == map[]
    ensures Run(st, es) == st
    decreases |es|
  {
    if es != [] {
      FullStays(Next(st, es[0]), es[1..]);
    }
  }

  /** CreateUser ignores whether AddUser added: its result can be trusted exactly when calls
      to it never overlap (or nobody can ever be registered). */
  lemma NoOrphansIff(max: nat, threads: nat)
    ensures NoOrphans(max, threads) <==> max == 0 || threads <= 1
  {
    if max == 0 {
      forall es ensures Run(Initial(max, threads), es).returned <= Run(Initial(max, threads), es).added {
        FullStays(Initial(max, threads), es);
      }
    } else if threads <= 1 {
      forall es ensures Run(Initial(max, threads), es).returned <= Run(Initial(max, threads), es).added {
        AloneRun(Initial(max, threads), es);
      }
    } else {
      var es := Orphan(max, threads);
    }
  }
}
