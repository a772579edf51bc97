/**
 `Oper`, the demo's tracker of outstanding operations. Each operation gets
 an id from a cyclic cursor over `[0, max)`, is kept in `ops` under that id
 until it is finished or its deadline passes, and a single timer is kept
 armed for the earliest deadline of all live operations.

 Time is passed in: every call that reads the clock takes the current time
 `now` as a parameter. Setting a timer is recorded as the `Timer` it arms,
 and every callback the tracker invokes is appended to `log` as an `Event`.
 */
module Operations {

  datatype Option<T> = None | Some(value: T)

  /** A time in milliseconds, or `Infinity` for no time at all. */
  datatype Time = At(ms: int) | Infinity

  /** `a < b` on times, `Infinity` being later than every time. */
  predicate Before(a: Time, b: Time) {
    a.At? && (b.Infinity? || a.ms < b.ms)
  }

  /** `Math.min` on times. */
  function Earlier(a: Time, b: Time): (r: Time)
    ensures r == a || r == b
    ensures !Before(a, r) && !Before(b, r)
  {
    if Before(b, a) then b else a
  }

  /** A live operation: its id, when it was added, when it finished (0 while
      it is live), its deadline, and the callback to report its end to. */
  datatype Op<C> = Op(id: int, start: int, finish: int, deadline: int, callback: C)

  /** What a callback is told: the operation was finished with an error and
      a result, it timed out, or it was refused because its id was taken. */
  datatype Outcome<E, R> = Finished(err: E, result: R) | TimedOut | Duplicate

  /** One invocation of a callback, with the operation it was passed. */
  datatype Event<C, E, R> = Call(callback: C, outcome: Outcome<E, R>, op: Option<Op<C>>)

  /** A timer set at `armedAt` that fires at `fireAt`. */
  datatype Timer = Timer(armedAt: int, fireAt: int)

  /** When a timer set at `now` for `ms` fires: `setTimeout` is given
      `Math.max(0, ms - now)`. */
  function FireTime(now: int, ms: int): int {
    now + (if ms - now > 0 then ms - now else 0)
  }

  // ---------------------------------------------------------------------
  // The sweep, as functions of the operations it starts from.

  /** An operation has timed out once its deadline is strictly before now. */
  predicate Expired<C>(op: Op<C>, now: int) {
    op.deadline < now
  }

  /** The operations a sweep at `now` keeps. */
  function Survivors<C>(ops: map<int, Op<C>>, now: int): map<int, Op<C>> {
    map k | k in ops && !Expired(ops[k], now) :: ops[k]
  }

  /** The ids of the operations a sweep at `now` removes. */
  function ExpiredKeys<C>(ops: map<int, Op<C>>, now: int): set<int> {
    set k | k in ops && Expired(ops[k], now)
  }

  /** `t` is the earliest deadline in `ops`, or `Infinity` when there is
      none. */
  predicate IsMinDeadline<C>(ops: map<int, Op<C>>, t: Time) {
    (t.Infinity? <==> ops.Keys == {})
    && (t.At? ==> exists k :: k in ops && ops[k].deadline == t.ms)
    && (forall k :: k in ops ==> !Before(At(ops[k].deadline), t))
  }

  /** `Object.keys` of a map with keys in `[0, n)`: the keys in ascending
      order (`KeysBelowMembers`, `KeysBelowAscending`). */
  function KeysBelow(keys: set<int>, n: int): seq<int>
    decreases n
  {
    if n <= 0 then [] else KeysBelow(keys, n - 1) + (if n - 1 in keys then [n - 1] else [])
  }

  /** The keys listed are the keys in `[0, n)`. */
  lemma {:induction false} KeysBelowMembers(keys: set<int>, n: int)
    ensures forall x :: x in KeysBelow(keys, n) <==> x in keys && 0 <= x < n
    decreases n
  {
    if n > 0 {
      KeysBelowMembers(keys, n - 1);
    }
  }

  /** The keys are listed in strictly ascending order. */
  lemma {:induction false} KeysBelowAscending(keys: set<int>, n: int, i: int, j: int)
    requires 0 <= i < j < |KeysBelow(keys, n)|
    ensures KeysBelow(keys, n)[i] < KeysBelow(keys, n)[j]
    decreases n
  {
    var p := KeysBelow(keys, n - 1);
    var r := KeysBelow(keys, n);
    assert r == p + (if n - 1 in keys then [n - 1] else []);
    if j < |p| {
      KeysBelowAscending(keys, n - 1, i, j);
    } else {
      KeysBelowMembers(keys, n - 1);
      assert p[i] in p;
    }
  }

  /** Every key listed is one of `keys`. */
  lemma KeysBelowAt(keys: set<int>, n: int, i: int)
    requires 0 <= i < |KeysBelow(keys, n)|
    ensures KeysBelow(keys, n)[i] in keys
  {
    KeysBelowMembers(keys, n);
    assert KeysBelow(keys, n)[i] in KeysBelow(keys, n);
  }

  /** A map whose keys lie in `[0, n)` has all of them listed. */
  lemma KeysBelowCovers<C>(m: map<int, Op<C>>, n: int)
    requires forall k :: k in m ==> 0 <= k < n
    ensures forall k :: k in m ==> k in KeysBelow(m.Keys, n)
  {
    KeysBelowMembers(m.Keys, n);
  }

  lemma TakeOneMore<T>(s: seq<T>, i: int)
    requires 0 <= i < |s|
    ensures s[..i + 1] == s[..i] + [s[i]]
  {
  }

  lemma AppendAssoc<T>(a: seq<T>, b: seq<T>, c: seq<T>)
    ensures (a + b) + c == a + (b + c)
  {
  }

  /** So each key is listed once: none before position `i` equals the one
      at `i`. */
  lemma KeysBelowOnce(keys: set<int>, n: int, i: int)
    requires 0 <= i < |KeysBelow(keys, n)|
    ensures KeysBelow(keys, n)[i] !in KeysBelow(keys, n)[..i]
  {
    var r := KeysBelow(keys, n);
    forall j | 0 <= j < i
      ensures r[j] != r[i]
    {
      KeysBelowAscending(keys, n, j, i);
    }
  }

  /** The callbacks a sweep at `now` over the ids `ids` invokes, in order. */
  function Sweep<C, E, R>(ops: map<int, Op<C>>, now: int, ids: seq<int>): seq<Event<C, E, R>>
    decreases |ids|
  {
    if ids == [] then [] else Sweep(ops, now, ids[..|ids| - 1]) + Visit(ops, now, ids[|ids| - 1])
  }

  /** The callback the sweep invokes at id `k`: none unless it has timed out. */
  function Visit<C, E, R>(ops: map<int, Op<C>>, now: int, k: int): seq<Event<C, E, R>> {
    if k in ops && Expired(ops[k], now) then [Call(ops[k].callback, TimedOut, Some(ops[k]))] else []
  }

  /** The ids of the operations handed to the callbacks of `events`, in
      order. */
  function Completed<C, E, R>(events: seq<Event<C, E, R>>): seq<int>
    decreases |events|
  {
    if events == [] then []
    else
      var e := events[|events| - 1];
      Completed(events[..|events| - 1]) + (if e.op.Some? then [e.op.value.id] else [])
  }

  // ---------------------------------------------------------------------
  // What the sweep does.

  /** A sweep over `Object.keys(ops)` reports exactly the expired operations,
      each once, in ascending order of id. */
  lemma {:induction false} SweepCompletesExpired<C, E, R>(ops: map<int, Op<C>>, now: int, n: int)
    requires forall k :: k in ops ==> ops[k].id == k
    ensures Completed(Sweep<C, E, R>(ops, now, KeysBelow(ops.Keys, n))) == KeysBelow(ExpiredKeys(ops, now), n)
    decreases n
  {
    if n > 0 {
      SweepCompletesExpired<C, E, R>(ops, now, n - 1);
      if n - 1 in ops {
        SweepVisitsPresent<C, E, R>(ops, now, n);
      } else {
        SweepSkipsAbsent<C, E, R>(ops, now, n);
      }
    }
  }

  lemma SweepVisitsPresent<C, E, R>(ops: map<int, Op<C>>, now: int, n: int)
    requires n > 0 && n - 1 in ops && ops[n - 1].id == n - 1
    requires Completed(Sweep<C, E, R>(ops, now, KeysBelow(ops.Keys, n - 1))) == KeysBelow(ExpiredKeys(ops, now), n - 1)
    ensures Completed(Sweep<C, E, R>(ops, now, KeysBelow(ops.Keys, n))) == KeysBelow(ExpiredKeys(ops, now), n)
  {
    var prev := KeysBelow(ops.Keys, n - 1);
    var before := Sweep<C, E, R>(ops, now, prev);
    var visit := Visit<C, E, R>(ops, now, n - 1);
    assert KeysBelow(ops.Keys, n) == prev + [n - 1];
    SweepSnoc<C, E, R>(ops, now, prev, n - 1);
    CompletedAppend(before, visit);
    CompletedVisit<C, E, R>(ops, now, n - 1);
  }

  lemma SweepSkipsAbsent<C, E, R>(ops: map<int, Op<C>>, now: int, n: int)
    requires n > 0 && n - 1 !in ops
    requires Completed(Sweep<C, E, R>(ops, now, KeysBelow(ops.Keys, n - 1))) == KeysBelow(ExpiredKeys(ops, now), n - 1)
    ensures Completed(Sweep<C, E, R>(ops, now, KeysBelow(ops.Keys, n))) == KeysBelow(ExpiredKeys(ops, now), n)
  {
    assert KeysBelow(ops.Keys, n) == KeysBelow(ops.Keys, n - 1);
    assert n - 1 !in ExpiredKeys(ops, now);
    assert KeysBelow(ExpiredKeys(ops, now), n) == KeysBelow(ExpiredKeys(ops, now), n - 1);
  }

  lemma SweepSnoc<C, E, R>(ops: map<int, Op<C>>, now: int, ids: seq<int>, k: int)
    ensures Sweep<C, E, R>(ops, now, ids + [k]) == Sweep<C, E, R>(ops, now, ids) + Visit(ops, now, k)
  {
    assert (ids + [k])[..|ids|] == ids;
  }

  lemma CompletedVisit<C, E, R>(ops: map<int, Op<C>>, now: int, k: int)
    requires k in ops && ops[k].id == k
    ensures Completed(Visit<C, E, R>(ops, now, k)) == if k in ExpiredKeys(ops, now) then [k] else []
  {
    var v := Visit<C, E, R>(ops, now, k);
    if v != [] {
      assert v[..0] == [];
    }
  }

  lemma CompletedAppend<C, E, R>(a: seq<Event<C, E, R>>, b: seq<Event<C, E, R>>)
    requires |b| <= 1
    ensures Completed(a + b) == Completed(a) + Completed(b)
  {
    if b != [] {
      assert (a + b)[..|a + b| - 1] == a;
      assert b[..0] == [];
    } else {
      assert a + b == a;
    }
  }

  /** The earliest deadline is unique. */
  lemma MinDeadlineUnique<C>(ops: map<int, Op<C>>, t1: Time, t2: Time)
    requires IsMinDeadline(ops, t1) && IsMinDeadline(ops, t2)
    ensures t1 == t2
  {
    if t1.At? {
      var k1 :| k1 in ops && ops[k1].deadline == t1.ms;
      var k2 :| k2 in ops && ops[k2].deadline == t2.ms;
      assert !Before(At(ops[k1].deadline), t2);
      assert !Before(At(ops[k2].deadline), t1);
    }
  }

  /** Adding an operation makes the earliest deadline the earlier of the old
      one and the new operation's. */
  lemma MinDeadlineInsert<C>(ops: map<int, Op<C>>, t: Time, k: int, op: Op<C>)
    requires IsMinDeadline(ops, t) && k !in ops
    ensures IsMinDeadline(ops[k := op], Earlier(t, At(op.deadline)))
  {
    var m := ops[k := op];
    var r := Earlier(t, At(op.deadline));
    if r == t && t.At? {
      var w :| w in ops && ops[w].deadline == t.ms;
      assert w in m && m[w].deadline == r.ms;
    } else {
      assert k in m && m[k].deadline == op.deadline;
    }
    forall j | j in m
      ensures !Before(At(m[j].deadline), r)
    {
      if j != k {
        assert j in ops;
      }
    }
  }

  /** What is left of `start` once the ids in `done` have been visited. */
  ghost function Remaining<C>(start: map<int, Op<C>>, now: int, done: seq<int>): map<int, Op<C>> {
    map k | k in start && (k !in done || !Expired(start[k], now)) :: start[k]
  }

  /** The operations among the ids in `done` that the visits kept. */
  ghost function Kept<C>(start: map<int, Op<C>>, now: int, done: seq<int>): map<int, Op<C>> {
    map k | k in start && k in done && !Expired(start[k], now) :: start[k]
  }

  lemma RemainingStep<C>(start: map<int, Op<C>>, now: int, done: seq<int>, k: int)
    requires k in start && k !in done
    ensures k in Remaining(start, now, done) && Remaining(start, now, done)[k] == start[k]
    ensures Remaining(start, now, done + [k]) ==
              if Expired(start[k], now) then Remaining(start, now, done) - {k}
              else Remaining(start, now, done)
  {
    var a, b := Remaining(start, now, done), Remaining(start, now, done + [k]);
    if Expired(start[k], now) {
      assert b.Keys == a.Keys - {k};
    } else {
      assert b.Keys == a.Keys;
    }
  }

  lemma KeptStep<C>(start: map<int, Op<C>>, now: int, done: seq<int>, k: int)
    requires k in start && k !in done
    ensures k !in Kept(start, now, done)
    ensures Kept(start, now, done + [k]) ==
              if Expired(start[k], now) then Kept(start, now, done)
              else Kept(start, now, done)[k := start[k]]
  {
    var a, b := Kept(start, now, done), Kept(start, now, done + [k]);
    if Expired(start[k], now) {
      assert b.Keys == a.Keys;
    } else {
      assert b.Keys == a.Keys + {k};
    }
  }

  lemma RemainingAll<C>(start: map<int, Op<C>>, now: int, ids: seq<int>)
    requires forall k :: k in start ==> k in ids
    ensures Remaining(start, now, ids) == Survivors(start, now)
  {
    var a, b := Remaining(start, now, ids), Survivors(start, now);
    forall k | k in start
      ensures k in a <==> k in b
    {
      assert k in ids;
    }
    assert a.Keys == b.Keys;
  }

  lemma KeptAll<C>(start: map<int, Op<C>>, now: int, ids: seq<int>)
    requires forall k :: k in start ==> k in ids
    ensures Kept(start, now, ids) == Survivors(start, now)
  {
    var a, b := Kept(start, now, ids), Survivors(start, now);
    forall k | k in start
      ensures k in a <==> k in b
    {
      assert k in ids;
    }
    assert a.Keys == b.Keys;
  }

  // ---------------------------------------------------------------------
  // The tracker.

  class Oper<C, E, R> {
    /** The size of the id space. */
    const max: int
    /** How long an operation may stay live, in milliseconds. */
    const timeout: int
    /** The id issued last. */
    var id: int
    /** The live operations, by id. */
    var ops: map<int, Op<C>>
    /** The time the timer is armed for. */
    var nextTime: Time
    /** The timer set last, if any. */
    var timer: Option<Timer>
    /** Every callback invoked so far. */
    var log: seq<Event<C, E, R>>

    /** The id space is not empty, the cursor and every live id lie in it,
        every operation is stored under its own id, and a live operation
        has not finished and has the deadline it was given. */
    ghost predicate Shape()
      reads this
    {
      0 < max && 0 <= id < max
      && forall k :: k in ops ==>
           0 <= k < max && ops[k].id == k && ops[k].finish == 0
           && ops[k].deadline == ops[k].start + timeout
    }

    /** Besides the shape: the timer is armed for the earliest live deadline,
        and when there is one, the last timer set was set for it. */
    ghost predicate Valid()
      reads this
    {
      Shape()
      && IsMinDeadline(ops, nextTime)
      && (nextTime.At? ==> timer.Some? && timer.value.fireAt == FireTime(timer.value.armedAt, nextTime.ms))
    }

    constructor (max: int, timeout: int)
      requires 0 < max
      ensures Valid()
      ensures this.max == max && this.timeout == timeout
      ensures id == 0 && ops == map[] && nextTime == Infinity && timer == None && log == []
    {
      this.max := max;
      this.timeout := timeout;
      id := 0;
      ops := map[];
      nextTime := Infinity;
      timer := None;
      log := [];
    }

    /** `nextId`: advance the cursor cyclically and return it. */
    method NextId() returns (r: int)
      requires Valid()
      modifies this
      ensures Valid()
      ensures r == id == (old(id) + 1) % max && 0 <= r < max
      ensures ops == old(ops) && nextTime == old(nextTime) && timer == old(timer) && log == old(log)
    {
      id := (id + 1) % max;
      r := id;
    }

    /** `updateTimer`: only a strictly earlier time re-arms the timer. */
    method UpdateTimer(t: Time, now: int)
      modifies this
      ensures Before(t, old(nextTime)) ==>
                nextTime == t && timer == Some(Timer(now, FireTime(now, t.ms)))
      ensures !Before(t, old(nextTime)) ==> nextTime == old(nextTime) && timer == old(timer)
      ensures !Before(old(nextTime), nextTime)
      ensures id == old(id) && ops == old(ops) && log == old(log)
    {
      if Before(t, nextTime) {
        nextTime := t;
        timer := Some(Timer(now, FireTime(now, t.ms)));
      }
    }

    /** `add`: take the next id. If an operation still holds it, the callback
        is told so and nothing is stored, though the cursor has moved on;
        otherwise the new operation is stored under it and the timer is
        lowered to its deadline if that is earlier. */
    method Add(callback: C, now: int) returns (r: Option<Op<C>>)
      requires Valid()
      modifies this
      ensures Valid()
      ensures id == (old(id) + 1) % max
      ensures id in old(ops) ==>
                r == None && ops == old(ops) && nextTime == old(nextTime) && timer == old(timer)
                && log == old(log) + [Call(callback, Duplicate, None)]
      ensures id !in old(ops) ==>
                r == Some(Op(id, now, 0, now + timeout, callback))
                && ops == old(ops)[id := r.value] && log == old(log)
                && nextTime == Earlier(old(nextTime), At(now + timeout))
      ensures id !in old(ops) && Before(At(now + timeout), old(nextTime)) ==>
                timer == Some(Timer(now, FireTime(now, now + timeout)))
      ensures !Before(At(now + timeout), old(nextTime)) ==> timer == old(timer)
    {
      var k := NextId();
      if k in ops {
        log := log + [Call(callback, Duplicate, None)];
        return None;
      }
      var op := Op(k, now, 0, now + timeout, callback);
      MinDeadlineInsert(ops, nextTime, k, op);
      ops := ops[k := op];
      UpdateTimer(At(op.deadline), now);
      return Some(op);
    }

    /** `finish`: an id that is not live is ignored. A live operation is
        removed, stamped with its finish time and reported to its callback,
        and then the sweep runs. */
    method Finish(k: int, err: E, result: R, now: int)
      requires Valid()
      modifies this
      ensures Valid()
      ensures id == old(id)
      ensures k !in old(ops) ==>
                ops == old(ops) && nextTime == old(nextTime) && timer == old(timer) && log == old(log)
      ensures k in old(ops) ==>
                var rest := old(ops) - {k};
                ops == Survivors(rest, now)
                && log == old(log) + [Call(old(ops)[k].callback, Finished(err, result), Some(old(ops)[k].(finish := now)))]
                          + Sweep(rest, now, KeysBelow(rest.Keys, max))
      ensures k in old(ops) && nextTime.At? ==> timer == Some(Timer(now, nextTime.ms))
      ensures k in old(ops) && nextTime.Infinity? ==> timer == old(timer)
    {
      if k in ops {
        var op := ops[k].(finish := now);
        ops := ops - {k};
        log := log + [Call(op.callback, Finished(err, result), Some(op))];
        OnTimeout(now);
      }
    }

    /** `onTimeout`: visit the live ids in ascending order, drop and report
        each operation whose deadline has passed, and arm the timer for the
        earliest deadline left. With none left the old timer stays set. */
    method OnTimeout(now: int)
      requires Shape()
      modifies this
      ensures Valid()
      ensures id == old(id)
      ensures ops == Survivors(old(ops), now)
      ensures log == old(log) + Sweep(old(ops), now, KeysBelow(old(ops).Keys, max))
      ensures nextTime.At? ==> timer == Some(Timer(now, nextTime.ms))
      ensures nextTime.Infinity? ==> timer == old(timer)
    {
      nextTime := Infinity;
      var next := SweepExpired(now);
      UpdateTimer(next, now);
    }

    /** The loop of `onTimeout`: every live id is visited once, in ascending
        order; the expired operations are dropped and reported, and the
        earliest deadline among the others is returned. */
    method SweepExpired(now: int) returns (next: Time)
      requires Shape()
      modifies this
      ensures Shape()
      ensures ops == Survivors(old(ops), now)
      ensures log == old(log) + Sweep(old(ops), now, KeysBelow(old(ops).Keys, max))
      ensures IsMinDeadline(ops, next)
      ensures id == old(id) && timer == old(timer) && nextTime == old(nextTime)
    {
      ghost var start := ops;
      var ids := KeysBelow(ops.Keys, max);
      next := Infinity;
      var i := 0;
      assert ids[..0] == [];
      while i < |ids|
        invariant 0 <= i <= |ids|
        invariant ops == Remaining(start, now, ids[..i])
        invariant log == old(log) + Sweep(start, now, ids[..i])
        invariant IsMinDeadline(Kept(start, now, ids[..i]), next)
        invariant id == old(id) && timer == old(timer) && nextTime == old(nextTime)
      {
        KeysBelowOnce(start.Keys, max, i);
        KeysBelowAt(start.Keys, max, i);
        TakeOneMore(ids, i);
        SweepSnoc<C, E, R>(start, now, ids[..i], ids[i]);
        AppendAssoc(old(log), Sweep<C, E, R>(start, now, ids[..i]), Visit<C, E, R>(start, now, ids[i]));
        next := SweepStep(ids[i], now, start, ids[..i], next);
        i := i + 1;
      }
      assert ids[..i] == ids;
      KeysBelowCovers(start, max);
      RemainingAll(start, now, ids);
      KeptAll(start, now, ids);
    }

    /** One turn of the sweep loop: the operation at `k` is dropped and
        reported if it has expired, and otherwise its deadline is folded into
        the running minimum `next`. */
    method SweepStep(k: int, now: int, ghost start: map<int, Op<C>>, ghost done: seq<int>, next: Time)
      returns (next': Time)
      requires k in start && k !in done
      requires ops == Remaining(start, now, done)
      requires IsMinDeadline(Kept(start, now, done), next)
      modifies this
      ensures ops == Remaining(start, now, done + [k])
      ensures log == old(log) + Visit(start, now, k)
      ensures IsMinDeadline(Kept(start, now, done + [k]), next')
      ensures id == old(id) && timer == old(timer) && nextTime == old(nextTime)
    {
      RemainingStep(start, now, done, k);
      KeptStep(start, now, done, k);
      var op := ops[k];
      if op.deadline < now {
        ops := ops - {k};
        log := log + [Call(op.callback, TimedOut, Some(op))];
        next' := next;
      } else {
        MinDeadlineInsert(Kept(start, now, done), next, k, op);
        next' := Earlier(next, At(op.deadline));
      }
    }
  }
}
