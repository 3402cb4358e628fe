/**
 The login limiter: a fixed window counter per address, swept on every call.

 The clock is read before the mutex is taken, so a run is an interleaving of
 clock reads and critical sections. The class is the critical section; `Sys` is
 the running process around it. Times are nanoseconds.
 */
module Limiter {
  import opened Wrappers

  type Key = string

  datatype Policy = Policy(limit: int, window: int)

  datatype Window = Window(count: nat, started: int)

  type Windows = map<Key, Window>

  predicate Expired(p: Policy, w: Window, now: int) {
    now - w.started >= p.window
  }

  function Swept(p: Policy, windows: Windows, now: int): Windows {
    map k | k in windows && !Expired(p, windows[k], now) :: windows[k]
  }

  // One attempt that carries the clock reading `now`: the windows afterwards,
  // and whether the attempt may proceed.
  function Admit(p: Policy, windows: Windows, key: Key, now: int): (Windows, bool) {
    var live := Swept(p, windows, now);
    if key !in live then
      (live[key := Window(1, now)], true)
    else
      var w := Window(live[key].count + 1, live[key].started);
      (live[key := w], w.count <= p.limit)
  }

  function Forget(windows: Windows, key: Key): Windows {
    windows - {key}
  }

  class Limiter {
    const policy: Policy
    var windows: Windows

    constructor (limit: int, per: int)
      ensures policy == Policy(limit, per) && windows == map[]
    {
      policy := Policy(limit, per);
      windows := map[];
    }

    // The critical section of an attempt whose clock reading was `now`.
    method Allow(key: Key, now: int) returns (ok: bool)
      modifies this
      ensures (windows, ok) == Admit(policy, old(windows), key, now)
    {
      var todo := windows.Keys;
      while todo != {}
        invariant todo <= old(windows).Keys
        invariant windows.Keys <= old(windows).Keys
        invariant forall k :: k in windows ==> windows[k] == old(windows)[k]
        invariant forall k :: k in old(windows) ==>
                                (k in windows <==> k in todo || !Expired(policy, old(windows)[k], now))
        decreases |todo|
      {
        var k :| k in todo;
        todo := todo - {k};
        if Expired(policy, windows[k], now) {
          windows := windows - {k};
        }
      }
      assert windows == Swept(policy, old(windows), now);

      if key !in windows {
        windows := windows[key := Window(1, now)];
        return true;
      }
      windows := windows[key := Window(windows[key].count + 1, windows[key].started)];
      return windows[key].count <= policy.limit;
    }

    method Reset(key: Key)
      modifies this
      ensures windows == Forget(old(windows), key)
    {
      windows := windows - {key};
    }
  }

  // ---------------------------------------------------------------------------
  // The running process: calls read the clock, then wait for the mutex.

  type Pid = nat

  datatype Call = Call(key: Key, read: int)

  datatype Sys = Sys(clock: int, waiting: map<Pid, Call>, windows: Windows)

  datatype Step =
    | Tick(elapsed: nat)
    | Read(pid: Pid, key: Key)
    | Enter(pid: Pid)
    | Reset(key: Key)

  // What a critical section did, stamped with the time the mutex was held.
  datatype Event =
    | Attempt(key: Key, read: int, at: int, admitted: bool, opening: bool)
    | Cleared(key: Key, at: int)

  // A step that is not enabled changes nothing.
  function Next(p: Policy, s: Sys, step: Step): Sys {
    match step
    case Tick(elapsed) => s.(clock := s.clock + elapsed)
    case Read(pid, key) =>
      if pid in s.waiting then s else s.(waiting := s.waiting[pid := Call(key, s.clock)])
    case Enter(pid) =>
      if pid !in s.waiting then s else
        var c := s.waiting[pid];
        s.(waiting := s.waiting - {pid}, windows := Admit(p, s.windows, c.key, c.read).0)
    case Reset(key) => s.(windows := Forget(s.windows, key))
  }

  function Emitted(p: Policy, s: Sys, step: Step): Option<Event> {
    match step
    case Enter(pid) =>
      if pid !in s.waiting then None else
        var c := s.waiting[pid];
        Some(Attempt(c.key, c.read, s.clock,
                     Admit(p, s.windows, c.key, c.read).1,
                     c.key !in Swept(p, s.windows, c.read)))
    case Reset(key) => Some(Cleared(key, s.clock))
    case _ => None
  }

  function Final(p: Policy, s: Sys, steps: seq<Step>): Sys
    decreases |steps|
  {
    if steps == [] then s else Final(p, Next(p, s, steps[0]), steps[1..])
  }

  function Events(p: Policy, s: Sys, steps: seq<Step>): seq<Event>
    decreases |steps|
  {
    if steps == [] then [] else
      var rest := Events(p, Next(p, s, steps[0]), steps[1..]);
      match Emitted(p, s, steps[0])
      case None => rest
      case Some(e) => [e] + rest
  }

  // Every call still waiting read the clock no later than now.
  predicate Coherent(s: Sys) {
    forall pid :: pid in s.waiting ==> s.waiting[pid].read <= s.clock
  }

  // No call waits longer than d between its clock reading and the mutex.
  predicate Prompt(p: Policy, d: int, s: Sys, steps: seq<Step>)
    decreases |steps|
  {
    steps == [] ||
    (&& (steps[0].Enter? && steps[0].pid in s.waiting ==> s.clock - s.waiting[steps[0].pid].read <= d)
     && Prompt(p, d, Next(p, s, steps[0]), steps[1..]))
  }

  // The mutex is entered in the order the clock was read, as when every call is atomic.
  predicate InReadOrder(p: Policy, last: int, s: Sys, steps: seq<Step>)
    decreases |steps|
  {
    steps == [] ||
    var entering := steps[0].Enter? && steps[0].pid in s.waiting;
    var last' := if entering then s.waiting[steps[0].pid].read else last;
    last <= last' && InReadOrder(p, last', Next(p, s, steps[0]), steps[1..])
  }

  // ---------------------------------------------------------------------------
  // The bound on admissions.

  predicate Within(at: int, lo: int, hi: int) {
    lo <= at < hi
  }

  predicate AdmittedIn(e: Event, key: Key, lo: int, hi: int) {
    e.Attempt? && e.key == key && e.admitted && Within(e.at, lo, hi)
  }

  predicate ClearedIn(e: Event, key: Key, lo: int, hi: int) {
    e.Cleared? && e.key == key && Within(e.at, lo, hi)
  }

  // Admissions of a key whose critical section fell in [lo, hi).
  function Admissions(events: seq<Event>, key: Key, lo: int, hi: int): nat {
    if events == [] then 0 else
      (if AdmittedIn(events[0], key, lo, hi) then 1 else 0) + Admissions(events[1..], key, lo, hi)
  }

  function Resets(events: seq<Event>, key: Key, lo: int, hi: int): nat {
    if events == [] then 0 else
      (if ClearedIn(events[0], key, lo, hi) then 1 else 0) + Resets(events[1..], key, lo, hi)
  }

  lemma CountsOfStep(p: Policy, s: Sys, steps: seq<Step>, key: Key, lo: int, hi: int)
    requires steps != []
    ensures var events := Events(p, s, steps);
            var rest := Events(p, Next(p, s, steps[0]), steps[1..]);
            var e := Emitted(p, s, steps[0]);
            && Admissions(events, key, lo, hi) ==
               (if e.Some? && AdmittedIn(e.value, key, lo, hi) then 1 else 0) + Admissions(rest, key, lo, hi)
            && Resets(events, key, lo, hi) ==
               (if e.Some? && ClearedIn(e.value, key, lo, hi) then 1 else 0) + Resets(rest, key, lo, hi)
  {
    var rest := Events(p, Next(p, s, steps[0]), steps[1..]);
    var e := Emitted(p, s, steps[0]);
    if e.Some? {
      assert ([e.value] + rest)[1..] == rest;
    }
  }

  // How many starting points spaced g apart fit in a half-open stretch of length x.
  function Slots(x: int, g: int): nat
    requires g > 0
    decreases if x > 0 then x else 0
  {
    if x <= 0 then 0 else 1 + Slots(x - g, g)
  }

  lemma {:induction false} SlotsIsCeiling(x: int, g: int)
    requires g > 0 && x >= 0
    ensures (Slots(x, g) - 1) * g < x <= Slots(x, g) * g || Slots(x, g) == x == 0
    decreases x
  {
    if x > g {
      SlotsIsCeiling(x - g, g);
      assert Slots(x, g) == 1 + Slots(x - g, g);
    } else if x > 0 {
      assert Slots(x, g) == 1 + Slots(x - g, g) == 1;
    }
  }

  lemma {:induction false} SlotsMonotone(x: int, y: int, g: int)
    requires g > 0 && x <= y
    ensures Slots(x, g) <= Slots(y, g)
    decreases if y > 0 then y else 0
  {
    if x > 0 {
      SlotsMonotone(x - g, y - g, g);
    }
  }

  // What the window held open for key can still admit.
  function Capacity(p: Policy, windows: Windows, key: Key): nat {
    if key in windows && windows[key].count < p.limit then p.limit - windows[key].count else 0
  }

  // No window for key opens before `next`, unless the key is reset.
  predicate NotBefore(p: Policy, s: Sys, key: Key, next: int) {
    next <= s.clock || (key in s.windows && s.windows[key].started + p.window >= next)
  }

  lemma {:induction false} NothingLate(p: Policy, s: Sys, steps: seq<Step>, key: Key, lo: int, hi: int)
    requires s.clock >= hi
    ensures Admissions(Events(p, s, steps), key, lo, hi) == 0
    decreases |steps|
  {
    if steps != [] {
      CountsOfStep(p, s, steps, key, lo, hi);
      NothingLate(p, Next(p, s, steps[0]), steps[1..], key, lo, hi);
    }
  }

  // limit * n as repeated addition, which keeps the accounting linear.
  function Times(limit: nat, n: nat): nat {
    if n == 0 then 0 else limit + Times(limit, n - 1)
  }

  lemma {:induction false} TimesIsProduct(limit: nat, n: nat)
    ensures Times(limit, n) == limit * n
  {
    if n > 0 {
      TimesIsProduct(limit, n - 1);
      assert limit * (n - 1) == limit * n - limit;
    }
  }

  lemma {:induction false} TimesMonotone(limit: nat, a: nat, b: nat)
    requires a <= b
    ensures Times(limit, a) <= Times(limit, b)
  {
    if a < b {
      TimesMonotone(limit, a, b - 1);
    }
  }

  // The step calls the key in and finds no window for it.
  predicate Opens(p: Policy, s: Sys, step: Step, key: Key) {
    step.Enter? && step.pid in s.waiting && s.waiting[step.pid].key == key
    && key !in Swept(p, s.windows, s.waiting[step.pid].read)
  }

  predicate Clears(step: Step, key: Key) {
    step.Reset? && step.key == key
  }

  // The earliest lock time of the next window for key, after one more step.
  function NextOpening(p: Policy, d: int, s: Sys, step: Step, key: Key, next: int): int {
    if Opens(p, s, step, key) then s.clock + (p.window - d)
    else if Clears(step, key) && s.clock < next then s.clock
    else next
  }

  lemma NotBeforeStep(p: Policy, d: int, s: Sys, step: Step, key: Key, next: int)
    requires 0 <= d < p.window
    requires Coherent(s) && Prompt(p, d, s, [step])
    requires NotBefore(p, s, key, next) && next <= s.clock + (p.window - d)
    ensures var s', next' := Next(p, s, step), NextOpening(p, d, s, step, key, next);
            && Coherent(s') && NotBefore(p, s', key, next') && next' <= s'.clock + (p.window - d)
            && (Opens(p, s, step, key) ==> next <= s.clock)
  {
  }

  // What one step can admit is paid for by the capacity it uses up.
  lemma CapacityOfStep(p: Policy, s: Sys, step: Step, key: Key, lo: int, hi: int)
    requires p.limit >= 1 && lo <= s.clock < hi
    ensures var e := Emitted(p, s, step);
            var admitted := if e.Some? && AdmittedIn(e.value, key, lo, hi) then 1 else 0;
            var granted := if Opens(p, s, step, key) then p.limit else 0;
            admitted + Capacity(p, Next(p, s, step).windows, key) <= Capacity(p, s.windows, key) + granted
  {
  }

  // An opening uses up one slot, and a reset gives one back.
  lemma SlotsOfStep(p: Policy, d: int, s: Sys, step: Step, key: Key, hi: int, next: int)
    requires 0 <= d < p.window && s.clock < hi
    requires Coherent(s) && Prompt(p, d, s, [step])
    requires NotBefore(p, s, key, next) && next <= s.clock + (p.window - d)
    ensures var g := p.window - d;
            Slots(hi - NextOpening(p, d, s, step, key, next), g) + (if Opens(p, s, step, key) then 1 else 0)
            <= Slots(hi - next, g) + (if Clears(step, key) then 1 else 0)
  {
    var g, next' := p.window - d, NextOpening(p, d, s, step, key, next);
    NotBeforeStep(p, d, s, step, key, next);
    if Opens(p, s, step, key) {
      SlotsMonotone(hi - s.clock, hi - next, g);
      assert Slots(hi - s.clock, g) == 1 + Slots(hi - s.clock - g, g);
    } else if Clears(step, key) && s.clock < next {
      SlotsMonotone(hi - s.clock - g, hi - next, g);
      assert Slots(hi - s.clock, g) == 1 + Slots(hi - s.clock - g, g);
    }
  }

  // What is admitted now and later is paid for by the capacity and the slots.
  lemma Accounting(limit: nat, admitted: nat, rest: nat, cap: nat, cap': nat, before: nat, after: nat, opens: bool)
    requires admitted + cap' <= cap + (if opens then limit else 0)
    requires after + (if opens then 1 else 0) <= before
    requires rest <= cap' + Times(limit, after)
    ensures admitted + rest <= cap + Times(limit, before)
  {
    if opens {
      TimesMonotone(limit, after + 1, before);
    } else {
      TimesMonotone(limit, after, before);
    }
  }

  // One step in front of a stretch whose admissions are already paid for.
  lemma StepPays(p: Policy, d: int, s: Sys, step: Step, key: Key, lo: int, hi: int, next: int, later: nat, resets: nat)
    requires p.limit >= 1 && 0 <= d < p.window && lo <= s.clock < hi
    requires Coherent(s) && Prompt(p, d, s, [step])
    requires NotBefore(p, s, key, next) && next <= s.clock + (p.window - d)
    requires later <= Capacity(p, Next(p, s, step).windows, key)
                      + Times(p.limit, Slots(hi - NextOpening(p, d, s, step, key, next), p.window - d) + resets)
    ensures var e := Emitted(p, s, step);
            var admitted := if e.Some? && AdmittedIn(e.value, key, lo, hi) then 1 else 0;
            var cleared := if e.Some? && ClearedIn(e.value, key, lo, hi) then 1 else 0;
            admitted + later <= Capacity(p, s.windows, key)
                                + Times(p.limit, Slots(hi - next, p.window - d) + (cleared + resets))
  {
    var g, next', e := p.window - d, NextOpening(p, d, s, step, key, next), Emitted(p, s, step);
    var admitted := if e.Some? && AdmittedIn(e.value, key, lo, hi) then 1 else 0;
    var cleared := if e.Some? && ClearedIn(e.value, key, lo, hi) then 1 else 0;
    CapacityOfStep(p, s, step, key, lo, hi);
    SlotsOfStep(p, d, s, step, key, hi, next);
    Accounting(p.limit, admitted, later, Capacity(p, s.windows, key), Capacity(p, Next(p, s, step).windows, key),
               Slots(hi - next, g) + (cleared + resets), Slots(hi - next', g) + resets, Opens(p, s, step, key));
  }

  lemma {:induction false} BoundFrom(p: Policy, d: int, s: Sys, steps: seq<Step>, key: Key,
                                     lo: int, hi: int, next: int)
    requires p.limit >= 1 && 0 <= d < p.window
    requires Coherent(s) && Prompt(p, d, s, steps)
    requires lo <= s.clock
    requires NotBefore(p, s, key, next) && next <= s.clock + (p.window - d)
    ensures var events := Events(p, s, steps);
            Admissions(events, key, lo, hi) <=
            Capacity(p, s.windows, key)
            + Times(p.limit, Slots(hi - next, p.window - d) + Resets(events, key, lo, hi))
    decreases |steps|
  {
    if s.clock >= hi {
      NothingLate(p, s, steps, key, lo, hi);
    } else if steps != [] {
      var step, s', tail := steps[0], Next(p, s, steps[0]), steps[1..];
      var next' := NextOpening(p, d, s, step, key, next);
      NotBeforeStep(p, d, s, step, key, next);
      BoundFrom(p, d, s', tail, key, lo, hi, next');
      CountsOfStep(p, s, steps, key, lo, hi);
      var rest := Events(p, s', tail);
      StepPays(p, d, s, step, key, lo, hi, next, Admissions(rest, key, lo, hi), Resets(rest, key, lo, hi));
    }
  }

  // limit * (1 + ceil(length / (window - d)) + resets)
  function Allowance(p: Policy, d: int, length: int, resets: nat): int
    requires d < p.window
  {
    p.limit * (1 + Slots(length, p.window - d) + resets)
  }

  // The bound itself: in any stretch [lo, hi) of lock time, from any state and
  // over any interleaving, a key is admitted at most that many times.
  lemma {:induction false} AdmissionBound(p: Policy, d: int, s: Sys, steps: seq<Step>, key: Key, lo: int, hi: int)
    requires p.limit >= 1 && 0 <= d < p.window
    requires Coherent(s) && Prompt(p, d, s, steps)
    requires lo < hi
    ensures var events := Events(p, s, steps);
            Admissions(events, key, lo, hi) <= Allowance(p, d, hi - lo, Resets(events, key, lo, hi))
    decreases |steps|
  {
    var events := Events(p, s, steps);
    if s.clock >= lo {
      BoundFrom(p, d, s, steps, key, lo, hi, lo);
      var n := Slots(hi - lo, p.window - d) + Resets(events, key, lo, hi);
      TimesIsProduct(p.limit, 1 + n);
    } else if steps != [] {
      CountsOfStep(p, s, steps, key, lo, hi);
      AdmissionBound(p, d, Next(p, s, steps[0]), steps[1..], key, lo, hi);
    }
  }

  // ---------------------------------------------------------------------------
  // The distance between two windows of one key.

  predicate OpensIn(e: Event, key: Key) {
    e.Attempt? && e.key == key && e.opening
  }

  predicate Unreset(events: seq<Event>, key: Key) {
    forall i :: 0 <= i < |events| ==> !(events[i].Cleared? && events[i].key == key)
  }

  lemma {:induction false} OpeningNotBefore(p: Policy, d: int, s: Sys, steps: seq<Step>, key: Key,
                                            next: int, j: nat)
    requires 0 <= d < p.window
    requires Coherent(s) && Prompt(p, d, s, steps) && NotBefore(p, s, key, next)
    requires j < |Events(p, s, steps)| && OpensIn(Events(p, s, steps)[j], key)
    requires Unreset(Events(p, s, steps)[..j], key)
    ensures Events(p, s, steps)[j].at >= next
    decreases |steps|
  {
    var events, step, s' := Events(p, s, steps), steps[0], Next(p, s, steps[0]);
    var rest := Events(p, s', steps[1..]);
    match Emitted(p, s, step)
    case None =>
      OpeningNotBefore(p, d, s', steps[1..], key, next, j);
    case Some(e) =>
      if j > 0 {
        assert events[0] == e && events[j] == rest[j - 1];
        assert rest[..j - 1] == events[..j][1..];
        assert !Clears(step, key) by { assert events[..j][0] == e; }
        var next' := if Opens(p, s, step, key) && s.clock < next then s.clock else next;
        if Opens(p, s, step, key) {
          OpeningNotBefore(p, d, s', steps[1..], key, s.clock, j - 1);
        } else {
          OpeningNotBefore(p, d, s', steps[1..], key, next, j - 1);
        }
      }
  }

  // Two windows of one key with no reset between them open at least window - d
  // apart in lock time.
  lemma {:induction false} OpeningsApart(p: Policy, d: int, s: Sys, steps: seq<Step>, key: Key, i: nat, j: nat)
    requires 0 <= d < p.window
    requires Coherent(s) && Prompt(p, d, s, steps)
    requires i < j < |Events(p, s, steps)|
    requires OpensIn(Events(p, s, steps)[i], key) && OpensIn(Events(p, s, steps)[j], key)
    requires Unreset(Events(p, s, steps)[i..j], key)
    ensures Events(p, s, steps)[j].at - Events(p, s, steps)[i].at >= p.window - d
    decreases |steps|
  {
    var events, step, s' := Events(p, s, steps), steps[0], Next(p, s, steps[0]);
    var rest := Events(p, s', steps[1..]);
    match Emitted(p, s, step)
    case None =>
      OpeningsApart(p, d, s', steps[1..], key, i, j);
    case Some(e) =>
      if i > 0 {
        assert events[i..j] == rest[i - 1..j - 1];
        OpeningsApart(p, d, s', steps[1..], key, i - 1, j - 1);
      } else {
        var between := rest[..j - 1];
        forall n | 0 <= n < |between| ensures !(between[n].Cleared? && between[n].key == key) {
          assert events[0..j][n + 1] == between[n];
        }
        OpeningNotBefore(p, d, s', steps[1..], key, s.clock + (p.window - d), j - 1);
      }
  }

  // ---------------------------------------------------------------------------
  // Refinement: one counter per key, which sees its own calls and nothing else.

  // The automaton's verdict on one attempt, and the window it then holds.
  function Alone(p: Policy, w: Option<Window>, now: int): (Option<Window>, bool) {
    if w.None? || Expired(p, w.value, now) then
      (Some(Window(1, now)), true)
    else
      (Some(Window(w.value.count + 1, w.value.started)), w.value.count + 1 <= p.limit)
  }

  function Own(events: seq<Event>, key: Key): seq<Event> {
    if events == [] then [] else
      (if events[0].key == key then [events[0]] else []) + Own(events[1..], key)
  }

  // The automaton, fed the key's own events, gives every recorded answer.
  predicate Answers(p: Policy, w: Option<Window>, own: seq<Event>)
    decreases |own|
  {
    own == [] ||
    match own[0]
    case Cleared(_, _) => Answers(p, None, own[1..])
    case Attempt(_, read, _, admitted, _) =>
      admitted == Alone(p, w, read).1 && Answers(p, Alone(p, w, read).0, own[1..])
  }

  predicate Over(p: Policy, w: Option<Window>, read: int) {
    w.None? || Expired(p, w.value, read)
  }

  // The automaton, fed the key's own events, opens a window exactly when the limiter did.
  predicate OpeningsAgree(p: Policy, w: Option<Window>, own: seq<Event>)
    decreases |own|
  {
    own == [] ||
    match own[0]
    case Cleared(_, _) => OpeningsAgree(p, None, own[1..])
    case Attempt(_, read, _, _, opening) =>
      opening == Over(p, w, read) && OpeningsAgree(p, Alone(p, w, read).0, own[1..])
  }

  // The first crossing of a log, read off its keys and clock readings alone: the
  // key enters with a reading inside its window after another key has entered with
  // one past the window's end. What the automaton then holds is the result.
  function FirstCrossing(p: Policy, w: Option<Window>, passed: bool, events: seq<Event>, key: Key): Option<Window>
    decreases |events|
  {
    if events == [] then None
    else
      match events[0]
      case Cleared(k, _) =>
        if k == key then FirstCrossing(p, None, false, events[1..], key)
        else FirstCrossing(p, w, passed, events[1..], key)
      case Attempt(k, read, _, _, _) =>
        if k != key then FirstCrossing(p, w, passed || (w.Some? && Expired(p, w.value, read)), events[1..], key)
        else if passed && !Over(p, w, read) then w
        else FirstCrossing(p, Alone(p, w, read).0, false, events[1..], key)
  }

  // The limiter's map against the automaton: the key's window is missing exactly
  // when there is none or another key's reading has passed its end.
  predicate Related(w: Option<Window>, passed: bool, windows: Windows, key: Key) {
    if key in windows then w == Some(windows[key]) && !passed else w.None? || passed
  }

  lemma RelatedStep(p: Policy, s: Sys, step: Step, key: Key, w: Option<Window>, passed: bool)
    requires Related(w, passed, s.windows, key)
    ensures var windows' := Next(p, s, step).windows;
            match Emitted(p, s, step)
            case None => windows' == s.windows
            case Some(Cleared(k, _)) =>
              Related(if k == key then None else w, k != key && passed, windows', key)
            case Some(Attempt(k, read, _, admitted, opening)) =>
              if k != key then Related(w, passed || (w.Some? && Expired(p, w.value, read)), windows', key)
              else if passed && !Over(p, w, read) then opening && admitted
              else
                && opening == Over(p, w, read) && admitted == Alone(p, w, read).1
                && Related(Alone(p, w, read).0, false, windows', key)
  {
  }

  // The log's openings are the automaton's exactly when it never crosses; then the
  // answers agree too, and at a first crossing of a used-up window they do not.
  lemma {:induction false} CrossingExact(p: Policy, s: Sys, steps: seq<Step>, key: Key, w: Option<Window>, passed: bool)
    requires Related(w, passed, s.windows, key)
    ensures var events := Events(p, s, steps);
            var crossing := FirstCrossing(p, w, passed, events, key);
            && (OpeningsAgree(p, w, Own(events, key)) <==> crossing == None)
            && (crossing == None ==> Answers(p, w, Own(events, key)))
            && (crossing.Some? && crossing.value.count >= p.limit ==> !Answers(p, w, Own(events, key)))
    decreases |steps|
  {
    if steps != [] {
      var step, s' := steps[0], Next(p, s, steps[0]);
      var rest := Events(p, s', steps[1..]);
      RelatedStep(p, s, step, key, w, passed);
      match Emitted(p, s, step)
      case None =>
        CrossingExact(p, s', steps[1..], key, w, passed);
      case Some(e) =>
        assert ([e] + rest)[1..] == rest;
        OwnOfCons(e, rest, key);
        if e.key != key {
          CrossingExact(p, s', steps[1..], key, w,
                        passed || (e.Attempt? && w.Some? && Expired(p, w.value, e.read)));
        } else if e.Cleared? {
          CrossingExact(p, s', steps[1..], key, None, false);
        } else if !passed || Over(p, w, e.read) {
          CrossingExact(p, s', steps[1..], key, Alone(p, w, e.read).0, false);
        }
    }
  }

  lemma OwnOfCons(e: Event, rest: seq<Event>, key: Key)
    ensures if e.key == key then Own([e] + rest, key) == [e] + Own(rest, key) && Own([e] + rest, key)[1..] == Own(rest, key)
            else Own([e] + rest, key) == Own(rest, key)
  {
    assert ([e] + rest)[1..] == rest;
  }

  lemma {:induction false} CrossingCounts(p: Policy, w: Option<Window>, passed: bool, events: seq<Event>, key: Key)
    requires w.Some? ==> w.value.count >= 1
    ensures var crossing := FirstCrossing(p, w, passed, events, key);
            crossing.Some? ==> crossing.value.count >= 1
    decreases |events|
  {
    if events != [] {
      match events[0]
      case Cleared(k, _) =>
        CrossingCounts(p, if k == key then None else w, k != key && passed, events[1..], key);
      case Attempt(k, read, _, _, _) =>
        if k != key {
          CrossingCounts(p, w, passed || (w.Some? && Expired(p, w.value, read)), events[1..], key);
        } else if !passed || Over(p, w, read) {
          CrossingCounts(p, Alone(p, w, read).0, false, events[1..], key);
        }
    }
  }

  // From an empty limiter and over every interleaving, the sweep and the other keys
  // go unnoticed exactly when the log never crosses. Windows then open as on the
  // key's own counter and every answer is that counter's; when the first crossing
  // finds the window used up an answer differs, so with a limit of one always.
  lemma SweepUnobservableIff(p: Policy, clock: int, steps: seq<Step>, key: Key)
    ensures var events := Events(p, Sys(clock, map[], map[]), steps);
            var own, crossing := Own(events, key), FirstCrossing(p, None, false, events, key);
            && (OpeningsAgree(p, None, own) <==> crossing == None)
            && (crossing == None ==> Answers(p, None, own))
            && (crossing.Some? && crossing.value.count >= p.limit ==> !Answers(p, None, own))
            && (p.limit == 1 ==> (Answers(p, None, own) <==> crossing == None))
  {
    var s := Sys(clock, map[], map[]);
    CrossingExact(p, s, steps, key, None, false);
    CrossingCounts(p, None, false, Events(p, s, steps), key);
  }

  // A run that enters the mutex in the order the clock was read never crosses.
  lemma {:induction false} OrderNeverCrosses(p: Policy, s: Sys, steps: seq<Step>, key: Key,
                                             w: Option<Window>, passed: bool, last: int)
    requires InReadOrder(p, last, s, steps)
    requires passed ==> Over(p, w, last)
    ensures FirstCrossing(p, w, passed, Events(p, s, steps), key) == None
    decreases |steps|
  {
    if steps != [] {
      var s', tail := Next(p, s, steps[0]), steps[1..];
      var rest := Events(p, s', tail);
      match Emitted(p, s, steps[0])
      case None =>
        OrderNeverCrosses(p, s', tail, key, w, passed, last);
      case Some(e) =>
        assert ([e] + rest)[1..] == rest;
        if e.Cleared? {
          OrderNeverCrosses(p, s', tail, key, if e.key == key then None else w, e.key != key && passed, last);
        } else if e.key == key {
          OrderNeverCrosses(p, s', tail, key, Alone(p, w, e.read).0, false, e.read);
        } else {
          OrderNeverCrosses(p, s', tail, key, w, passed || (w.Some? && Expired(p, w.value, e.read)), e.read);
        }
    }
  }

  // So whenever the mutex is entered in the order the clock was read, the answers
  // for a key are those of its own counter: neither the sweep nor any other key can
  // be observed.
  lemma PerKeyRefinement(p: Policy, clock: int, steps: seq<Step>, key: Key)
    requires InReadOrder(p, clock, Sys(clock, map[], map[]), steps)
    ensures Answers(p, None, Own(Events(p, Sys(clock, map[], map[]), steps), key))
  {
    OrderNeverCrosses(p, Sys(clock, map[], map[]), steps, key, None, false, clock);
    SweepUnobservableIff(p, clock, steps, key);
  }

  lemma Unfold(p: Policy, d: int, s: Sys, step: Step, rest: seq<Step>)
    ensures var s', e := Next(p, s, step), Emitted(p, s, step);
            && Final(p, s, [step] + rest) == Final(p, s', rest)
            && Events(p, s, [step] + rest) == (if e.Some? then [e.value] else []) + Events(p, s', rest)
            && (Prompt(p, d, s, [step] + rest) <==> Prompt(p, d, s, [step]) && Prompt(p, d, s', rest))
  {
    assert ([step] + rest)[1..] == rest;
  }

  lemma ReachDelay(p: Policy)
    requires p == Policy(1, 10)
    ensures Final(p, Sys(0, map[], map[]), [Read(0, "a"), Enter(0), Tick(5), Read(1, "a")])
         == Sys(5, map[1 := Call("a", 5)], map["a" := Window(1, 0)])
  {
    var s0 := Sys(0, map[], map[]);
    var s1 := Sys(0, map[0 := Call("a", 0)], map[]);
    var s2 := Sys(0, map[], map["a" := Window(1, 0)]);
    var s3 := Sys(5, map[], map["a" := Window(1, 0)]);
    assert Next(p, s1, Enter(0)) == s2;
    Unfold(p, 0, s3, Read(1, "a"), []);
    Unfold(p, 0, s2, Tick(5), [Read(1, "a")]);
    Unfold(p, 0, s1, Enter(0), [Tick(5), Read(1, "a")]);
    Unfold(p, 0, s0, Read(0, "a"), [Enter(0), Tick(5), Read(1, "a")]);
    assert [Read(1, "a")] == [Read(1, "a")] + [] && [Tick(5), Read(1, "a")] == [Tick(5)] + [Read(1, "a")];
    assert [Enter(0), Tick(5), Read(1, "a")] == [Enter(0)] + [Tick(5), Read(1, "a")];
    assert [Read(0, "a"), Enter(0), Tick(5), Read(1, "a")] == [Read(0, "a")] + [Enter(0), Tick(5), Read(1, "a")];
  }

  lemma ReachCrossing(p: Policy)
    ensures Final(p, Sys(5, map[1 := Call("a", 5)], map["a" := Window(1, 0)]), [Tick(6), Read(2, "b")])
         == Sys(11, map[1 := Call("a", 5), 2 := Call("b", 11)], map["a" := Window(1, 0)])
  {
    var s4 := Sys(5, map[1 := Call("a", 5)], map["a" := Window(1, 0)]);
    var s5 := Sys(11, map[1 := Call("a", 5)], map["a" := Window(1, 0)]);
    Unfold(p, 0, s5, Read(2, "b"), []);
    Unfold(p, 0, s4, Tick(6), [Read(2, "b")]);
    assert [Read(2, "b")] == [Read(2, "b")] + [] && [Tick(6), Read(2, "b")] == [Tick(6)] + [Read(2, "b")];
  }

  lemma CrossedAnswers()
    ensures var p, s := Policy(1, 10), Sys(11, map[1 := Call("a", 5), 2 := Call("b", 11)], map["a" := Window(1, 0)]);
            var steps := [Enter(2), Enter(1)];
            && Prompt(p, 6, s, steps)
            && !InReadOrder(p, 0, s, steps)
            && !Answers(p, Some(Window(1, 0)), Own(Events(p, s, steps), "a"))
  {
    var p, s := Policy(1, 10), Sys(11, map[1 := Call("a", 5), 2 := Call("b", 11)], map["a" := Window(1, 0)]);
    var t := [Enter(1)];
    var s' := Next(p, s, Enter(2));
    assert [Enter(2), Enter(1)] == [Enter(2)] + t && t == [Enter(1)] + [] && t[1..] == [];
    assert s' == Sys(11, map[1 := Call("a", 5)], map["b" := Window(1, 11)]);
    Unfold(p, 6, s, Enter(2), t);
    Unfold(p, 6, s', Enter(1), []);
    var b, a := Attempt("b", 11, 11, true, true), Attempt("a", 5, 11, true, true);
    assert Events(p, s, [Enter(2)] + t) == [b] + [a];
    assert [b, a][1..] == [a] && Own([a], "a") == [a];
    assert [Enter(2), Enter(1)][1..] == t;
    assert !InReadOrder(p, 11, s', t);
  }

  // Without that order the sweep shows: b's later reading drops a's window, and
  // a's own delayed call then opens a second one instead of being refused.
  lemma CrossedReadsExposeTheSweep()
    ensures var p := Policy(1, 10);
            var delayed := Final(p, Sys(0, map[], map[]), [Read(0, "a"), Enter(0), Tick(5), Read(1, "a")]);
            var s := Final(p, delayed, [Tick(6), Read(2, "b")]);
            var steps := [Enter(2), Enter(1)];
            && s.windows == map["a" := Window(1, 0)]
            && Prompt(p, 6, s, steps)
            && !InReadOrder(p, 0, s, steps)
            && !Answers(p, Some(s.windows["a"]), Own(Events(p, s, steps), "a"))
  {
    ReachDelay(Policy(1, 10));
    ReachCrossing(Policy(1, 10));
    CrossedAnswers();
  }

  // ---------------------------------------------------------------------------
  // The map stays small, and refusal does not last.

  // Every window was opened by an attempt of its key at its start.
  predicate Recorded(windows: Windows, events: seq<Event>) {
    forall k :: k in windows ==>
      exists i :: 0 <= i < |events| && events[i].Attempt? && events[i].key == k
                  && events[i].read == windows[k].started
  }

  lemma {:induction false} WindowsRecorded(p: Policy, s: Sys, steps: seq<Step>, past: seq<Event>)
    requires Recorded(s.windows, past)
    ensures Recorded(Final(p, s, steps).windows, past + Events(p, s, steps))
    decreases |steps|
  {
    if steps == [] {
      assert past + [] == past;
    } else {
      var s' := Next(p, s, steps[0]);
      match Emitted(p, s, steps[0])
      case None =>
        WindowsRecorded(p, s', steps[1..], past);
      case Some(e) =>
        var past' := past + [e];
        assert past'[|past|] == e;
        assert forall i :: 0 <= i < |past| ==> past'[i] == past[i];
        assert Recorded(s'.windows, past');
        WindowsRecorded(p, s', steps[1..], past');
        assert past + ([e] + Events(p, s', steps[1..])) == past' + Events(p, s', steps[1..]);
    }
  }

  // The keys that attempted within the last window before `now`.
  function Recent(p: Policy, events: seq<Event>, now: int): set<Key> {
    set i | 0 <= i < |events| && events[i].Attempt? && now - events[i].read < p.window :: events[i].key
  }

  lemma EnterLeavesLive(p: Policy, s: Sys, pid: Pid)
    requires p.window > 0 && pid in s.waiting
    ensures var windows := Next(p, s, Enter(pid)).windows;
            forall k :: k in windows ==> s.waiting[pid].read - windows[k].started < p.window
  {
  }

  // Just after an attempt whose clock reading was `now`, the map holds only keys
  // that attempted within the last window, so no more entries than such keys.
  lemma MapHoldsOnlyRecentKeys(p: Policy, clock: int, steps: seq<Step>, pid: Pid)
    requires p.window > 0
    requires pid in Final(p, Sys(clock, map[], map[]), steps).waiting
    ensures var s := Sys(clock, map[], map[]);
            var now := Final(p, s, steps).waiting[pid].read;
            var windows := Final(p, s, steps + [Enter(pid)]).windows;
            var recent := Recent(p, Events(p, s, steps + [Enter(pid)]), now);
            windows.Keys <= recent && |windows| <= |recent|
  {
    var s := Sys(clock, map[], map[]);
    var steps' := steps + [Enter(pid)];
    var now := Final(p, s, steps).waiting[pid].read;
    FinalOfSnoc(p, s, steps, Enter(pid));
    EnterLeavesLive(p, Final(p, s, steps), pid);
    var windows, events := Final(p, s, steps').windows, Events(p, s, steps');
    WindowsRecorded(p, s, steps', []);
    assert [] + events == events;
    RecordedAreRecent(p, windows, events, now);
  }

  lemma RecordedAreRecent(p: Policy, windows: Windows, events: seq<Event>, now: int)
    requires Recorded(windows, events) && forall k :: k in windows ==> now - windows[k].started < p.window
    ensures windows.Keys <= Recent(p, events, now) && |windows| <= |Recent(p, events, now)|
  {
    forall k | k in windows ensures k in Recent(p, events, now) {
      var i :| 0 <= i < |events| && events[i].Attempt? && events[i].key == k
               && events[i].read == windows[k].started;
    }
    SubsetSize(windows.Keys, Recent(p, events, now));
    assert |windows| == |windows.Keys|;
  }

  lemma {:induction false} FinalOfSnoc(p: Policy, s: Sys, steps: seq<Step>, last: Step)
    ensures Final(p, s, steps + [last]) == Next(p, Final(p, s, steps), last)
    decreases |steps|
  {
    if steps == [] {
      assert [last][1..] == [];
      assert Final(p, Next(p, s, last), [last][1..]) == Next(p, s, last);
    } else {
      assert (steps + [last])[1..] == steps[1..] + [last];
      FinalOfSnoc(p, Next(p, s, steps[0]), steps[1..], last);
    }
  }

  lemma {:induction false} SubsetSize<T>(a: set<T>, b: set<T>)
    requires a <= b
    ensures |a| <= |b|
  {
    if a != {} {
      var x :| x in a;
      SubsetSize(a - {x}, b - {x});
    }
  }

  // An attempt late enough for the window open at s, with nothing in between
  // that is late enough.
  predicate FirstLate(p: Policy, events: seq<Event>, key: Key, due: int, i: nat) {
    && i < |events| && events[i].Attempt? && events[i].key == key && events[i].read >= due
    && forall j :: 0 <= j < i && events[j].key == key ==> events[j].Attempt? && events[j].read < due
  }

  // A refused attempt leaves the window's start alone, so a key that keeps trying
  // is let in at its first attempt at or after start + window.
  lemma {:induction false} RefusalEnds(p: Policy, s: Sys, steps: seq<Step>, key: Key, due: int, last: int, i: nat)
    requires p.limit >= 1 && p.window > 0
    requires InReadOrder(p, last, s, steps)
    requires if key in s.windows then due == s.windows[key].started + p.window else due <= last
    requires FirstLate(p, Events(p, s, steps), key, due, i)
    ensures Events(p, s, steps)[i].admitted
    decreases |steps|
  {
    var events, step, s' := Events(p, s, steps), steps[0], Next(p, s, steps[0]);
    var rest := Events(p, s', steps[1..]);
    match Emitted(p, s, step)
    case None =>
      RefusalEnds(p, s', steps[1..], key, due, last, i);
    case Some(e) =>
      assert events[0] == e;
      if i > 0 {
        assert forall j :: 0 <= j < i - 1 ==> rest[j] == events[j + 1];
        RefusalEnds(p, s', steps[1..], key, due, if e.Attempt? then e.read else last, i - 1);
      }
  }
}
