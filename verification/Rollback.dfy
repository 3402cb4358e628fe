/**
 Rolling back by position. Down looks for pending migrations before it takes the
 lock and counts rows after; in between, other processes run. `all` is the sorted
 list of embedded versions, `applied` the versions recorded in the database.
 */
module Rollback {
  import opened Wrappers
  import opened Migrations
  import opened Text

  predicate Distinct<V(==)>(all: seq<V>) {
    forall i, j :: 0 <= i < j < |all| ==> all[i] != all[j]
  }

  lemma SortedIsDistinct(all: seq<Version>)
    requires forall i, j :: 0 <= i < j < |all| ==> Before(all[i], all[j])
    ensures Distinct(all)
  {
    forall i, j | 0 <= i < j < |all| ensures all[i] != all[j] {
      AtMostTotal(all[i], all[j]);
    }
  }

  function Reverse<V(==)>(s: seq<V>): (r: seq<V>)
    ensures |r| == |s|
  {
    seq(|s|, i requires 0 <= i < |s| => s[|s| - 1 - i])
  }

  function Newest<V(==)>(s: seq<V>, k: nat): seq<V> {
    Reverse(if k < |s| then s[|s| - k..] else s)
  }

  // What the library reverses: the newest k of the oldest `count` of the list.
  function Positional<V(==)>(all: seq<V>, count: nat, k: nat): seq<V>
    requires count <= |all|
  {
    Newest(all[..count], k)
  }

  function Applied<V(==)>(all: seq<V>, applied: set<V>): seq<V> {
    if all == [] then []
    else (if all[0] in applied then [all[0]] else []) + Applied(all[1..], applied)
  }

  // Exactly the oldest n versions of the list are applied.
  predicate PrefixOf<V(==)>(all: seq<V>, applied: set<V>, n: nat) {
    n <= |all| && applied <= SetOf(all) && forall i :: 0 <= i < |all| ==> (all[i] in applied <==> i < n)
  }

  // The applied versions are the oldest ones of the list, with no gap.
  ghost predicate IsPrefix<V>(all: seq<V>, applied: set<V>) {
    exists n: nat :: PrefixOf(all, applied, n)
  }

  lemma {:induction false} SizeOfPrefix<V>(all: seq<V>, n: nat)
    requires Distinct(all) && n <= |all|
    ensures |SetOf(all[..n])| == n
  {
    if n > 0 {
      SizeOfPrefix(all, n - 1);
      SetOfNext(all, n - 1);
      assert all[n - 1] !in all[..n - 1];
    }
  }

  lemma PrefixSize<V>(all: seq<V>, applied: set<V>, n: nat)
    requires Distinct(all) && PrefixOf(all, applied, n)
    ensures |applied| == n
  {
    forall v ensures v in applied <==> v in SetOf(all[..n]) {
      if v in applied {
        var i :| 0 <= i < |all| && all[i] == v;
        assert all[..n][i] == v;
      }
    }
    assert applied == SetOf(all[..n]);
    SizeOfPrefix(all, n);
  }

  lemma {:induction false} SizeOfSubset<V>(all: seq<V>, applied: set<V>)
    requires applied <= SetOf(all)
    ensures |applied| <= |all|
  {
    if all == [] {
      assert applied == {};
    } else {
      assert all == [all[0]] + all[1..];
      SizeOfSubset(all[1..], applied - {all[0]});
      assert applied <= (applied - {all[0]}) + {all[0]};
    }
  }

  lemma {:induction false} AppliedMembers<V>(all: seq<V>, applied: set<V>)
    ensures forall v :: v in Applied(all, applied) <==> v in all && v in applied
  {
    if all != [] {
      AppliedMembers(all[1..], applied);
      assert all == [all[0]] + all[1..];
    }
  }

  lemma {:induction false} AppliedOfPrefix<V>(all: seq<V>, applied: set<V>, n: nat)
    requires Distinct(all) && n <= |all|
    requires forall i :: 0 <= i < |all| ==> (all[i] in applied <==> i < n)
    ensures Applied(all, applied) == all[..n]
  {
    if all != [] {
      AppliedOfPrefix(all[1..], applied, if n == 0 then 0 else n - 1);
      if n > 0 { assert all[..n] == [all[0]] + all[1..][..n - 1]; }
    }
  }

  lemma ReverseInjective<V>(a: seq<V>, b: seq<V>)
    requires Reverse(a) == Reverse(b)
    ensures a == b
  {
    assert |a| == |b|;
    forall i | 0 <= i < |a| ensures a[i] == b[i] {
      assert a[i] == Reverse(a)[|a| - 1 - i] == Reverse(b)[|b| - 1 - i] == b[i];
    }
  }

  // Picking by position picks the newest applied versions, for every number of
  // them, exactly when the applied versions are a prefix of the list.
  lemma PositionalIffPrefix<V>(all: seq<V>, applied: set<V>)
    requires Distinct(all) && applied <= SetOf(all)
    ensures |applied| <= |all|
    ensures (forall k: nat :: 1 <= k <= |applied| ==>
               Positional(all, |applied|, k) == Newest(Applied(all, applied), k))
            <==> IsPrefix(all, applied)
  {
    SizeOfSubset(all, applied);
    var n := |applied|;
    AppliedMembers(all, applied);
    if m: nat :| PrefixOf(all, applied, m) {
      PrefixSize(all, applied, m);
      AppliedOfPrefix(all, applied, m);
    }
    if n == 0 {
      assert PrefixOf(all, applied, 0);
    } else if Positional(all, n, n) == Newest(Applied(all, applied), n) {
      var picked := Applied(all, applied);
      AppliedLength(all, applied);
      ReverseInjective(all[..n], picked);
      forall i | 0 <= i < |all| ensures all[i] in applied <==> i < n {
        if i < n { assert all[..n][i] == all[i]; }
      }
      assert PrefixOf(all, applied, n);
    }
  }

  lemma RestOfSubset<V>(all: seq<V>, applied: set<V>)
    requires Distinct(all) && applied <= SetOf(all) && all != []
    ensures applied - {all[0]} <= SetOf(all[1..]) && all[0] !in all[1..]
    ensures |applied| == |applied - {all[0]}| + if all[0] in applied then 1 else 0
  {
    assert all == [all[0]] + all[1..];
    if all[0] in applied {
      assert applied == (applied - {all[0]}) + {all[0]};
    } else {
      assert applied == applied - {all[0]};
    }
  }

  lemma {:induction false} AppliedLength<V>(all: seq<V>, applied: set<V>)
    requires Distinct(all) && applied <= SetOf(all)
    ensures |Applied(all, applied)| == |applied|
  {
    if all == [] {
      assert applied == {};
    } else {
      var rest := applied - {all[0]};
      RestOfSubset(all, applied);
      AppliedLength(all[1..], rest);
      AppliedIgnores(all[1..], applied, all[0]);
    }
  }

  lemma {:induction false} AppliedIgnores<V>(all: seq<V>, applied: set<V>, v: V)
    requires v !in all
    ensures Applied(all, applied) == Applied(all, applied - {v})
  {
    if all != [] {
      AppliedIgnores(all[1..], applied, v);
    }
  }

  // ---------------------------------------------------------------------------
  // One process alone.

  class Database<V(==)> {
    const all: seq<V>
    var applied: set<V>

    constructor (all: seq<V>, applied: set<V>)
      ensures this.all == all && this.applied == applied
    {
      this.all := all;
      this.applied := applied;
    }

    // Applies every missing version, oldest first, up to the first that is broken.
    method Up(broken: set<V>) returns (ok: bool)
      modifies this
      ensures ok <==> forall v :: v in all ==> v in old(applied) || v !in broken
      ensures ok ==> applied == old(applied) + SetOf(all)
      ensures !ok ==> exists n: nat ::
                && n < |all| && all[n] in broken && all[n] !in old(applied)
                && (forall i :: 0 <= i < n ==> all[i] in old(applied) || all[i] !in broken)
                && applied == old(applied) + SetOf(all[..n])
    {
      for i := 0 to |all|
        invariant applied == old(applied) + SetOf(all[..i])
        invariant forall j :: 0 <= j < i ==> all[j] in old(applied) || all[j] !in broken
      {
        assert all[..i + 1] == all[..i] + [all[i]];
        if all[i] !in applied {
          if all[i] in broken {
            return false;
          }
          applied := applied + {all[i]};
        }
      }
      assert all[..|all|] == all;
      return true;
    }

    // Reverses the newest `steps` of a full table, by position.
    method ReverseNewest(steps: nat)
      requires Distinct(all) && applied == SetOf(all)
      modifies this
      ensures applied == SetOf(all[..if steps < |all| then |all| - steps else 0])
    {
      assert all[..|all|] == all;
      PrefixSize(all, applied, |all|);
      var plan := Positional(all, |applied|, steps);
      for i := 0 to |plan|
        invariant applied == SetOf(all[..|all| - i])
      {
        var m := |all| - i;
        assert plan[i] == all[m - 1];
        assert all[..m] == all[..m - 1] + [all[m - 1]];
        assert all[m - 1] !in all[..m - 1];
        applied := applied - {plan[i]};
      }
    }
  }

  // Refuses while anything is pending; otherwise reverses the newest `steps`.
  // `rows` is the version column of the table.
  method Down(db: Database<Version>, migrations: seq<Migration>, rows: seq<Version>, steps: nat) returns (ok: bool)
    requires db.all == Versions(migrations) && Distinct(db.all)
    requires SetOf(rows) == db.applied && db.applied <= SetOf(db.all)
    modifies db
    ensures ok <==> old(db.applied) == SetOf(db.all)
    ensures db.applied == if ok then SetOf(db.all[..if steps < |db.all| then |db.all| - steps else 0])
                          else old(db.applied)
  {
    var pending := Pending(migrations, true, rows);
    SortStringsSorts(Unapplied(migrations, SetOf(rows)));
    assert |pending| == |multiset(pending)|;
    NonePendingIffApplied(migrations, db.applied);
    if pending != [] {
      return false;
    }
    db.ReverseNewest(steps);
    return true;
  }

  // Pending is empty exactly when the whole list is applied.
  lemma NonePendingIffApplied(migrations: seq<Migration>, applied: set<Version>)
    ensures Unapplied(migrations, applied) == [] <==> SetOf(Versions(migrations)) <= applied
  {
    var all := Versions(migrations);
    NonePendingIff(migrations, applied);
    forall m | m in migrations ensures m.version in all {
      var i :| 0 <= i < |migrations| && migrations[i] == m;
      assert all[i] == m.version;
    }
    forall v | v in all ensures exists m :: m in migrations && m.version == v {
      var i :| 0 <= i < |all| && all[i] == v;
      assert migrations[i] in migrations;
    }
  }

  // ---------------------------------------------------------------------------
  // Many processes, one lock.

  type Pid = nat

  // A Down that waits has already found nothing pending; once it runs, its plan is
  // the versions it still has to reverse.
  datatype Phase<V> = UpWaiting | UpRunning | DownWaiting(steps: nat) | DownRunning(plan: seq<V>)

  datatype Sys<V> = Sys(applied: set<V>, holder: Option<Pid>, procs: map<Pid, Phase<V>>)

  datatype Step =
    | StartUp(pid: Pid)
    | StartDown(pid: Pid, steps: nat)
    | Acquire(pid: Pid)
    | Work(pid: Pid)
    | Fail(pid: Pid)

  predicate Running<V(==)>(ph: Phase<V>) {
    ph.UpRunning? || ph.DownRunning?
  }

  predicate PastCheck<V(==)>(ph: Phase<V>) {
    ph.DownWaiting? || ph.DownRunning?
  }

  function Oldest<V(==)>(all: seq<V>, applied: set<V>): Option<V> {
    if all == [] then None
    else if all[0] !in applied then Some(all[0])
    else Oldest(all[1..], applied)
  }

  function Ended<V(==)>(s: Sys<V>, pid: Pid): Sys<V> {
    s.(holder := if s.holder == Some(pid) then None else s.holder, procs := s.procs - {pid})
  }

  // Every row recorded counts, whatever it is; a list shorter than that is whole.
  function Plan<V(==)>(all: seq<V>, applied: set<V>, k: nat): seq<V> {
    Positional(all, if |applied| <= |all| then |applied| else |all|, k)
  }

  // A step that is not enabled changes nothing.
  function Next<V(==)>(all: seq<V>, s: Sys<V>, step: Step): Sys<V> {
    match step
    case StartUp(pid) =>
      if pid in s.procs then s else s.(procs := s.procs[pid := UpWaiting])
    case StartDown(pid, steps) =>
      if pid in s.procs || !(SetOf(all) <= s.applied) then s else s.(procs := s.procs[pid := DownWaiting(steps)])
    case Acquire(pid) =>
      if pid !in s.procs || s.holder.Some? then s
      else
        (match s.procs[pid]
         case UpWaiting => s.(holder := Some(pid), procs := s.procs[pid := UpRunning])
         case DownWaiting(steps) =>
           s.(holder := Some(pid), procs := s.procs[pid := DownRunning(Plan(all, s.applied, steps))])
         case _ => s)
    case Work(pid) =>
      if pid !in s.procs then s
      else
        (match s.procs[pid]
         case UpRunning =>
           (match Oldest(all, s.applied)
            case None => Ended(s, pid)
            case Some(v) => s.(applied := s.applied + {v}))
         case DownRunning(plan) =>
           if plan == [] then Ended(s, pid)
           else s.(applied := s.applied - {plan[0]}, procs := s.procs[pid := DownRunning(plan[1..])])
         case _ => s)
    case Fail(pid) => if pid in s.procs then Ended(s, pid) else s
  }

  function Run<V(==)>(all: seq<V>, s: Sys<V>, steps: seq<Step>): Sys<V>
    decreases |steps|
  {
    if steps == [] then s else Run(all, Next(all, s, steps[0]), steps[1..])
  }

  // The plan is the newest of the first m versions, newest first.
  predicate PlanFits<V(==)>(all: seq<V>, m: nat, plan: seq<V>) {
    |plan| <= m <= |all| && plan == Reverse(all[m - |plan|..m])
  }

  // What a running Down still has to do is the newest of what is applied.
  ghost predicate Poised<V>(all: seq<V>, applied: set<V>, plan: seq<V>) {
    exists n: nat :: PrefixOf(all, applied, n) && PlanFits(all, n, plan)
  }

  ghost predicate Invariant<V>(all: seq<V>, s: Sys<V>) {
    && s.applied <= SetOf(all)
    && (forall pid :: pid in s.procs && Running(s.procs[pid]) ==> s.holder == Some(pid))
    && (s.holder.Some? ==> s.holder.value in s.procs && Running(s.procs[s.holder.value]))
    && (forall pid :: pid in s.procs && PastCheck(s.procs[pid]) ==> IsPrefix(all, s.applied))
    && (forall pid :: pid in s.procs && s.procs[pid].DownRunning? ==> Poised(all, s.applied, s.procs[pid].plan))
  }

  // The version is applied and no later one is.
  predicate IsNewestApplied<V(==)>(all: seq<V>, applied: set<V>, v: V) {
    exists i :: 0 <= i < |all| && all[i] == v && v in applied && forall j :: i < j < |all| ==> all[j] !in applied
  }

  lemma {:induction false} OldestFound<V>(all: seq<V>, applied: set<V>)
    ensures match Oldest(all, applied)
            case None => SetOf(all) <= applied
            case Some(v) => exists n :: 0 <= n < |all| && all[n] == v && v !in applied
                                        && forall i :: 0 <= i < n ==> all[i] in applied
  {
    if all != [] {
      OldestFound(all[1..], applied);
      assert all == [all[0]] + all[1..];
      if all[0] in applied && Oldest(all[1..], applied).Some? {
        var rest := all[1..];
        var n :| 0 <= n < |rest| && rest[n] == Oldest(all, applied).value
                 && forall i :: 0 <= i < n ==> rest[i] in applied;
        assert all[n + 1] == rest[n];
        forall i | 0 <= i < n + 1 ensures all[i] in applied {
          if i > 0 { assert all[i] == rest[i - 1] && rest[i - 1] in applied; }
        }
      }
    }
  }

  lemma ApplyKeepsPrefix<V>(all: seq<V>, applied: set<V>)
    requires Distinct(all) && Oldest(all, applied).Some?
    ensures Oldest(all, applied).value in all
    ensures IsPrefix(all, applied) ==> IsPrefix(all, applied + {Oldest(all, applied).value})
  {
    OldestFound(all, applied);
    var v := Oldest(all, applied).value;
    var i :| 0 <= i < |all| && all[i] == v && v !in applied && forall j :: 0 <= j < i ==> all[j] in applied;
    if n: nat :| PrefixOf(all, applied, n) {
      if i > 0 { assert all[i - 1] in applied; }
      assert n == i;
      assert PrefixOf(all, applied + {v}, n + 1);
    }
  }

  lemma ReverseKeepsPrefix<V>(all: seq<V>, applied: set<V>, plan: seq<V>)
    requires Distinct(all) && Poised(all, applied, plan) && plan != []
    ensures IsNewestApplied(all, applied, plan[0])
    ensures Poised(all, applied - {plan[0]}, plan[1..]) && IsPrefix(all, applied - {plan[0]})
  {
    var n: nat :| PrefixOf(all, applied, n) && PlanFits(all, n, plan);
    assert plan[0] == all[n - 1];
    assert PrefixOf(all, applied - {plan[0]}, n - 1);
    PlanShrinks(all, n, plan);
  }

  lemma PlanShrinks<V>(all: seq<V>, n: nat, plan: seq<V>)
    requires plan != [] && PlanFits(all, n, plan)
    ensures PlanFits(all, n - 1, plan[1..])
  {
    var rest, older := plan[1..], all[n - |plan|..n - 1];
    forall i | 0 <= i < |rest| ensures rest[i] == Reverse(older)[i] {
      assert rest[i] == plan[i + 1];
    }
    assert rest == Reverse(older);
  }

  lemma FullIsPrefix<V>(all: seq<V>, applied: set<V>)
    requires applied == SetOf(all)
    ensures IsPrefix(all, applied)
  {
    assert PrefixOf(all, applied, |all|);
  }

  lemma UpWorkKeepsInvariant<V>(all: seq<V>, s: Sys<V>, pid: Pid)
    requires Distinct(all) && Invariant(all, s)
    requires pid in s.procs && s.procs[pid].UpRunning?
    ensures var s' := Next(all, s, Work(pid));
            Invariant(all, s') && (IsPrefix(all, s.applied) ==> IsPrefix(all, s'.applied))
  {
    if Oldest(all, s.applied).Some? {
      ApplyKeepsPrefix(all, s.applied);
      assert forall other :: other in s.procs ==> !s.procs[other].DownRunning?;
    }
  }

  lemma DownWorkKeepsInvariant<V>(all: seq<V>, s: Sys<V>, pid: Pid)
    requires Distinct(all) && Invariant(all, s)
    requires pid in s.procs && s.procs[pid].DownRunning?
    ensures var s' := Next(all, s, Work(pid));
            Invariant(all, s') && (IsPrefix(all, s.applied) ==> IsPrefix(all, s'.applied))
  {
    var plan := s.procs[pid].plan;
    if plan != [] {
      ReverseKeepsPrefix(all, s.applied, plan);
      assert forall other :: other in s.procs && other != pid ==> !s.procs[other].DownRunning?;
    }
  }

  lemma StepKeepsInvariant<V>(all: seq<V>, s: Sys<V>, step: Step)
    requires Distinct(all) && Invariant(all, s)
    ensures Invariant(all, Next(all, s, step))
    ensures IsPrefix(all, s.applied) ==> IsPrefix(all, Next(all, s, step).applied)
  {
    match step
    case StartUp(_) =>
    case StartDown(_, _) =>
      if SetOf(all) <= s.applied { FullIsPrefix(all, s.applied); }
    case Acquire(pid) =>
      AcquireKeepsInvariant(all, s, pid);
    case Work(pid) =>
      if pid in s.procs && s.procs[pid].UpRunning? {
        UpWorkKeepsInvariant(all, s, pid);
      } else if pid in s.procs && s.procs[pid].DownRunning? {
        DownWorkKeepsInvariant(all, s, pid);
      }
    case Fail(_) =>
  }

  lemma AcquireKeepsInvariant<V>(all: seq<V>, s: Sys<V>, pid: Pid)
    requires Distinct(all) && Invariant(all, s)
    ensures Invariant(all, Next(all, s, Acquire(pid)))
  {
    if pid in s.procs && s.holder.None? && s.procs[pid].DownWaiting? {
      PlanIsPoised(all, s.applied, s.procs[pid].steps);
    }
  }

  lemma PlanIsPoised<V>(all: seq<V>, applied: set<V>, k: nat)
    requires Distinct(all) && IsPrefix(all, applied)
    ensures Poised(all, applied, Plan(all, applied, k))
  {
    var n: nat :| PrefixOf(all, applied, n);
    PrefixSize(all, applied, n);
    assert PlanFits(all, n, Plan(all, applied, k));
  }

  lemma {:induction false} RunKeepsInvariant<V>(all: seq<V>, s: Sys<V>, steps: seq<Step>)
    requires Distinct(all) && Invariant(all, s)
    ensures Invariant(all, Run(all, s, steps))
    ensures IsPrefix(all, s.applied) ==> IsPrefix(all, Run(all, s, steps).applied)
    decreases |steps|
  {
    if steps != [] {
      StepKeepsInvariant(all, s, steps[0]);
      RunKeepsInvariant(all, Next(all, s, steps[0]), steps[1..]);
    }
  }

  // From any subset of the embedded versions and over any interleaving of Ups and
  // Downs, failures included, what a Down is about to reverse is the newest applied
  // version; and once every version has been applied, the applied ones stay a
  // prefix of the list.
  lemma RollbackIsSafe<V>(all: seq<V>, start: set<V>, steps: seq<Step>, pid: Pid, later: seq<Step>)
    requires Distinct(all) && start <= SetOf(all)
    ensures var s := Run(all, Sys(start, None, map[]), steps);
            && (pid in s.procs && s.procs[pid].DownRunning? && s.procs[pid].plan != [] ==>
                  IsNewestApplied(all, s.applied, s.procs[pid].plan[0]))
            && (s.applied == SetOf(all) ==> IsPrefix(all, Run(all, s, later).applied))
  {
    var s := Run(all, Sys(start, None, map[]), steps);
    RunKeepsInvariant(all, Sys(start, None, map[]), steps);
    if pid in s.procs && s.procs[pid].DownRunning? && s.procs[pid].plan != [] {
      ReverseKeepsPrefix(all, s.applied, s.procs[pid].plan);
    }
    if s.applied == SetOf(all) {
      FullIsPrefix(all, s.applied);
      RunKeepsInvariant(all, s, later);
    }
  }

  // In every reachable state the lock is held by a running process, and one that
  // fails is gone, gives the lock up and leaves what was applied.
  lemma FailureFreesTheLock<V>(all: seq<V>, start: set<V>, steps: seq<Step>, pid: Pid)
    requires Distinct(all) && start <= SetOf(all)
    ensures var s := Run(all, Sys(start, None, map[]), steps);
            var s' := Next(all, s, Fail(pid));
            && (s.holder.Some? ==> s.holder.value in s.procs && Running(s.procs[s.holder.value]))
            && pid !in s'.procs && s'.applied == s.applied
            && s'.holder == if s.holder == Some(pid) then None else s.holder
  {
    RunKeepsInvariant(all, Sys(start, None, map[]), steps);
  }

  // When the list is in version order, newest means newest by version: every other
  // applied version comes before the one about to be reversed.
  lemma RollbackIsSafeByVersion(all: seq<Version>, start: set<Version>, steps: seq<Step>, pid: Pid, v: Version)
    requires forall i, j :: 0 <= i < j < |all| ==> Before(all[i], all[j])
    requires start <= SetOf(all)
    ensures var s := Run(all, Sys(start, None, map[]), steps);
            pid in s.procs && s.procs[pid].DownRunning? && s.procs[pid].plan != [] ==>
              var newest := s.procs[pid].plan[0];
              newest in s.applied && (v in s.applied && v != newest ==> Before(v, newest))
  {
    SortedIsDistinct(all);
    RollbackIsSafe(all, start, steps, pid, []);
    RunKeepsInvariant(all, Sys(start, None, map[]), steps);
    var s := Run(all, Sys(start, None, map[]), steps);
    if v in s.applied {
      var i :| 0 <= i < |all| && all[i] == v;
    }
  }

  // And by number, when the versions are numbers of one width.
  lemma RollbackIsSafeByNumber(all: seq<Version>, width: nat, start: set<Version>, steps: seq<Step>, pid: Pid, v: Version)
    requires NumbersOfWidth(all, width) && Increasing(all) && start <= SetOf(all)
    ensures var s := Run(all, Sys(start, None, map[]), steps);
            pid in s.procs && s.procs[pid].DownRunning? && s.procs[pid].plan != [] ==>
              var newest := s.procs[pid].plan[0];
              && newest in s.applied && AllDigits(newest)
              && (v in s.applied && v != newest ==> AllDigits(v) && Value(v) < Value(newest))
  {
    IncreasingIsOrdered(all, width);
    RollbackIsSafeByVersion(all, start, steps, pid, v);
    SortedIsDistinct(all);
    RunKeepsInvariant(all, Sys(start, None, map[]), steps);
    var s := Run(all, Sys(start, None, map[]), steps);
    if pid in s.procs && s.procs[pid].DownRunning? && s.procs[pid].plan != [] {
      var newest := s.procs[pid].plan[0];
      assert newest in all;
      if v in s.applied && v != newest {
        assert v in all;
        OrderOfNumbers(newest, v);
      }
    }
  }

  // ---------------------------------------------------------------------------
  // How full the table is when a Down gets the lock.

  function One(b: bool): nat {
    if b then 1 else 0
  }

  // The step applies a version.
  predicate AppliesOne<V(==)>(all: seq<V>, s: Sys<V>, step: Step) {
    step.Work? && step.pid in s.procs && s.procs[step.pid].UpRunning? && Oldest(all, s.applied).Some?
  }

  // The step reverses a version.
  predicate ReversesOne<V(==)>(s: Sys<V>, step: Step) {
    step.Work? && step.pid in s.procs && s.procs[step.pid].DownRunning? && s.procs[step.pid].plan != []
  }

  function Applications<V(==)>(all: seq<V>, s: Sys<V>, steps: seq<Step>): nat
    decreases |steps|
  {
    if steps == [] then 0
    else One(AppliesOne(all, s, steps[0])) + Applications(all, Next(all, s, steps[0]), steps[1..])
  }

  function Reversals<V(==)>(all: seq<V>, s: Sys<V>, steps: seq<Step>): nat
    decreases |steps|
  {
    if steps == [] then 0
    else One(ReversesOne(s, steps[0])) + Reversals(all, Next(all, s, steps[0]), steps[1..])
  }

  lemma SizeOfApply<V>(all: seq<V>, s: Sys<V>, step: Step)
    requires AppliesOne(all, s, step)
    ensures |Next(all, s, step).applied| == |s.applied| + 1
  {
    var v := Oldest(all, s.applied).value;
    OldestFound(all, s.applied);
    assert v !in s.applied;
    assert Next(all, s, step).applied == s.applied + {v};
  }

  lemma SizeOfReverse<V>(all: seq<V>, s: Sys<V>, step: Step)
    requires Distinct(all) && Invariant(all, s) && ReversesOne(s, step)
    ensures |Next(all, s, step).applied| == |s.applied| - 1
  {
    var plan := s.procs[step.pid].plan;
    ReverseKeepsPrefix(all, s.applied, plan);
    assert Next(all, s, step).applied == s.applied - {plan[0]};
  }

  lemma SizeUnchanged<V>(all: seq<V>, s: Sys<V>, step: Step)
    requires !AppliesOne(all, s, step) && !ReversesOne(s, step)
    ensures Next(all, s, step).applied == s.applied
  {
  }

  lemma SizeOfStep<V>(all: seq<V>, s: Sys<V>, step: Step)
    requires Distinct(all) && Invariant(all, s)
    ensures |Next(all, s, step).applied| + One(ReversesOne(s, step)) == |s.applied| + One(AppliesOne(all, s, step))
  {
    if AppliesOne(all, s, step) {
      SizeOfApply(all, s, step);
    } else if ReversesOne(s, step) {
      SizeOfReverse(all, s, step);
    } else {
      SizeUnchanged(all, s, step);
    }
  }

  lemma {:induction false} SizeOfRun<V>(all: seq<V>, s: Sys<V>, steps: seq<Step>)
    requires Distinct(all) && Invariant(all, s)
    ensures |Run(all, s, steps).applied| + Reversals(all, s, steps) == |s.applied| + Applications(all, s, steps)
    decreases |steps|
  {
    if steps != [] {
      SizeOfStep(all, s, steps[0]);
      StepKeepsInvariant(all, s, steps[0]);
      SizeOfRun(all, Next(all, s, steps[0]), steps[1..]);
    }
  }

  lemma SubsetOfSameSize<V>(a: set<V>, b: set<V>)
    requires a <= b
    ensures |a| <= |b| && (a == b <==> |a| == |b|)
  {
    assert b == a + (b - a);
  }

  // From any reachable state in which a Down's check passes, and over everything
  // that may run before it gets the lock: the table is full by then exactly when as
  // many versions were applied as reversed in between, as it is when no other Down
  // reversed any. In every case the Down reverses the newest of what is left.
  lemma FullAtLockIff<V>(all: seq<V>, start: set<V>, before: seq<Step>, pid: Pid, k: nat, between: seq<Step>)
    requires Distinct(all) && start <= SetOf(all)
    requires var s := Run(all, Sys(start, None, map[]), before);
             pid !in s.procs && s.applied == SetOf(all)
    ensures var s := Next(all, Run(all, Sys(start, None, map[]), before), StartDown(pid, k));
            var s' := Run(all, s, between);
            var up, down := Applications(all, s, between), Reversals(all, s, between);
            && s.procs[pid] == DownWaiting(k)
            && (s'.applied == SetOf(all) <==> up == down)
            && (down == 0 ==> s'.applied == SetOf(all))
            && up <= down <= |all| + up
            && PrefixOf(all, s'.applied, |all| + up - down)
            && (pid in s'.procs && s'.procs[pid] == DownWaiting(k) && s'.holder == None ==>
                  Next(all, s', Acquire(pid)).procs[pid] == DownRunning(Newest(all[..|all| + up - down], k)))
  {
    var s0 := Run(all, Sys(start, None, map[]), before);
    var s := Next(all, s0, StartDown(pid, k));
    var s' := Run(all, s, between);
    RunKeepsInvariant(all, Sys(start, None, map[]), before);
    StepKeepsInvariant(all, s0, StartDown(pid, k));
    FullIsPrefix(all, s.applied);
    RunKeepsInvariant(all, s, between);
    SizeOfRun(all, s, between);
    PrefixSize(all, SetOf(all), |all|);
    SubsetOfSameSize(s'.applied, SetOf(all));
    var n: nat :| PrefixOf(all, s'.applied, n);
    PrefixSize(all, s'.applied, n);
  }

  lemma RunOfCons<V>(all: seq<V>, s: Sys<V>, step: Step, rest: seq<Step>)
    ensures Run(all, s, [step] + rest) == Run(all, Next(all, s, step), rest)
  {
    assert ([step] + rest)[1..] == rest;
  }

  // n steps of the process that holds the lock.
  function Works(pid: Pid, n: nat): seq<Step> {
    if n == 0 then [] else [Work(pid)] + Works(pid, n - 1)
  }

  lemma {:induction false} RunOfAppend<V>(all: seq<V>, s: Sys<V>, steps: seq<Step>, more: seq<Step>)
    ensures Run(all, s, steps + more) == Run(all, Run(all, s, steps), more)
    decreases |steps|
  {
    if steps == [] {
      assert steps + more == more;
    } else {
      assert (steps + more)[1..] == steps[1..] + more;
      RunOfAppend(all, Next(all, s, steps[0]), steps[1..], more);
    }
  }

  // A process that is done changes nothing.
  lemma {:induction false} WorksIdle<V>(all: seq<V>, s: Sys<V>, pid: Pid, n: nat)
    requires pid !in s.procs
    ensures Run(all, s, Works(pid, n)) == s
  {
    if n > 0 {
      RunOfCons(all, s, Work(pid), Works(pid, n - 1));
      WorksIdle(all, s, pid, n - 1);
    }
  }

  // A Down left to itself reverses all of its plan and gives up the lock.
  lemma {:induction false} DownWorksAlone<V>(all: seq<V>, s: Sys<V>, pid: Pid, n: nat)
    requires pid in s.procs && s.procs[pid].DownRunning? && s.holder == Some(pid)
    requires n > |s.procs[pid].plan|
    ensures Run(all, s, Works(pid, n)) == Sys(s.applied - SetOf(s.procs[pid].plan), None, s.procs - {pid})
    decreases n
  {
    var plan, s' := s.procs[pid].plan, Next(all, s, Work(pid));
    RunOfCons(all, s, Work(pid), Works(pid, n - 1));
    if plan == [] {
      WorksIdle(all, s', pid, n - 1);
    } else {
      DownWorksAlone(all, s', pid, n - 1);
      assert plan == [plan[0]] + plan[1..];
      assert s.applied - SetOf(plan) == s'.applied - SetOf(plan[1..]) && s'.procs - {pid} == s.procs - {pid};
    }
  }

  lemma OneLessMissing<V>(all: seq<V>, applied: set<V>, missing: set<V>, v: V)
    requires missing == SetOf(all) - applied && v in all && v !in applied
    ensures v in missing && missing - {v} == SetOf(all) - (applied + {v}) && |missing - {v}| == |missing| - 1
    ensures (applied + {v}) + SetOf(all) == applied + SetOf(all)
  {
  }

  // An Up left to itself applies everything missing and gives up the lock.
  lemma {:induction false} UpWorksAlone<V>(all: seq<V>, s: Sys<V>, pid: Pid, missing: set<V>, n: nat)
    requires pid in s.procs && s.procs[pid].UpRunning? && s.holder == Some(pid)
    requires missing == SetOf(all) - s.applied && n > |missing|
    ensures Run(all, s, Works(pid, n)) == Sys(s.applied + SetOf(all), None, s.procs - {pid})
    decreases n
  {
    var s' := Next(all, s, Work(pid));
    RunOfCons(all, s, Work(pid), Works(pid, n - 1));
    OldestFound(all, s.applied);
    if Oldest(all, s.applied).None? {
      WorksIdle(all, s', pid, n - 1);
      assert s.applied + SetOf(all) == s.applied;
    } else {
      var v := Oldest(all, s.applied).value;
      OneLessMissing(all, s.applied, missing, v);
      UpWorksAlone(all, s', pid, missing - {v}, n - 1);
    }
  }

  lemma RunOfTwo<V>(all: seq<V>, s: Sys<V>, first: Step, second: Step, rest: seq<Step>)
    ensures Run(all, s, [first] + ([second] + rest)) == Run(all, Next(all, Next(all, s, first), second), rest)
  {
    RunOfCons(all, s, first, [second] + rest);
    RunOfCons(all, Next(all, s, first), second, rest);
  }

  function Alone<V(==)>(applied: set<V>, pid: Pid, ph: Phase<V>): Sys<V> {
    Sys(applied, Some(pid), map[pid := ph])
  }

  // No process about, and the lock free.
  function Quiet<V(==)>(applied: set<V>): Sys<V> {
    Sys(applied, None, map[])
  }

  // The steps of one Up, and of one Down, given n steps of work.
  function UpSteps(pid: Pid, n: nat): seq<Step> {
    [StartUp(pid)] + ([Acquire(pid)] + Works(pid, n))
  }

  function DownSteps(pid: Pid, k: nat, n: nat): seq<Step> {
    [StartDown(pid, k)] + ([Acquire(pid)] + Works(pid, n))
  }

  lemma StartAlone<V>(all: seq<V>, applied: set<V>, pid: Pid, k: nat)
    ensures var s := Quiet(applied);
            && Next(all, Next(all, s, StartUp(pid)), Acquire(pid)) == Alone(applied, pid, UpRunning)
            && (SetOf(all) <= applied ==>
                  Next(all, Next(all, s, StartDown(pid, k)), Acquire(pid))
                  == Alone(applied, pid, DownRunning(Plan(all, applied, k))))
  {
  }

  // So with no other process about, a Down does what the method says of it: all but
  // the newest k versions are left.
  lemma DownAlone<V>(all: seq<V>, pid: Pid, k: nat, n: nat)
    requires Distinct(all) && n > |all|
    ensures Run(all, Quiet(SetOf(all)), DownSteps(pid, k, n))
         == Quiet(SetOf(all[..if k < |all| then |all| - k else 0]))
  {
    RunOfTwo(all, Quiet(SetOf(all)), StartDown(pid, k), Acquire(pid), Works(pid, n));
    StartAlone(all, SetOf(all), pid, k);
    PlanIsTail(all, k);
    AloneEnds(all, SetOf(all), pid, Plan(all, SetOf(all), k), n);
  }

  lemma AloneEnds<V>(all: seq<V>, applied: set<V>, pid: Pid, plan: seq<V>, n: nat)
    requires n > |plan|
    ensures Run(all, Alone(applied, pid, DownRunning(plan)), Works(pid, n)) == Quiet(applied - SetOf(plan))
  {
    var running := Alone(applied, pid, DownRunning(plan));
    DownWorksAlone(all, running, pid, n);
    assert running.procs - {pid} == map[];
  }

  lemma SetOfReverse<V>(s: seq<V>)
    ensures SetOf(Reverse(s)) == SetOf(s)
  {
    forall i | 0 <= i < |s| ensures s[i] in Reverse(s) {
      assert Reverse(s)[|s| - 1 - i] == s[i];
    }
  }

  lemma SetOfSplit<V>(all: seq<V>, kept: nat)
    requires Distinct(all) && kept <= |all|
    ensures SetOf(all) - SetOf(all[kept..]) == SetOf(all[..kept])
  {
    assert all == all[..kept] + all[kept..];
    forall v | v in all[..kept] ensures v !in all[kept..] {
      var i :| 0 <= i < kept && all[i] == v;
    }
  }

  lemma PlanIsTail<V>(all: seq<V>, k: nat)
    requires Distinct(all)
    ensures var kept := if k < |all| then |all| - k else 0;
            && |Plan(all, SetOf(all), k)| == |all| - kept
            && SetOf(all) - SetOf(Plan(all, SetOf(all), k)) == SetOf(all[..kept])
  {
    var kept := if k < |all| then |all| - k else 0;
    PrefixSize(all, SetOf(all), |all|);
    assert all[..|all|] == all && all[0..] == all;
    assert Plan(all, SetOf(all), k) == Reverse(all[kept..]);
    SetOfReverse(all[kept..]);
    SetOfSplit(all, kept);
  }

  // And an Up applies everything that was missing.
  lemma UpAlone<V>(all: seq<V>, applied: set<V>, pid: Pid, n: nat)
    requires n > |SetOf(all) - applied|
    ensures Run(all, Quiet(applied), UpSteps(pid, n)) == Quiet(applied + SetOf(all))
  {
    var running := Alone(applied, pid, UpRunning);
    RunOfTwo(all, Quiet(applied), StartUp(pid), Acquire(pid), Works(pid, n));
    StartAlone(all, applied, pid, 0);
    UpWorksAlone(all, running, pid, SetOf(all) - applied, n);
    assert running.procs - {pid} == map[];
  }

  // A second Up changes nothing.
  lemma UpTwice<V>(all: seq<V>, applied: set<V>, pid: Pid, n: nat)
    requires n > |all|
    ensures Run(all, Quiet(applied), UpSteps(pid, n) + UpSteps(pid, n)) == Run(all, Quiet(applied), UpSteps(pid, n))
  {
    var up := UpSteps(pid, n);
    MissingSize(all, applied);
    UpAlone(all, applied, pid, n);
    var full := applied + SetOf(all);
    MissingSize(all, full);
    UpAlone(all, full, pid, n);
    assert full + SetOf(all) == full;
    RunOfAppend(all, Quiet(applied), up, up);
  }

  // An Up after a Down, of any number of versions, brings the full table back.
  lemma UpAfterDown<V>(all: seq<V>, up: Pid, down: Pid, k: nat, n: nat)
    requires Distinct(all) && n > |all|
    ensures Run(all, Quiet(SetOf(all)), DownSteps(down, k, n) + UpSteps(up, n)) == Quiet(SetOf(all))
  {
    var older := all[..if k < |all| then |all| - k else 0];
    var kept := SetOf(older);
    DownAlone(all, down, k, n);
    RunOfAppend(all, Quiet(SetOf(all)), DownSteps(down, k, n), UpSteps(up, n));
    MissingSize(all, kept);
    UpAlone(all, kept, up, n);
    assert forall v :: v in older ==> v in all;
    assert kept + SetOf(all) == SetOf(all);
  }

  // After a finished Up nothing is pending.
  lemma UpLeavesNonePending(migrations: seq<Migration>, applied: set<Version>, pid: Pid, n: nat)
    requires n > |migrations|
    ensures Unapplied(migrations, Run(Versions(migrations), Quiet(applied), UpSteps(pid, n)).applied) == []
  {
    var all := Versions(migrations);
    MissingSize(all, applied);
    UpAlone(all, applied, pid, n);
    NonePendingIffApplied(migrations, applied + SetOf(all));
  }

  lemma MissingSize<V>(all: seq<V>, applied: set<V>)
    ensures |SetOf(all) - applied| <= |all|
  {
    SizeOfSubset(all, SetOf(all) - applied);
  }

  lemma TwoVersions<V>(first: V, second: V)
    requires first != second
    ensures SetOf([first, second]) == {first, second}
    ensures Plan([first, second], {first, second}, 1) == [second]
    ensures Plan([first, second], {first}, 1) == [first]
    ensures [second][1..] == [] && {first, second} - {second} == {first}
  {
    var all := [first, second];
    assert |{first, second}| == 2 && all[..2][1..] == [second] && all[..1] == [first];
    assert Reverse([second]) == [second] && Reverse([first]) == [first];
  }

  // Two Downs pass the check, and the first takes the lock.
  lemma BothPassTheCheck<V>(first: V, second: V)
    requires first != second
    ensures Run([first, second], Sys({first, second}, None, map[]), [StartDown(0, 1), StartDown(1, 1), Acquire(0)])
         == Sys({first, second}, Some(0), map[0 := DownRunning([second]), 1 := DownWaiting(1)])
  {
    var all := [first, second];
    var s0 := Sys({first, second}, None, map[]);
    var s1 := Sys({first, second}, None, map[0 := DownWaiting(1)]);
    var s2 := Sys({first, second}, None, map[0 := DownWaiting(1), 1 := DownWaiting(1)]);
    TwoVersions(first, second);
    assert Next(all, s0, StartDown(0, 1)) == s1;
    assert Next(all, s1, StartDown(1, 1)) == s2;
    RunOfCons(all, s2, Acquire(0), []);
    RunOfCons(all, s1, StartDown(1, 1), [Acquire(0)]);
    RunOfCons(all, s0, StartDown(0, 1), [StartDown(1, 1), Acquire(0)]);
    assert [Acquire(0)] == [Acquire(0)] + [] && [StartDown(1, 1), Acquire(0)] == [StartDown(1, 1)] + [Acquire(0)];
    assert [StartDown(0, 1), StartDown(1, 1), Acquire(0)] == [StartDown(0, 1)] + [StartDown(1, 1), Acquire(0)];
  }

  // The schema need not be fully applied while a Down rolls back: of two that
  // passed the check together, the second runs with a migration pending.
  lemma RollbackMayRunWhilePending<V>(first: V, second: V)
    requires first != second
    ensures var all := [first, second];
            var s := Run(all, Sys({first, second}, None, map[]), [StartDown(0, 1), StartDown(1, 1), Acquire(0)]);
            var s' := Run(all, s, [Work(0), Work(0), Acquire(1)]);
            s' == Sys({first}, Some(1), map[1 := DownRunning([first])]) && !(SetOf(all) <= s'.applied)
  {
    BothPassTheCheck(first, second);
    TwoVersions(first, second);
    var all := [first, second];
    var s3 := Sys({first, second}, Some(0), map[0 := DownRunning([second]), 1 := DownWaiting(1)]);
    var s4 := Sys({first}, Some(0), map[0 := DownRunning([]), 1 := DownWaiting(1)]);
    var s5 := Sys({first}, None, map[1 := DownWaiting(1)]);
    assert Next(all, s3, Work(0)) == s4;
    assert Next(all, s4, Work(0)) == s5;
    RunOfCons(all, s5, Acquire(1), []);
    RunOfCons(all, s4, Work(0), [Acquire(1)]);
    RunOfCons(all, s3, Work(0), [Work(0), Acquire(1)]);
    assert [Acquire(1)] == [Acquire(1)] + [] && [Work(0), Acquire(1)] == [Work(0)] + [Acquire(1)];
    assert [Work(0), Work(0), Acquire(1)] == [Work(0)] + [Work(0), Acquire(1)];
  }
}
