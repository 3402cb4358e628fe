/**
 The login handler: the limiter in front of the password hash, the reset behind
 it. A request is a process that reads the clock, waits for the limiter, hashes if
 it was let in, and resets its address if the password was right.
 */
module Login {
  import opened Wrappers
  import L = Limiter
  import Password
  import Session
  import Text

  type Pid = L.Pid

  datatype Request = Request(ip: L.Key, password: string, next: string)

  // What every process shares: the limiter's policy, the configured hash with the
  // function that checks it, and how long a session lasts.
  datatype Config = Config(policy: L.Policy, idKey: Password.Argon2, hash: string, ttl: int, parses: string -> bool)

  const TOO_MANY_REQUESTS := 429
  const UNAUTHORIZED := 401

  // `location` is where a successful login redirects, with the session it sets.
  datatype Response =
    | Refused(status: int, next: string)
    | LoggedIn(location: string, session: Session.Session)

  // Only a path inside Admin survives. `parses` is `url.ParseRequestURI` succeeding.
  function SafeNext(parses: string -> bool, next: string): string {
    if next == "" || !Text.HasPrefix(next, "/admin") || Text.HasPrefix(next, "//") then "/admin/posts"
    else if !parses(next) then "/admin/posts"
    else next
  }

  lemma NextStaysInAdmin(parses: string -> bool, next: string)
    ensures Text.HasPrefix(SafeNext(parses, next), "/admin")
    ensures !Text.HasPrefix(SafeNext(parses, next), "//")
  {
    assert "/admin/posts"[..6] == "/admin";
    assert SafeNext(parses, next)[..6][1] == 'a';
  }

  // A path inside Admin that parses is kept as it is; everything else goes to the
  // posts, an address that starts with // among it.
  lemma NextIsKeptIff(parses: string -> bool, next: string)
    ensures SafeNext(parses, next) == if Text.HasPrefix(next, "/admin") && parses(next) then next else "/admin/posts"
    ensures Text.HasPrefix(next, "//") ==> SafeNext(parses, next) == "/admin/posts"
  {
    if Text.HasPrefix(next, "/admin") {
      assert next[..6][1] == 'a' && next[1] == 'a';
    }
    if Text.HasPrefix(next, "//") {
      assert next[..2][1] == '/' && next[1] == '/';
    }
  }

  // ---------------------------------------------------------------------------
  // One request after another.

  function Answer(c: Config, windows: L.Windows, req: Request, read: int, issue: int): (L.Windows, Response) {
    var next := SafeNext(c.parses, req.next);
    var (windows', admitted) := L.Admit(c.policy, windows, req.ip, read);
    if !admitted then (windows', Refused(TOO_MANY_REQUESTS, next))
    else if Password.VerifyPassword(c.idKey, c.hash, req.password) != Ok(true) then
      (windows', Refused(UNAUTHORIZED, next))
    else (L.Forget(windows', req.ip), LoggedIn(next, Session.Issued(issue, c.ttl)))
  }

  // Who is answered what: 429 without a look at the password when the limiter says
  // no, 401 when it does not match or cannot be checked, a session of the configured
  // length otherwise. Only then is the address forgotten, and no other ever is.
  lemma AnswerOutcome(c: Config, windows: L.Windows, req: Request, read: int, issue: int)
    ensures var (admitted, matches) := (L.Admit(c.policy, windows, req.ip, read).1,
                                        Password.VerifyPassword(c.idKey, c.hash, req.password) == Ok(true));
            var (windows', resp) := Answer(c, windows, req, read, issue);
            && (resp.Refused? && resp.status == 429 <==> !admitted)
            && (resp.Refused? && resp.status == 401 <==> admitted && !matches)
            && (resp.LoggedIn? <==> admitted && matches)
            && (resp.LoggedIn? ==> resp.session == Session.Session(issue, issue + c.ttl))
            && (if resp.LoggedIn? then resp.location else resp.next) == SafeNext(c.parses, req.next)
            && (resp.LoggedIn? ==> req.ip !in windows')
            && (forall ip :: ip in windows' <==>
                  ip in L.Admit(c.policy, windows, req.ip, read).0 && !(resp.LoggedIn? && ip == req.ip))
  {
  }

  class Handler {
    const config: Config
    const logins: L.Limiter

    constructor (config: Config)
      ensures this.config == config && fresh(logins)
      ensures logins.policy == config.policy && logins.windows == map[]
    {
      this.config := config;
      logins := new L.Limiter(config.policy.limit, config.policy.window);
    }

    // `read` is the limiter's clock reading, `issue` the session's.
    method Login(req: Request, read: int, issue: int) returns (resp: Response)
      requires logins.policy == config.policy
      modifies logins
      ensures (logins.windows, resp) == Answer(config, old(logins.windows), req, read, issue)
    {
      var next := SafeNext(config.parses, req.next);
      var admitted := logins.Allow(req.ip, read);
      if !admitted {
        return Refused(TOO_MANY_REQUESTS, next);
      }
      var verdict := Password.VerifyPassword(config.idKey, config.hash, req.password);
      if verdict.Err? {
        return Refused(UNAUTHORIZED, next);
      }
      if !verdict.value {
        return Refused(UNAUTHORIZED, next);
      }
      logins.Reset(req.ip);
      return LoggedIn(next, Session.Issued(issue, config.ttl));
    }
  }

  // ---------------------------------------------------------------------------
  // Requests in flight together.

  datatype Phase =
    | Waiting
    | Admitted(at: int)
    | Matched
    | Done(response: Response)

  // `requests` says what each process was sent.
  datatype Sys = Sys(limiter: L.Sys, phases: map<Pid, Phase>)

  datatype Step =
    | Tick(elapsed: nat)
    | Arrive(pid: Pid)
    | Enter(pid: Pid)
    | Hash(pid: Pid)
    | Finish(pid: Pid)

  type Requests = Pid -> Request

  predicate In(s: Sys, pid: Pid, ph: Phase) {
    pid in s.phases && s.phases[pid] == ph
  }

  predicate CanHash(s: Sys, pid: Pid) {
    pid in s.phases && s.phases[pid].Admitted?
  }

  // The limiter's own step behind a login step.
  function LimiterStep(reqs: Requests, s: Sys, step: Step): L.Step {
    match step
    case Tick(elapsed) => L.Tick(elapsed)
    case Arrive(pid) => if pid in s.phases then L.Tick(0) else L.Read(pid, reqs(pid).ip)
    case Enter(pid) => if In(s, pid, Waiting) then L.Enter(pid) else L.Tick(0)
    case Hash(_) => L.Tick(0)
    case Finish(pid) => if In(s, pid, Matched) then L.Reset(reqs(pid).ip) else L.Tick(0)
  }

  function PhaseAfter(c: Config, reqs: Requests, s: Sys, step: Step): map<Pid, Phase> {
    match step
    case Tick(_) => s.phases
    case Arrive(pid) => if pid in s.phases then s.phases else s.phases[pid := Waiting]
    case Enter(pid) =>
      if !In(s, pid, Waiting) || pid !in s.limiter.waiting then s.phases
      else
        var call := s.limiter.waiting[pid];
        if L.Admit(c.policy, s.limiter.windows, call.key, call.read).1
        then s.phases[pid := Admitted(s.limiter.clock)]
        else s.phases[pid := Done(Refused(TOO_MANY_REQUESTS, SafeNext(c.parses, reqs(pid).next)))]
    case Hash(pid) =>
      if !CanHash(s, pid) then s.phases
      else if Password.VerifyPassword(c.idKey, c.hash, reqs(pid).password) == Ok(true)
      then s.phases[pid := Matched]
      else s.phases[pid := Done(Refused(UNAUTHORIZED, SafeNext(c.parses, reqs(pid).next)))]
    case Finish(pid) =>
      if !In(s, pid, Matched) then s.phases
      else s.phases[pid := Done(LoggedIn(SafeNext(c.parses, reqs(pid).next),
                                         Session.Issued(s.limiter.clock, c.ttl)))]
  }

  // A step that is not enabled changes nothing.
  function Next(c: Config, reqs: Requests, s: Sys, step: Step): Sys {
    Sys(L.Next(c.policy, s.limiter, LimiterStep(reqs, s, step)), PhaseAfter(c, reqs, s, step))
  }

  function Run(c: Config, reqs: Requests, s: Sys, steps: seq<Step>): Sys
    decreases |steps|
  {
    if steps == [] then s else Run(c, reqs, Next(c, reqs, s, steps[0]), steps[1..])
  }

  function LimiterSteps(c: Config, reqs: Requests, s: Sys, steps: seq<Step>): seq<L.Step>
    decreases |steps|
  {
    if steps == [] then []
    else [LimiterStep(reqs, s, steps[0])] + LimiterSteps(c, reqs, Next(c, reqs, s, steps[0]), steps[1..])
  }

  // The limiter inside a login run is itself a run of the limiter.
  lemma {:induction false} LoginRunsTheLimiter(c: Config, reqs: Requests, s: Sys, steps: seq<Step>)
    ensures Run(c, reqs, s, steps).limiter == L.Final(c.policy, s.limiter, LimiterSteps(c, reqs, s, steps))
    decreases |steps|
  {
    if steps != [] {
      var s' := Next(c, reqs, s, steps[0]);
      LoginRunsTheLimiter(c, reqs, s', steps[1..]);
      assert LimiterSteps(c, reqs, s, steps)[1..] == LimiterSteps(c, reqs, s', steps[1..]);
    }
  }

  // The phase a request entered at `now` is in, and the windows it leaves.
  function Entered(c: Config, reqs: Requests, s: Sys, pid: Pid): Sys {
    var now := s.limiter.clock;
    var (windows, admitted) := L.Admit(c.policy, s.limiter.windows, reqs(pid).ip, now);
    Sys(s.limiter.(windows := windows),
        s.phases[pid := if admitted then Admitted(now)
                        else Done(Refused(TOO_MANY_REQUESTS, SafeNext(c.parses, reqs(pid).next)))])
  }

  // Arriving and entering at once, with nothing in between.
  lemma ArriveAndEnter(c: Config, reqs: Requests, s: Sys, pid: Pid)
    requires Coherent(reqs, s) && pid !in s.phases
    ensures Next(c, reqs, Next(c, reqs, s, Arrive(pid)), Enter(pid)) == Entered(c, reqs, s, pid)
  {
    var s1 := Next(c, reqs, s, Arrive(pid));
    assert s1.limiter.waiting == s.limiter.waiting[pid := L.Call(reqs(pid).ip, s.limiter.clock)];
    assert s1.limiter.waiting - {pid} == s.limiter.waiting;
  }

  lemma IdleTick(p: L.Policy, s: L.Sys)
    ensures L.Next(p, s, L.Tick(0)) == s
  {
  }

  // The check of the password, as a change of phase and as a step.
  lemma PhaseOfHash(c: Config, reqs: Requests, s: Sys, pid: Pid, ok: bool)
    requires CanHash(s, pid)
    requires ok == (Password.VerifyPassword(c.idKey, c.hash, reqs(pid).password) == Ok(true))
    ensures PhaseAfter(c, reqs, s, Hash(pid)) ==
            s.phases[pid := if ok then Matched else Done(Refused(UNAUTHORIZED, SafeNext(c.parses, reqs(pid).next)))]
  {
  }

  lemma HashAlone(c: Config, reqs: Requests, s: Sys, pid: Pid, ok: bool)
    requires CanHash(s, pid)
    requires ok == (Password.VerifyPassword(c.idKey, c.hash, reqs(pid).password) == Ok(true))
    ensures var ph := if ok then Matched else Done(Refused(UNAUTHORIZED, SafeNext(c.parses, reqs(pid).next)));
            Next(c, reqs, s, Hash(pid)) == Sys(s.limiter, s.phases[pid := ph])
  {
    IdleTick(c.policy, s.limiter);
    PhaseOfHash(c, reqs, s, pid, ok);
  }

  // Finishing at once after the check, `before` being the phases without this one.
  lemma FinishAtOnce(c: Config, reqs: Requests, limiter: L.Sys, before: map<Pid, Phase>, pid: Pid)
    ensures Next(c, reqs, Sys(limiter, before[pid := Matched]), Finish(pid))
         == Sys(limiter.(windows := L.Forget(limiter.windows, reqs(pid).ip)),
                before[pid := Done(LoggedIn(SafeNext(c.parses, reqs(pid).next), Session.Issued(limiter.clock, c.ttl)))])
  {
  }

  lemma DoneStays(c: Config, reqs: Requests, s: Sys, pid: Pid)
    requires pid in s.phases && s.phases[pid].Done?
    ensures Next(c, reqs, s, Hash(pid)) == s && Next(c, reqs, s, Finish(pid)) == s
  {
  }

  lemma HashMatched(c: Config, reqs: Requests, s: Sys, pid: Pid)
    requires CanHash(s, pid)
    requires Password.VerifyPassword(c.idKey, c.hash, reqs(pid).password) == Ok(true)
    ensures Next(c, reqs, Next(c, reqs, s, Hash(pid)), Finish(pid))
         == Sys(s.limiter.(windows := L.Forget(s.limiter.windows, reqs(pid).ip)),
                s.phases[pid := Done(LoggedIn(SafeNext(c.parses, reqs(pid).next), Session.Issued(s.limiter.clock, c.ttl)))])
  {
    HashAlone(c, reqs, s, pid, true);
    FinishAtOnce(c, reqs, s.limiter, s.phases, pid);
  }

  lemma HashRefused(c: Config, reqs: Requests, s: Sys, pid: Pid)
    requires CanHash(s, pid)
    requires Password.VerifyPassword(c.idKey, c.hash, reqs(pid).password) != Ok(true)
    ensures Next(c, reqs, Next(c, reqs, s, Hash(pid)), Finish(pid))
         == Sys(s.limiter, s.phases[pid := Done(Refused(UNAUTHORIZED, SafeNext(c.parses, reqs(pid).next)))])
  {
    HashAlone(c, reqs, s, pid, false);
    DoneStays(c, reqs, Next(c, reqs, s, Hash(pid)), pid);
  }

  // The handler's answer, one outcome at a time.
  lemma AnswerWhenRefused(c: Config, windows: L.Windows, req: Request, now: int)
    requires !L.Admit(c.policy, windows, req.ip, now).1
    ensures Answer(c, windows, req, now, now) ==
            (L.Admit(c.policy, windows, req.ip, now).0, Refused(TOO_MANY_REQUESTS, SafeNext(c.parses, req.next)))
  {
  }

  lemma AnswerWhenWrong(c: Config, windows: L.Windows, req: Request, now: int)
    requires L.Admit(c.policy, windows, req.ip, now).1
    requires Password.VerifyPassword(c.idKey, c.hash, req.password) != Ok(true)
    ensures Answer(c, windows, req, now, now) ==
            (L.Admit(c.policy, windows, req.ip, now).0, Refused(UNAUTHORIZED, SafeNext(c.parses, req.next)))
  {
  }

  lemma AnswerWhenRight(c: Config, windows: L.Windows, req: Request, now: int)
    requires L.Admit(c.policy, windows, req.ip, now).1
    requires Password.VerifyPassword(c.idKey, c.hash, req.password) == Ok(true)
    ensures Answer(c, windows, req, now, now) ==
            (L.Forget(L.Admit(c.policy, windows, req.ip, now).0, req.ip),
             LoggedIn(SafeNext(c.parses, req.next), Session.Issued(now, c.ttl)))
  {
  }

  // The state of a request that ended at once with this answer.
  function Ended(s: Sys, pid: Pid, answer: (L.Windows, Response)): Sys {
    Sys(s.limiter.(windows := answer.0), s.phases[pid := Done(answer.1)])
  }

  lemma FinishRefused(c: Config, reqs: Requests, s: Sys, s2: Sys, pid: Pid)
    requires s2 == Entered(c, reqs, s, pid) && s2.phases[pid].Done?
    ensures Next(c, reqs, Next(c, reqs, s2, Hash(pid)), Finish(pid))
         == Ended(s, pid, Answer(c, s.limiter.windows, reqs(pid), s.limiter.clock, s.limiter.clock))
  {
    DoneStays(c, reqs, s2, pid);
    AnswerWhenRefused(c, s.limiter.windows, reqs(pid), s.limiter.clock);
  }

  lemma FinishWrong(c: Config, reqs: Requests, s: Sys, s2: Sys, pid: Pid)
    requires s2 == Entered(c, reqs, s, pid) && s2.phases[pid].Admitted?
    requires Password.VerifyPassword(c.idKey, c.hash, reqs(pid).password) != Ok(true)
    ensures Next(c, reqs, Next(c, reqs, s2, Hash(pid)), Finish(pid))
         == Ended(s, pid, Answer(c, s.limiter.windows, reqs(pid), s.limiter.clock, s.limiter.clock))
  {
    HashRefused(c, reqs, s2, pid);
    AnswerWhenWrong(c, s.limiter.windows, reqs(pid), s.limiter.clock);
  }

  lemma FinishRight(c: Config, reqs: Requests, s: Sys, s2: Sys, pid: Pid)
    requires s2 == Entered(c, reqs, s, pid) && s2.phases[pid].Admitted?
    requires Password.VerifyPassword(c.idKey, c.hash, reqs(pid).password) == Ok(true)
    ensures Next(c, reqs, Next(c, reqs, s2, Hash(pid)), Finish(pid))
         == Ended(s, pid, Answer(c, s.limiter.windows, reqs(pid), s.limiter.clock, s.limiter.clock))
  {
    HashMatched(c, reqs, s2, pid);
    AnswerWhenRight(c, s.limiter.windows, reqs(pid), s.limiter.clock);
  }

  // A request with nothing in between is the handler's own answer.
  lemma UninterruptedIsAtomic(c: Config, reqs: Requests, s: Sys, pid: Pid)
    requires Coherent(reqs, s) && pid !in s.phases
    ensures Run(c, reqs, s, [Arrive(pid), Enter(pid)] + [Hash(pid), Finish(pid)])
         == Ended(s, pid, Answer(c, s.limiter.windows, reqs(pid), s.limiter.clock, s.limiter.clock))
  {
    var s2 := Next(c, reqs, Next(c, reqs, s, Arrive(pid)), Enter(pid));
    RunOfTwo(c, reqs, s, Arrive(pid), Enter(pid), [Hash(pid), Finish(pid)]);
    RunOfTwo(c, reqs, s2, Hash(pid), Finish(pid), []);
    assert [Hash(pid), Finish(pid)] + [] == [Hash(pid), Finish(pid)];
    ArriveAndEnter(c, reqs, s, pid);
    if s2.phases[pid].Done? {
      FinishRefused(c, reqs, s, s2, pid);
    } else if Password.VerifyPassword(c.idKey, c.hash, reqs(pid).password) == Ok(true) {
      FinishRight(c, reqs, s, s2, pid);
    } else {
      FinishWrong(c, reqs, s, s2, pid);
    }
  }

  lemma RunOfTwo(c: Config, reqs: Requests, s: Sys, first: Step, second: Step, rest: seq<Step>)
    ensures Run(c, reqs, s, [first, second] + rest) ==
            Run(c, reqs, Next(c, reqs, Next(c, reqs, s, first), second), rest)
  {
    assert ([first, second] + rest)[1..] == [second] + rest && ([second] + rest)[1..] == rest;
  }

  // ---------------------------------------------------------------------------
  // Counting argon2id.

  // argon2id runs in this step, for this address, let in at a time in [lo, hi).
  predicate Evaluates(c: Config, reqs: Requests, s: Sys, step: Step, ip: L.Key, lo: int, hi: int) {
    step.Hash? && CanHash(s, step.pid) && reqs(step.pid).ip == ip
    && L.Within(s.phases[step.pid].at, lo, hi)
    && Password.ParseHash(c.hash).Some?
  }

  function Evaluations(c: Config, reqs: Requests, s: Sys, steps: seq<Step>, ip: L.Key, lo: int, hi: int): nat
    decreases |steps|
  {
    if steps == [] then 0
    else (if Evaluates(c, reqs, s, steps[0], ip, lo, hi) then 1 else 0)
         + Evaluations(c, reqs, Next(c, reqs, s, steps[0]), steps[1..], ip, lo, hi)
  }

  predicate Owes(reqs: Requests, pid: Pid, ph: Phase, ip: L.Key, lo: int, hi: int) {
    ph.Admitted? && reqs(pid).ip == ip && L.Within(ph.at, lo, hi)
  }

  // Processes of an address let in at a time in [lo, hi) that have yet to hash.
  function Unhashed(reqs: Requests, phases: map<Pid, Phase>, ip: L.Key, lo: int, hi: int): set<Pid> {
    set pid | pid in phases && Owes(reqs, pid, phases[pid], ip, lo, hi)
  }

  lemma SizeButOne<T>(before: set<T>, after: set<T>, x: T)
    requires before - {x} == after - {x}
    ensures |after| + One(x in before) == |before| + One(x in after)
  {
    var rest := before - {x};
    assert if x in before then before == rest + {x} else before == rest;
    assert if x in after then after == rest + {x} else after == rest;
  }

  lemma UnhashedOfUpdate(reqs: Requests, phases: map<Pid, Phase>, pid: Pid, ph: Phase, ip: L.Key, lo: int, hi: int)
    ensures |Unhashed(reqs, phases[pid := ph], ip, lo, hi)| + One(pid in phases && Owes(reqs, pid, phases[pid], ip, lo, hi))
         == |Unhashed(reqs, phases, ip, lo, hi)| + One(Owes(reqs, pid, ph, ip, lo, hi))
  {
    var phases' := phases[pid := ph];
    var before, after := Unhashed(reqs, phases, ip, lo, hi), Unhashed(reqs, phases', ip, lo, hi);
    forall x | x != pid ensures x in before <==> x in after {
      assert x in phases' <==> x in phases;
    }
    assert pid in after <==> Owes(reqs, pid, ph, ip, lo, hi);
    SizeButOne(before, after, pid);
  }

  // A waiting process waits in the limiter under its own address.
  ghost predicate Coherent(reqs: Requests, s: Sys) {
    && (forall pid :: pid in s.limiter.waiting <==> In(s, pid, Waiting))
    && (forall pid :: pid in s.limiter.waiting ==> s.limiter.waiting[pid].key == reqs(pid).ip)
    && L.Coherent(s.limiter)
  }

  lemma StepKeepsCoherent(c: Config, reqs: Requests, s: Sys, step: Step)
    requires Coherent(reqs, s)
    ensures Coherent(reqs, Next(c, reqs, s, step))
  {
  }

  function One(b: bool): nat {
    if b then 1 else 0
  }

  predicate Admits(c: Config, reqs: Requests, s: Sys, step: Step, ip: L.Key, lo: int, hi: int) {
    var e := L.Emitted(c.policy, s.limiter, LimiterStep(reqs, s, step));
    e.Some? && L.AdmittedIn(e.value, ip, lo, hi)
  }

  lemma AdmitsOfEnter(c: Config, reqs: Requests, s: Sys, pid: Pid, ip: L.Key, lo: int, hi: int)
    requires Coherent(reqs, s)
    ensures var phases' := PhaseAfter(c, reqs, s, Enter(pid));
            if phases' == s.phases then !Admits(c, reqs, s, Enter(pid), ip, lo, hi)
            else
              && pid in phases' && phases' == s.phases[pid := phases'[pid]]
              && In(s, pid, Waiting)
              && (Admits(c, reqs, s, Enter(pid), ip, lo, hi) <==> Owes(reqs, pid, phases'[pid], ip, lo, hi))
  {
    if In(s, pid, Waiting) {
      assert LimiterStep(reqs, s, Enter(pid)) == L.Enter(pid);
      assert PhaseAfter(c, reqs, s, Enter(pid))[pid] != Waiting;
    }
  }

  // What is hashed in a step and still owed after it is what was owed before it and
  // what it admits.
  ghost predicate Balanced(c: Config, reqs: Requests, s: Sys, step: Step, ip: L.Key, lo: int, hi: int) {
    |Unhashed(reqs, PhaseAfter(c, reqs, s, step), ip, lo, hi)| + One(Evaluates(c, reqs, s, step, ip, lo, hi))
    == |Unhashed(reqs, s.phases, ip, lo, hi)| + One(Admits(c, reqs, s, step, ip, lo, hi))
  }

  lemma EnterBalances(c: Config, reqs: Requests, s: Sys, pid: Pid, ip: L.Key, lo: int, hi: int)
    requires Coherent(reqs, s)
    ensures Balanced(c, reqs, s, Enter(pid), ip, lo, hi)
  {
    var phases' := PhaseAfter(c, reqs, s, Enter(pid));
    AdmitsOfEnter(c, reqs, s, pid, ip, lo, hi);
    if phases' != s.phases {
      UnhashedOfUpdate(reqs, s.phases, pid, phases'[pid], ip, lo, hi);
    }
  }

  lemma HashBalances(c: Config, reqs: Requests, s: Sys, pid: Pid, ip: L.Key, lo: int, hi: int)
    requires Password.ParseHash(c.hash).Some?
    ensures Balanced(c, reqs, s, Hash(pid), ip, lo, hi)
  {
    if CanHash(s, pid) {
      HashAlone(c, reqs, s, pid, Password.VerifyPassword(c.idKey, c.hash, reqs(pid).password) == Ok(true));
      UnhashedOfUpdate(reqs, s.phases, pid, Next(c, reqs, s, Hash(pid)).phases[pid], ip, lo, hi);
    }
  }

  lemma OthersBalance(c: Config, reqs: Requests, s: Sys, step: Step, ip: L.Key, lo: int, hi: int)
    requires !step.Enter? && !step.Hash?
    ensures Balanced(c, reqs, s, step, ip, lo, hi)
  {
    var phases' := PhaseAfter(c, reqs, s, step);
    if phases' != s.phases {
      assert phases' == s.phases[step.pid := phases'[step.pid]];
      UnhashedOfUpdate(reqs, s.phases, step.pid, phases'[step.pid], ip, lo, hi);
    }
  }

  lemma EveryStepBalances(c: Config, reqs: Requests, s: Sys, step: Step, ip: L.Key, lo: int, hi: int)
    requires Coherent(reqs, s) && Password.ParseHash(c.hash).Some?
    ensures Balanced(c, reqs, s, step, ip, lo, hi)
  {
    match step
    case Enter(pid) => EnterBalances(c, reqs, s, pid, ip, lo, hi);
    case Hash(pid) => HashBalances(c, reqs, s, pid, ip, lo, hi);
    case _ => OthersBalance(c, reqs, s, step, ip, lo, hi);
  }

  // Over any run, the evaluations for an address and those its admitted processes
  // still owe add up to its admissions. With an unusable hash there are none.
  lemma {:induction false} EvaluationsAreAdmissions(c: Config, reqs: Requests, s: Sys, steps: seq<Step>,
                                                    ip: L.Key, lo: int, hi: int)
    requires Coherent(reqs, s)
    ensures Coherent(reqs, Run(c, reqs, s, steps))
    ensures var events := L.Events(c.policy, s.limiter, LimiterSteps(c, reqs, s, steps));
            if Password.ParseHash(c.hash).Some? then
              Evaluations(c, reqs, s, steps, ip, lo, hi) + |Unhashed(reqs, Run(c, reqs, s, steps).phases, ip, lo, hi)|
              == L.Admissions(events, ip, lo, hi) + |Unhashed(reqs, s.phases, ip, lo, hi)|
            else Evaluations(c, reqs, s, steps, ip, lo, hi) == 0
    decreases |steps|
  {
    if steps != [] {
      var s' := Next(c, reqs, s, steps[0]);
      StepKeepsCoherent(c, reqs, s, steps[0]);
      EvaluationsAreAdmissions(c, reqs, s', steps[1..], ip, lo, hi);
      var lsteps := LimiterSteps(c, reqs, s, steps);
      assert lsteps[1..] == LimiterSteps(c, reqs, s', steps[1..]);
      L.CountsOfStep(c.policy, s.limiter, lsteps, ip, lo, hi);
      if Password.ParseHash(c.hash).Some? {
        EveryStepBalances(c, reqs, s, steps[0], ip, lo, hi);
      }
    }
  }

  // Successful logins of an address that finished at a time in [lo, hi).
  function Logins(c: Config, reqs: Requests, s: Sys, steps: seq<Step>, ip: L.Key, lo: int, hi: int): nat
    decreases |steps|
  {
    if steps == [] then 0
    else
      One(steps[0].Finish? && In(s, steps[0].pid, Matched) && reqs(steps[0].pid).ip == ip
          && L.Within(s.limiter.clock, lo, hi))
      + Logins(c, reqs, Next(c, reqs, s, steps[0]), steps[1..], ip, lo, hi)
  }

  lemma {:induction false} ResetsAreLogins(c: Config, reqs: Requests, s: Sys, steps: seq<Step>,
                                           ip: L.Key, lo: int, hi: int)
    ensures L.Resets(L.Events(c.policy, s.limiter, LimiterSteps(c, reqs, s, steps)), ip, lo, hi)
         == Logins(c, reqs, s, steps, ip, lo, hi)
    decreases |steps|
  {
    if steps != [] {
      var s' := Next(c, reqs, s, steps[0]);
      ResetsAreLogins(c, reqs, s', steps[1..], ip, lo, hi);
      var lsteps := LimiterSteps(c, reqs, s, steps);
      assert lsteps[1..] == LimiterSteps(c, reqs, s', steps[1..]);
      L.CountsOfStep(c.policy, s.limiter, lsteps, ip, lo, hi);
    }
  }

  function Start(clock: int): Sys {
    Sys(L.Sys(clock, map[], map[]), map[])
  }

  // argon2id runs for an address, let in during any stretch [lo, hi), at most
  // limit * (1 + ceil((hi - lo) / (window - d)) + r) times, where r counts the
  // successful logins of that stretch.
  lemma ArgonBound(c: Config, reqs: Requests, clock: int, steps: seq<Step>, d: int, ip: L.Key, lo: int, hi: int)
    requires c.policy.limit >= 1 && 0 <= d < c.policy.window && lo < hi
    requires L.Prompt(c.policy, d, Start(clock).limiter, LimiterSteps(c, reqs, Start(clock), steps))
    ensures Evaluations(c, reqs, Start(clock), steps, ip, lo, hi) <=
            L.Allowance(c.policy, d, hi - lo, Logins(c, reqs, Start(clock), steps, ip, lo, hi))
  {
    var s := Start(clock);
    var lsteps := LimiterSteps(c, reqs, s, steps);
    assert Unhashed(reqs, s.phases, ip, lo, hi) == {};
    EvaluationsAreAdmissions(c, reqs, s, steps, ip, lo, hi);
    L.AdmissionBound(c.policy, d, s.limiter, lsteps, ip, lo, hi);
    ResetsAreLogins(c, reqs, s, steps, ip, lo, hi);
  }

  // ---------------------------------------------------------------------------
  // A refused attempt says nothing about its password.

  // The processes whose password is looked at in a run.
  function Examined(c: Config, reqs: Requests, s: Sys, steps: seq<Step>): set<Pid>
    decreases |steps|
  {
    if steps == [] then {}
    else (if steps[0].Hash? && CanHash(s, steps[0].pid) then {steps[0].pid} else {})
         + Examined(c, reqs, Next(c, reqs, s, steps[0]), steps[1..])
  }

  // The same requests but for the passwords of processes outside `examined`.
  ghost predicate SameBut(reqs: Requests, other: Requests, examined: set<Pid>) {
    forall pid :: other(pid).ip == reqs(pid).ip && other(pid).next == reqs(pid).next
                  && (pid in examined ==> other(pid).password == reqs(pid).password)
  }

  // Two runs that differ only in passwords sent on attempts never let in have the
  // same responses and the same limiter, over any interleaving.
  lemma {:induction false} RefusalsHideThePassword(c: Config, reqs: Requests, other: Requests, s: Sys, steps: seq<Step>)
    requires SameBut(reqs, other, Examined(c, reqs, s, steps))
    ensures Run(c, other, s, steps) == Run(c, reqs, s, steps)
    decreases |steps|
  {
    if steps != [] {
      var s' := Next(c, reqs, s, steps[0]);
      assert Next(c, other, s, steps[0]) == s';
      assert Examined(c, reqs, s', steps[1..]) <= Examined(c, reqs, s, steps);
      RefusalsHideThePassword(c, reqs, other, s', steps[1..]);
    }
  }
}
