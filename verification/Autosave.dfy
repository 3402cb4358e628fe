/**
 An autosave taken apart into its store calls: load the row, test it against the
 clock, read it again, write it back whole. Other requests run in between.
 */
module Autosave {
  import opened Wrappers
  import opened Store
  import Editor
  import Slug
  import Text

  type Pid = nat

  // `stored` is what the load returned, `read` what the second read did.
  datatype Phase = Loaded(stored: Row) | Tested(stored: Row) | Reread(stored: Row, read: Row)

  datatype Proc = Proc(id: Id, slug: string, title: string, body: string, phase: Phase)

  datatype Sys = Sys(rows: Rows, clock: int, procs: map<Pid, Proc>)

  // An explicit save is one step: it writes every column itself, so what its own
  // read returned does not reach the table.
  datatype Step =
    | Tick(elapsed: nat)
    | Create(id: Id, row: Row)
    | Save(id: Id, row: Row)
    | Load(pid: Pid, id: Id, slug: string, title: string, body: string)
    | Test(pid: Pid)
    | ReadAgain(pid: Pid)
    | Write(pid: Pid)

  function Settle(rows: Rows, result: Result<Rows, StoreError>): Rows {
    match result
    case Ok(rows') => rows'
    case Err(_) => rows
  }

  function WrittenBack(p: Proc): Row
    requires p.phase.Reread?
  {
    Row(p.slug, p.title, p.body, p.phase.read.publishedAt)
  }

  predicate CanTest(s: Sys, pid: Pid) {
    pid in s.procs && s.procs[pid].phase.Loaded?
  }

  predicate CanReadAgain(s: Sys, pid: Pid) {
    pid in s.procs && s.procs[pid].phase.Tested?
  }

  predicate CanWrite(s: Sys, pid: Pid) {
    pid in s.procs && s.procs[pid].phase.Reread?
  }

  // A step that is not enabled changes nothing.
  function Next(s: Sys, step: Step): Sys {
    match step
    case Tick(elapsed) => s.(clock := s.clock + elapsed)
    case Create(id, row) => s.(rows := Settle(s.rows, Created(s.rows, id, row)))
    case Save(id, row) => s.(rows := Settle(s.rows, Updated(s.rows, id, row)))
    case Load(pid, id, slug, title, body) =>
      if pid in s.procs || id !in s.rows then s
      else s.(procs := s.procs[pid := Proc(id, slug, title, body, Loaded(s.rows[id]))])
    case Test(pid) =>
      if !CanTest(s, pid) then s
      else
        var p := s.procs[pid];
        if Editor.AutosaveRefuses(p.phase.stored.publishedAt, s.clock) then s.(procs := s.procs - {pid})
        else s.(procs := s.procs[pid := p.(phase := Tested(p.phase.stored))])
    case ReadAgain(pid) =>
      if !CanReadAgain(s, pid) then s
      else
        var p := s.procs[pid];
        if p.id !in s.rows then s.(procs := s.procs - {pid})
        else s.(procs := s.procs[pid := p.(phase := Reread(p.phase.stored, s.rows[p.id]))])
    case Write(pid) =>
      if !CanWrite(s, pid) then s
      else
        var p := s.procs[pid];
        s.(rows := Settle(s.rows, Updated(s.rows, p.id, WrittenBack(p))), procs := s.procs - {pid})
  }

  function Run(s: Sys, steps: seq<Step>): Sys
    decreases |steps|
  {
    if steps == [] then s else Run(Next(s, steps[0]), steps[1..])
  }

  // What the step puts in the row: an accepted explicit save of it, or the accepted
  // write of an autosave of it. A refused one puts nothing.
  function Wrote(s: Sys, step: Step, id: Id): Option<Row> {
    if step.Save? && step.id == id && Updated(s.rows, id, step.row).Ok? then Some(step.row)
    else if step.Write? && CanWrite(s, step.pid) && s.procs[step.pid].id == id
            && Updated(s.rows, id, WrittenBack(s.procs[step.pid])).Ok? then Some(WrittenBack(s.procs[step.pid]))
    else None
  }

  predicate WritesRow(s: Sys, step: Step, id: Id) {
    Wrote(s, step, id).Some?
  }

  // Between its load and its write, nothing else writes the row and the process is
  // neither restarted nor finished.
  predicate Undisturbed(s: Sys, steps: seq<Step>, pid: Pid, id: Id)
    decreases |steps|
  {
    steps == [] ||
    (&& !WritesRow(s, steps[0], id)
     && !(steps[0].Load? && steps[0].pid == pid)
     && Undisturbed(Next(s, steps[0]), steps[1..], pid, id))
  }

  // What an undisturbed autosave, begun at time t, knows of its row.
  predicate Knows(s: Sys, pid: Pid, id: Id, row: Row, t: int) {
    && id in s.rows && s.rows[id] == row && t <= s.clock
    && (pid in s.procs ==>
          var p := s.procs[pid];
          && p.id == id && p.phase.stored == row
          && (p.phase.Reread? ==> p.phase.read == row)
          && (!p.phase.Loaded? ==> !Visible(row.publishedAt, t)))
  }

  lemma StepKeepsKnowledge(s: Sys, step: Step, pid: Pid, id: Id, row: Row, t: int)
    requires Knows(s, pid, id, row, t)
    requires !WritesRow(s, step, id) && !(step.Load? && step.pid == pid)
    ensures Knows(Next(s, step), pid, id, row, t)
  {
  }

  lemma {:induction false} RunKeepsKnowledge(s: Sys, steps: seq<Step>, pid: Pid, id: Id, row: Row, t: int)
    requires Knows(s, pid, id, row, t) && Undisturbed(s, steps, pid, id)
    ensures Knows(Run(s, steps), pid, id, row, t)
    decreases |steps|
  {
    if steps != [] {
      StepKeepsKnowledge(s, steps[0], pid, id, row, t);
      RunKeepsKnowledge(Next(s, steps[0]), steps[1..], pid, id, row, t);
    }
  }

  // A date that was still to come at t and has come at `now`.
  predicate Arrives(date: Option<int>, t: int, now: int) {
    date.Some? && t < date.value <= now
  }

  // An autosave leaves the Publication Date alone, and changes a row the public can
  // see, only in runs where another write to the row, or the arrival of its
  // scheduled date, falls between the autosave's load and its write.
  lemma UndisturbedAutosaveIsSafe(s: Sys, load: Step, between: seq<Step>)
    requires load.Load? && load.pid !in s.procs && load.id in s.rows
    requires Undisturbed(Next(s, load), between, load.pid, load.id)
    ensures var before := Run(Next(s, load), between);
            var after := Next(before, Write(load.pid));
            && load.id in before.rows && load.id in after.rows
            && after.rows[load.id].publishedAt == s.rows[load.id].publishedAt
            && before.rows[load.id] == s.rows[load.id]
            && (CanWrite(before, load.pid) && Visible(before.rows[load.id].publishedAt, before.clock)
                ==> Arrives(s.rows[load.id].publishedAt, s.clock, before.clock))
  {
    RunKeepsKnowledge(Next(s, load), between, load.pid, load.id, s.rows[load.id], s.clock);
  }

  // ---------------------------------------------------------------------------
  // Exactly when it does harm.

  // What the last accepted write of the row in a run put there.
  function Last(s: Sys, steps: seq<Step>, id: Id): Option<Row>
    decreases |steps|
  {
    if steps == [] then None
    else
      var later := Last(Next(s, steps[0]), steps[1..], id);
      if later.Some? then later else Wrote(s, steps[0], id)
  }

  function OrElse(last: Option<Row>, row: Row): Row {
    if last.Some? then last.value else row
  }

  lemma WroteIsStored(s: Sys, step: Step, id: Id)
    requires id in s.rows
    ensures id in Next(s, step).rows && Next(s, step).rows[id] == OrElse(Wrote(s, step, id), s.rows[id])
    ensures Next(s, step).clock >= s.clock
  {
  }

  lemma {:induction false} LastIsStored(s: Sys, steps: seq<Step>, id: Id)
    requires id in s.rows
    ensures id in Run(s, steps).rows && Run(s, steps).rows[id] == OrElse(Last(s, steps, id), s.rows[id])
    ensures Run(s, steps).clock >= s.clock
    decreases |steps|
  {
    if steps != [] {
      WroteIsStored(s, steps[0], id);
      LastIsStored(Next(s, steps[0]), steps[1..], id);
    }
  }

  // Before its second read: what was loaded, and once tested, hidden at the load.
  predicate Early(s: Sys, pid: Pid, p: Proc, t: int) {
    && t <= s.clock
    && (pid in s.procs ==>
          || s.procs[pid] == p.(phase := Loaded(p.phase.stored))
          || (s.procs[pid] == p.(phase := Tested(p.phase.stored)) && !Visible(p.phase.stored.publishedAt, t)))
  }

  lemma StepKeepsEarly(s: Sys, step: Step, pid: Pid, p: Proc, t: int)
    requires Early(s, pid, p, t)
    requires step != ReadAgain(pid) && !(step.Load? && step.pid == pid)
    ensures Early(Next(s, step), pid, p, t)
  {
  }

  lemma {:induction false} RunKeepsEarly(s: Sys, steps: seq<Step>, pid: Pid, p: Proc, t: int)
    requires Early(s, pid, p, t)
    requires forall i :: 0 <= i < |steps| ==> steps[i] != ReadAgain(pid) && !(steps[i].Load? && steps[i].pid == pid)
    ensures Early(Run(s, steps), pid, p, t)
    decreases |steps|
  {
    if steps != [] {
      StepKeepsEarly(s, steps[0], pid, p, t);
      forall i | 0 <= i < |steps[1..]|
        ensures steps[1..][i] != ReadAgain(pid) && !(steps[1..][i].Load? && steps[1..][i].pid == pid)
      {
        assert steps[1..][i] == steps[i + 1];
      }
      RunKeepsEarly(Next(s, steps[0]), steps[1..], pid, p, t);
    }
  }

  lemma StepKeepsReread(s: Sys, step: Step, pid: Pid)
    requires CanWrite(s, pid) && step != Write(pid)
    ensures pid in Next(s, step).procs && Next(s, step).procs[pid] == s.procs[pid]
  {
  }

  // After its second read a process waits unchanged for its write.
  lemma {:induction false} RunKeepsReread(s: Sys, steps: seq<Step>, pid: Pid)
    requires CanWrite(s, pid) && Write(pid) !in steps
    ensures pid in Run(s, steps).procs && Run(s, steps).procs[pid] == s.procs[pid]
    decreases |steps|
  {
    if steps != [] {
      StepKeepsReread(s, steps[0], pid);
      RunKeepsReread(Next(s, steps[0]), steps[1..], pid);
    }
  }

  // An autosave that is loaded, runs to its second read and then to its write.
  datatype Course = Course(start: Sys, load: Step, first: seq<Step>, second: seq<Step>) {
    predicate Fits() {
      && load.Load? && load.pid !in start.procs && load.id in start.rows
      && (forall i :: 0 <= i < |first| ==>
            first[i] != ReadAgain(load.pid) && !(first[i].Load? && first[i].pid == load.pid))
      && Write(load.pid) !in second
      && CanReadAgain(BeforeRead(), load.pid)
    }

    function BeforeRead(): Sys
      requires load.Load?
    {
      Run(Next(start, load), first)
    }

    function AfterRead(): Sys
      requires load.Load?
    {
      Next(BeforeRead(), ReadAgain(load.pid))
    }

    function BeforeWrite(): Sys
      requires load.Load?
    {
      Run(AfterRead(), second)
    }

    function AfterWrite(): Sys
      requires load.Load?
    {
      Next(BeforeWrite(), Write(load.pid))
    }

    // The last accepted writes of the row by others, before and after the second read.
    function LastBeforeRead(): Option<Row>
      requires load.Load?
    {
      Last(Next(start, load), first, load.id)
    }

    function LastAfterRead(): Option<Row>
      requires load.Load?
    {
      Last(AfterRead(), second, load.id)
    }

    // The row the second read returns.
    function Read(): Row
      requires load.Load? && load.id in start.rows
    {
      OrElse(LastBeforeRead(), start.rows[load.id])
    }

    // The row the write finds, and the one it asks for.
    function Found(): Row
      requires load.Load? && load.id in start.rows
    {
      OrElse(LastAfterRead(), Read())
    }

    function Asked(): Row
      requires load.Load? && load.id in start.rows
    {
      Row(load.slug, load.title, load.body, Read().publishedAt)
    }

    predicate Accepted()
      requires load.Load? && load.id in start.rows
    {
      Updated(BeforeWrite().rows, load.id, Asked()).Ok?
    }
  }

  // How a course ends: it reaches its write, which finds what the last accepted
  // write left and stores what it asks for if the schema accepts that.
  lemma CourseEnds(c: Course)
    requires c.Fits()
    ensures var id, s := c.load.id, c.BeforeWrite();
            && CanWrite(s, c.load.pid) && id in s.rows && s.rows[id] == c.Found() && s.clock >= c.start.clock
            && c.AfterWrite().rows == (if c.Accepted() then s.rows[id := c.Asked()] else s.rows)
            && !Visible(c.start.rows[id].publishedAt, c.start.clock)
  {
    var id, pid, t := c.load.id, c.load.pid, c.start.clock;
    var s1 := Next(c.start, c.load);
    var p := Proc(id, c.load.slug, c.load.title, c.load.body, Loaded(c.start.rows[id]));
    RunKeepsEarly(s1, c.first, pid, p, t);
    LastIsStored(s1, c.first, id);
    assert c.AfterRead().procs[pid] == p.(phase := Reread(c.start.rows[id], c.Read()));
    LastIsStored(c.AfterRead(), c.second, id);
    RunKeepsReread(c.AfterRead(), c.second, pid);
    assert WrittenBack(c.BeforeWrite().procs[pid]) == c.Asked();
  }

  // The write alters the stored Publication Date exactly when it is accepted and the
  // last accepted write of the row since the second read carried another date. It
  // changes a row the public can see exactly when it is accepted, asks for something
  // other than it finds, and what it finds is public: through an accepted write
  // since the load or, without one, because the loaded date has arrived.
  lemma HarmIff(c: Course)
    requires c.Fits()
    ensures var id, s, s' := c.load.id, c.BeforeWrite(), c.AfterWrite();
            && id in s.rows && id in s'.rows
            && (s'.rows[id].publishedAt != s.rows[id].publishedAt <==>
                  && c.Accepted() && c.LastAfterRead().Some?
                  && c.LastAfterRead().value.publishedAt != c.Read().publishedAt)
            && (Visible(s.rows[id].publishedAt, s.clock) && s'.rows[id] != s.rows[id] <==>
                  && c.Accepted() && c.Asked() != c.Found()
                  && if c.LastBeforeRead().None? && c.LastAfterRead().None?
                     then Arrives(c.start.rows[id].publishedAt, c.start.clock, s.clock)
                     else Visible(c.Found().publishedAt, s.clock))
  {
    CourseEnds(c);
  }

  // ---------------------------------------------------------------------------
  // The store calls of one autosave with nothing in between are the atomic one: the
  // process goes through exactly when the request is answered with Saved or refused
  // by the schema, and the table is the same either way.
  lemma UninterruptedIsAtomic(s: Sys, pid: Pid, req: Editor.Request)
    requires pid !in s.procs && req.id.Some?
    ensures Run(s, [Load(pid, req.id.value, req.slug, req.title, req.body), Test(pid), ReadAgain(pid), Write(pid)])
         == s.(rows := Editor.AutosaveOf(s.rows, req, s.clock).0)
  {
    var id := req.id.value;
    var load := Load(pid, id, req.slug, req.title, req.body);
    RunOfFour(s, load, Test(pid), ReadAgain(pid), Write(pid));
    if id in s.rows {
      var p := Proc(id, req.slug, req.title, req.body, Loaded(s.rows[id]));
      var s1 := Next(s, load);
      assert s1 == s.(procs := s.procs[pid := p]) && s1.procs - {pid} == s.procs;
      if !Editor.AutosaveRefuses(s.rows[id].publishedAt, s.clock) {
        var s3 := Next(Next(s1, Test(pid)), ReadAgain(pid));
        assert s3 == s.(procs := s.procs[pid := p.(phase := Reread(s.rows[id], s.rows[id]))]);
        assert s3.procs - {pid} == s.procs;
      }
    }
  }

  // And the one step of an explicit save is the atomic save.
  lemma SaveIsAtomic(s: Sys, id: Id, req: Editor.Request, offset: int)
    requires Editor.Wanted(req, s.clock, offset).Some? && req.id == Some(id)
    ensures var row := Editor.Wanted(req, s.clock, offset).value;
            && Next(s, Save(id, row)) == s.(rows := Editor.SaveAs(s.rows, req, None, s.clock, offset).0)
            && Next(s, Create(id, row)) == s.(rows := Editor.SaveAs(s.rows, req, Some(id), s.clock, offset).0)
  {
  }

  // ---------------------------------------------------------------------------
  // Each exception does happen.

  lemma {:induction false} RunOfAppend(s: Sys, steps: seq<Step>, more: seq<Step>)
    ensures Run(s, steps + more) == Run(Run(s, steps), more)
    decreases |steps|
  {
    if steps == [] {
      assert steps + more == more;
    } else {
      assert (steps + more)[1..] == steps[1..] + more;
      RunOfAppend(Next(s, steps[0]), steps[1..], more);
    }
  }

  lemma RunOfFour(s: Sys, a: Step, b: Step, c: Step, d: Step)
    ensures Run(s, [a, b, c, d]) == Next(Next(Next(Next(s, a), b), c), d)
  {
    assert [a, b, c, d] == [a] + ([b] + ([c] + [d]));
    RunOfAppend(s, [a], [b] + ([c] + [d]));
    RunOfAppend(Next(s, a), [b], [c] + [d]);
    RunOfAppend(Next(Next(s, a), b), [c], [d]);
  }

  function Hidden(): Row {
    Row("a", "t", "draft", None)
  }

  function Public(): Row {
    Row("a", "t", "final", Some(0))
  }

  lemma WordA()
    ensures Slug.IsSlug("a") && HasTitle("t")
  {
    Text.SplitWhole("a", '-');
    assert "t"[0] != ' ';
  }

  // A save that publishes between the second read and the write is undone: the
  // write puts the missing date back over it.
  lemma SaveBeforeWriteLosesItsDate()
    ensures var s := Sys(map[0 := Hidden()], 0, map[]);
            var before := Run(s, [Load(9, 0, "a", "t", "typing"), Test(9), ReadAgain(9), Save(0, Public())]);
            && Visible(before.rows[0].publishedAt, before.clock)
            && Next(before, Write(9)).rows[0] == Row("a", "t", "typing", None)
  {
    WordA();
    var s := Sys(map[0 := Hidden()], 0, map[]);
    RunOfFour(s, Load(9, 0, "a", "t", "typing"), Test(9), ReadAgain(9), Save(0, Public()));
    assert s.rows[0 := Public()] == map[0 := Public()];
  }

  // A save that publishes between the load and the second read is kept, but its
  // text is replaced by the autosave's in front of the public.
  lemma SaveBeforeReadIsOverwritten()
    ensures var s := Sys(map[0 := Hidden()], 0, map[]);
            var before := Run(s, [Load(9, 0, "a", "t", "typing"), Test(9), Save(0, Public()), ReadAgain(9)]);
            && Visible(before.rows[0].publishedAt, before.clock)
            && before.rows[0].body == "final"
            && Next(before, Write(9)).rows[0] == Row("a", "t", "typing", Some(0))
  {
    WordA();
    var s := Sys(map[0 := Hidden()], 0, map[]);
    RunOfFour(s, Load(9, 0, "a", "t", "typing"), Test(9), Save(0, Public()), ReadAgain(9));
  }

  // A scheduled date that arrives after the test does not stop the write.
  lemma ArrivalDoesNotStopTheWrite()
    ensures var s := Sys(map[0 := Row("a", "t", "final", Some(5))], 0, map[]);
            var before := Run(s, [Load(9, 0, "a", "t", "typing"), Test(9), Tick(5), ReadAgain(9)]);
            && Undisturbed(Next(s, Load(9, 0, "a", "t", "typing")), [Test(9), Tick(5), ReadAgain(9)], 9, 0)
            && Visible(before.rows[0].publishedAt, before.clock)
            && Next(before, Write(9)).rows[0].body == "typing"
  {
    WordA();
    var s := Sys(map[0 := Row("a", "t", "final", Some(5))], 0, map[]);
    RunOfFour(s, Load(9, 0, "a", "t", "typing"), Test(9), Tick(5), ReadAgain(9));
    var s1 := Next(s, Load(9, 0, "a", "t", "typing"));
    assert [Test(9), Tick(5), ReadAgain(9)][1..] == [Tick(5), ReadAgain(9)];
    assert [Tick(5), ReadAgain(9)][1..] == [ReadAgain(9)] && [ReadAgain(9)][1..] == [];
    assert Undisturbed(Next(Next(s1, Test(9)), Tick(5)), [ReadAgain(9)], 9, 0);
  }
}
