/**
 The editor: explicit saves and autosaves of writing whose only state is its
 Publication Date. Requests are atomic here; Autosave takes one apart into its
 store calls.
 */
module Editor {
  import opened Wrappers
  import opened Store
  import opened Slug
  import Calendar

  // ---------------------------------------------------------------------------
  // The places that ask whether writing is public, besides the store's own filter.

  // `IsPublished`
  predicate IsPublished(publishedAt: Option<int>, now: int) {
    publishedAt != None && !(publishedAt.value > now)
  }

  datatype State = Draft | Scheduled | Published

  // The word the list screens show.
  function StateOf(publishedAt: Option<int>, now: int): State {
    if publishedAt == None then Draft
    else if publishedAt.value > now then Scheduled
    else Published
  }

  // The test with which autosave refuses.
  predicate AutosaveRefuses(publishedAt: Option<int>, now: int) {
    publishedAt != None && !(publishedAt.value > now)
  }

  // ---------------------------------------------------------------------------
  // Forms and requests.

  // The date field: what was typed, or the text of an instant in the zone.
  datatype Field = Typed(text: string) | Shown(instant: int)

  datatype Form = Form(slug: string, title: string, body: string, publishedAt: Field, autosave: bool)

  function FormOf(row: Row, now: int): Form {
    Form(row.slug, row.title, row.body,
         if row.publishedAt.None? then Typed("") else Shown(row.publishedAt.value),
         row.publishedAt == None || row.publishedAt.value > now)
  }

  // `id` is None when the path value is not an ID at all.
  datatype Request = Request(id: Option<Id>, slug: string, title: string, body: string,
                             publishedAt: string, publishNow: bool)

  datatype FieldName = SlugField | TitleField | DateField

  datatype Response =
    | Redirect(id: Id)
    | Invalid(form: Form, field: FieldName)
    | Missing
    | Failure
    | PublishedMarker
    | NotSavedMarker(reason: FieldName)
    | SavedMarker

  function FieldOf(e: StoreError): Option<FieldName> {
    match e
    case SlugTaken => Some(SlugField)
    case SlugInvalid => Some(SlugField)
    case TitleRequired => Some(TitleField)
    case _ => None
  }

  // `parsePublishedAt`: an empty field is no date, anything else must parse.
  function ParsePublishedAt(value: string, offset: int): Result<Option<int>, ()> {
    if value == "" then Ok(None)
    else
      match Calendar.Parse(value, offset)
      case None => Err(())
      case Some(t) => Ok(Some(t))
  }

  // The form as typed, and the row it asks for.
  function Submitted(req: Request, isNew: bool, now: int, offset: int): (Form, Result<Row, ()>) {
    var typed := Form(req.slug, req.title, req.body, Typed(req.publishedAt), false);
    if !isNew && req.id.None? then (typed, Err(()))
    else
      match ParsePublishedAt(req.publishedAt, offset)
      case Err(_) => (typed, Err(()))
      case Ok(date) =>
        (typed.(autosave := date == None || date.value > now),
         Ok(Row(req.slug, req.title, req.body, date)))
  }

  // ---------------------------------------------------------------------------
  // What each request does to the table.

  function Rejected(form: Form, e: StoreError): Response {
    match FieldOf(e)
    case Some(field) => Invalid(form, field)
    case None => if e == NotFound then Missing else Failure
  }

  function SaveAs(rows: Rows, req: Request, target: Option<Id>, now: int, offset: int): (Rows, Response) {
    var (typed, submitted) := Submitted(req, target.Some?, now, offset);
    if submitted.Err? then (rows, Invalid(typed, DateField))
    else
      var row := if req.publishNow then submitted.value.(publishedAt := Some(now)) else submitted.value;
      var form := if req.publishNow then typed.(publishedAt := Shown(now)) else typed;
      var id := if target.Some? then target.value else req.id.value;
      match if target.Some? then Created(rows, id, row) else Updated(rows, id, row)
      case Ok(rows') => (rows', Redirect(id))
      case Err(e) => (rows, Rejected(form, e))
  }

  function AutosaveOf(rows: Rows, req: Request, now: int): (Rows, Response) {
    if req.id.None? || req.id.value !in rows then (rows, Missing)
    else
      var id := req.id.value;
      var stored := rows[id];
      if AutosaveRefuses(stored.publishedAt, now) then (rows, PublishedMarker)
      else
        match Updated(rows, id, Row(req.slug, req.title, req.body, stored.publishedAt))
        case Ok(rows') => (rows', SavedMarker)
        case Err(e) => (rows, if FieldOf(e).Some? then NotSavedMarker(FieldOf(e).value) else Failure)
  }

  class Handler {
    const store: Store
    const offset: int

    constructor (store: Store, offset: int)
      ensures this.store == store && this.offset == offset
    {
      this.store := store;
      this.offset := offset;
    }

    // The stored row is read again, takes the new fields, and is written whole.
    method Update(id: Id, row: Row, withDate: bool) returns (r: Result<(), StoreError>)
      modifies store
      ensures var before := old(store.rows);
              var row' := if withDate || id !in before then row
                          else row.(publishedAt := before[id].publishedAt);
              match Updated(before, id, row')
              case Ok(after) => r == Ok(()) && store.rows == after
              case Err(e) => r == Err(e) && store.rows == before
    {
      var found := store.ById(id, Author);
      if found.Err? {
        return Err(found.error);
      }
      var p := found.value;
      p := p.(slug := row.slug, title := row.title, body := row.body);
      if withDate {
        p := p.(publishedAt := row.publishedAt);
      }
      r := store.Update(id, p);
    }

    // `target` is the ID a new row is given, None for a row that exists.
    method Save(req: Request, target: Option<Id>, now: int) returns (resp: Response)
      modifies store
      ensures (store.rows, resp) == SaveAs(old(store.rows), req, target, now, offset)
    {
      var (form, submitted) := Submitted(req, target.Some?, now, offset);
      if submitted.Err? {
        return Invalid(form, DateField);
      }
      var rec := submitted.value;
      if req.publishNow {
        rec := rec.(publishedAt := Some(now));
        form := form.(publishedAt := Shown(now));
      }
      var id := if target.Some? then target.value else req.id.value;
      var r: Result<(), StoreError>;
      if target.Some? {
        r := store.Create(id, rec);
      } else {
        r := Update(id, rec, true);
      }
      if r.Err? {
        return Rejected(form, r.error);
      }
      return Redirect(id);
    }

    method Autosave(req: Request, now: int) returns (resp: Response)
      modifies store
      ensures (store.rows, resp) == AutosaveOf(old(store.rows), req, now)
    {
      if req.id.None? {
        return Missing;
      }
      var id := req.id.value;
      var found := store.ById(id, Author);
      if found.Err? {
        return Missing;
      }
      var stored := found.value;
      if stored.publishedAt != None && !(stored.publishedAt.value > now) {
        return PublishedMarker;
      }
      stored := stored.(slug := req.slug, title := req.title, body := req.body);
      var r := Update(id, stored, false);
      if r.Err? {
        return if FieldOf(r.error).Some? then NotSavedMarker(FieldOf(r.error).value) else Failure;
      }
      return SavedMarker;
    }
  }

  // ---------------------------------------------------------------------------
  // Runs of whole requests under one clock that never goes back.

  datatype Sys = Sys(rows: Rows, clock: int)

  datatype Step =
    | Tick(elapsed: nat)
    | Create(id: Id, req: Request)
    | Save(req: Request)
    | Autosave(req: Request)

  function Answer(s: Sys, step: Step, offset: int): (Rows, Option<Response>) {
    match step
    case Tick(_) => (s.rows, None)
    case Create(id, req) =>
      var (rows, resp) := SaveAs(s.rows, req, Some(id), s.clock, offset);
      (rows, Some(resp))
    case Save(req) =>
      var (rows, resp) := SaveAs(s.rows, req, None, s.clock, offset);
      (rows, Some(resp))
    case Autosave(req) =>
      var (rows, resp) := AutosaveOf(s.rows, req, s.clock);
      (rows, Some(resp))
  }

  function Next(s: Sys, step: Step, offset: int): Sys {
    Sys(Answer(s, step, offset).0, s.clock + if step.Tick? then step.elapsed else 0)
  }

  function Run(s: Sys, steps: seq<Step>, offset: int): Sys
    decreases |steps|
  {
    if steps == [] then s else Run(Next(s, steps[0], offset), steps[1..], offset)
  }

  // An explicit save of the row.
  predicate Saves(step: Step, id: Id) {
    step.Save? && step.req.id == Some(id)
  }

  predicate NeverSaved(steps: seq<Step>, id: Id) {
    forall i :: 0 <= i < |steps| ==> !Saves(steps[i], id)
  }

  // The five tests say the same thing.
  lemma PublicationAgrees(row: Row, now: int)
    ensures var d := row.publishedAt;
            && (AutosaveRefuses(d, now) <==> Visible(d, now))
            && (IsPublished(d, now) <==> Visible(d, now))
            && (StateOf(d, now) == Published <==> Visible(d, now))
            && (StateOf(d, now) == Draft <==> d == None)
            && (FormOf(row, now).autosave <==> !Visible(d, now))
  {
  }

  // The date field holds nothing, or a date that exists.
  predicate DateReadable(req: Request, offset: int) {
    req.publishedAt == "" || Calendar.Parse(req.publishedAt, offset).Some?
  }

  // The date it holds.
  function DateTyped(req: Request, offset: int): Option<int> {
    if req.publishedAt == "" then None else Calendar.Parse(req.publishedAt, offset)
  }

  // The row a save asks for, if its date field can be read.
  function Wanted(req: Request, now: int, offset: int): Option<Row> {
    if !DateReadable(req, offset) then None
    else Some(Row(req.slug, req.title, req.body, if req.publishNow then Some(now) else DateTyped(req, offset)))
  }

  // A date field that cannot be read stores nothing, publishing now or not, and the
  // form comes back as typed against that field.
  lemma UnreadableDateIsRefused(rows: Rows, req: Request, target: Option<Id>, now: int, offset: int)
    requires req.publishedAt != "" && Calendar.Parse(req.publishedAt, offset) == None
    ensures SaveAs(rows, req, target, now, offset) ==
            (rows, Invalid(Form(req.slug, req.title, req.body, Typed(req.publishedAt), false), DateField))
  {
  }

  // The date an accepted save stores: the clock's when publishing now, otherwise
  // exactly what the field says, and none only for an empty field.
  lemma StoredDate(rows: Rows, req: Request, target: Option<Id>, now: int, offset: int)
    requires SaveAs(rows, req, target, now, offset).1.Redirect?
    ensures var (rows', resp) := SaveAs(rows, req, target, now, offset);
            && resp.id in rows'
            && var date := rows'[resp.id].publishedAt;
            && (date == None <==> req.publishedAt == "" && !req.publishNow)
            && (req.publishNow ==> date == Some(now))
            && (!req.publishNow && req.publishedAt != "" ==> date == Calendar.Parse(req.publishedAt, offset))
  {
  }

  // An explicit save succeeds exactly when its date can be read, its ID names what
  // it should, and the table would be valid with the row in it. Then the table is
  // that one; otherwise nothing is stored. A form that comes back is as it was typed,
  // but for the date that publishing now filled in.
  lemma SaveOutcome(rows: Rows, req: Request, target: Option<Id>, now: int, offset: int)
    requires Valid(rows)
    ensures var (rows', resp) := SaveAs(rows, req, target, now, offset);
            var id, wanted := if target.Some? then target else req.id, Wanted(req, now, offset);
            && (resp.Redirect? <==>
                  && wanted.Some? && id.Some? && (target.Some? <==> id.value !in rows)
                  && Valid(rows[id.value := wanted.value]))
            && (resp.Redirect? ==> resp.id == id.value && rows' == rows[id.value := wanted.value])
            && (!resp.Redirect? ==> rows' == rows)
            && (resp == Missing <==> wanted.Some? && id.Some? && target.None? && id.value !in rows)
            && (resp == Failure <==> wanted.Some? && target.Some? && target.value in rows)
            && (resp.Invalid? ==>
                  && (resp.form.slug, resp.form.title, resp.form.body) == (req.slug, req.title, req.body)
                  && resp.form.publishedAt == if req.publishNow && id.Some? && wanted.Some? then Shown(now)
                                              else Typed(req.publishedAt))
  {
    var id, wanted := if target.Some? then target else req.id, Wanted(req, now, offset);
    if wanted.Some? && id.Some? {
      WrittenIffValid(rows, id.value, wanted.value);
    }
  }

  // The field a refusal is shown against, and whether the form keeps autosaving.
  lemma SaveRefusal(rows: Rows, req: Request, target: Option<Id>, now: int, offset: int)
    requires SaveAs(rows, req, target, now, offset).1.Invalid?
    ensures var resp := SaveAs(rows, req, target, now, offset).1;
            var id := if target.Some? then target else req.id;
            && (resp.field == DateField <==> !DateReadable(req, offset) || id.None?)
            && (resp.field != DateField ==>
                  && (resp.field == SlugField <==>
                        !IsSlug(req.slug) || (HasTitle(req.title) && !SlugFree(rows, id.value, req.slug)))
                  && (resp.field == TitleField <==> IsSlug(req.slug) && !HasTitle(req.title)))
            && (resp.form.autosave <==>
                  DateReadable(req, offset) && id.Some? && !Visible(DateTyped(req, offset), now))
  {
  }

  // The same for autosave, which a valid table never fails.
  lemma AutosaveRefusal(rows: Rows, req: Request, now: int)
    ensures var resp := AutosaveOf(rows, req, now).1;
            && !resp.Failure?
            && (resp.NotSavedMarker? ==>
                  && req.id.Some?
                  && (resp.reason == SlugField <==>
                        !IsSlug(req.slug) || (HasTitle(req.title) && !SlugFree(rows, req.id.value, req.slug)))
                  && (resp.reason == TitleField <==> IsSlug(req.slug) && !HasTitle(req.title)))
  {
  }

  // An autosave succeeds exactly when the row exists, the public cannot see it, and
  // the table would be valid with the typed text under the stored date.
  lemma AutosaveOutcome(rows: Rows, req: Request, now: int)
    requires Valid(rows)
    ensures var (rows', resp) := AutosaveOf(rows, req, now);
            var known := req.id.Some? && req.id.value in rows;
            var hidden := known && !Visible(rows[req.id.value].publishedAt, now);
            && (resp == Missing <==> !known)
            && (resp == PublishedMarker <==> known && !hidden)
            && (resp == SavedMarker <==>
                  hidden && Valid(rows[req.id.value := Row(req.slug, req.title, req.body,
                                                           rows[req.id.value].publishedAt)]))
            && rows' == if resp == SavedMarker
                        then rows[req.id.value := Row(req.slug, req.title, req.body, rows[req.id.value].publishedAt)]
                        else rows
  {
    if req.id.Some? && req.id.value in rows {
      WrittenIffValid(rows, req.id.value, Row(req.slug, req.title, req.body, rows[req.id.value].publishedAt));
    }
  }

  // One step: a request answered with anything but success leaves the table alone,
  // and a successful one writes its own row and no other.
  lemma StepWrites(s: Sys, step: Step, offset: int)
    ensures var (rows, resp) := Answer(s, step, offset);
            if resp.Some? && (resp.value.Redirect? || resp.value.SavedMarker?) then
              !step.Tick? &&
              var id := if step.Create? then Some(step.id) else step.req.id;
              id.Some? && id.value in rows && rows == s.rows[id.value := rows[id.value]]
            else rows == s.rows
  {
  }

  // On a valid table, exactly what each step leaves: what an autosave or a save of
  // this outcome asks for, or the table it found; and only time passing moves the clock.
  lemma StepStores(s: Sys, step: Step, offset: int)
    requires Valid(s.rows)
    ensures var s' := Next(s, step, offset);
            && s'.clock == s.clock + (if step.Tick? then step.elapsed else 0)
            && match step
               case Tick(_) => s'.rows == s.rows
               case Create(id, req) =>
                 var wanted := Wanted(req, s.clock, offset);
                 var fits := wanted.Some? && id !in s.rows && Valid(s.rows[id := wanted.value]);
                 s'.rows == if fits then s.rows[id := wanted.value] else s.rows
               case Save(req) =>
                 var wanted := Wanted(req, s.clock, offset);
                 var fits := wanted.Some? && req.id.Some? && req.id.value in s.rows
                             && Valid(s.rows[req.id.value := wanted.value]);
                 s'.rows == if fits then s.rows[req.id.value := wanted.value] else s.rows
               case Autosave(req) =>
                 if req.id.Some? && req.id.value in s.rows
                    && !Visible(s.rows[req.id.value].publishedAt, s.clock)
                 then
                   var id := req.id.value;
                   var row := Row(req.slug, req.title, req.body, s.rows[id].publishedAt);
                   s'.rows == if Valid(s.rows[id := row]) then s.rows[id := row] else s.rows
                 else s'.rows == s.rows
  {
    match step
    case Tick(_) =>
    case Create(id, req) => SaveOutcome(s.rows, req, Some(id), s.clock, offset);
    case Save(req) => SaveOutcome(s.rows, req, None, s.clock, offset);
    case Autosave(req) => AutosaveOutcome(s.rows, req, s.clock);
  }

  // Over any run without an explicit save of it, a row keeps its Publication Date;
  // so a Draft stays one whatever is typed, and a row the public can see keeps its
  // slug, title and body too.
  lemma {:induction false} OnlySavesPublishOrChange(s: Sys, steps: seq<Step>, offset: int, id: Id)
    requires id in s.rows && NeverSaved(steps, id)
    ensures var s' := Run(s, steps, offset);
            && id in s'.rows && s'.clock >= s.clock
            && s'.rows[id].publishedAt == s.rows[id].publishedAt
            && (Visible(s.rows[id].publishedAt, s.clock) ==> s'.rows[id] == s.rows[id])
    decreases |steps|
  {
    if steps != [] {
      StepWrites(s, steps[0], offset);
      assert !Saves(steps[0], id);
      var s1 := Next(s, steps[0], offset);
      forall i | 0 <= i < |steps[1..]| ensures !Saves(steps[1..][i], id) {
        assert steps[1..][i] == steps[i + 1];
      }
      OnlySavesPublishOrChange(s1, steps[1..], offset, id);
    }
  }

  // Every table reached from a valid one is valid.
  lemma {:induction false} TablesStayValid(s: Sys, steps: seq<Step>, offset: int)
    requires Valid(s.rows)
    ensures Valid(Run(s, steps, offset).rows)
    decreases |steps|
  {
    if steps != [] {
      StepKeepsValid(s, steps[0], offset);
      TablesStayValid(Next(s, steps[0], offset), steps[1..], offset);
    }
  }

  lemma StepKeepsValid(s: Sys, step: Step, offset: int)
    requires Valid(s.rows)
    ensures Valid(Next(s, step, offset).rows)
  {
    forall id: Id, row: Row ensures Written(s.rows, id, row).Ok? ==> Valid(Written(s.rows, id, row).value) {
      WrittenIffValid(s.rows, id, row);
    }
  }

  // ---------------------------------------------------------------------------
  // The date field over whole runs.

  // Every stored date can be shown in the field, and one that has not arrived is
  // the start of a minute of the zone.
  predicate DatesKept(s: Sys, offset: int) {
    forall id :: id in s.rows && s.rows[id].publishedAt.Some? ==>
      var d := s.rows[id].publishedAt.value;
      Calendar.Showable(d, offset) && (d > s.clock ==> Calendar.MinuteAligned(d, offset))
  }

  // The clock shows a local year from 0 to 9999 throughout.
  predicate ClockShowable(s: Sys, steps: seq<Step>, offset: int)
    decreases |steps|
  {
    Calendar.Showable(s.clock, offset) &&
    (steps == [] || ClockShowable(Next(s, steps[0], offset), steps[1..], offset))
  }

  lemma StepKeepsDates(s: Sys, step: Step, offset: int)
    requires DatesKept(s, offset) && Calendar.Showable(s.clock, offset)
    ensures DatesKept(Next(s, step, offset), offset)
  {
    if !step.Tick? && ParsePublishedAt(step.req.publishedAt, offset).Ok? && step.req.publishedAt != "" {
      Calendar.ParsedIsAligned(step.req.publishedAt, offset);
    }
  }

  lemma {:induction false} DatesStayKept(s: Sys, steps: seq<Step>, offset: int)
    requires DatesKept(s, offset) && ClockShowable(s, steps, offset)
    ensures DatesKept(Run(s, steps, offset), offset)
    decreases |steps|
  {
    if steps != [] {
      StepKeepsDates(s, steps[0], offset);
      DatesStayKept(Next(s, steps[0], offset), steps[1..], offset);
    }
  }

  function FieldText(f: Field, offset: int): string
    requires f.Shown? ==> Calendar.Showable(f.instant, offset)
  {
    match f
    case Typed(text) => text
    case Shown(t) => Calendar.Format(t, offset)
  }

  // Saving a form exactly as the editor shows it.
  function Unchanged(id: Id, form: Form, offset: int): Request
    requires form.publishedAt.Shown? ==> Calendar.Showable(form.publishedAt.instant, offset)
  {
    Request(Some(id), form.slug, form.title, form.body, FieldText(form.publishedAt, offset), false)
  }

  // After any run from an empty table, saving a row's form unchanged is accepted,
  // leaves slug, title and body, moves the date back by less than a minute and never
  // forward, and leaves draft, scheduled or published as it was.
  lemma UnchangedSaveKeepsState(clock: int, steps: seq<Step>, offset: int, id: Id)
    requires ClockShowable(Sys(map[], clock), steps, offset)
    requires id in Run(Sys(map[], clock), steps, offset).rows
    ensures var s := Run(Sys(map[], clock), steps, offset);
            var row := s.rows[id];
            && (row.publishedAt.Some? ==> Calendar.Showable(row.publishedAt.value, offset))
            && var (rows, resp) := SaveAs(s.rows, Unchanged(id, FormOf(row, s.clock), offset), None, s.clock, offset);
            && resp == Redirect(id) && id in rows && rows == s.rows[id := rows[id]]
            && rows[id] == row.(publishedAt := rows[id].publishedAt)
            && rows[id].publishedAt.Some? == row.publishedAt.Some?
            && StateOf(rows[id].publishedAt, s.clock) == StateOf(row.publishedAt, s.clock)
            && (row.publishedAt.Some? ==>
                  row.publishedAt.value - Calendar.MINUTE < rows[id].publishedAt.value <= row.publishedAt.value)
  {
    var s0 := Sys(map[], clock);
    var s := Run(s0, steps, offset);
    var row := s.rows[id];
    TablesStayValid(s0, steps, offset);
    DatesStayKept(s0, steps, offset);
    assert Violation(s.rows, id, row) == None;
    if row.publishedAt.Some? {
      var d := row.publishedAt.value;
      Calendar.EditRoundTrip(d, offset);
      Calendar.TruncatedIsClose(d, offset);
      assert |Calendar.Format(d, offset)| > 0;
      assert Violation(s.rows, id, row.(publishedAt := Some(Calendar.Truncated(d, offset)))) == None;
    }
  }
}
