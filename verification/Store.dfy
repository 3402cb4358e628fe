/**
 The stored writing, and the constraints the schema puts on it. Posts and Pages
 have the same columns and constraints; this is one such table.
 */
module Store {
  import opened Wrappers
  import opened Slug
  import opened Text

  type Id = nat

  // `publishedAt` None is a Draft; instants are microseconds.
  datatype Row = Row(slug: string, title: string, body: string, publishedAt: Option<int>)

  type Rows = map<Id, Row>

  // `Fault` is any error the caller cannot act on.
  datatype StoreError = NotFound | SlugTaken | SlugInvalid | TitleRequired | Fault

  // Who reads: the public sees what has been published by now, the Author everything.
  datatype Audience = Public(now: int) | Author

  // The filter of every public read.
  predicate Visible(publishedAt: Option<int>, now: int) {
    publishedAt.Some? && publishedAt.value <= now
  }

  // `length(btrim(title)) > 0`, which trims spaces and nothing else.
  predicate HasTitle(title: string) {
    exists i :: 0 <= i < |title| && title[i] != ' '
  }

  predicate SlugFree(rows: Rows, id: Id, slug: string) {
    forall other :: other in rows && other != id ==> rows[other].slug != slug
  }

  // Check constraints are tried in name order, the unique index after them.
  function Violation(rows: Rows, id: Id, row: Row): Option<StoreError> {
    if !IsSlug(row.slug) then Some(SlugInvalid)
    else if !HasTitle(row.title) then Some(TitleRequired)
    else if !SlugFree(rows, id, row.slug) then Some(SlugTaken)
    else None
  }

  function Written(rows: Rows, id: Id, row: Row): Result<Rows, StoreError> {
    match Violation(rows, id, row)
    case Some(e) => Err(e)
    case None => Ok(rows[id := row])
  }

  function Created(rows: Rows, id: Id, row: Row): Result<Rows, StoreError> {
    if id in rows then Err(Fault) else Written(rows, id, row)
  }

  function Updated(rows: Rows, id: Id, row: Row): Result<Rows, StoreError> {
    if id !in rows then Err(NotFound) else Written(rows, id, row)
  }

  // What the schema promises of every table it has accepted.
  predicate Valid(rows: Rows) {
    && (forall id :: id in rows ==> IsSlug(rows[id].slug) && HasTitle(rows[id].title))
    && (forall i, j :: i in rows && j in rows && i != j ==> rows[i].slug != rows[j].slug)
  }

  // A write is accepted exactly when the table with the row in it is valid.
  lemma WrittenIffValid(rows: Rows, id: Id, row: Row)
    requires Valid(rows)
    ensures Written(rows, id, row).Ok? <==> Valid(rows[id := row])
    ensures Written(rows, id, row).Ok? ==> Written(rows, id, row).value == rows[id := row]
  {
    var rows' := rows[id := row];
    assert rows'[id] == row;
    forall other | other in rows && other != id ensures rows'[other] == rows[other] {
    }
  }

  // Which constraint a refused write is told about.
  lemma RefusalSays(rows: Rows, id: Id, row: Row)
    ensures var spaces := forall i :: 0 <= i < |row.title| ==> row.title[i] == ' ';
            var taken := exists other :: other in rows && other != id && rows[other].slug == row.slug;
            && (Written(rows, id, row) == Err(SlugInvalid) <==> !Matches(row.slug))
            && (Written(rows, id, row) == Err(TitleRequired) <==> Matches(row.slug) && spaces)
            && (Written(rows, id, row) == Err(SlugTaken) <==> Matches(row.slug) && !spaces && taken)
            && (Written(rows, id, row).Ok? <==> Matches(row.slug) && !spaces && !taken)
  {
    SlugLanguage(row.slug);
  }

  // The constraint refuses a blank title only if it is all spaces: of the titles of
  // white space alone, those with anything else in them, a tab say, are stored.
  lemma BlankTitles(rows: Rows, id: Id, row: Row)
    requires IsSlug(row.slug) && forall i :: 0 <= i < |row.title| ==> IsSpace(row.title[i])
    ensures Written(rows, id, row) == Err(TitleRequired) <==>
              forall i :: 0 <= i < |row.title| ==> row.title[i] == ' '
    ensures Written(rows, id, row).Ok? <==>
              SlugFree(rows, id, row.slug) && exists i :: 0 <= i < |row.title| && row.title[i] != ' '
  {
  }

  lemma TabTitleIsStored(rows: Rows, id: Id, slug: string, body: string, date: Option<int>)
    requires IsSlug(slug) && SlugFree(rows, id, slug)
    ensures IsSpace('\t') && Written(rows, id, Row(slug, "\t", body, date)) ==
                             Ok(rows[id := Row(slug, "\t", body, date)])
  {
    assert "\t"[0] == '\t';
  }

  class Store {
    var rows: Rows

    constructor ()
      ensures rows == map[]
    {
      rows := map[];
    }

    // A row the audience may not see is one that is not there.
    method ById(id: Id, aud: Audience) returns (r: Result<Row, StoreError>)
      ensures r.Ok? <==> id in rows && (aud == Author || Visible(rows[id].publishedAt, aud.now))
      ensures r == if r.Ok? then Ok(rows[id]) else Err(NotFound)
    {
      if id !in rows {
        return Err(NotFound);
      }
      var row := rows[id];
      if aud.Public? && !Visible(row.publishedAt, aud.now) {
        return Err(NotFound);
      }
      return Ok(row);
    }

    method Create(id: Id, row: Row) returns (r: Result<(), StoreError>)
      modifies this
      ensures match Created(old(rows), id, row)
              case Ok(after) => r == Ok(()) && rows == after
              case Err(e) => r == Err(e) && rows == old(rows)
    {
      if id in rows {
        return Err(Fault);
      }
      var v := Violation(rows, id, row);
      if v.Some? {
        return Err(v.value);
      }
      rows := rows[id := row];
      return Ok(());
    }

    method Update(id: Id, row: Row) returns (r: Result<(), StoreError>)
      modifies this
      ensures match Updated(old(rows), id, row)
              case Ok(after) => r == Ok(()) && rows == after
              case Err(e) => r == Err(e) && rows == old(rows)
    {
      if id !in rows {
        return Err(NotFound);
      }
      var v := Violation(rows, id, row);
      if v.Some? {
        return Err(v.value);
      }
      rows := rows[id := row];
      return Ok(());
    }
  }
}
