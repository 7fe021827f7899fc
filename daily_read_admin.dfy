/**
 * The admin endpoints that create and edit daily reads: the request
 * validator both share, and the daily-read table, which the two endpoints
 * keep at most one daily read per date.
 *
 * The database assigns ids; the table models that with a counter above every
 * stored id.  The entity's own `Create` and `Update` are taken to store the
 * seven request fields as given.
 */
module DailyReadAdmin {
  import opened Common
  import opened DailyReadData
  import Streaks

  /** The body of both requests; `exp` in hundredths of an XP point. */
  datatype DailyReadRequest = DailyReadRequest(
    title: string,
    content: string,
    date: Day,
    coverImg: Option<string>,
    category: Option<string>,
    exp: int,
    minimalCorrectAnswer: int)

  /** The validator's rules, in declaration order. */
  datatype DailyReadRule =
    | TitleRequired
    | TitleTooLong
    | ContentRequired
    | DateRequired
    | CoverImgTooLong
    | CategoryTooLong
    | ExpNegative
    | MinimalCorrectAnswerNegative

  /** `MaximumLength(n).When(x => !string.IsNullOrEmpty(x))`: an absent or empty value is not checked. */
  predicate TooLong(s: Option<string>, n: nat)
  {
    s.Some? && s.value != "" && |s.value| > n
  }

  /** What the validator accepts. `NotEmpty` on a date rejects only the default date. */
  predicate RequestAccepted(req: DailyReadRequest)
  {
    && !IsBlank(req.title) && |req.title| <= 200
    && !IsBlank(req.content)
    && req.date != Streaks.MinDate
    && (req.coverImg.None? || |req.coverImg.value| <= 500)
    && (req.category.None? || |req.category.value| <= 100)
    && req.exp >= 0
    && req.minimalCorrectAnswer >= 0
  }

  /**
   * `CreateDailyReadRequestValidator` and `UpdateDailyReadRequestValidator`,
   * which are the same rules: every rule runs, and the failures come in
   * declaration order.
   */
  function RequestErrors(req: DailyReadRequest): (r: seq<DailyReadRule>)
    ensures r == [] <==> RequestAccepted(req)
    ensures |r| <= 8
  {
    (if IsBlank(req.title) then [TitleRequired] else [])
    + (if |req.title| <= 200 then [] else [TitleTooLong])
    + (if IsBlank(req.content) then [ContentRequired] else [])
    + (if req.date != Streaks.MinDate then [] else [DateRequired])
    + (if TooLong(req.coverImg, 500) then [CoverImgTooLong] else [])
    + (if TooLong(req.category, 100) then [CategoryTooLong] else [])
    + (if req.exp >= 0 then [] else [ExpNegative])
    + (if req.minimalCorrectAnswer >= 0 then [] else [MinimalCorrectAnswerNegative])
  }

  /** The condition under which each rule fails. */
  predicate Violated(req: DailyReadRequest, rule: DailyReadRule)
  {
    match rule
    case TitleRequired => IsBlank(req.title)
    case TitleTooLong => |req.title| > 200
    case ContentRequired => IsBlank(req.content)
    case DateRequired => req.date == Streaks.MinDate
    case CoverImgTooLong => TooLong(req.coverImg, 500)
    case CategoryTooLong => TooLong(req.category, 100)
    case ExpNegative => req.exp < 0
    case MinimalCorrectAnswerNegative => req.minimalCorrectAnswer < 0
  }

  /**
   * The failures reported are exactly the rules the request breaks, and
   * there are none exactly when the request is accepted.
   */
  lemma RequestErrorsMeaning(req: DailyReadRequest)
    ensures forall rule :: rule in RequestErrors(req) <==> Violated(req, rule)
    ensures RequestErrors(req) == [] <==> RequestAccepted(req)
  {
    var r := RequestErrors(req);
    assert RequestAccepted(req) <==>
      && !Violated(req, TitleRequired) && !Violated(req, TitleTooLong) && !Violated(req, ContentRequired)
      && !Violated(req, DateRequired) && !Violated(req, CoverImgTooLong) && !Violated(req, CategoryTooLong)
      && !Violated(req, ExpNegative) && !Violated(req, MinimalCorrectAnswerNegative);
    assert |r| > 0 ==> r[0] in r;
  }

  datatype AdminError = Invalid(errors: seq<DailyReadRule>) | NotFound | DateTaken

  /** The stored form of a request under a given id. */
  function Stored(id: int, req: DailyReadRequest): (d: DailyRead)
    ensures d.id == id && d.date == req.date
  {
    DailyRead(id, req.title, req.coverImg, req.content, req.date, req.category, req.exp, req.minimalCorrectAnswer)
  }

  /** `AnyAsync(x => x.Date == date && x.Id != id)`; with no id excluded it is the create endpoint's check. */
  predicate DateHeld(rows: seq<DailyRead>, date: Day, except: Option<int>)
  {
    exists k :: 0 <= k < |rows| && rows[k].date == date && (except.None? || rows[k].id != except.value)
  }

  predicate OnePerDate(rows: seq<DailyRead>)
  {
    forall i, j :: 0 <= i < j < |rows| ==> rows[i].date != rows[j].date
  }

  predicate DistinctIds(rows: seq<DailyRead>)
  {
    forall i, j :: 0 <= i < j < |rows| ==> rows[i].id != rows[j].id
  }

  /** The position of the daily read with a given id (`FindAsync`). */
  function IndexOfId(rows: seq<DailyRead>, id: int): (r: Option<nat>)
    ensures r.Some? ==> r.value < |rows| && rows[r.value].id == id
    ensures r.None? <==> forall k :: 0 <= k < |rows| ==> rows[k].id != id
  {
    if |rows| == 0 then None
    else if rows[|rows| - 1].id == id then Some(|rows| - 1)
    else IndexOfId(rows[..|rows| - 1], id)
  }

  /** Keeping its own date never conflicts with the others when dates are unique. */
  lemma OwnDateNotHeld(rows: seq<DailyRead>, i: nat)
    requires OnePerDate(rows) && i < |rows|
    ensures !DateHeld(rows, rows[i].date, Some(rows[i].id))
  {
  }

  /** Replacing one row by a row whose date no other row holds keeps dates unique. */
  lemma ReplaceKeepsOnePerDate(rows: seq<DailyRead>, i: nat, d: DailyRead)
    requires OnePerDate(rows) && i < |rows|
    requires !DateHeld(rows, d.date, Some(rows[i].id))
    requires DistinctIds(rows)
    ensures OnePerDate(rows[i := d])
  {
    var rows' := rows[i := d];
    forall a, b | 0 <= a < b < |rows'|
      ensures rows'[a].date != rows'[b].date
    {
      if a == i {
        assert rows[b].id != rows[i].id;
      } else if b == i {
        assert rows[a].id != rows[i].id;
      }
    }
  }

  /** The `daily_reads` table as the two endpoints see it. */
  class DailyReadTable {
    var rows: seq<DailyRead>
    var nextId: int

    predicate Valid()
      reads this
    {
      && OnePerDate(rows)
      && DistinctIds(rows)
      && forall k :: 0 <= k < |rows| ==> rows[k].id < nextId
    }

    constructor ()
      ensures Valid() && rows == []
    {
      rows := [];
      nextId := 1;
    }

    /**
     * `CreateDailyReadEndpoint`: an invalid request is rejected with its
     * failures; a date some daily read already has is a conflict; otherwise
     * exactly one daily read is added under a new id.
     */
    method Create(req: DailyReadRequest) returns (r: Result<int, AdminError>)
      requires Valid()
      modifies this
      ensures Valid()
      ensures r == Err(Invalid(RequestErrors(req))) <==> !RequestAccepted(req)
      ensures r == Err(DateTaken) <==> RequestAccepted(req) && DateHeld(old(rows), req.date, None)
      ensures r.Ok? ==> r.value !in set k | 0 <= k < |old(rows)| :: old(rows)[k].id
      ensures r.Ok? ==> rows == old(rows) + [Stored(r.value, req)]
      ensures r.Err? ==> rows == old(rows)
    {
      var errors := RequestErrors(req);
      RequestErrorsMeaning(req);
      if errors != [] {
        return Err(Invalid(errors));
      }
      if exists k :: 0 <= k < |rows| && rows[k].date == req.date {
        return Err(DateTaken);
      }
      var id := nextId;
      rows := rows + [Stored(id, req)];
      nextId := nextId + 1;
      return Ok(id);
    }

    /**
     * `UpdateDailyReadEndpoint`: an invalid request is rejected; an unknown id
     * is not found; a date held by another daily read is a conflict (keeping
     * its own date is not); otherwise the daily read's seven fields are
     * overwritten and its id stays.
     */
    method Update(id: int, req: DailyReadRequest) returns (r: Result<(), AdminError>)
      requires Valid()
      modifies this
      ensures Valid()
      ensures r == Err(Invalid(RequestErrors(req))) <==> !RequestAccepted(req)
      ensures r == Err(NotFound) <==> RequestAccepted(req) && IndexOfId(old(rows), id).None?
      ensures r == Err(DateTaken) <==>
        RequestAccepted(req) && IndexOfId(old(rows), id).Some? && DateHeld(old(rows), req.date, Some(id))
      ensures r.Ok? ==> IndexOfId(old(rows), id).Some? && rows == old(rows)[IndexOfId(old(rows), id).value := Stored(id, req)]
      ensures r.Err? ==> rows == old(rows)
    {
      var errors := RequestErrors(req);
      RequestErrorsMeaning(req);
      if errors != [] {
        return Err(Invalid(errors));
      }
      var found := IndexOfId(rows, id);
      if found.None? {
        return Err(NotFound);
      }
      if exists k :: 0 <= k < |rows| && rows[k].date == req.date && rows[k].id != id {
        return Err(DateTaken);
      }
      ReplaceKeepsOnePerDate(rows, found.value, Stored(id, req));
      rows := rows[found.value := Stored(id, req)];
      return Ok(());
    }
  }
}
