/**
 * The declaration rules of ActivityController as functions of the activity
 * table (a map from activity id to row), the caller, the request and the
 * current day. The class ActivityController.ActivityTable performs these
 * steps on its own state and is proved to agree with them.
 */
module ActivityRules {
  import opened Wrappers
  import opened Models
  import Rounding

  /**
   * The body of a creation request; `kind` is the raw `type` string and
   * `date` is None when the key is missing or does not parse as a date.
   */
  datatype CreateRequest = CreateRequest(date: Option<int>, kind: Option<string>, distance: Option<int>, pas: Option<int>)

  /** The body of an update request: every key may be absent. */
  datatype UpdateRequest = UpdateRequest(kind: Option<string>, distance: Option<int>, pas: Option<int>)

  /**
   * `distance_km` => required_if:type,velo|numeric|min:0 and
   * `pas` => required_if:type,marche_course|integer|min:0.
   */
  predicate MeasureRulesHold(kind: Option<string>, distance: Option<int>, pas: Option<int>) {
    && (kind == Some("velo") ==> distance.Some?)
    && (kind == Some("marche_course") ==> pas.Some?)
    && (distance.Some? ==> distance.value >= 0)
    && (pas.Some? ==> pas.value >= 0)
  }

  /** The creation rules: the date is given and not after today, and `type` is required and known. */
  predicate CreateRulesHold(req: CreateRequest, today: int) {
    && req.date.Some? && req.date.value <= today
    && req.kind.Some? && ParseKind(req.kind.value).Some?
    && MeasureRulesHold(req.kind, req.distance, req.pas)
  }

  /** The update rules: `type` is optional (`sometimes`) but, when given, known. */
  predicate UpdateRulesHold(req: UpdateRequest) {
    && (req.kind.Some? ==> ParseKind(req.kind.value).Some?)
    && MeasureRulesHold(req.kind, req.distance, req.pas)
  }

  /** Only the owner of an activity or an administrator may read, change or delete it. */
  predicate CanAccess(caller: Principal, a: Activity) {
    a.user == caller.id || caller.isAdmin
  }

  /** The lookup `where utilisateur_id = user and date = date` finds a row. */
  predicate HasDeclaration(rows: map<nat, Activity>, user: nat, date: int) {
    exists id :: id in rows && rows[id].user == user && rows[id].date == date
  }

  /** The business rule: at most one activity per user and day. */
  ghost predicate OnePerDay(rows: map<nat, Activity>) {
    forall i, j :: i in rows && j in rows && i != j ==>
      rows[i].user != rows[j].user || rows[i].date != rows[j].date
  }

  /**
   * The row a valid creation request stores: a cycling row keeps the given
   * distance and has no step count; a walking row keeps its steps and
   * derives its distance from them, to the nearest hundredth of a km.
   */
  function Declare(owner: nat, req: CreateRequest): (a: Activity)
    requires req.date.Some? && req.kind.Some? && ParseKind(req.kind.value).Some?
    requires MeasureRulesHold(req.kind, req.distance, req.pas)
    ensures a.user == owner && a.date == req.date.value
    ensures req.kind == Some("velo") ==>
      a.kind == Velo && a.pas == None && a.distance == req.distance.value
    ensures req.kind == Some("marche_course") ==>
      && a.kind == MarcheCourse && a.pas == Some(req.pas.value)
      && -15 < 30 * a.distance - 2 * req.pas.value < 15
  {
    if req.kind.value == "velo" then
      Activity(owner, req.date.value, Velo, req.distance.value, None)
    else
      Activity(owner, req.date.value, MarcheCourse, Rounding.StepsToHundredths(req.pas.value), Some(req.pas.value))
  }

  /**
   * The answer to a creation request: validation first (422, which includes the
   * future-date rule), then the one-per-day lookup (400). The explicit
   * future-date check that follows in the controller can never fire, so
   * FutureDate is never the answer.
   */
  function CreateOutcome(rows: map<nat, Activity>, owner: nat, today: int, req: CreateRequest): (r: Result<Activity, Error>)
    ensures r == Err(ValidationFailed) <==> !CreateRulesHold(req, today)
    ensures req.date.None? ==> r == Err(ValidationFailed)
    ensures r == Err(DuplicateDailyRecord) <==> CreateRulesHold(req, today) && HasDeclaration(rows, owner, req.date.value)
    ensures r.Ok? <==> CreateRulesHold(req, today) && !HasDeclaration(rows, owner, req.date.value)
    ensures r.Ok? ==> r.value.user == owner && Some(r.value.date) == req.date && r.value.date <= today
    ensures r.Ok? ==> r.value == Declare(owner, req)
    ensures r != Err(FutureDate)
  {
    if !CreateRulesHold(req, today) then Err(ValidationFailed)
    else if HasDeclaration(rows, owner, req.date.value) then Err(DuplicateDailyRecord)
    else if req.date.value > today then Err(FutureDate)
    else Ok(Declare(owner, req))
  }

  /** A date after today is refused by validation (422), whatever the kind. */
  lemma FutureDateRefused(rows: map<nat, Activity>, owner: nat, today: int, req: CreateRequest)
    requires req.date.Some? && req.date.value > today
    ensures CreateOutcome(rows, owner, today, req) == Err(ValidationFailed)
  {
  }

  /**
   * Once a creation for (owner, date) has been stored, every further valid
   * creation by the same owner for the same date is refused as a duplicate.
   */
  lemma SecondDeclarationRefused(rows: map<nat, Activity>, owner: nat, today: int,
                                 req: CreateRequest, id: nat, again: CreateRequest)
    requires CreateOutcome(rows, owner, today, req).Ok?
    requires again.date == req.date && CreateRulesHold(again, today)
    ensures CreateOutcome(rows[id := CreateOutcome(rows, owner, today, req).value], owner, today, again)
            == Err(DuplicateDailyRecord)
  {
    var rows' := rows[id := CreateOutcome(rows, owner, today, req).value];
    assert rows'[id].user == owner && rows'[id].date == again.date.value;
  }

  /** A walking declaration of 3000 steps for today is stored with 2.00 km. */
  lemma StepsConvertedToKm(rows: map<nat, Activity>, owner: nat, today: int)
    requires !HasDeclaration(rows, owner, today)
    ensures var r := CreateOutcome(rows, owner, today, CreateRequest(Some(today), Some("marche_course"), None, Some(3000)));
      r.Ok? && r.value.distance == 200 && r.value.pas == Some(3000)
  {
    Rounding.StepsToHundredthsExamples();
  }

  /** A successful creation under a fresh id keeps one activity per user and day. */
  lemma CreateKeepsOnePerDay(rows: map<nat, Activity>, owner: nat, today: int, req: CreateRequest, id: nat)
    requires OnePerDay(rows) && id !in rows
    requires CreateOutcome(rows, owner, today, req).Ok?
    ensures OnePerDay(rows[id := CreateOutcome(rows, owner, today, req).value])
  {
    var a := CreateOutcome(rows, owner, today, req).value;
    var rows' := rows[id := a];
    forall i, j | i in rows' && j in rows' && i != j
      ensures rows'[i].user != rows'[j].user || rows'[i].date != rows'[j].date
    {
      if i == id {
        assert !(rows[j].user == owner && rows[j].date == req.date.value);
      } else if j == id {
        assert !(rows[i].user == owner && rows[i].date == req.date.value);
      }
    }
  }

  /** findOrFail followed by the owner-or-administrator guard. */
  function Fetch(rows: map<nat, Activity>, caller: Principal, id: nat): (r: Result<Activity, Error>)
    ensures r == Err(NotFound) <==> id !in rows
    ensures r == Err(AccessDenied) <==> id in rows && !CanAccess(caller, rows[id])
    ensures r.Ok? <==> id in rows && CanAccess(caller, rows[id])
    ensures r.Ok? ==> r.value == rows[id]
  {
    if id !in rows then Err(NotFound)
    else if !CanAccess(caller, rows[id]) then Err(AccessDenied)
    else Ok(rows[id])
  }

  /**
   * The kind that decides how an update treats the measures: the branch at
   * lines 161-171 is taken when the request says `velo`, or when it gives no
   * type and the row is a cycling row.
   */
  predicate CyclingEffective(a: Activity, req: UpdateRequest) {
    req.kind == Some("velo") || (a.kind == Velo && req.kind.None?)
  }

  /**
   * The row after a valid update. Only `type`, `distance_km` and `pas` may
   * change. When the cycling branch is taken, given steps set `pas` and the
   * derived distance (and win over a given distance); a given distance
   * alone sets the distance and clears `pas`. Otherwise only `type` is written.
   */
  function Updated(a: Activity, req: UpdateRequest): (b: Activity)
    requires UpdateRulesHold(req)
    ensures b.user == a.user && b.date == a.date
    ensures b.kind == if req.kind.Some? then ParseKind(req.kind.value).value else a.kind
    ensures !CyclingEffective(a, req) ==> b.distance == a.distance && b.pas == a.pas
    ensures CyclingEffective(a, req) && req.pas.Some? ==>
      b.pas == Some(req.pas.value) && -15 < 30 * b.distance - 2 * req.pas.value < 15
    ensures CyclingEffective(a, req) && req.pas.None? && req.distance.Some? ==>
      b.pas == None && b.distance == req.distance.value
    ensures req.pas.None? && req.distance.None? ==> b.distance == a.distance && b.pas == a.pas
  {
    var kind := if req.kind.Some? then ParseKind(req.kind.value).value else a.kind;
    if !CyclingEffective(a, req) then a.(kind := kind)
    else if req.pas.Some? then
      a.(kind := kind, distance := Rounding.StepsToHundredths(req.pas.value), pas := Some(req.pas.value))
    else if req.distance.Some? then a.(kind := kind, distance := req.distance.value, pas := None)
    else a.(kind := kind)
  }

  /**
   * The answer to an update request: 404, then 403, then the edit window
   * (400, for administrators too), then validation (422), then the new row.
   */
  function UpdateOutcome(rows: map<nat, Activity>, caller: Principal, today: int, id: nat,
                         req: UpdateRequest): (r: Result<Activity, Error>)
    ensures r == Err(NotFound) <==> id !in rows
    ensures r == Err(AccessDenied) <==> id in rows && !CanAccess(caller, rows[id])
    ensures r == Err(EditWindowExpired) <==>
      id in rows && CanAccess(caller, rows[id]) && rows[id].date != today
    ensures r == Err(ValidationFailed) <==>
      id in rows && CanAccess(caller, rows[id]) && rows[id].date == today && !UpdateRulesHold(req)
    ensures r.Ok? ==> id in rows && rows[id].date == today && UpdateRulesHold(req)
    ensures r.Ok? ==> r.value.user == rows[id].user && r.value.date == rows[id].date
    ensures r.Ok? ==> r.value == Updated(rows[id], req)
  {
    match Fetch(rows, caller, id)
    case Err(e) => Err(e)
    case Ok(a) =>
      if a.date != today then Err(EditWindowExpired)
      else if !UpdateRulesHold(req) then Err(ValidationFailed)
      else Ok(Updated(a, req))
  }

  /** An update neither moves a row to another user nor to another day, so it keeps one per day. */
  lemma UpdateKeepsOnePerDay(rows: map<nat, Activity>, caller: Principal, today: int, id: nat, req: UpdateRequest)
    requires OnePerDay(rows)
    requires UpdateOutcome(rows, caller, today, id, req).Ok?
    ensures OnePerDay(rows[id := UpdateOutcome(rows, caller, today, id, req).value])
  {
    var rows' := rows[id := UpdateOutcome(rows, caller, today, id, req).value];
    forall i, j | i in rows' && j in rows' && i != j
      ensures rows'[i].user != rows'[j].user || rows'[i].date != rows'[j].date
    {
      assert rows'[i].user == rows[i].user && rows'[i].date == rows[i].date;
      assert rows'[j].user == rows[j].user && rows'[j].date == rows[j].date;
    }
  }

  /** Steps supplied on a cycling row set `pas` on that cycling row: the kind stays `velo`. */
  lemma CyclingRowCanGainSteps()
    ensures
      var a := Activity(1, 10, Velo, 1000, None);
      Updated(a, UpdateRequest(None, None, Some(3000))) == Activity(1, 10, Velo, 200, Some(3000))
  {
    Rounding.StepsToHundredthsExamples();
  }

  /**
   * Switching a cycling row to walking writes only `type`: the steps given
   * with it are ignored and the row keeps its cycling distance and no steps.
   */
  lemma SwitchToWalkingKeepsMeasures()
    ensures
      var a := Activity(1, 10, Velo, 1000, None);
      Updated(a, UpdateRequest(Some("marche_course"), None, Some(3000))) == Activity(1, 10, MarcheCourse, 1000, None)
  {
  }

  /** Deleting a row removes exactly that row and keeps one per day. */
  lemma DeleteKeepsOnePerDay(rows: map<nat, Activity>, id: nat)
    requires OnePerDay(rows)
    ensures OnePerDay(rows - {id})
    ensures (rows - {id}).Keys == rows.Keys - {id}
    ensures forall k :: k in rows && k != id ==> (rows - {id})[k] == rows[k]
  {
  }
}
