/**
 * The activity table and the four operations of ActivityController that
 * read or change it (store, show, update, destroy). Each method follows the
 * controller's steps and is proved to give the answer, and leave the table,
 * that ActivityRules prescribes.
 */
module ActivityController {
  import opened Wrappers
  import opened Models
  import opened ActivityRules
  import Rounding

  /** The `$data` array an update builds: one optional entry per writable column. */
  datatype Patch = Patch(kind: Option<Kind>, distance: Option<nat>, pas: Option<Option<nat>>)

  /**
   * Eloquent's `update($data)`: the columns present in the patch are
   * overwritten, the others kept; owner and date are never in `$data`.
   */
  function Apply(a: Activity, p: Patch): (b: Activity)
    ensures b.user == a.user && b.date == a.date
    ensures p == Patch(None, None, None) ==> b == a
    ensures p.kind.Some? ==> b.kind == p.kind.value
    ensures p.distance.Some? ==> b.distance == p.distance.value
    ensures p.pas.Some? ==> b.pas == p.pas.value
  {
    Activity(a.user, a.date,
             if p.kind.Some? then p.kind.value else a.kind,
             if p.distance.Some? then p.distance.value else a.distance,
             if p.pas.Some? then p.pas.value else a.pas)
  }

  class ActivityTable {
    /** The rows of `activites`, by id. */
    var rows: map<nat, Activity>
    /** The id the next insert receives. */
    var nextId: nat

    ghost predicate Valid()
      reads this
    {
      && OnePerDay(rows)
      && forall id :: id in rows ==> id < nextId
    }

    constructor ()
      ensures Valid() && rows == map[] && nextId == 0
    {
      rows := map[];
      nextId := 0;
    }

    /** POST /activities by `caller` on day `today`; the answer is the new row's id. */
    method Store(caller: Principal, today: int, req: CreateRequest) returns (r: Result<nat, Error>)
      requires Valid()
      modifies this
      ensures Valid()
      ensures match CreateOutcome(old(rows), caller.id, today, req)
        case Ok(a) => r == Ok(old(nextId)) && rows == old(rows)[old(nextId) := a] && nextId == old(nextId) + 1
        case Err(e) => r == Err(e) && rows == old(rows) && nextId == old(nextId)
    {
      if !CreateRulesHold(req, today) {
        return Err(ValidationFailed);
      }
      if HasDeclaration(rows, caller.id, req.date.value) {
        return Err(DuplicateDailyRecord);
      }
      if req.date.value > today {
        return Err(FutureDate);
      }
      var a: Activity;
      if req.kind.value == "velo" {
        a := Activity(caller.id, req.date.value, Velo, req.distance.value, None);
      } else {
        var pas: nat := req.pas.value;
        a := Activity(caller.id, req.date.value, MarcheCourse, Rounding.StepsToHundredths(pas), Some(pas));
      }
      assert a == CreateOutcome(rows, caller.id, today, req).value;
      CreateKeepsOnePerDay(rows, caller.id, today, req, nextId);
      rows := rows[nextId := a];
      r := Ok(nextId);
      nextId := nextId + 1;
    }

    /** GET /activities/{id}. */
    method Show(caller: Principal, id: nat) returns (r: Result<Activity, Error>)
      ensures r == Fetch(rows, caller, id)
      ensures r.Ok? ==> id in rows && r.value == rows[id] && CanAccess(caller, r.value)
    {
      if id !in rows {
        return Err(NotFound);
      }
      var a := rows[id];
      if a.user != caller.id && !caller.isAdmin {
        return Err(AccessDenied);
      }
      r := Ok(a);
    }

    /** PUT /activities/{id} on day `today`; the answer is the updated row. */
    method Update(caller: Principal, today: int, id: nat, req: UpdateRequest) returns (r: Result<Activity, Error>)
      requires Valid()
      modifies this
      ensures Valid() && nextId == old(nextId)
      ensures r == UpdateOutcome(old(rows), caller, today, id, req)
      ensures rows == if r.Ok? then old(rows)[id := r.value] else old(rows)
    {
      if id !in rows {
        return Err(NotFound);
      }
      var a := rows[id];
      if a.user != caller.id && !caller.isAdmin {
        return Err(AccessDenied);
      }
      if a.date != today {
        return Err(EditWindowExpired);
      }
      if !UpdateRulesHold(req) {
        return Err(ValidationFailed);
      }
      var data := Patch(None, None, None);
      if req.kind.Some? {
        data := data.(kind := ParseKind(req.kind.value));
      }
      if req.kind == Some("velo") || (a.kind == Velo && req.kind.None?) {
        if req.distance.Some? {
          data := data.(distance := Some(req.distance.value as nat), pas := Some(None));
        }
        if req.pas.Some? {
          var pas: nat := req.pas.value;
          data := data.(pas := Some(Some(pas)), distance := Some(Rounding.StepsToHundredths(pas)));
        }
      }
      var b := Apply(a, data);
      assert b == Updated(a, req);
      UpdateKeepsOnePerDay(rows, caller, today, id, req);
      rows := rows[id := b];
      r := Ok(b);
    }

    /** DELETE /activities/{id}. */
    method Destroy(caller: Principal, id: nat) returns (r: Result<(), Error>)
      requires Valid()
      modifies this
      ensures Valid() && nextId == old(nextId)
      ensures match Fetch(old(rows), caller, id)
        case Ok(_) => r == Ok(()) && rows == old(rows) - {id}
        case Err(e) => r == Err(e) && rows == old(rows)
    {
      if id !in rows {
        return Err(NotFound);
      }
      var a := rows[id];
      if a.user != caller.id && !caller.isAdmin {
        return Err(AccessDenied);
      }
      DeleteKeepsOnePerDay(rows, id);
      rows := rows - {id};
      r := Ok(());
    }
  }

  /**
   * The scenario of the repository's feature tests, on one table: a cycling
   * activity for today is stored without steps, a second one the same day
   * is refused, a same-day update changes the distance, and after the day
   * rolls over the update is refused even for an administrator; another
   * user may not delete it.
   */
  method DeclarationScenario()
    returns (first: Result<nat, Error>, second: Result<nat, Error>, edited: Result<Activity, Error>,
             late: Result<Activity, Error>, stranger: Result<(), Error>)
    ensures first == Ok(0) && second == Err(DuplicateDailyRecord)
    ensures edited == Ok(Activity(7, 100, Velo, 1500, None))
    ensures late == Err(EditWindowExpired) && stranger == Err(AccessDenied)
  {
    var table := new ActivityTable();
    var owner := Principal(7, false);
    var admin := Principal(1, true);
    var today := 100;
    first := table.Store(owner, today, CreateRequest(Some(today), Some("velo"), Some(1000), None));
    assert table.rows[0] == Activity(7, today, Velo, 1000, None);
    second := table.Store(owner, today, CreateRequest(Some(today), Some("velo"), Some(500), None));
    assert HasDeclaration(table.rows, 7, today);
    edited := table.Update(owner, today, 0, UpdateRequest(None, Some(1500), None));
    late := table.Update(admin, today + 1, 0, UpdateRequest(None, Some(2000), None));
    stranger := table.Destroy(Principal(8, false), 0);
  }
}
