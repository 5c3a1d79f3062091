/** Option and Result, the failure-carrying values every operation returns. */
module Wrappers {
  datatype Option<+T> = None | Some(value: T)

  datatype Result<+T, +E> = Ok(value: T) | Err(error: E)
}

/**
 * The three stored entities of the challenge (activites, utilisateurs, equipes)
 * and the errors the controllers report.
 */
module Models {
  import opened Wrappers

  /** The two accepted values of the `type` column. */
  datatype Kind = Velo | MarcheCourse

  /**
   * One row of `activites`. The distance is held in whole hundredths of a
   * kilometre; `pas` is the step count, null (None) for most cycling rows.
   */
  datatype Activity = Activity(user: nat, date: int, kind: Kind, distance: nat, pas: Option<nat>)

  /** One row of `utilisateurs`; `team` is the nullable `equipe_id`. */
  datatype User = User(id: nat, name: string, email: string, passwordHash: string,
                       team: Option<nat>, isAdmin: bool)

  /** One row of `equipes`. */
  datatype Team = Team(id: nat, name: string, description: string)

  /** The authenticated caller of a request. */
  datatype Principal = Principal(id: nat, isAdmin: bool)

  /** The failures the controllers report, each with its HTTP status. */
  datatype Error =
    | ValidationFailed     // 422
    | DuplicateDailyRecord // 400
    | FutureDate           // 400
    | EditWindowExpired    // 400
    | LastAdminDeletion    // 400
    | AccessDenied         // 403
    | NotFound             // 404
    | MissingRelation      // 500: a property read on a null relation

  function Status(e: Error): nat {
    match e
    case ValidationFailed => 422
    case DuplicateDailyRecord => 400
    case FutureDate => 400
    case EditWindowExpired => 400
    case LastAdminDeletion => 400
    case AccessDenied => 403
    case NotFound => 404
    case MissingRelation => 500
  }

  /** The validation rule `in:velo,marche_course` together with the string-to-kind reading. */
  function ParseKind(s: string): (r: Option<Kind>)
    ensures r.Some? <==> s == "velo" || s == "marche_course"
    ensures r == Some(Velo) <==> s == "velo"
  {
    if s == "velo" then Some(Velo)
    else if s == "marche_course" then Some(MarcheCourse)
    else None
  }
}
