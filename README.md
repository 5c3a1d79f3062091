# Challenge Mobilité — a verified model of the activity, statistics and user-administration rules

Challenge Mobilité is a Laravel back end for a company mobility challenge.
Employees declare at most one activity per day, either cycling (`velo`, a
distance in km) or walking/running (`marche_course`, a step count converted
to km at 1500 steps per km). Statistics are computed over everyone's
declarations: global figures, a team board, a top-ten leaderboard, personal
figures with ranks, and a CSV export. Administrators manage the users and
cannot delete the last administrator.

This project models three controllers in Dafny:

- **ActivityController** (`store`, `show`, `update`, `destroy`):
  - `ActivityRules` states each request's answer and the resulting row as pure functions.
  - The class `ActivityController.ActivityTable` performs the controller's steps on a table
    of rows and is proved to agree with those functions, keeping one activity per user and day.
- **StatsController** (`general`, `teams`, `users`, `personal`, `export`):
  - `Aggregates` provides the SQL sums and filters.
  - `Stats` holds the four read-only endpoints.
  - `Csv` is the export's `;`-separated encoding, with a reader for it and a proof that the reader gives the rows back.
  - `Export` models the export in two parts. `Export.ExportCsv` runs the loops that build the rows and encode them. `Export.ExportText` is the function that specifies what those loops produce.
- **AuthController** (`register`, `updateUser`, `deleteUser`):
  - `UserRules` holds the rules as pure functions.
  - The class `AuthController.UserTable` performs them on a table of users, keeping ids and emails consistent.

Distances are whole **hundredths of a km**. Stored distances are whole
hundredths (see "Left out"), so every sum of them is too; sums such as the
per-type and per-day distances are not rounded by the controller. The totals
and averages the controller does round to two decimals are computed with
integer formulas, and `Rounding` proves that those formulas give the nearest
hundredth:
- `StepsToHundredths(p) = (2p + 15) / 30` is the nearest hundredth of `p / 1500`. It never hits a tie.
- `Average(t, c) = (2t + c) / (2c)` is `t / c` rounded half up, or 0 when `c` is 0.

The current day, the first day of the week, of the month and of the 30-day window, the date text of the export and the password hash function are parameters.

The controller has an explicit future-date check in `store` (status 400,
`ActivityController.php:66-71`). That check can never fire. The validation
rule `before_or_equal:today` refuses the same request first, with 422, as the
repository's feature test expects. The model follows the code:
`CreateOutcome` never answers `FutureDate`, and `FutureDateRefused` proves
that a future date gets 422.

## Model

| member | source | states |
|---|---|---|
| Rounding.StepsToHundredths | backend/app/Http/Controllers/Api/ActivityController.php:87 | the stored distance is within half a hundredth of pas / 1500 km |
| Rounding.StepsToHundredthsUnique | backend/app/Http/Controllers/Api/ActivityController.php:169 | only one distance is within half a hundredth of pas / 1500, so the conversion is determined |
| Rounding.StepsToHundredthsExamples | backend/tests/Feature/ActivityTest.php:73-87 | 3000 steps give 2.00 km, 2000 steps 1.33 km, 0 steps 0 km |
| Rounding.Average | backend/app/Http/Controllers/Api/StatsController.php:55 | an average is total / count rounded to the nearest hundredth, and 0 when nothing is counted |
| Rounding.AverageUnique | backend/app/Http/Controllers/Api/StatsController.php:173 | only one value is that rounded average |
| Sorting.SortDesc | backend/app/Http/Controllers/Api/StatsController.php:120 | `orderBy(..., 'desc')`: the result is ordered by the key, descending, and is a permutation of the input |
| Models.ParseKind | backend/app/Http/Controllers/Api/ActivityController.php:46 | `in:velo,marche_course`: exactly the two type names are accepted, `velo` being cycling |
| ActivityRules.MeasureRulesHold | backend/app/Http/Controllers/Api/ActivityController.php:47-48 | `distance_km` is required for cycling and `pas` for walking; either, when given, is not negative |
| ActivityRules.CreateRulesHold | backend/app/Http/Controllers/Api/ActivityController.php:44-49 | the date is given, parses and is not after today; `type` is given and known; the measure rules hold |
| ActivityRules.UpdateRulesHold | backend/app/Http/Controllers/Api/ActivityController.php:148-152 | `type` may be absent but, when given, is known; the measure rules hold |
| ActivityRules.CanAccess | backend/app/Http/Controllers/Api/ActivityController.php:109 | only the owner of an activity or an administrator may read, change or delete it |
| ActivityRules.HasDeclaration | backend/app/Http/Controllers/Api/ActivityController.php:54-56 | the lookup by user and date finds a stored row |
| ActivityRules.CyclingEffective | backend/app/Http/Controllers/Api/ActivityController.php:161 | the measures are rewritten only when the request says `velo`, or the row is cycling and the request sends no type |
| ActivityRules.Declare | backend/app/Http/Controllers/Api/ActivityController.php:73-88 | a cycling row keeps the given distance and has no steps; a walking row keeps its steps and takes the converted distance; both belong to the caller on the requested date |
| ActivityRules.CreateOutcome | backend/app/Http/Controllers/Api/ActivityController.php:41-99 | 422 exactly when validation fails (a missing or unparsable date included), 400 exactly when the caller already has a row on that date, else exactly the row `Declare` builds; a stored row is never dated after today and the future-date 400 never fires |
| ActivityRules.FutureDateRefused | backend/tests/Feature/ActivityTest.php:126-138 | a request dated after today is answered 422 whatever its other fields and the table |
| ActivityRules.SecondDeclarationRefused | backend/app/Http/Controllers/Api/ActivityController.php:54-64 | once a declaration for a date is stored, every further valid declaration by the same user for that date is refused as a duplicate |
| ActivityRules.StepsConvertedToKm | backend/tests/Feature/ActivityTest.php:73-87 | a walking declaration of 3000 steps for today is accepted and stored with 2.00 km and its 3000 steps |
| ActivityRules.CreateKeepsOnePerDay | backend/app/Http/Controllers/Api/ActivityController.php:37-90 | a successful creation keeps at most one activity per user and day |
| ActivityRules.Fetch | backend/app/Http/Controllers/Api/ActivityController.php:106-114 | 404 exactly when the id is unknown, 403 exactly when the caller is neither the owner nor an administrator, else that row |
| ActivityRules.Updated | backend/app/Http/Controllers/Api/ActivityController.php:154-173 | owner and date never change; `type` is written when given; in the cycling branch given steps set `pas` and the converted distance and win over a given distance, and a given distance alone clears `pas`; otherwise the measures are untouched |
| ActivityRules.UpdateOutcome | backend/app/Http/Controllers/Api/ActivityController.php:128-173 | 404, then 403, then 400 when the row is not dated today (administrators included), then 422, each exactly when its condition holds, else exactly the row `Updated` builds, with the same owner and date |
| ActivityRules.UpdateKeepsOnePerDay | backend/app/Http/Controllers/Api/ActivityController.php:173 | a successful update keeps at most one activity per user and day |
| ActivityRules.CyclingRowCanGainSteps | backend/app/Http/Controllers/Api/ActivityController.php:161-170 | steps sent for a cycling row are stored on it and replace its distance, while it stays a cycling row |
| ActivityRules.SwitchToWalkingKeepsMeasures | backend/app/Http/Controllers/Api/ActivityController.php:157-161 | switching a cycling row to walking writes only `type`: the steps sent with it are ignored |
| ActivityRules.DeleteKeepsOnePerDay | backend/app/Http/Controllers/Api/ActivityController.php:198 | deletion removes exactly the target row, keeps every other row and keeps one activity per user and day |
| ActivityController.Apply | backend/app/Http/Controllers/Api/ActivityController.php:173 | `update($data)` overwrites exactly the columns in the patch and never the owner or the date; an empty patch changes nothing |
| ActivityController.ActivityTable.Store | backend/app/Http/Controllers/Api/ActivityController.php:41-99 | the answer and the new table are those of `CreateOutcome`: on success the row is inserted under a fresh id, otherwise nothing changes |
| ActivityController.ActivityTable.Show | backend/app/Http/Controllers/Api/ActivityController.php:104-123 | the answer is `Fetch`'s: the row only for its owner or an administrator |
| ActivityController.ActivityTable.Update | backend/app/Http/Controllers/Api/ActivityController.php:128-182 | building `$data` key by key and applying it gives `UpdateOutcome`'s row; only that row changes, and only on success |
| ActivityController.ActivityTable.Destroy | backend/app/Http/Controllers/Api/ActivityController.php:187-207 | the row is removed exactly when `Fetch` succeeds; otherwise the table is unchanged and the answer is 404 or 403 |
| ActivityController.DeclarationScenario | backend/tests/Feature/ActivityTest.php:17-68 | on one table: the first cycling declaration of the day is stored, a second one the same day gets 400, a same-day edit is kept, an edit after the day has passed gets 400 even for an administrator, and another user deleting it gets 403 |
| Aggregates.Distance | backend/app/Http/Controllers/Api/StatsController.php:22 | `SUM(distance_km)`: at least each row's distance, and 0 exactly when every row's distance is 0 |
| Aggregates.Steps | backend/app/Http/Controllers/Api/StatsController.php:23 | `SUM(pas)` with null read as 0: at least each row's steps, and 0 exactly when no row has a positive step count |
| Aggregates.OfKind | backend/app/Http/Controllers/Api/StatsController.php:154-162 | `where type = k` keeps exactly the rows of that kind, each as often as in the table |
| Aggregates.OfUser | backend/app/Http/Controllers/Api/StatsController.php:147 | `where utilisateur_id = u` keeps exactly that user's rows, each as often as in the table |
| Aggregates.Since | backend/app/Http/Controllers/Api/StatsController.php:26-27 | `where date >= d` keeps exactly the rows on or after d, each as often as in the table |
| Aggregates.OnDate | backend/app/Http/Controllers/Api/StatsController.php:41 | one date's group keeps exactly the rows of that date, each as often as in the table |
| Aggregates.DistanceAppend | backend/app/Http/Controllers/Api/StatsController.php:22 | the distance sum of two row sets is the sum of their sums |
| Aggregates.StepsAppend | backend/app/Http/Controllers/Api/StatsController.php:23 | the step sum of two row sets is the sum of their sums, null steps counting 0 |
| Aggregates.KindsPartition | backend/app/Http/Controllers/Api/StatsController.php:154-162 | the two kinds split the rows: counts, distances and steps add up to the totals |
| Aggregates.OnDateSince | backend/app/Http/Controllers/Api/StatsController.php:40-41 | restricting to the 30-day window does not change a day's rows inside the window |
| Stats.GroupOf | backend/app/Http/Controllers/Api/StatsController.php:30-32 | a kind's group is present exactly when some row has that kind, and carries that kind's non-zero count and its distance |
| Stats.KindGroups | backend/app/Http/Controllers/Api/StatsController.php:30-32 | one group per kind that occurs (no kind twice, none missing), each non-empty with its kind's count and distance; the counts and distances add up to the totals |
| Stats.Dates | backend/app/Http/Controllers/Api/StatsController.php:41-42 | the distinct dates of the rows, strictly ascending, each exactly a date some row has |
| Stats.Daily | backend/app/Http/Controllers/Api/StatsController.php:35-43 | one group per distinct date in the window, dates strictly ascending, each with that date's non-zero count and its distance, and no date of the window missing |
| Stats.General | backend/app/Http/Controllers/Api/StatsController.php:19-61 | the totals are the count and distance of all rows; the average is their rounded quotient, or 0 without activities; the week and month counts are the rows on or after their first days, never more than the total; the step total, user and team counts; the per-type groups are `KindGroups` and the daily rollup is `Daily` |
| Stats.Members | backend/app/Http/Controllers/Api/StatsController.php:69 | exactly the users whose `equipe_id` is the given team, a null team selecting the users without one (`whereNull`), as used by the teams join and the team rank |
| Stats.ActivitiesOf | backend/app/Http/Controllers/Api/StatsController.php:70 | the left join attaches exactly the activities whose author is one of the given users and, when no two users share an id, each as often as in the table |
| Stats.TeamRow | backend/app/Http/Controllers/Api/StatsController.php:75-90 | a team's member count, activity count and distance sum over its members' activities; a team without members has no activities, no distance and average per member 0; both averages are the rounded quotients when their counts are positive |
| Stats.TeamBoard | backend/app/Http/Controllers/Api/StatsController.php:66-101 | one row per team, a permutation of the teams' rows, each the row of its own team, ordered by total distance descending |
| Stats.UserRow | backend/app/Http/Controllers/Api/StatsController.php:108-127 | a user's row carries their identity, the count and sum of their activities, 0 for both when they have none, and the average per activity rounded to the nearest hundredth |
| Stats.Leaderboard | backend/app/Http/Controllers/Api/StatsController.php:106-129 | min(10, number of users) entries; each is some user's row and no row appears more often than among all users' rows; ranks are positions counted from 1; distances descend |
| Stats.LeaderboardComplete | backend/app/Http/Controllers/Api/StatsController.php:120-121 | a user whose distance beats the last entry's is on the board |
| Stats.CountAbove | backend/app/Http/Controllers/Api/StatsController.php:186 | the number of totals strictly above is at most the number of users |
| Stats.RankAmong | backend/app/Http/Controllers/Api/StatsController.php:183-187 | a rank is between 1 and the number of users plus one |
| Stats.RankExample | backend/app/Http/Controllers/Api/StatsController.php:183-195 | tied totals share a rank and the next rank skips them (1, 2, 2, 4) |
| Stats.RankMonotone | backend/app/Http/Controllers/Api/StatsController.php:186 | a larger total never ranks worse, and strictly better than a smaller one when it is present |
| Stats.Totals | backend/app/Http/Controllers/Api/StatsController.php:183-185 | entry i is the sum of the distances of user i's activities, one entry per user |
| Stats.TeammatesAboveAtMost | backend/app/Http/Controllers/Api/StatsController.php:190-195 | restricting the users to one team never puts more of them ahead of a given total |
| Stats.FirstDate | backend/app/Http/Controllers/Api/StatsController.php:165-167 | the earliest date of the caller's activities, present exactly when there is one |
| Stats.DaysSinceFirst | backend/app/Http/Controllers/Api/StatsController.php:169-171 | the number of days the daily average divides by is at least 1 |
| Stats.History | backend/app/Http/Controllers/Api/StatsController.php:176-180 | the last-30-days list holds exactly the caller's rows in the window, by date ascending |
| Stats.Personal | backend/app/Http/Controllers/Api/StatsController.php:143-222 | the caller's count and distance, the general rank among all totals and the team rank among teammates' totals; the step total; each type's count, distance and, for walking, steps; and the window's rows exactly as `History` lists them, by date |
| Stats.PersonalSpec | backend/app/Http/Controllers/Api/StatsController.php:149-195 | per-type counts and distances add up to the totals; the daily average is the total over the days since the first activity; the team rank is never worse than the general rank |
| Csv.DoubleQuotes | backend/app/Http/Controllers/Api/StatsController.php:252 | `str_replace('"', '""', ...)`: each `"` becomes `""`, every other character is kept; its properties are `DoubleQuotesKeeps` and `HalveDoubled` |
| Csv.DoubleQuotesKeeps | backend/app/Http/Controllers/Api/StatsController.php:252 | doubling quotes adds or removes no `;`, `"` or line feed, and leaves a field without `"` unchanged |
| Csv.EscapeField | backend/app/Http/Controllers/Api/StatsController.php:251-256 | a field without `;`, `"` or line feed is written as is; any other field is quoted with its quotes doubled |
| Csv.HalveDoubled | backend/app/Http/Controllers/Api/StatsController.php:252 | halving doubled quotes undoes the doubling |
| Csv.FieldRoundTrip | backend/app/Http/Controllers/Api/StatsController.php:251-256 | removing the surrounding quotes and halving the inner ones recovers every field |
| Csv.EscapeAll | backend/app/Http/Controllers/Api/StatsController.php:251 | an escaped row has as many fields as the row |
| Csv.Join | backend/app/Http/Controllers/Api/StatsController.php:258 | `implode(';', ...)`: the fields with one `;` between neighbours |
| Csv.EncodeRow | backend/app/Http/Controllers/Api/StatsController.php:251-258 | one line: the escaped fields joined with `;`, then CRLF; read back by `ReadRowEncoded` |
| Csv.Document | backend/app/Http/Controllers/Api/StatsController.php:248-259 | the export text: the lines of the rows in order; read back by `DecodeDocument` |
| Csv.DocumentAppend | backend/app/Http/Controllers/Api/StatsController.php:258 | appending a row appends its line to the text |
| Csv.EncodeDocument | backend/app/Http/Controllers/Api/StatsController.php:248-259 | the encoding loop produces the text of all rows, in order |
| Csv.ReadFieldEscaped | backend/app/Http/Controllers/Api/StatsController.php:252-255 | an escaped field followed by `;` or CRLF reads back as the field |
| Csv.ReadRowEncoded | backend/app/Http/Controllers/Api/StatsController.php:258 | one encoded row reads back as its fields and leaves what follows |
| Csv.Decode | backend/app/Http/Controllers/Api/StatsController.php:248-259 | a reader for the export format (not part of the source): splits the text into lines and fields, undoing the quoting; the round trip is `DecodeDocument` |
| Csv.DecodeDocument | backend/app/Http/Controllers/Api/StatsController.php:248-259 | reading the whole text back gives exactly the rows written |
| Export.KindLabel | backend/app/Http/Controllers/Api/StatsController.php:241 | the type labels are never quoted |
| Export.Digits | backend/app/Http/Controllers/Api/StatsController.php:243 | a count is written as one or more decimal digits |
| Export.DigitsValue | backend/app/Http/Controllers/Api/StatsController.php:243 | the digits written read back as the count |
| Export.DigitsUnquoted | backend/app/Http/Controllers/Api/StatsController.php:243 | a count is never quoted |
| Export.DistanceText | backend/app/Http/Controllers/Api/StatsController.php:242 | a distance is never quoted |
| Export.DistanceTextExamples | backend/app/Http/Controllers/Api/StatsController.php:242 | distances are written the way PHP prints floats: 2, 1.5, 1.33, 10.05 |
| Export.FindUser | backend/app/Http/Controllers/Api/StatsController.php:239 | the author found has the activity's user id, and none is found exactly when no user has it |
| Export.FindTeam | backend/app/Http/Controllers/Api/StatsController.php:240 | the team found has the user's team id, and none is found exactly when no team has it |
| Export.ActivityRow | backend/app/Http/Controllers/Api/StatsController.php:237-244 | a resolved activity's row has one field per header column |
| Export.Newest | backend/app/Http/Controllers/Api/StatsController.php:229-231 | the activities by date descending, a permutation of all of them |
| Export.Table | backend/app/Http/Controllers/Api/StatsController.php:233-245 | the header first, then one row per activity in order |
| Export.TableSnoc | backend/app/Http/Controllers/Api/StatsController.php:236-245 | each pass of the first loop adds the next activity's row |
| Export.ExportText | backend/app/Http/Controllers/Api/StatsController.php:227-259 | the export specified as a value: the encoded table of the activities newest first, or the failure when one lacks its author or team; its properties are `ExportFailsExactly`, `ExportReadsBack` and `ExportColumns` |
| Export.ExportCsv | backend/app/Http/Controllers/Api/StatsController.php:227-259 | the two loops compute `ExportText`: failure when a relation is missing, else the encoded table |
| Export.ExportFailsExactly | backend/app/Http/Controllers/Api/StatsController.php:239-240 | the export fails exactly when some activity has no author or its author no team |
| Export.ExportReadsBack | backend/app/Http/Controllers/Api/StatsController.php:227-259 | a successful export reads back as exactly its table |
| Export.ExportColumns | backend/app/Http/Controllers/Api/StatsController.php:233-245 | the columns: date text, author's name, team's name, kind label, distance, steps or 0 |
| UserRules.Filled | backend/app/Http/Controllers/Api/AuthController.php:53 | `required` on a string: something other than the characters PHP's `trim` removes |
| UserRules.RegisterRulesHold | backend/app/Http/Controllers/Api/AuthController.php:52-57 | name given and not blank, at most 255 characters; email given, of the form local@domain and not used; password given, not blank, at least 8 characters and confirmed; team given and existing |
| UserRules.EmailTaken | backend/app/Http/Controllers/Api/AuthController.php:136 | `unique:utilisateurs,email[,id]`: some user other than the excepted one holds the email |
| UserRules.UpdateRulesHold | backend/app/Http/Controllers/Api/AuthController.php:134-139 | each of name, email and team may be absent but, when given, is valid; the email may be the user's own |
| UserRules.Registered | backend/app/Http/Controllers/Api/AuthController.php:59-64 | a new user is never an administrator and stores the hash of the password, the given name, email and team |
| UserRules.RegisterOutcome | backend/app/Http/Controllers/Api/AuthController.php:50-64 | 422 exactly when a rule fails, including every already-used email; else exactly the row `Registered` builds under the fresh id |
| UserRules.BlankNameRefused | backend/app/Http/Controllers/Api/AuthController.php:53 | a name made only of spaces is refused with 422, because `required` trims first |
| UserRules.RegisterKeepsTable | backend/app/Http/Controllers/Api/AuthController.php:55-64 | a registration keeps emails unique and rows under their ids |
| UserRules.UserUpdated | backend/app/Http/Controllers/Api/AuthController.php:141 | exactly the present keys among name, email, team and administrator flag are written; id and password never change |
| UserRules.UpdateUserOutcome | backend/app/Http/Controllers/Api/AuthController.php:130-141 | 404 exactly when the id is unknown, 422 exactly when a present key is invalid, else exactly the row `UserUpdated` builds |
| UserRules.OwnEmailAccepted | backend/app/Http/Controllers/Api/AuthController.php:136 | a user may send back their own email |
| UserRules.OtherEmailRefused | backend/app/Http/Controllers/Api/AuthController.php:136 | another user's email is refused with 422 |
| UserRules.UpdateKeepsTable | backend/app/Http/Controllers/Api/AuthController.php:136-141 | an update keeps emails unique and rows under their ids |
| UserRules.LastAdminCanBeDemoted | backend/app/Http/Controllers/Api/AuthController.php:138-141 | the update has no last-administrator guard: the only administrator can be demoted |
| UserRules.Admins | backend/app/Http/Controllers/Api/AuthController.php:159 | exactly the users whose flag is set are counted as administrators |
| UserRules.AdminCount | backend/app/Http/Controllers/Api/AuthController.php:159 | the number of administrators: 0 exactly when nobody is one, at least 1 when someone is |
| UserRules.DeleteOutcome | backend/app/Http/Controllers/Api/AuthController.php:156-165 | 404 exactly when the id is unknown, 400 exactly when the target is an administrator and at most one exists, else success |
| UserRules.DeleteKeepsAnAdmin | backend/app/Http/Controllers/Api/AuthController.php:158-165 | a permitted deletion removes exactly the target, keeps every other user and leaves at least one administrator if there was one |
| UserRules.DeleteKeepsTable | backend/app/Http/Controllers/Api/AuthController.php:165 | a deletion keeps emails unique and rows under their ids |
| AuthController.UserTable.Register | backend/app/Http/Controllers/Api/AuthController.php:50-76 | the answer and table are `RegisterOutcome`'s: on success the user is inserted under a fresh id, otherwise nothing changes |
| AuthController.UserTable.UpdateUser | backend/app/Http/Controllers/Api/AuthController.php:130-150 | the answer is `UpdateUserOutcome`'s; only the target row changes, and only on success |
| AuthController.UserTable.DeleteUser | backend/app/Http/Controllers/Api/AuthController.php:156-173 | the answer is `DeleteOutcome`'s; the user is removed exactly on success |
| AuthController.LastAdminScenario | backend/tests/Feature/ActivityTest.php:112-122 | a registered user, once promoted, is the only administrator and their deletion gets 400 |

## Left out

- `login`, `logout`, `user`, token creation and `Hash::check`: these are credential plumbing in libraries outside this model. `Hash::make` is a parameter of `Register`.
- `index` and `getAllUsers`: only pagination glue around a query. `routes/api.php`: only wiring. It names a `getUserActivities` action that does not exist.
- `AdminMiddleware`: the administrator gate in front of `updateUser` and `deleteUser` is not modelled. Those operations take no caller.
- JSON envelopes, status-code plumbing, eager-loaded relations in responses, HTTP headers and the export's file name: these are presentation only.
- Carbon:
  - The current day, the week and month starts and the 30-day cutoff are parameters.
  - `subDays(30)` is a date-time; the model compares whole days.
  - The export's date text is a parameter.
- Stats.DaysSinceFirst: it assumes Carbon 2's absolute whole-day `diffInDays`. A first activity dated after today is counted as its distance in days plus one.
- Floating point: every distance is an exact integer count of hundredths.
  - A `distance_km` sent by a client is taken to be a whole number of hundredths.
  - Float rounding noise in SQL sums and in PHP's `round` is not modelled.
- SQL NULL semantics: a user without activities has total 0, and a NULL step value counts as 0.
- Orderings SQL leaves open are fixed by the model:
  - rows with equal keys under `orderBy(... 'desc')` come out in the reverse of their input order;
  - `GROUP BY type` lists cycling before walking.
- Request bodies: a key is present or absent, and the creation date is absent also when it does not parse. An explicit JSON `null` (allowed by `nullable`) is not distinguished from absence.
  - `is_admin` is a boolean, so the ignored cases are the non-boolean values the `boolean` rule refuses.
  - Laravel's convert-empty-strings-to-null and trim middleware are not modelled. The trimming inside the `required` rule is modelled, by `Filled`.
- UserRules.LooksLikeEmail: it weakens the `email` rule to "a non-empty part on each side of an `@`".
- UserRules.Registered: `register` never writes `is_admin`, so the stored flag is the column default. The migration that sets it is not part of this model; it is taken to be `false`.
- UserRules.EmailTaken: it compares emails exactly. A case-insensitive database collation is not modelled.
- Concurrency: two simultaneous creations for the same day can both pass the lookup in the source. The model runs requests one at a time.
- Foreign keys and cascades: deleting a user does not touch their activities. The model's user table and activity table are independent.
- Seeders, factories, the Eloquent models' other relations and the front-end router are not part of this model.
