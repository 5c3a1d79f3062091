/**
 * The read-only endpoints of StatsController (general, teams, users,
 * personal) as functions of the three tables, with the properties their
 * results have. Every distance is in whole hundredths of a km: stored
 * distances are whole hundredths, so their sums are too. The totals and
 * averages the controller rounds to two decimals are rounded with
 * Rounding.Average.
 */
module Stats {
  import opened Wrappers
  import opened Models
  import opened Aggregates
  import opened Sorting
  import Rounding

  // ---------------------------------------------------------------- general

  /** One group of `GROUP BY type`. */
  datatype KindGroup = KindGroup(kind: Kind, count: nat, distance: nat)

  /** One group of `GROUP BY date`. */
  datatype DayGroup = DayGroup(date: int, count: nat, distance: nat)

  datatype GeneralStats = GeneralStats(
    totalActivities: nat, totalDistance: nat, totalSteps: nat,
    totalUsers: nat, totalTeams: nat, thisWeek: nat, thisMonth: nat,
    averagePerActivity: nat, byKind: seq<KindGroup>, daily: seq<DayGroup>)

  /** The group of kind k, present only when some row has that kind. */
  function GroupOf(acts: seq<Activity>, k: Kind): (r: seq<KindGroup>)
    ensures |r| <= 1
    ensures r == [] <==> forall a :: a in acts ==> a.kind != k
    ensures forall g :: g in r ==>
      g.kind == k && g.count > 0 && g.count == |OfKind(acts, k)| && g.distance == Distance(OfKind(acts, k))
  {
    var rows := OfKind(acts, k);
    if rows == [] then []
    else
      assert rows[0] in rows;
      [KindGroup(k, |rows|, Distance(rows))]
  }

  function GroupCount(gs: seq<KindGroup>): nat {
    if gs == [] then 0 else gs[0].count + GroupCount(gs[1..])
  }

  function GroupDistance(gs: seq<KindGroup>): nat {
    if gs == [] then 0 else gs[0].distance + GroupDistance(gs[1..])
  }

  /**
   * `GROUP BY type` (cycling listed first): one non-empty group per kind
   * that occurs, each with that kind's count and distance, no kind listed
   * twice, and the counts and distances add up to the totals.
   */
  function KindGroups(acts: seq<Activity>): (r: seq<KindGroup>)
    ensures forall i :: 0 <= i < |r| ==>
      r[i].count > 0 && r[i].count == |OfKind(acts, r[i].kind)| && r[i].distance == Distance(OfKind(acts, r[i].kind))
    ensures forall i, j :: 0 <= i < j < |r| ==> r[i].kind != r[j].kind
    ensures forall a :: a in acts ==> exists i :: 0 <= i < |r| && r[i].kind == a.kind
    ensures GroupCount(r) == |acts| && GroupDistance(r) == Distance(acts)
  {
    var r := GroupOf(acts, Velo) + GroupOf(acts, MarcheCourse);
    var v, m := GroupOf(acts, Velo), GroupOf(acts, MarcheCourse);
    GroupsListed(acts, v, m, r);
    GroupsDistinct(acts, v, m, r);
    GroupsCover(acts, v, m, r);
    GroupsTotal(acts, v, m, r);
    r
  }

  /** Each listed group is non-empty and carries its kind's count and distance. */
  lemma GroupsListed(acts: seq<Activity>, v: seq<KindGroup>, m: seq<KindGroup>, r: seq<KindGroup>)
    requires v == GroupOf(acts, Velo) && m == GroupOf(acts, MarcheCourse) && r == v + m
    ensures forall i :: 0 <= i < |r| ==>
      r[i].count > 0 && r[i].count == |OfKind(acts, r[i].kind)| && r[i].distance == Distance(OfKind(acts, r[i].kind))
  {
    forall i | 0 <= i < |r|
      ensures r[i].count > 0 && r[i].count == |OfKind(acts, r[i].kind)| && r[i].distance == Distance(OfKind(acts, r[i].kind))
    {
      if i < |v| {
        assert r[i] == v[i] && v[i] in v;
      } else {
        assert r[i] == m[i - |v|] && m[i - |v|] in m;
      }
    }
  }

  /** No kind is listed twice. */
  lemma GroupsDistinct(acts: seq<Activity>, v: seq<KindGroup>, m: seq<KindGroup>, r: seq<KindGroup>)
    requires v == GroupOf(acts, Velo) && m == GroupOf(acts, MarcheCourse) && r == v + m
    ensures forall i, j :: 0 <= i < j < |r| ==> r[i].kind != r[j].kind
  {
    if |r| == 2 {
      assert r[0] == v[0] && v[0] in v;
      assert r[1] == m[0] && m[0] in m;
    }
  }

  /** Every kind that occurs is listed. */
  lemma GroupsCover(acts: seq<Activity>, v: seq<KindGroup>, m: seq<KindGroup>, r: seq<KindGroup>)
    requires v == GroupOf(acts, Velo) && m == GroupOf(acts, MarcheCourse) && r == v + m
    ensures forall a :: a in acts ==> exists i :: 0 <= i < |r| && r[i].kind == a.kind
  {
    forall a | a in acts ensures exists i :: 0 <= i < |r| && r[i].kind == a.kind {
      if a.kind == Velo {
        assert v != [];
        assert r[0] == v[0] && v[0] in v;
      } else {
        assert m != [];
        assert r[|v|] == m[0] && m[0] in m;
      }
    }
  }

  /** The counts and distances of the two groups add up to the totals. */
  lemma GroupsTotal(acts: seq<Activity>, v: seq<KindGroup>, m: seq<KindGroup>, r: seq<KindGroup>)
    requires v == GroupOf(acts, Velo) && m == GroupOf(acts, MarcheCourse) && r == v + m
    ensures GroupCount(r) == |acts| && GroupDistance(r) == Distance(acts)
  {
    KindsPartition(acts);
    GroupsAppend(v, m);
    GroupTotal(acts, Velo);
    GroupTotal(acts, MarcheCourse);
  }

  /** A kind's group carries that kind's count and distance, or nothing when both are 0. */
  lemma GroupTotal(acts: seq<Activity>, k: Kind)
    ensures GroupCount(GroupOf(acts, k)) == |OfKind(acts, k)|
    ensures GroupDistance(GroupOf(acts, k)) == Distance(OfKind(acts, k))
  {
    var g := GroupOf(acts, k);
    if g != [] {
      assert g[0] in g && g[1..] == [];
    }
  }

  lemma GroupsAppend(v: seq<KindGroup>, m: seq<KindGroup>)
    requires |v| <= 1
    ensures GroupCount(v + m) == GroupCount(v) + GroupCount(m)
    ensures GroupDistance(v + m) == GroupDistance(v) + GroupDistance(m)
  {
    if v == [] {
      assert v + m == m;
    } else {
      assert (v + m)[1..] == m;
      assert v[1..] == [];
    }
  }

  ghost predicate Ascending(s: seq<int>) {
    forall i, j :: 0 <= i < j < |s| ==> s[i] < s[j]
  }

  /** Adds a day to an ascending list of distinct days. */
  function InsertDay(d: int, s: seq<int>): (r: seq<int>)
    requires Ascending(s)
    ensures Ascending(r)
    ensures forall x :: x in r <==> x == d || x in s
  {
    if s == [] then [d]
    else if d < s[0] then [d] + s
    else if d == s[0] then s
    else
      var rest := InsertDay(d, s[1..]);
      assert s == [s[0]] + s[1..];
      assert forall x :: x in rest ==> s[0] < x;
      AscendingCons(s[0], rest);
      [s[0]] + rest
  }

  lemma AscendingCons(x: int, s: seq<int>)
    requires Ascending(s) && forall y :: y in s ==> x < y
    ensures Ascending([x] + s)
  {
    var t := [x] + s;
    forall i, j | 0 <= i < j < |t| ensures t[i] < t[j] {
      assert t[j] == s[j - 1] && s[j - 1] in s;
      if i > 0 {
        assert t[i] == s[i - 1];
      }
    }
  }

  /** Some row is dated x. */
  ghost predicate Dated(acts: seq<Activity>, x: int) {
    exists i :: 0 <= i < |acts| && acts[i].date == x
  }

  /** The distinct dates of the rows, ascending. */
  function Dates(acts: seq<Activity>): (r: seq<int>)
    ensures Ascending(r)
    ensures forall x :: x in r <==> Dated(acts, x)
  {
    if acts == [] then []
    else
      var rest := Dates(acts[1..]);
      assert forall x :: Dated(acts, x) <==> x == acts[0].date || Dated(acts[1..], x) by {
        forall x ensures Dated(acts, x) ==> x == acts[0].date || Dated(acts[1..], x) {
          if i :| 0 <= i < |acts| && acts[i].date == x {
            if i > 0 { assert acts[1..][i - 1].date == x; }
          }
        }
        forall x | Dated(acts[1..], x) ensures Dated(acts, x) {
          var i :| 0 <= i < |acts[1..]| && acts[1..][i].date == x;
          assert acts[i + 1].date == x;
        }
      }
      InsertDay(acts[0].date, rest)
  }

  /**
   * `GROUP BY date ORDER BY date` over the rows dated `since` or later: one
   * group per distinct date in the window, in ascending order, each with
   * that date's count (never 0) and distance, and no date of the window left out.
   */
  function Daily(acts: seq<Activity>, since: int): (r: seq<DayGroup>)
    ensures forall i, j :: 0 <= i < j < |r| ==> r[i].date < r[j].date
    ensures forall i :: 0 <= i < |r| ==>
      && r[i].date >= since && r[i].count > 0
      && r[i].count == |OnDate(acts, r[i].date)| && r[i].distance == Distance(OnDate(acts, r[i].date))
    ensures forall a :: a in acts && a.date >= since ==> exists i :: 0 <= i < |r| && r[i].date == a.date
  {
    var recent := Since(acts, since);
    var ds := Dates(recent);
    var r := seq(|ds|, i requires 0 <= i < |ds| =>
      DayGroup(ds[i], |OnDate(recent, ds[i])|, Distance(OnDate(recent, ds[i]))));
    DailyGroups(acts, since, ds, r);
    DailyCovers(acts, since, ds, r);
    r
  }

  /** The groups Daily builds, one per date of the window, hold that date's rows. */
  lemma DailyGroups(acts: seq<Activity>, since: int, ds: seq<int>, r: seq<DayGroup>)
    requires ds == Dates(Since(acts, since)) && |r| == |ds|
    requires forall i :: 0 <= i < |r| ==>
      r[i] == DayGroup(ds[i], |OnDate(Since(acts, since), ds[i])|, Distance(OnDate(Since(acts, since), ds[i])))
    ensures forall i :: 0 <= i < |r| ==>
      && r[i].date >= since && r[i].count > 0
      && r[i].count == |OnDate(acts, r[i].date)| && r[i].distance == Distance(OnDate(acts, r[i].date))
  {
    forall i | 0 <= i < |r|
      ensures r[i].date >= since && r[i].count > 0
      ensures r[i].count == |OnDate(acts, r[i].date)| && r[i].distance == Distance(OnDate(acts, r[i].date))
    {
      DayGroupHolds(acts, since, ds, r[i], i);
    }
  }

  /** Every date of the window has its group. */
  lemma DailyCovers(acts: seq<Activity>, since: int, ds: seq<int>, r: seq<DayGroup>)
    requires ds == Dates(Since(acts, since)) && |r| == |ds|
    requires forall i :: 0 <= i < |r| ==> r[i].date == ds[i]
    ensures forall a :: a in acts && a.date >= since ==> exists i :: 0 <= i < |r| && r[i].date == a.date
  {
    forall a | a in acts && a.date >= since
      ensures exists i :: 0 <= i < |r| && r[i].date == a.date
    {
      DayListed(acts, since, a);
      var i :| 0 <= i < |ds| && ds[i] == a.date;
      assert r[i].date == a.date;
    }
  }

  /** The group of the i-th listed date holds that date's rows of the whole table. */
  lemma DayGroupHolds(acts: seq<Activity>, since: int, ds: seq<int>, g: DayGroup, i: nat)
    requires ds == Dates(Since(acts, since)) && i < |ds|
    requires g == DayGroup(ds[i], |OnDate(Since(acts, since), ds[i])|, Distance(OnDate(Since(acts, since), ds[i])))
    ensures g.date >= since && g.count > 0
    ensures g.count == |OnDate(acts, g.date)| && g.distance == Distance(OnDate(acts, g.date))
  {
    assert ds[i] in ds;
    DayInWindow(acts, since, ds[i]);
  }

  /** A date listed for the window is in it, has a row, and has the same rows as in the whole table. */
  lemma DayInWindow(acts: seq<Activity>, since: int, d: int)
    requires d in Dates(Since(acts, since))
    ensures d >= since && |OnDate(acts, d)| > 0 && OnDate(Since(acts, since), d) == OnDate(acts, d)
  {
    var recent := Since(acts, since);
    assert Dated(recent, d);
    var k :| 0 <= k < |recent| && recent[k].date == d;
    assert recent[k] in recent;
    assert recent[k] in OnDate(recent, d);
    OnDateSince(acts, since, d);
  }

  /** The date of every row in the window is listed. */
  lemma DayListed(acts: seq<Activity>, since: int, a: Activity)
    requires a in acts && a.date >= since
    ensures a.date in Dates(Since(acts, since))
  {
    var recent := Since(acts, since);
    assert a in recent;
    var k :| 0 <= k < |recent| && recent[k] == a;
    assert Dated(recent, a.date);
  }

  /**
   * GET /stats/general. `weekStart`, `monthStart` and `since` are the first
   * days counted by the week, the month and the 30-day rollup.
   */
  function General(acts: seq<Activity>, users: seq<User>, teams: seq<Team>,
                   weekStart: int, monthStart: int, since: int): (g: GeneralStats)
    ensures g.totalActivities == |acts| && g.totalDistance == Distance(acts)
    ensures g.averagePerActivity == Rounding.Average(Distance(acts), |acts|)
    ensures |acts| == 0 ==> g.averagePerActivity == 0
    ensures g.thisWeek == |Since(acts, weekStart)| && g.thisMonth == |Since(acts, monthStart)|
    ensures g.thisWeek <= g.totalActivities && g.thisMonth <= g.totalActivities
    ensures g.totalSteps == Steps(acts) && g.totalUsers == |users| && g.totalTeams == |teams|
    ensures g.byKind == KindGroups(acts) && g.daily == Daily(acts, since)
  {
    var count := |acts|;
    var distance := Distance(acts);
    GeneralStats(count, distance, Steps(acts), |users|, |teams|,
                 |Since(acts, weekStart)|, |Since(acts, monthStart)|,
                 if count > 0 then Rounding.Average(distance, count) else 0,
                 KindGroups(acts), Daily(acts, since))
  }

  // ------------------------------------------------------------------ teams

  datatype TeamStats = TeamStats(team: Team, members: nat, activities: nat, distance: nat,
                                 averagePerActivity: nat, averagePerMember: nat)

  /**
   * `where equipe_id = team`: the users of that team, in order; Laravel reads
   * a null team as `whereNull`, which selects the users without a team.
   */
  function Members(users: seq<User>, team: Option<nat>): (r: seq<User>)
    ensures |r| <= |users|
    ensures forall u :: u in r <==> u in users && u.team == team
  {
    if users == [] then []
    else (if users[0].team == team then [users[0]] else []) + Members(users[1..], team)
  }

  /** No two of the users share an id, as the primary key of `utilisateurs` guarantees. */
  ghost predicate DistinctIds(users: seq<User>) {
    forall i, j :: 0 <= i < j < |users| ==> users[i].id != users[j].id
  }

  /** How often the join yields row a: as often as the table holds it when its author is among the users. */
  ghost function Attached(members: seq<User>, acts: seq<Activity>, a: Activity): nat {
    if exists m :: m in members && m.id == a.user then multiset(acts)[a] else 0
  }

  /**
   * The activities the left join attaches to the given users: exactly the
   * rows of one of them and, when no two users share an id, each as often
   * as in the table.
   */
  function ActivitiesOf(members: seq<User>, acts: seq<Activity>): (r: seq<Activity>)
    ensures forall a :: a in r <==> a in acts && exists m :: m in members && m.id == a.user
    ensures DistinctIds(members) ==> forall a :: multiset(r)[a] == Attached(members, acts, a)
  {
    if members == [] then []
    else
      var rest := ActivitiesOf(members[1..], acts);
      assert forall m :: m in members <==> m == members[0] || m in members[1..];
      JoinStep(members, acts, rest);
      OfUser(acts, members[0].id) + rest
  }

  /** With distinct ids, the first user's rows and the others' never overlap. */
  lemma JoinStep(members: seq<User>, acts: seq<Activity>, rest: seq<Activity>)
    requires members != []
    requires DistinctIds(members[1..]) ==> forall a :: multiset(rest)[a] == Attached(members[1..], acts, a)
    ensures DistinctIds(members) ==> forall a :: multiset(OfUser(acts, members[0].id) + rest)[a] == Attached(members, acts, a)
  {
    if DistinctIds(members) {
      assert DistinctIds(members[1..]) by {
        forall i, j | 0 <= i < j < |members[1..]| ensures members[1..][i].id != members[1..][j].id {
          assert members[1..][i] == members[i + 1] && members[1..][j] == members[j + 1];
        }
      }
      DisjointJoin(members, acts, rest);
    }
  }

  lemma DisjointJoin(members: seq<User>, acts: seq<Activity>, rest: seq<Activity>)
    requires members != [] && DistinctIds(members)
    requires forall a :: multiset(rest)[a] == Attached(members[1..], acts, a)
    ensures forall a :: multiset(OfUser(acts, members[0].id) + rest)[a] == Attached(members, acts, a)
  {
    forall a ensures multiset(OfUser(acts, members[0].id) + rest)[a] == Attached(members, acts, a) {
      assert multiset(OfUser(acts, members[0].id) + rest) == multiset(OfUser(acts, members[0].id)) + multiset(rest);
      if members[0].id == a.user {
        forall m | m in members[1..] ensures m.id != a.user {
          var j :| 0 <= j < |members[1..]| && members[1..][j] == m;
          assert members[j + 1] == m;
        }
      }
    }
  }

  /** One team's row: its counts, its total and both averages. */
  function TeamRow(t: Team, users: seq<User>, acts: seq<Activity>): (r: TeamStats)
    ensures r.team == t
    ensures r.members == |Members(users, Some(t.id))|
    ensures r.activities == |ActivitiesOf(Members(users, Some(t.id)), acts)|
    ensures r.distance == Distance(ActivitiesOf(Members(users, Some(t.id)), acts))
    ensures r.members == 0 ==> r.activities == 0 && r.distance == 0 && r.averagePerMember == 0
    ensures r.activities == 0 ==> r.averagePerActivity == 0
    ensures r.members > 0 ==> -(r.members as int) <= 2 * r.distance - 2 * r.members * r.averagePerMember < r.members
    ensures r.activities > 0 ==>
      -(r.activities as int) <= 2 * r.distance - 2 * r.activities * r.averagePerActivity < r.activities
  {
    var members := Members(users, Some(t.id));
    var mine := ActivitiesOf(members, acts);
    var distance := Distance(mine);
    TeamStats(t, |members|, |mine|, distance,
              Rounding.Average(distance, |mine|),
              if |members| > 0 then Rounding.Average(distance, |members|) else 0)
  }

  function TeamDistance(r: TeamStats): int { r.distance }

  /** One row per team, in the order of the teams. */
  function TeamRows(teams: seq<Team>, users: seq<User>, acts: seq<Activity>): seq<TeamStats> {
    seq(|teams|, i requires 0 <= i < |teams| => TeamRow(teams[i], users, acts))
  }

  /**
   * GET /stats/teams: every team's row exactly once (a permutation of the
   * rows), ordered by total distance descending.
   */
  function TeamBoard(teams: seq<Team>, users: seq<User>, acts: seq<Activity>): (b: seq<TeamStats>)
    ensures |b| == |teams|
    ensures multiset(b) == multiset(TeamRows(teams, users, acts))
    ensures forall i, j :: 0 <= i < j < |b| ==> b[i].distance >= b[j].distance
    ensures forall i :: 0 <= i < |b| ==> b[i] == TeamRow(b[i].team, users, acts) && b[i].team in teams
  {
    var rows := TeamRows(teams, users, acts);
    var b := SortDesc(rows, TeamDistance);
    assert forall i :: 0 <= i < |b| ==> b[i] == TeamRow(b[i].team, users, acts) && b[i].team in teams by {
      forall i | 0 <= i < |b|
        ensures b[i] == TeamRow(b[i].team, users, acts) && b[i].team in teams
      {
        assert b[i] in multiset(rows);
        var k :| 0 <= k < |rows| && rows[k] == b[i];
      }
    }
    assert forall i, j :: 0 <= i < j < |b| ==> TeamDistance(b[i]) >= TeamDistance(b[j]);
    b
  }

  // ------------------------------------------------------------------ users

  /** One user's row of the leaderboard query. */
  datatype UserStats = UserStats(id: nat, name: string, email: string, team: Option<nat>,
                                 activities: nat, distance: nat, averagePerActivity: nat)

  datatype RankedUser = RankedUser(rank: nat, stats: UserStats)

  /** The length of the leaderboard (`limit(10)`). */
  const BoardSize: nat := 10

  /** One user's row: their id, name, email and team, their count, total and average per activity. */
  function UserRow(u: User, acts: seq<Activity>): (r: UserStats)
    ensures r.id == u.id && r.name == u.name && r.email == u.email && r.team == u.team
    ensures r.activities == |OfUser(acts, u.id)| && r.distance == Distance(OfUser(acts, u.id))
    ensures r.activities == 0 ==> r.distance == 0 && r.averagePerActivity == 0
    ensures r.activities > 0 ==>
      -(r.activities as int) <= 2 * r.distance - 2 * r.activities * r.averagePerActivity < r.activities
  {
    var mine := OfUser(acts, u.id);
    UserStats(u.id, u.name, u.email, u.team, |mine|, Distance(mine), Rounding.Average(Distance(mine), |mine|))
  }

  function UserDistance(s: UserStats): int { s.distance }

  function UserRows(users: seq<User>, acts: seq<Activity>): seq<UserStats> {
    seq(|users|, i requires 0 <= i < |users| => UserRow(users[i], acts))
  }

  /**
   * GET /stats/users: min(10, number of users) entries, each the row of
   * some user, numbered by position from 1 and ordered by distance descending.
   */
  function Leaderboard(users: seq<User>, acts: seq<Activity>): (b: seq<RankedUser>)
    ensures |b| == (if |users| < BoardSize then |users| else BoardSize)
    ensures forall i :: 0 <= i < |b| ==> b[i].rank == i + 1 && b[i].stats in UserRows(users, acts)
    ensures forall i, j :: 0 <= i < j < |b| ==> b[i].stats.distance >= b[j].stats.distance
    ensures multiset(BoardRows(b)) <= multiset(UserRows(users, acts))
  {
    var rows := UserRows(users, acts);
    var sorted := SortDesc(rows, UserDistance);
    var n := if |sorted| < BoardSize then |sorted| else BoardSize;
    var b := seq(n, i requires 0 <= i < n => RankedUser(i + 1, sorted[i]));
    TopEntries(rows, sorted, b);
    b
  }

  /** The user rows on a board, without their ranks. */
  function BoardRows(b: seq<RankedUser>): seq<UserStats> {
    seq(|b|, i requires 0 <= i < |b| => b[i].stats)
  }

  /**
   * Numbering a prefix of the sorted rows keeps each entry a row, no row
   * more often than it occurs, and the order.
   */
  lemma TopEntries(rows: seq<UserStats>, sorted: seq<UserStats>, b: seq<RankedUser>)
    requires SortedDesc(sorted, UserDistance) && multiset(sorted) == multiset(rows)
    requires |b| <= |sorted| && forall i :: 0 <= i < |b| ==> b[i] == RankedUser(i + 1, sorted[i])
    ensures forall i :: 0 <= i < |b| ==> b[i].rank == i + 1 && b[i].stats in rows
    ensures forall i, j :: 0 <= i < j < |b| ==> b[i].stats.distance >= b[j].stats.distance
    ensures multiset(BoardRows(b)) <= multiset(rows)
  {
    var n := |b|;
    assert BoardRows(b) == sorted[..n];
    assert sorted == sorted[..n] + sorted[n..];
    assert multiset(sorted) == multiset(sorted[..n]) + multiset(sorted[n..]);
    forall i | 0 <= i < |b| ensures b[i].stats in rows {
      assert sorted[i] in multiset(rows);
    }
    forall i, j | 0 <= i < j < |b| ensures b[i].stats.distance >= b[j].stats.distance {
      assert UserDistance(sorted[i]) >= UserDistance(sorted[j]);
    }
  }

  /** Nobody is left off the leaderboard whose distance beats its last entry's. */
  lemma LeaderboardComplete(users: seq<User>, acts: seq<Activity>, k: nat)
    requires k < |users|
    requires var b := Leaderboard(users, acts);
      b != [] && UserRow(users[k], acts).distance > b[|b| - 1].stats.distance
    ensures var b := Leaderboard(users, acts);
      exists i :: 0 <= i < |b| && b[i].stats == UserRow(users[k], acts)
  {
    var rows := UserRows(users, acts);
    var sorted := SortDesc(rows, UserDistance);
    var b := Leaderboard(users, acts);
    assert rows[k] == UserRow(users[k], acts);
    assert rows[k] in multiset(sorted);
    var j :| 0 <= j < |sorted| && sorted[j] == rows[k];
    assert forall m :: |b| <= m < |sorted| ==> UserDistance(sorted[m]) <= UserDistance(sorted[|b| - 1]);
    assert b[j].stats == rows[k];
  }

  // --------------------------------------------------------------- personal

  /** The number of totals strictly greater than `mine`. */
  function CountAbove(totals: seq<nat>, mine: nat): (n: nat)
    ensures n <= |totals|
  {
    if totals == [] then 0
    else (if totals[0] > mine then 1 else 0) + CountAbove(totals[1..], mine)
  }

  /** The ranking rule: 1 + the number of totals strictly greater. */
  function RankAmong(totals: seq<nat>, mine: nat): (r: nat)
    ensures 1 <= r <= |totals| + 1
  {
    1 + CountAbove(totals, mine)
  }

  /** Ties share a rank and the next rank skips them: totals [30, 20, 20, 10] rank 1, 2, 2, 4. */
  lemma RankExample()
    ensures var t := [3000, 2000, 2000, 1000];
      RankAmong(t, 3000) == 1 && RankAmong(t, 2000) == 2 && RankAmong(t, 1000) == 4
  {
    var t := [3000, 2000, 2000, 1000];
    assert t[1..] == [2000, 2000, 1000] && t[1..][1..] == [2000, 1000] && t[1..][1..][1..] == [1000];
  }

  /** A smaller or equal total never ranks better; a total that is beaten by one present ranks strictly worse. */
  lemma {:induction false} RankMonotone(totals: seq<nat>, x: nat, y: nat)
    requires y <= x
    ensures RankAmong(totals, x) <= RankAmong(totals, y)
    ensures y < x && x in totals ==> RankAmong(totals, x) < RankAmong(totals, y)
  {
    if totals != [] {
      RankMonotone(totals[1..], x, y);
      if totals[0] != x {
        assert x in totals ==> x in totals[1..];
      }
    }
  }

  /** `SUM(distance_km) ... groupBy('utilisateurs.id')`: one total per user, in the users' order. */
  function Totals(users: seq<User>, acts: seq<Activity>): (r: seq<nat>)
    ensures |r| == |users|
    ensures forall i :: 0 <= i < |users| ==> r[i] == Distance(OfUser(acts, users[i].id))
  {
    if users == [] then []
    else
      var rest := Totals(users[1..], acts);
      assert forall i :: 1 <= i < |users| ==> users[i] == users[1..][i - 1];
      [Distance(OfUser(acts, users[0].id))] + rest
  }

  /** Restricting the users to one team never puts more of them ahead of a total. */
  lemma {:induction false} TeammatesAboveAtMost(users: seq<User>, acts: seq<Activity>, team: Option<nat>, mine: nat)
    ensures CountAbove(Totals(Members(users, team), acts), mine) <= CountAbove(Totals(users, acts), mine)
  {
    if users != [] {
      TeammatesAboveAtMost(users[1..], acts, team, mine);
      var rest := Members(users[1..], team);
      if users[0].team == team {
        assert Members(users, team) == [users[0]] + rest;
        assert ([users[0]] + rest)[1..] == rest;
      } else {
        assert Members(users, team) == rest;
      }
    }
  }

  /** The first date among the rows (`orderBy('date')->first()`). */
  function FirstDate(acts: seq<Activity>): (d: Option<int>)
    ensures d.None? <==> acts == []
    ensures d.Some? ==> Dated(acts, d.value)
    ensures d.Some? ==> forall i :: 0 <= i < |acts| ==> d.value <= acts[i].date
  {
    if acts == [] then None
    else match FirstDate(acts[1..])
      case None => Some(acts[0].date)
      case Some(d) =>
        assert forall i :: 1 <= i < |acts| ==> acts[i] == acts[1..][i - 1];
        if acts[0].date <= d then Some(acts[0].date)
        else
          var k :| 0 <= k < |acts[1..]| && acts[1..][k].date == d;
          assert acts[k + 1].date == d;
          Some(d)
  }

  /** Whole days from the first activity to today, plus one; 1 without activities. */
  function DaysSinceFirst(mine: seq<Activity>, today: int): (n: nat)
    ensures n >= 1
  {
    match FirstDate(mine)
    case None => 1
    case Some(d) => (if today >= d then today - d else d - today) + 1
  }

  /** Negated date: sorting on it descending orders by date ascending. */
  function NegatedDate(a: Activity): int { -a.date }

  /** The caller's rows dated `since` or later, by date ascending. */
  function History(mine: seq<Activity>, since: int): (r: seq<Activity>)
    ensures forall i :: 0 <= i < |r| ==> r[i] in mine && r[i].date >= since
    ensures forall i, j :: 0 <= i < j < |r| ==> r[i].date <= r[j].date
    ensures multiset(r) == multiset(Since(mine, since))
  {
    var r := SortDesc(Since(mine, since), NegatedDate);
    HistoryOrdered(Since(mine, since), r);
    r
  }

  /** Rows sorted by negated date are ascending by date and drawn from the rows sorted. */
  lemma HistoryOrdered(recent: seq<Activity>, r: seq<Activity>)
    requires SortedDesc(r, NegatedDate) && multiset(r) == multiset(recent)
    ensures forall i :: 0 <= i < |r| ==> r[i] in recent
    ensures forall i, j :: 0 <= i < j < |r| ==> r[i].date <= r[j].date
  {
    forall i | 0 <= i < |r| ensures r[i] in recent {
      assert r[i] in multiset(recent);
    }
    assert forall i, j :: 0 <= i < j < |r| ==> NegatedDate(r[i]) >= NegatedDate(r[j]);
  }

  datatype PersonalStats = PersonalStats(
    totalActivities: nat, totalDistance: nat, totalSteps: nat, dailyAverage: nat,
    veloCount: nat, veloDistance: nat,
    marcheCount: nat, marcheDistance: nat, marcheSteps: nat,
    generalRank: nat, teamRank: nat, last30Days: seq<Activity>)

  /** GET /stats/personal for the caller `me`; `since` is the first day of the 30-day window. */
  function Personal(me: User, users: seq<User>, acts: seq<Activity>, today: int, since: int): (p: PersonalStats)
    ensures p.totalActivities == |OfUser(acts, me.id)| && p.totalDistance == Distance(OfUser(acts, me.id))
    ensures p.generalRank == RankAmong(Totals(users, acts), p.totalDistance)
    ensures p.teamRank == RankAmong(Totals(Members(users, me.team), acts), p.totalDistance)
    ensures 1 <= p.teamRank && 1 <= p.generalRank
    ensures forall i :: 0 <= i < |p.last30Days| ==> p.last30Days[i].user == me.id && p.last30Days[i].date >= since
    ensures forall i, j :: 0 <= i < j < |p.last30Days| ==> p.last30Days[i].date <= p.last30Days[j].date
    ensures p.last30Days == History(OfUser(acts, me.id), since)
    ensures var mine := OfUser(acts, me.id);
      && p.totalSteps == Steps(mine)
      && p.veloCount == |OfKind(mine, Velo)| && p.veloDistance == Distance(OfKind(mine, Velo))
      && p.marcheCount == |OfKind(mine, MarcheCourse)| && p.marcheDistance == Distance(OfKind(mine, MarcheCourse))
      && p.marcheSteps == Steps(OfKind(mine, MarcheCourse))
  {
    var mine := OfUser(acts, me.id);
    var total := Distance(mine);
    var velo := OfKind(mine, Velo);
    var marche := OfKind(mine, MarcheCourse);
    var days := DaysSinceFirst(mine, today);
    var recent := History(mine, since);
    PersonalStats(|mine|, total, Steps(mine),
                  if days > 0 then Rounding.Average(total, days) else 0,
                  |velo|, Distance(velo),
                  |marche|, Distance(marche), Steps(marche),
                  RankAmong(Totals(users, acts), total),
                  RankAmong(Totals(Members(users, me.team), acts), total),
                  recent)
  }

  /**
   * The personal figures are consistent: the per-type counts and distances
   * add up to the caller's totals, the daily average is the total over at
   * least one day, and the team rank is never worse than the general rank.
   */
  lemma PersonalSpec(me: User, users: seq<User>, acts: seq<Activity>, today: int, since: int)
    ensures var p := Personal(me, users, acts, today, since);
      && p.veloCount + p.marcheCount == p.totalActivities
      && p.veloDistance + p.marcheDistance == p.totalDistance
      && p.dailyAverage == Rounding.Average(p.totalDistance, DaysSinceFirst(OfUser(acts, me.id), today))
      && p.teamRank <= p.generalRank
  {
    KindsPartition(OfUser(acts, me.id));
    TeammatesAboveAtMost(users, acts, me.team, Distance(OfUser(acts, me.id)));
  }
}
