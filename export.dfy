/**
 * The CSV export of every activity: a header row, then one row per
 * activity, newest first, with its author's name and team name. The method
 * follows the two loops of the controller (build the rows, then encode them)
 * and is proved to give the text `ExportText` describes; that text reads
 * back, field for field, as the header and the activity rows.
 */
module Export {
  import opened Wrappers
  import opened Models
  import opened Sorting
  import opened Csv

  const Header: seq<string> := ["Date", "Utilisateur", "Équipe", "Type", "Distance (km)", "Pas"]

  /** The label of the `Type` column. */
  function KindLabel(k: Kind): (s: string)
    ensures !NeedsQuotes(s)
  {
    if k == Velo then "Vélo" else "Marche/Course"
  }

  function Digit(n: nat): (c: char)
    requires n < 10
    ensures '0' <= c <= '9' && c as int - '0' as int == n
  {
    ('0' as int + n) as char
  }

  /** PHP's decimal text of a whole number. */
  function Digits(n: nat): (s: string)
    ensures |s| >= 1
    ensures forall i :: 0 <= i < |s| ==> '0' <= s[i] <= '9'
  {
    if n < 10 then [Digit(n)] else Digits(n / 10) + [Digit(n % 10)]
  }

  /** The value of a string of decimal digits. */
  function ValueOf(s: string): int {
    if s == [] then 0 else 10 * ValueOf(s[..|s| - 1]) + (s[|s| - 1] as int - '0' as int)
  }

  lemma {:induction false} DigitsValue(n: nat)
    ensures ValueOf(Digits(n)) == n
  {
    if n >= 10 {
      DigitsValue(n / 10);
      var s := Digits(n);
      assert s == Digits(n / 10) + [Digit(n % 10)];
      assert s[..|s| - 1] == Digits(n / 10);
    }
  }

  /** A number's text holds none of the characters that force quoting. */
  lemma DigitsUnquoted(n: nat)
    ensures !NeedsQuotes(Digits(n))
  {
    var s := Digits(n);
    assert forall c :: c in s ==> '0' <= c <= '9';
  }

  /**
   * PHP's text of the float `h / 100`: the whole part, then a point and the
   * hundredths only when they are not zero, without a trailing zero
   * (200 is "2", 150 is "1.5", 133 is "1.33").
   */
  function DistanceText(h: nat): (s: string)
    ensures !NeedsQuotes(s)
  {
    var whole, cents := h / 100, h % 100;
    DigitsUnquoted(whole);
    var w := Digits(whole);
    if cents == 0 then w
    else if cents % 10 == 0 then w + "." + [Digit(cents / 10)]
    else w + "." + [Digit(cents / 10), Digit(cents % 10)]
  }

  lemma DistanceTextExamples()
    ensures DistanceText(200) == "2"
    ensures DistanceText(150) == "1.5"
    ensures DistanceText(133) == "1.33"
    ensures DistanceText(1005) == "10.05"
  {
    assert Digits(10) == Digits(1) + [Digit(0)];
  }

  /** `utilisateur` of an activity: the first user with that id. */
  function FindUser(users: seq<User>, id: nat): (r: Option<User>)
    ensures r.Some? ==> r.value in users && r.value.id == id
    ensures r.None? <==> forall u :: u in users ==> u.id != id
  {
    if users == [] then None
    else if users[0].id == id then Some(users[0])
    else FindUser(users[1..], id)
  }

  /** `equipe` of a user: the first team with that id. */
  function FindTeam(teams: seq<Team>, id: nat): (r: Option<Team>)
    ensures r.Some? ==> r.value in teams && r.value.id == id
    ensures r.None? <==> forall t :: t in teams ==> t.id != id
  {
    if teams == [] then None
    else if teams[0].id == id then Some(teams[0])
    else FindTeam(teams[1..], id)
  }

  /**
   * The row of one activity, or None when its author or their team is missing
   * (reading `nom` through a null relation fails the request).
   */
  function ActivityRow(a: Activity, users: seq<User>, teams: seq<Team>, dateText: int -> string): (r: Option<seq<string>>)
    ensures r.Some? ==> |r.value| == |Header|
  {
    match FindUser(users, a.user)
    case None => None
    case Some(u) =>
      if u.team.None? then None
      else
        match FindTeam(teams, u.team.value)
        case None => None
        case Some(t) =>
          Some([dateText(a.date), u.name, t.name, KindLabel(a.kind), DistanceText(a.distance),
                Digits(if a.pas.Some? then a.pas.value else 0)])
  }

  /** `orderBy('date', 'desc')`. */
  function ExportDate(a: Activity): int { a.date }

  function Newest(acts: seq<Activity>): (r: seq<Activity>)
    ensures SortedDesc(r, ExportDate) && multiset(r) == multiset(acts) && |r| == |acts|
  {
    SortDesc(acts, ExportDate)
  }

  /** The row of each activity, resolved against the given users and teams. */
  function RowFn(users: seq<User>, teams: seq<Team>, dateText: int -> string): Activity -> Option<seq<string>> {
    a => ActivityRow(a, users, teams, dateText)
  }

  /** Every element has a row. */
  predicate AllResolve<T>(xs: seq<T>, row: T -> Option<seq<string>>) {
    forall i :: 0 <= i < |xs| ==> row(xs[i]).Some?
  }

  /** The header and one row per element, in the given order. */
  function Table<T>(xs: seq<T>, row: T -> Option<seq<string>>): (rows: seq<seq<string>>)
    requires AllResolve(xs, row)
    ensures |rows| == |xs| + 1 && rows[0] == Header
    ensures forall i :: 0 <= i < |xs| ==> rows[i + 1] == row(xs[i]).value
  {
    [Header] + seq(|xs|, i requires 0 <= i < |xs| => row(xs[i]).value)
  }

  /** Resolving one more element extends the table by that element's row. */
  lemma TableSnoc<T>(xs: seq<T>, i: nat, row: T -> Option<seq<string>>)
    requires i < |xs| && AllResolve(xs[..i], row) && row(xs[i]).Some?
    ensures AllResolve(xs[..i + 1], row)
    ensures Table(xs[..i + 1], row) == Table(xs[..i], row) + [row(xs[i]).value]
  {
    var before, after := xs[..i], xs[..i + 1];
    assert forall k :: 0 <= k < i ==> after[k] == before[k];
    var t, t' := Table(before, row), Table(after, row);
    assert |t'| == |t| + 1;
    forall k | 0 <= k < |t'| ensures t'[k] == (t + [row(xs[i]).value])[k] {
      if 0 < k <= i {
        assert t'[k] == row(after[k - 1]).value;
      }
    }
  }

  /** The text of the export, or the failure when one activity lacks its author or team. */
  function ExportText(acts: seq<Activity>, users: seq<User>, teams: seq<Team>, dateText: int -> string): Result<string, Error> {
    var sorted, row := Newest(acts), RowFn(users, teams, dateText);
    if AllResolve(sorted, row) then Ok(Document(Table(sorted, row))) else Err(MissingRelation)
  }

  /** GET /stats/export: the two loops of the controller. */
  method ExportCsv(acts: seq<Activity>, users: seq<User>, teams: seq<Team>, dateText: int -> string)
    returns (r: Result<string, Error>)
    ensures r == ExportText(acts, users, teams, dateText)
  {
    var activities := SortDesc(acts, ExportDate);
    var rowOf := RowFn(users, teams, dateText);
    var csvData: seq<seq<string>> := [Header];
    for i := 0 to |activities|
      invariant AllResolve(activities[..i], rowOf)
      invariant csvData == Table(activities[..i], rowOf)
    {
      var row := rowOf(activities[i]);
      if row.None? {
        return Err(MissingRelation);
      }
      TableSnoc(activities, i, rowOf);
      csvData := csvData + [row.value];
    }
    assert activities[..|activities|] == activities;
    var csvContent := EncodeDocument(csvData);
    r := Ok(csvContent);
  }

  /** The columns of a resolvable activity's row, as the controller writes them. */
  lemma RowColumns(a: Activity, users: seq<User>, teams: seq<Team>, dateText: int -> string)
    requires ActivityRow(a, users, teams, dateText).Some?
    ensures
      var u := FindUser(users, a.user).value;
      ActivityRow(a, users, teams, dateText).value ==
        [dateText(a.date), u.name, FindTeam(teams, u.team.value).value.name,
         KindLabel(a.kind), DistanceText(a.distance),
         Digits(if a.pas.Some? then a.pas.value else 0)]
  {
  }

  lemma SameMembers(acts: seq<Activity>)
    ensures forall a :: a in acts <==> a in Newest(acts)
  {
    var sorted := Newest(acts);
    assert forall a :: a in acts <==> a in multiset(acts);
    assert forall a :: a in sorted <==> a in multiset(sorted);
  }

  /** The export fails exactly when some activity has no author, or its author no team. */
  lemma ExportFailsExactly(acts: seq<Activity>, users: seq<User>, teams: seq<Team>, dateText: int -> string)
    ensures ExportText(acts, users, teams, dateText).Err? <==>
      exists a :: a in acts && ActivityRow(a, users, teams, dateText).None?
    ensures ExportText(acts, users, teams, dateText).Err? ==>
      ExportText(acts, users, teams, dateText).error == MissingRelation
  {
    var sorted, row := Newest(acts), RowFn(users, teams, dateText);
    SameMembers(acts);
    if AllResolve(sorted, row) {
      forall a | a in acts ensures ActivityRow(a, users, teams, dateText).Some? {
        var i :| 0 <= i < |sorted| && sorted[i] == a;
      }
    } else {
      var i :| 0 <= i < |sorted| && ActivityRow(sorted[i], users, teams, dateText).None?;
      assert sorted[i] in acts;
    }
  }

  /**
   * A successful export reads back as exactly its table: the header followed
   * by one row per activity, newest first.
   */
  lemma ExportReadsBack(acts: seq<Activity>, users: seq<User>, teams: seq<Team>, dateText: int -> string)
    requires ExportText(acts, users, teams, dateText).Ok?
    ensures AllResolve(Newest(acts), RowFn(users, teams, dateText))
    ensures Decode(ExportText(acts, users, teams, dateText).value)
            == Some(Table(Newest(acts), RowFn(users, teams, dateText)))
  {
    var sorted, row := Newest(acts), RowFn(users, teams, dateText);
    var rows := Table(sorted, row);
    TableRowsNonEmpty(acts, users, teams, dateText);
    var text := ExportText(acts, users, teams, dateText).value;
    assert text == Document(rows);
    DecodeDocument(rows);
  }

  lemma TableRowsNonEmpty(acts: seq<Activity>, users: seq<User>, teams: seq<Team>, dateText: int -> string)
    requires AllResolve(Newest(acts), RowFn(users, teams, dateText))
    ensures var rows := Table(Newest(acts), RowFn(users, teams, dateText));
      forall k :: 0 <= k < |rows| ==> |rows[k]| >= 1
  {
    var sorted, row := Newest(acts), RowFn(users, teams, dateText);
    var rows := Table(sorted, row);
    forall k | 0 <= k < |rows| ensures |rows[k]| >= 1 {
      if k > 0 {
        assert rows[k] == ActivityRow(sorted[k - 1], users, teams, dateText).value;
      }
    }
  }

  /**
   * The columns of the table: the header, then for the i-th newest activity
   * its date text, its author's name, the author's team's name, the kind
   * label, the distance and the steps (0 when none).
   */
  lemma ExportColumns(acts: seq<Activity>, users: seq<User>, teams: seq<Team>, dateText: int -> string, i: nat)
    requires AllResolve(Newest(acts), RowFn(users, teams, dateText)) && i < |acts|
    ensures Table(Newest(acts), RowFn(users, teams, dateText))[0] == Header
    ensures
      var a := Newest(acts)[i];
      var u := FindUser(users, a.user).value;
      && u in users && u.id == a.user && u.team.Some?
      && Table(Newest(acts), RowFn(users, teams, dateText))[i + 1]
         == [dateText(a.date), u.name, FindTeam(teams, u.team.value).value.name,
             KindLabel(a.kind), DistanceText(a.distance),
             Digits(if a.pas.Some? then a.pas.value else 0)]
  {
    var sorted := Newest(acts);
    assert ActivityRow(sorted[i], users, teams, dateText).Some?;
    RowColumns(sorted[i], users, teams, dateText);
  }
}
