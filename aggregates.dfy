/**
 * The SQL aggregates the statistics are built from (COUNT, SUM and WHERE
 * filters over `activites`), as functions over a sequence of rows. A SUM
 * over no rows is 0, which is how every caller of a NULL sum reads it.
 */
module Aggregates {
  import opened Wrappers
  import opened Models

  /** SUM(distance_km), in hundredths: at least every row's distance, and 0 exactly when every row's is. */
  function Distance(acts: seq<Activity>): (d: nat)
    ensures forall i :: 0 <= i < |acts| ==> acts[i].distance <= d
    ensures d == 0 <==> forall i :: 0 <= i < |acts| ==> acts[i].distance == 0
  {
    if acts == [] then 0
    else
      assert forall i :: 1 <= i < |acts| ==> acts[i] == acts[1..][i - 1];
      acts[0].distance + Distance(acts[1..])
  }

  /** The step count a row contributes to SUM(pas): a null `pas` counts 0. */
  function StepsOf(a: Activity): nat {
    if a.pas.Some? then a.pas.value else 0
  }

  /** SUM(pas): at least every row's steps, and 0 exactly when no row has a positive step count. */
  function Steps(acts: seq<Activity>): (n: nat)
    ensures forall i :: 0 <= i < |acts| ==> StepsOf(acts[i]) <= n
    ensures n == 0 <==> forall i :: 0 <= i < |acts| ==> StepsOf(acts[i]) == 0
  {
    if acts == [] then 0
    else
      assert forall i :: 1 <= i < |acts| ==> acts[i] == acts[1..][i - 1];
      StepsOf(acts[0]) + Steps(acts[1..])
  }

  /** WHERE type = k: the matching rows, each as often as in the input. */
  function OfKind(acts: seq<Activity>, k: Kind): (r: seq<Activity>)
    ensures |r| <= |acts|
    ensures forall a :: a in r <==> a in acts && a.kind == k
    ensures forall a :: multiset(r)[a] == if a.kind == k then multiset(acts)[a] else 0
  {
    if acts == [] then []
    else
      assert acts == [acts[0]] + acts[1..];
      (if acts[0].kind == k then [acts[0]] else []) + OfKind(acts[1..], k)
  }

  /** WHERE utilisateur_id = user: the matching rows, each as often as in the input. */
  function OfUser(acts: seq<Activity>, user: nat): (r: seq<Activity>)
    ensures |r| <= |acts|
    ensures forall a :: a in r <==> a in acts && a.user == user
    ensures forall a :: multiset(r)[a] == if a.user == user then multiset(acts)[a] else 0
  {
    if acts == [] then []
    else
      assert acts == [acts[0]] + acts[1..];
      (if acts[0].user == user then [acts[0]] else []) + OfUser(acts[1..], user)
  }

  /** WHERE date >= since: the matching rows, each as often as in the input. */
  function Since(acts: seq<Activity>, since: int): (r: seq<Activity>)
    ensures |r| <= |acts|
    ensures forall a :: a in r <==> a in acts && a.date >= since
    ensures forall a :: multiset(r)[a] == if a.date >= since then multiset(acts)[a] else 0
  {
    if acts == [] then []
    else
      assert acts == [acts[0]] + acts[1..];
      (if acts[0].date >= since then [acts[0]] else []) + Since(acts[1..], since)
  }

  /** WHERE date = day: the matching rows, each as often as in the input. */
  function OnDate(acts: seq<Activity>, day: int): (r: seq<Activity>)
    ensures |r| <= |acts|
    ensures forall a :: a in r <==> a in acts && a.date == day
    ensures forall a :: multiset(r)[a] == if a.date == day then multiset(acts)[a] else 0
  {
    if acts == [] then []
    else
      assert acts == [acts[0]] + acts[1..];
      (if acts[0].date == day then [acts[0]] else []) + OnDate(acts[1..], day)
  }

  lemma {:induction false} DistanceAppend(a: seq<Activity>, b: seq<Activity>)
    ensures Distance(a + b) == Distance(a) + Distance(b)
  {
    if a == [] {
      assert a + b == b;
    } else {
      assert (a + b)[1..] == a[1..] + b;
      DistanceAppend(a[1..], b);
    }
  }

  lemma {:induction false} StepsAppend(a: seq<Activity>, b: seq<Activity>)
    ensures Steps(a + b) == Steps(a) + Steps(b)
  {
    if a == [] {
      assert a + b == b;
    } else {
      assert (a + b)[1..] == a[1..] + b;
      StepsAppend(a[1..], b);
    }
  }

  /**
   * The two kinds partition the rows: their counts add up to the total count,
   * their distances to the total distance and their steps to the total steps.
   */
  lemma {:induction false} KindsPartition(acts: seq<Activity>)
    ensures |OfKind(acts, Velo)| + |OfKind(acts, MarcheCourse)| == |acts|
    ensures Distance(OfKind(acts, Velo)) + Distance(OfKind(acts, MarcheCourse)) == Distance(acts)
    ensures Steps(OfKind(acts, Velo)) + Steps(OfKind(acts, MarcheCourse)) == Steps(acts)
  {
    if acts != [] {
      KindsPartition(acts[1..]);
      var v, m := OfKind(acts[1..], Velo), OfKind(acts[1..], MarcheCourse);
      if acts[0].kind == Velo {
        assert OfKind(acts, Velo) == [acts[0]] + v;
        assert OfKind(acts, MarcheCourse) == m;
        DistanceAppend([acts[0]], v);
        StepsAppend([acts[0]], v);
      } else {
        assert OfKind(acts, MarcheCourse) == [acts[0]] + m;
        assert OfKind(acts, Velo) == v;
        DistanceAppend([acts[0]], m);
        StepsAppend([acts[0]], m);
      }
    }
  }

  /** Filtering on a later date than `since` first does not change the rows of that date. */
  lemma {:induction false} OnDateSince(acts: seq<Activity>, since: int, day: int)
    requires day >= since
    ensures OnDate(Since(acts, since), day) == OnDate(acts, day)
  {
    if acts != [] {
      OnDateSince(acts[1..], since, day);
      if acts[0].date >= since {
        assert Since(acts, since) == [acts[0]] + Since(acts[1..], since);
        assert ([acts[0]] + Since(acts[1..], since))[1..] == Since(acts[1..], since);
      } else {
        assert Since(acts, since) == Since(acts[1..], since);
      }
    }
  }
}
