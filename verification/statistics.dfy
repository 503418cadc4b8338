/**
 * The statistics page: how many requests are closed, their average handling time split into minutes and
 * seconds, and how often each fault type occurs among all requests.
 */
module Statistics {
  import opened Wrappers
  import opened Sequences
  import opened Entities
  import opened Applications

  const IsCompleted: Application -> bool := (a: Application) => a.IsClosed()

  /** `[app for app in applications if app.status == 'закрыта']`. */
  function Completed(apps: seq<Application>): seq<Application> {
    Filter(apps, IsCompleted)
  }

  /** What one record adds to the total: its duration, or 0 when `get_duration()` gives `None`. */
  function DurationOrZero(a: Application): int {
    match a.GetDuration()
    case Some(d) => d
    case None => 0
  }

  /** The sum the statistics loop accumulates over `s`. */
  function DurationTotal(s: seq<Application>): int
    decreases |s|
  {
    if s == [] then 0 else DurationTotal(s[..|s| - 1]) + DurationOrZero(s[|s| - 1])
  }

  lemma {:induction false} DurationTotalAppend(a: seq<Application>, b: seq<Application>)
    ensures DurationTotal(a + b) == DurationTotal(a) + DurationTotal(b)
    decreases |b|
  {
    if b == [] {
      assert a + b == a;
    } else {
      assert (a + b)[..|a + b| - 1] == a + b[..|b| - 1];
      DurationTotalAppend(a, b[..|b| - 1]);
    }
  }

  /** `total / count` as an exact quotient, and 0 when nothing is closed. */
  function Average(total: int, count: nat): (avg: real)
    ensures count > 0 ==> avg * count as real == total as real
    ensures count == 0 ==> avg == 0.0
  {
    if count > 0 then total as real / count as real else 0.0
  }

  /**
   * `avg // 60` and `avg % 60` with Python's floor semantics: whole minutes and the remaining,
   * possibly fractional, seconds.
   */
  function SplitMinutes(avg: real): (r: (int, real))
    ensures r.0 as real * 60.0 + r.1 == avg
    ensures 0.0 <= r.1 < 60.0
  {
    var minutes := (avg / 60.0).Floor;
    (minutes, avg - minutes as real * 60.0)
  }

  /** The split is the only one with seconds in [0, 60). */
  lemma SplitMinutesUnique(avg: real, minutes: int, seconds: real)
    requires minutes as real * 60.0 + seconds == avg
    requires 0.0 <= seconds < 60.0
    ensures SplitMinutes(avg) == (minutes, seconds)
  {
    var r := SplitMinutes(avg);
    assert (r.0 - minutes) as real * 60.0 == seconds - r.1;
  }

  /** The fault type of each record, in list order. */
  function FaultTypes(apps: seq<Application>): (r: seq<string>)
    ensures |r| == |apps|
    ensures forall i :: 0 <= i < |apps| ==> r[i] == apps[i].faultType
  {
    seq(|apps|, i requires 0 <= i < |apps| => apps[i].faultType)
  }

  /** A frequency table: each value of `s` mapped to its number of occurrences. */
  function Tally(s: seq<string>): map<string, nat> {
    map t | t in s :: multiset(s)[t]
  }

  /** One step of the table-building loop: an existing key is incremented, a new key starts at 1. */
  lemma TallySnoc(s: seq<string>, t: string)
    ensures Tally(s + [t]) == Tally(s)[t := if t in Tally(s) then Tally(s)[t] + 1 else 1]
  {
    var before, after := Tally(s), Tally(s + [t]);
    assert multiset(s + [t]) == multiset(s) + multiset{t};
    assert forall u :: u in s + [t] <==> u in s || u == t;
    assert after.Keys == before.Keys + {t};
    assert forall u :: u !in s ==> multiset(s)[u] == 0;
  }

  /** The sum of the values `m` holds for `keys`. */
  ghost function SumOver(m: map<string, nat>, keys: set<string>): nat
    requires keys <= m.Keys
    decreases keys
  {
    if keys == {} then 0
    else
      var k := PickKey(keys);
      m[k] + SumOver(m, keys - {k})
  }

  ghost function PickKey(keys: set<string>): (k: string)
    requires keys != {}
    ensures k in keys
  {
    var k :| k in keys; k
  }

  /** The sum of all values of a table. */
  ghost function Total(m: map<string, nat>): nat {
    SumOver(m, m.Keys)
  }

  /** The sum does not depend on the order in which keys are taken. */
  lemma {:induction false} SumOverRemove(m: map<string, nat>, keys: set<string>, k: string)
    requires keys <= m.Keys && k in keys
    ensures SumOver(m, keys) == m[k] + SumOver(m, keys - {k})
    decreases keys
  {
    var j := PickKey(keys);
    if j != k {
      SumOverRemove(m, keys - {j}, k);
      SumOverRemove(m, keys - {k}, j);
      assert keys - {j} - {k} == keys - {k} - {j};
    }
  }

  /** Tables that agree on `keys` have the same sum over them. */
  lemma {:induction false} SumOverAgree(m1: map<string, nat>, m2: map<string, nat>, keys: set<string>)
    requires keys <= m1.Keys && keys <= m2.Keys
    requires forall k :: k in keys ==> m1[k] == m2[k]
    ensures SumOver(m1, keys) == SumOver(m2, keys)
    decreases keys
  {
    if keys != {} {
      var k := PickKey(keys);
      SumOverRemove(m2, keys, k);
      SumOverAgree(m1, m2, keys - {k});
    }
  }

  /** The counts of the fault-type table add up to the number of records counted. */
  lemma {:induction false} TallyTotal(s: seq<string>)
    ensures Total(Tally(s)) == |s|
    decreases |s|
  {
    if s != [] {
      var s', t := s[..|s| - 1], s[|s| - 1];
      assert s == s' + [t];
      TallyTotal(s');
      TallySnoc(s', t);
      var before, after := Tally(s'), Tally(s);
      if t in before {
        assert after.Keys == before.Keys && after[t] == before[t] + 1;
        SumOverRemove(after, after.Keys, t);
        SumOverRemove(before, before.Keys, t);
        SumOverAgree(after, before, before.Keys - {t});
      } else {
        assert after.Keys - {t} == before.Keys;
        SumOverRemove(after, after.Keys, t);
        SumOverAgree(after, before, before.Keys);
      }
    }
  }

  /** What the statistics page shows. */
  datatype Report = Report(totalCompleted: nat, averageMinutes: int, averageSeconds: real,
                           faultTypes: map<string, nat>)

  /** The duration loop of the statistics page: add up `get_duration()` over `completed`, skipping `None`. */
  method SumDurations(completed: seq<Application>) returns (total: int)
    ensures total == DurationTotal(completed)
  {
    total := 0;
    var i := 0;
    while i < |completed|
      invariant 0 <= i <= |completed|
      invariant total == DurationTotal(completed[..i])
    {
      assert completed[..i + 1][..i] == completed[..i];
      match completed[i].GetDuration() {
        case Some(d) => total := total + d;
        case None =>
      }
      i := i + 1;
    }
    assert completed[..|completed|] == completed;
  }

  /**
   * The fault-type loop of the statistics page: one pass over every record, open or closed, incrementing
   * the entry of its fault type or starting it at 1.
   */
  method CountFaultTypes(apps: seq<Application>) returns (table: map<string, nat>)
    ensures table == Tally(FaultTypes(apps))
    ensures forall t :: t in table <==> t in FaultTypes(apps)
    ensures forall t :: t in table ==> table[t] == multiset(FaultTypes(apps))[t]
  {
    table := map[];
    var j := 0;
    while j < |apps|
      invariant 0 <= j <= |apps|
      invariant table == Tally(FaultTypes(apps[..j]))
    {
      var t := apps[j].faultType;
      assert FaultTypes(apps[..j + 1]) == FaultTypes(apps[..j]) + [t];
      TallySnoc(FaultTypes(apps[..j]), t);
      if t in table {
        table := table[t := table[t] + 1];
      } else {
        table := table[t := 1];
      }
      j := j + 1;
    }
    assert apps[..|apps|] == apps;
  }

  /** The report for a store holding `apps`. */
  function StatisticsOf(apps: seq<Application>): Report {
    var completed := Completed(apps);
    var split := SplitMinutes(Average(DurationTotal(completed), |completed|));
    Report(|completed|, split.0, split.1, Tally(FaultTypes(apps)))
  }

  /**
   * The completed count is the number of closed records: the completed list holds every closed record
   * exactly as often as the store does, and no other record.
   */
  lemma ReportCountsClosed(apps: seq<Application>)
    ensures StatisticsOf(apps).totalCompleted == |Completed(apps)|
    ensures forall a :: a in Completed(apps) <==> a in apps && a.IsClosed()
    ensures forall a :: multiset(Completed(apps))[a] == if a.IsClosed() then multiset(apps)[a] else 0
  {
    FilterMultiset(apps, IsCompleted);
  }

  /**
   * The average, given as minutes and seconds below 60, times the completed count is the total duration
   * of the closed records; with none closed it is 0 minutes 0 seconds.
   */
  lemma ReportAverage(apps: seq<Application>)
    ensures var r := StatisticsOf(apps);
      && (r.totalCompleted > 0 ==>
            (r.averageMinutes as real * 60.0 + r.averageSeconds) * r.totalCompleted as real
            == DurationTotal(Completed(apps)) as real)
      && (r.totalCompleted == 0 ==> r.averageMinutes == 0 && r.averageSeconds == 0.0)
      && 0.0 <= r.averageSeconds < 60.0
  {
  }

  /**
   * The fault-type table has as keys exactly the fault types present, open or closed, each mapped to its
   * number of occurrences, and its counts add up to the number of records.
   */
  lemma ReportFaultTypes(apps: seq<Application>)
    ensures var table := StatisticsOf(apps).faultTypes;
      && (forall t :: t in table <==> exists a :: a in apps && a.faultType == t)
      && (forall t :: t in table ==> table[t] == multiset(FaultTypes(apps))[t])
      && Total(table) == |apps|
  {
    var types := FaultTypes(apps);
    TallyTotal(types);
    forall t ensures t in Tally(types) <==> exists a :: a in apps && a.faultType == t {
      if t in types {
        var i :| 0 <= i < |apps| && types[i] == t;
        assert apps[i] in apps;
      }
    }
  }

  /** An empty store reports nothing closed, an average of 0 minutes 0 seconds and an empty table. */
  lemma EmptyStoreReport()
    ensures StatisticsOf([]) == Report(0, 0, 0.0, map[])
  {
    assert Tally(FaultTypes([])) == map[];
  }

  /**
   * A store of one record: it is the only completed one when closed, its own duration is then the
   * average, and its fault type is counted once.
   */
  lemma SingleRecordReport(x: Application)
    ensures StatisticsOf([x]).totalCompleted == if x.IsClosed() then 1 else 0
    ensures x.IsClosed() ==>
      StatisticsOf([x]).averageMinutes as real * 60.0 + StatisticsOf([x]).averageSeconds == DurationOrZero(x) as real
    ensures StatisticsOf([x]).faultTypes == map[x.faultType := 1]
  {
    CompletedSingle(x);
    var completed := Completed([x]);
    assert x.IsClosed() ==> Average(DurationTotal(completed), |completed|) == DurationOrZero(x) as real;
    assert FaultTypes([x]) == [x.faultType];
    TallySingle(x.faultType);
  }

  lemma CompletedSingle(x: Application)
    ensures Completed([x]) == if x.IsClosed() then [x] else []
    ensures DurationTotal(Completed([x])) == if x.IsClosed() then DurationOrZero(x) else 0
  {
    assert [x][..0] == [];
  }

  lemma TallySingle(t: string)
    ensures Tally([t]) == map[t := 1]
  {
    assert multiset([t]) == multiset{t};
  }

  /** Two closed requests taking 60 s and 90 s, both with a broken screen, and an open one with a dead battery. */
  function ExampleStore(): seq<Application> {
    [Application("1", 0, "printer", "screen", "", "", StatusClosed, "", "", Some(10), Some(60)),
     Application("2", 1, "laptop", "screen", "", "", StatusClosed, "", "", Some(11), Some(90)),
     Application("3", 2, "phone", "battery", "", "", StatusPending, "", "", None, None)]
  }

  /** The example's two closed requests take 150 s in all. */
  lemma ExampleCompleted()
    ensures |Completed(ExampleStore())| == 2
    ensures DurationTotal(Completed(ExampleStore())) == 150
  {
    var apps := ExampleStore();
    var a1, a2 := apps[0], apps[1];
    assert apps[..2] == [a1, a2] && [a1, a2][..1] == [a1] && [a1][..0] == [];
    assert Filter([a1], IsCompleted) == [a1];
    assert Filter([a1, a2], IsCompleted) == [a1, a2];
    assert Completed(apps) == [a1, a2];
    assert DurationTotal([a1]) == 60;
  }

  /** Counting "screen", "screen", "battery" gives 2 screens and 1 battery. */
  lemma TallyExample()
    ensures Tally(["screen", "screen", "battery"]) == map["screen" := 2, "battery" := 1]
  {
    var types := ["screen", "screen", "battery"];
    assert multiset(types) == multiset{"screen", "screen", "battery"};
    assert Tally(types).Keys == {"screen", "battery"};
  }

  /** The example's fault types are counted over all three requests, open or closed. */
  lemma ExampleFaultTypes()
    ensures Tally(FaultTypes(ExampleStore())) == map["screen" := 2, "battery" := 1]
  {
    assert FaultTypes(ExampleStore()) == ["screen", "screen", "battery"];
    TallyExample();
  }

  /** The example reports 2 completed, an average of 75 s shown as 1 minute 15 seconds, and the counted fault types. */
  lemma ExampleReport()
    ensures StatisticsOf(ExampleStore()) == Report(2, 1, 15.0, map["screen" := 2, "battery" := 1])
  {
    ExampleCompleted();
    ExampleFaultTypes();
    SplitMinutesUnique(75.0, 1, 15.0);
  }

  /** How one record at a position of the store contributes to the completed count and the total. */
  lemma CompletedAround(prefix: seq<Application>, x: Application, suffix: seq<Application>)
    ensures var all := prefix + [x] + suffix;
      && |Completed(all)| == |Completed(prefix)| + (if x.IsClosed() then 1 else 0) + |Completed(suffix)|
      && DurationTotal(Completed(all)) ==
           DurationTotal(Completed(prefix)) + (if x.IsClosed() then DurationOrZero(x) else 0)
           + DurationTotal(Completed(suffix))
  {
    FilterAppend(prefix + [x], suffix, IsCompleted);
    FilterAppend(prefix, [x], IsCompleted);
    var kept := if x.IsClosed() then [x] else [];
    assert [x][..0] == [];
    assert Filter([x], IsCompleted) == kept;
    DurationTotalAppend(Completed(prefix) + kept, Completed(suffix));
    DurationTotalAppend(Completed(prefix), kept);
    assert kept != [] ==> kept[..0] == [];
  }

  /** Replacing the record at position `i` by `x` swaps their contributions to the count and the total. */
  lemma ReplaceInCompleted(apps: seq<Application>, i: nat, x: Application)
    requires i < |apps|
    ensures |Completed(apps[i := x])| ==
      |Completed(apps)| - (if apps[i].IsClosed() then 1 else 0) + (if x.IsClosed() then 1 else 0)
    ensures DurationTotal(Completed(apps[i := x])) ==
      DurationTotal(Completed(apps)) - (if apps[i].IsClosed() then DurationOrZero(apps[i]) else 0)
      + (if x.IsClosed() then DurationOrZero(x) else 0)
  {
    var prefix, suffix := apps[..i], apps[i + 1..];
    assert apps == prefix + [apps[i]] + suffix;
    assert apps[i := x] == prefix + [x] + suffix;
    CompletedAround(prefix, apps[i], suffix);
    CompletedAround(prefix, x, suffix);
  }

  /** Stores whose records have the same fault types, position by position, have the same fault-type table. */
  lemma SameFaultTypesSameTable(a: seq<Application>, b: seq<Application>)
    requires |a| == |b|
    requires forall j :: 0 <= j < |a| ==> a[j].faultType == b[j].faultType
    ensures StatisticsOf(a).faultTypes == StatisticsOf(b).faultTypes
  {
    assert FaultTypes(a) == FaultTypes(b);
  }

  /**
   * Closing the first record of an id adds it to the completed count unless it was already closed, and
   * replaces its contribution to the total by `minutes * 60 + seconds`; the fault-type table is unchanged.
   */
  lemma CloseUpdatesStatistics(apps: seq<Application>, id: string, minutes: int, seconds: int,
                               now: Timestamp)
    requires Lookup(apps, id).Some?
    ensures var before := Lookup(apps, id).value;
      var after := CloseFirst(apps, id, minutes, seconds, now);
      && |Completed(after)| == |Completed(apps)| + (if before.IsClosed() then 0 else 1)
      && DurationTotal(Completed(after)) ==
           DurationTotal(Completed(apps)) - (if before.IsClosed() then DurationOrZero(before) else 0)
           + minutes * 60 + seconds
      && StatisticsOf(after).faultTypes == StatisticsOf(apps).faultTypes
  {
    var i := FirstIndex(apps, id).value;
    var closed := apps[i].Close(now).WithDuration(minutes * 60 + seconds);
    assert CloseFirst(apps, id, minutes, seconds, now) == apps[i := closed];
    ReplaceInCompleted(apps, i, closed);
    SameFaultTypesSameTable(apps[i := closed], apps);
  }

  /** An edit never touches a fault type, so it leaves the fault-type table as it was. */
  lemma EditKeepsFaultTable(apps: seq<Application>, id: string, newStatus: Option<string>,
                            newDescription: Option<string>, newResponsible: Option<string>,
                            newExecutor: Option<string>)
    ensures StatisticsOf(EditFirst(apps, id, newStatus, newDescription, newResponsible, newExecutor)).faultTypes
            == StatisticsOf(apps).faultTypes
  {
    SameFaultTypesSameTable(EditFirst(apps, id, newStatus, newDescription, newResponsible, newExecutor), apps);
  }

  /**
   * The edit form may set the closed status directly. Such a record counts as completed but has no
   * duration, so it adds 1 to the count and 0 to the total and pulls the average down.
   */
  lemma EditToClosedCountsWithoutDuration(apps: seq<Application>, id: string)
    requires Lookup(apps, id).Some?
    requires !Lookup(apps, id).value.IsClosed() && Lookup(apps, id).value.GetDuration().None?
    ensures var after := EditFirst(apps, id, Some(StatusClosed), None, None, None);
      && Lookup(after, id).Some? && Lookup(after, id).value.IsClosed()
      && Lookup(after, id).value.GetDuration().None?
      && |Completed(after)| == |Completed(apps)| + 1
      && DurationTotal(Completed(after)) == DurationTotal(Completed(apps))
  {
    var i := FirstIndex(apps, id).value;
    var edited := apps[i].Edit(Some(StatusClosed), None, None, None);
    var after := EditFirst(apps, id, Some(StatusClosed), None, None, None);
    assert after == apps[i := edited];
    SameIdsSameFirstIndex(after, apps, id);
    ReplaceInCompleted(apps, i, edited);
  }

  /**
   * An edit of the first record of an id changes the statistics only through its status: the record
   * leaves the completed count when the edit reopens it and joins it when the edit sets the closed status,
   * carrying its stored duration (or 0) in or out of the total.
   */
  lemma EditUpdatesStatistics(apps: seq<Application>, id: string, newStatus: Option<string>,
                              newDescription: Option<string>, newResponsible: Option<string>,
                              newExecutor: Option<string>)
    requires Lookup(apps, id).Some?
    ensures var before := Lookup(apps, id).value;
      var wasClosed, isClosed := before.IsClosed(), newStatus.GetOr(before.status) == StatusClosed;
      var after := EditFirst(apps, id, newStatus, newDescription, newResponsible, newExecutor);
      && |Completed(after)| == |Completed(apps)| - (if wasClosed then 1 else 0) + (if isClosed then 1 else 0)
      && DurationTotal(Completed(after)) ==
           DurationTotal(Completed(apps)) - (if wasClosed then DurationOrZero(before) else 0)
           + (if isClosed then DurationOrZero(before) else 0)
  {
    var i := FirstIndex(apps, id).value;
    var edited := apps[i].Edit(newStatus, newDescription, newResponsible, newExecutor);
    assert EditFirst(apps, id, newStatus, newDescription, newResponsible, newExecutor) == apps[i := edited];
    ReplaceInCompleted(apps, i, edited);
  }
}
