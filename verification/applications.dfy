/**
 * The application store's list logic: first-match lookup (`next(...)`), the id filter of the index page,
 * edit and close of the first match, and delete of every match.
 */
module Applications {
  import opened Wrappers
  import opened Sequences
  import opened Entities

  function HasId(id: string): Application -> bool {
    (a: Application) => a.applicationId == id
  }

  function LacksId(id: string): Application -> bool {
    (a: Application) => a.applicationId != id
  }

  /** Every record carrying `id`, in list order: `[app for app in applications if app.application_id == id]`. */
  function Matching(apps: seq<Application>, id: string): seq<Application> {
    Filter(apps, HasId(id))
  }

  /** What delete leaves: `[app for app in applications if app.application_id != id]`. */
  function Without(apps: seq<Application>, id: string): seq<Application> {
    Filter(apps, LacksId(id))
  }

  /** Position of the first record carrying `id`, the one `next(...)` yields, or `None` when there is none. */
  function FirstIndex(apps: seq<Application>, id: string): (r: Option<nat>)
    ensures r.Some? ==> r.value < |apps| && apps[r.value].applicationId == id
    ensures r.Some? ==> forall j :: 0 <= j < r.value ==> apps[j].applicationId != id
    ensures r.None? ==> forall j :: 0 <= j < |apps| ==> apps[j].applicationId != id
  {
    if apps == [] then None
    else if apps[0].applicationId == id then Some(0)
    else match FirstIndex(apps[1..], id)
      case None => None
      case Some(k) => Some(k + 1)
  }

  /** `next((app for app in applications if app.application_id == id), None)`. */
  function Lookup(apps: seq<Application>, id: string): (r: Option<Application>)
    ensures r.None? <==> forall a :: a in apps ==> a.applicationId != id
    ensures r.Some? ==> r.value in apps && r.value.applicationId == id
  {
    match FirstIndex(apps, id)
    case None => None
    case Some(i) => Some(apps[i])
  }

  /**
   * The index page: with a non-empty `filter` argument only the records carrying that id, each as often
   * as in the store; without one (absent or empty, both falsy in Python) the whole list.
   */
  function Listing(apps: seq<Application>, filter: Option<string>): (r: seq<Application>)
    ensures filter.None? || filter.value == "" ==> r == apps
    ensures filter.Some? && filter.value != "" ==>
      forall a :: a in r ==> a.applicationId == filter.value
    ensures filter.Some? && filter.value != "" ==>
      forall a: Application :: a.applicationId == filter.value ==> multiset(r)[a] == multiset(apps)[a]
  {
    if filter.Some? && filter.value != "" then
      FilterMultiset(apps, HasId(filter.value));
      Matching(apps, filter.value)
    else
      apps
  }

  /** The edit handler on the list: only the first record carrying `id` is edited; a missing id changes nothing. */
  function EditFirst(apps: seq<Application>, id: string, newStatus: Option<string>,
                     newDescription: Option<string>, newResponsible: Option<string>,
                     newExecutor: Option<string>): (r: seq<Application>)
    ensures |r| == |apps|
    ensures FirstIndex(apps, id).None? ==> r == apps
    ensures FirstIndex(apps, id).Some? ==>
      var i := FirstIndex(apps, id).value;
      r[i] == apps[i].Edit(newStatus, newDescription, newResponsible, newExecutor) &&
      forall j :: 0 <= j < |apps| && j != i ==> r[j] == apps[j]
  {
    match FirstIndex(apps, id)
    case None => apps
    case Some(i) => apps[i := apps[i].Edit(newStatus, newDescription, newResponsible, newExecutor)]
  }

  /**
   * The close handler on the list: the first record carrying `id` is closed at `now` with
   * `minutes * 60 + seconds` stored as its duration, whatever it held before; a missing id changes nothing.
   */
  function CloseFirst(apps: seq<Application>, id: string, minutes: int, seconds: int,
                      now: Timestamp): (r: seq<Application>)
    ensures |r| == |apps|
    ensures FirstIndex(apps, id).None? ==> r == apps
    ensures FirstIndex(apps, id).Some? ==>
      var i := FirstIndex(apps, id).value;
      r[i] == apps[i].Close(now).WithDuration(minutes * 60 + seconds) &&
      forall j :: 0 <= j < |apps| && j != i ==> r[j] == apps[j]
  {
    match FirstIndex(apps, id)
    case None => apps
    case Some(i) => apps[i := apps[i].Close(now).WithDuration(minutes * 60 + seconds)]
  }

  /** Lists with the same ids position by position resolve every id to the same position. */
  lemma SameIdsSameFirstIndex(a: seq<Application>, b: seq<Application>, id: string)
    requires |a| == |b|
    requires forall j :: 0 <= j < |a| ==> a[j].applicationId == b[j].applicationId
    ensures FirstIndex(a, id) == FirstIndex(b, id)
  {
  }

  /** First match versus all matches: the lookup yields the head of the filtered list, and fails exactly when it is empty. */
  lemma {:induction false} LookupIsFirstOfMatching(apps: seq<Application>, id: string)
    ensures Lookup(apps, id) == if Matching(apps, id) == [] then None else Some(Matching(apps, id)[0])
    decreases |apps|
  {
    if apps != [] {
      var head, rest := apps[0], apps[1..];
      assert apps == [head] + rest;
      FilterAppend([head], rest, HasId(id));
      assert [head][..0] == [];
      assert Filter([head], HasId(id)) == if head.applicationId == id then [head] else [];
      if head.applicationId != id {
        LookupIsFirstOfMatching(rest, id);
        match FirstIndex(rest, id)
        case None =>
        case Some(k) => assert apps[k + 1] == rest[k];
      }
    }
  }

  /**
   * Creating appends: ids are not unique, so a lookup of an id already present keeps resolving to the
   * older record, and only a new id resolves to the appended one; every other id is unaffected.
   */
  lemma AppendThenLookup(apps: seq<Application>, a: Application)
    ensures Lookup(apps + [a], a.applicationId) ==
      if Lookup(apps, a.applicationId).Some? then Lookup(apps, a.applicationId) else Some(a)
    ensures forall other :: other != a.applicationId ==> Lookup(apps + [a], other) == Lookup(apps, other)
  {
    forall id | true {
      FirstIndexAppend(apps, a, id);
    }
  }

  lemma FirstIndexAppend(apps: seq<Application>, a: Application, id: string)
    ensures FirstIndex(apps + [a], id) ==
      if FirstIndex(apps, id).Some? then FirstIndex(apps, id)
      else if id == a.applicationId then Some(|apps|) else None
  {
    var after := apps + [a];
    assert forall j :: 0 <= j < |apps| ==> after[j] == apps[j];
    assert after[|apps|] == a;
  }

  /** Delete removes every record of the id, so a later lookup of that id fails. */
  lemma DeleteThenLookup(apps: seq<Application>, id: string)
    ensures Lookup(Without(apps, id), id).None?
    ensures Matching(Without(apps, id), id) == []
  {
    FilterDropsAll(Without(apps, id), HasId(id));
  }

  /** Delete of one id leaves the records of every other id, and their lookups, exactly as they were. */
  lemma DeleteKeepsOtherIds(apps: seq<Application>, id: string, other: string)
    requires other != id
    ensures Matching(Without(apps, id), other) == Matching(apps, other)
    ensures Lookup(Without(apps, id), other) == Lookup(apps, other)
  {
    FilterNarrow(apps, HasId(other), LacksId(id));
    LookupIsFirstOfMatching(Without(apps, id), other);
    LookupIsFirstOfMatching(apps, other);
  }

  /** The deleted records and the kept ones together are the store, element for element. */
  lemma DeletePartitions(apps: seq<Application>, id: string)
    ensures multiset(Matching(apps, id)) + multiset(Without(apps, id)) == multiset(apps)
    ensures |Matching(apps, id)| + |Without(apps, id)| == |apps|
  {
    FilterPartition(apps, HasId(id), LacksId(id));
  }

  /** Delete with no match leaves the list as it was. */
  lemma DeleteWithoutMatch(apps: seq<Application>, id: string)
    requires Lookup(apps, id).None?
    ensures Without(apps, id) == apps
  {
    FilterKeepsAll(apps, LacksId(id));
  }

  /** After an edit the id resolves to the edited record; every other id resolves as before. */
  lemma EditThenLookup(apps: seq<Application>, id: string, newStatus: Option<string>,
                       newDescription: Option<string>, newResponsible: Option<string>,
                       newExecutor: Option<string>)
    ensures var after := EditFirst(apps, id, newStatus, newDescription, newResponsible, newExecutor);
      Lookup(after, id) == (match Lookup(apps, id)
                            case None => None
                            case Some(a) => Some(a.Edit(newStatus, newDescription, newResponsible, newExecutor)))
    ensures forall other :: other != id ==>
      Lookup(EditFirst(apps, id, newStatus, newDescription, newResponsible, newExecutor), other) == Lookup(apps, other)
  {
    var after := EditFirst(apps, id, newStatus, newDescription, newResponsible, newExecutor);
    forall other | true ensures FirstIndex(after, other) == FirstIndex(apps, other) {
      SameIdsSameFirstIndex(after, apps, other);
    }
  }

  /**
   * After a close the id resolves to a closed record holding exactly `minutes * 60 + seconds`, also when it
   * was closed before (re-closing overwrites); every other id resolves as before.
   */
  lemma CloseThenLookup(apps: seq<Application>, id: string, minutes: int, seconds: int, now: Timestamp)
    requires Lookup(apps, id).Some?
    ensures var closed := Lookup(CloseFirst(apps, id, minutes, seconds, now), id);
      closed.Some? && closed.value.IsClosed() && closed.value.dateClosed == Some(now) &&
      closed.value.GetDuration() == Some(minutes * 60 + seconds) &&
      closed.value == Lookup(apps, id).value.Close(now).WithDuration(minutes * 60 + seconds)
    ensures forall other :: other != id ==>
      Lookup(CloseFirst(apps, id, minutes, seconds, now), other) == Lookup(apps, other)
  {
    var after := CloseFirst(apps, id, minutes, seconds, now);
    forall other | true ensures FirstIndex(after, other) == FirstIndex(apps, other) {
      SameIdsSameFirstIndex(after, apps, other);
    }
  }
}
