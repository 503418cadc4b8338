/**
 * The tracker's state, the two global lists `applications` and `comments`, owned by one object whose
 * methods are what the request handlers do to them.
 */
module Tracker {
  import opened Wrappers
  import opened Entities
  import opened Applications
  import opened Comments
  import opened Statistics

  class Store {
    var applications: seq<Application>
    var comments: seq<Comment>

    /** Both lists start empty: nothing persists across restarts. */
    constructor ()
      ensures applications == [] && comments == []
    {
      applications := [];
      comments := [];
    }

    /** `new_application`: build a pending record from the form and append it; duplicates of `id` are allowed. */
    method CreateApplication(id: string, now: Timestamp, equipment: string, faultType: string,
                             description: string, client: string, responsible: string,
                             executor: string) returns (created: Application)
      modifies this
      ensures created == NewApplication(id, now, equipment, faultType, description, client,
                                        responsible, executor)
      ensures applications == old(applications) + [created]
      ensures comments == old(comments)
    {
      created := NewApplication(id, now, equipment, faultType, description, client, responsible, executor);
      applications := applications + [created];
    }

    /**
     * `edit_application` (POST): overwrite the submitted fields of the first record carrying `id`;
     * `found` is false (a 404) and nothing changes when there is none.
     */
    method EditApplication(id: string, newStatus: Option<string>, newDescription: Option<string>,
                           newResponsible: Option<string>, newExecutor: Option<string>)
      returns (found: bool)
      modifies this
      ensures found <==> Lookup(old(applications), id).Some?
      ensures applications == EditFirst(old(applications), id, newStatus, newDescription,
                                        newResponsible, newExecutor)
      ensures comments == old(comments)
    {
      var position := FirstIndex(applications, id);
      found := position.Some?;
      if found {
        var i := position.value;
        applications := applications[i := applications[i].Edit(newStatus, newDescription,
                                                                 newResponsible, newExecutor)];
      }
    }

    /**
     * `delete_application`: when some record carries `id`, drop every record carrying it; otherwise
     * `found` is false (a 404) and the list is left alone.
     */
    method DeleteApplication(id: string) returns (found: bool)
      modifies this
      ensures found <==> Lookup(old(applications), id).Some?
      ensures applications == if found then Without(old(applications), id) else old(applications)
      ensures comments == old(comments)
    {
      var application := Lookup(applications, id);
      found := application.Some?;
      if found {
        applications := Without(applications, id);
      }
    }

    /**
     * `application_comments` (POST): append a comment stamped `stamp` when the text is non-empty and a
     * request carries `id`; the request list never changes.
     */
    method PostComment(id: string, text: Option<string>, stamp: string) returns (outcome: PostOutcome)
      modifies this
      ensures outcome == PostDecision(old(applications), id, text)
      ensures outcome == Posted ==> comments == old(comments) + [Comment(id, text.value, stamp)]
      ensures outcome != Posted ==> comments == old(comments)
      ensures applications == old(applications)
    {
      var application := Lookup(applications, id);
      if text.None? || text.value == "" {
        outcome := EmptyText;
      } else if application.None? {
        outcome := MissingApplication;
      } else {
        comments := comments + [Comment(application.value.applicationId, text.value, stamp)];
        outcome := Posted;
      }
    }

    /**
     * `close_application` (POST): close the first record carrying `id` at `now` and store
     * `minutes * 60 + seconds` as its duration, as given and also on a record already closed;
     * `found` is false (a 404) and nothing changes when there is none.
     */
    method CloseApplication(id: string, minutes: int, seconds: int, now: Timestamp) returns (found: bool)
      modifies this
      ensures found <==> Lookup(old(applications), id).Some?
      ensures applications == CloseFirst(old(applications), id, minutes, seconds, now)
      ensures comments == old(comments)
    {
      var position := FirstIndex(applications, id);
      found := position.Some?;
      if found {
        var i := position.value;
        var totalDuration := minutes * 60 + seconds;
        var closed := applications[i].Close(now);
        applications := applications[i := closed.WithDuration(totalDuration)];
      }
    }

    /**
     * `statistics`: count the closed records, add up their durations (a missing one adds 0), average and
     * split the average into minutes and seconds, then count the fault types of all records.
     */
    method ComputeStatistics() returns (report: Report)
      ensures report == StatisticsOf(applications)
    {
      var completed := Completed(applications);
      var totalCompleted := |completed|;
      var totalDuration := SumDurations(completed);
      var split := SplitMinutes(Average(totalDuration, totalCompleted));
      var faultTypes := CountFaultTypes(applications);
      report := Report(totalCompleted, split.0, split.1, faultTypes);
    }
  }

  /**
   * A request created and closed twice: it ends closed holding exactly the second duration given, it is
   * the one completed request, and its fault type is counted once.
   */
  method CreateCloseScenario(minutes: int, seconds: int, secondMinutes: int, secondSeconds: int)
    returns (closed: Option<Application>, report: Report)
    ensures closed.Some? && closed.value.IsClosed()
    ensures closed.value.GetDuration() == Some(secondMinutes * 60 + secondSeconds)
    ensures report.totalCompleted == 1
    ensures report.faultTypes == map["screen" := 1]
  {
    var store := new Store();
    var created := store.CreateApplication("A-1", 100, "printer", "screen", "jams", "lab", "ivanov", "petrov");
    assert store.applications == [created];
    var found := store.CloseApplication("A-1", minutes, seconds, 200);
    var once := created.Close(200).WithDuration(minutes * 60 + seconds);
    assert store.applications == [once];
    found := store.CloseApplication("A-1", secondMinutes, secondSeconds, 300);
    var twice := once.Close(300).WithDuration(secondMinutes * 60 + secondSeconds);
    assert store.applications == [twice];
    closed := Lookup(store.applications, "A-1");
    report := store.ComputeStatistics();
    SingleRecordReport(twice);
  }

  /**
   * Two requests created under one id: an edit reaches only the first, a lookup keeps yielding the first,
   * and one delete removes both, after which the id is not found.
   */
  method DuplicateIdScenario()
    returns (afterEdit: Option<Application>, secondAfterEdit: Application, afterDelete: Option<Application>)
    ensures afterEdit.Some? && afterEdit.value.status == StatusInProgress && afterEdit.value.equipment == "printer"
    ensures secondAfterEdit.applicationId == "A-1"
    ensures secondAfterEdit.status == StatusPending && secondAfterEdit.equipment == "scanner"
    ensures afterDelete.None?
  {
    var store := new Store();
    var first := store.CreateApplication("A-1", 100, "printer", "screen", "jams", "lab", "ivanov", "petrov");
    var second := store.CreateApplication("A-1", 101, "scanner", "lamp", "dark", "lab", "ivanov", "petrov");
    var found := store.EditApplication("A-1", Some(StatusInProgress), None, None, None);
    assert store.applications[1] == second;
    secondAfterEdit := store.applications[1];
    afterEdit := Lookup(store.applications, "A-1");
    var beforeDelete := store.applications;
    found := store.DeleteApplication("A-1");
    DeleteThenLookup(beforeDelete, "A-1");
    afterDelete := Lookup(store.applications, "A-1");
  }
}
