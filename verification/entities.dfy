/** The two records of the tracker: a repair request ("application") and a comment attached to one. */
module Entities {
  import opened Wrappers

  /** A reading of the server clock. The model never inspects it: callers pass it in. */
  type Timestamp = int

  /** The three status values the code names. The status field itself is free text. */
  const StatusPending: string := "в ожидании"
  const StatusInProgress: string := "в процессе"
  const StatusClosed: string := "закрыта"

  /**
   * A repair request. `dateClosed` is Python's `date_closed` (None until `close`);
   * `totalDuration` is the attribute `total_duration`, which does not exist on the object until the
   * close handler sets it, so its absence is `None`.
   */
  datatype Application = Application(
    applicationId: string,
    dateAdded: Timestamp,
    equipment: string,
    faultType: string,
    problemDescription: string,
    client: string,
    status: string,
    responsible: string,
    executor: string,
    dateClosed: Option<Timestamp>,
    totalDuration: Option<int>)
  {
    /** The test the statistics use to pick out completed requests. */
    predicate IsClosed() {
      status == StatusClosed
    }

    /** Total handling time in seconds, or `None` when no duration was ever stored. */
    function GetDuration(): Option<int> {
      totalDuration
    }

    /** `Application.close`: mark the request closed and record when; nothing else changes. */
    function Close(now: Timestamp): (r: Application)
      ensures r.IsClosed() && r.dateClosed == Some(now)
      ensures r.(status := status, dateClosed := dateClosed) == this
    {
      this.(status := StatusClosed, dateClosed := Some(now))
    }

    /** The close handler's `application.total_duration = ...`: store a duration; nothing else changes. */
    function WithDuration(seconds: int): (r: Application)
      ensures r.GetDuration() == Some(seconds)
      ensures r.(totalDuration := totalDuration) == this
    {
      this.(totalDuration := Some(seconds))
    }

    /**
     * The edit form: each of the four editable fields takes the submitted value when the form carries
     * that field and keeps its current value otherwise.
     */
    function Edit(newStatus: Option<string>, newDescription: Option<string>,
                  newResponsible: Option<string>, newExecutor: Option<string>): (r: Application)
      ensures newStatus.None? ==> r.status == status
      ensures newStatus.Some? ==> r.status == newStatus.value
      ensures newDescription.None? ==> r.problemDescription == problemDescription
      ensures newDescription.Some? ==> r.problemDescription == newDescription.value
      ensures newResponsible.None? ==> r.responsible == responsible
      ensures newResponsible.Some? ==> r.responsible == newResponsible.value
      ensures newExecutor.None? ==> r.executor == executor
      ensures newExecutor.Some? ==> r.executor == newExecutor.value
      ensures r.(status := status, problemDescription := problemDescription,
                 responsible := responsible, executor := executor) == this
    {
      this.(status := newStatus.GetOr(status),
            problemDescription := newDescription.GetOr(problemDescription),
            responsible := newResponsible.GetOr(responsible),
            executor := newExecutor.GetOr(executor))
    }
  }

  /** The record the creation form builds: pending, never closed, no duration yet. */
  function NewApplication(id: string, now: Timestamp, equipment: string, faultType: string,
                          description: string, client: string, responsible: string,
                          executor: string): (r: Application)
    ensures r.applicationId == id && r.dateAdded == now
    ensures r.status == StatusPending && !r.IsClosed()
    ensures r.dateClosed.None? && r.GetDuration().None?
    ensures r.equipment == equipment && r.faultType == faultType && r.problemDescription == description
    ensures r.client == client && r.responsible == responsible && r.executor == executor
  {
    Application(id, now, equipment, faultType, description, client, StatusPending,
                responsible, executor, None, None)
  }

  /** A comment on a request, linked to it only by the request's id; `dateAdded` is the formatted time. */
  datatype Comment = Comment(applicationId: string, text: string, dateAdded: string)
}
