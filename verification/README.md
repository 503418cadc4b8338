# Repair-request tracker: a Dafny model

This project models the core of a small repair-request tracker written as a Flask application
(`main.py`). The tracker keeps two in-memory lists:

- `applications` holds repair requests ("applications"). Each one has an id, equipment, a fault type,
  a description, a client, a free-text status, a responsible person and an executor. It also has an
  optional closing time and an optional handling duration in seconds.
- `comments` holds comments. A comment is attached to a request only by the request's id.

The request handlers do the following to these lists:

- create a request with the status `"в ожидании"` (pending);
- list requests, optionally filtered by id;
- look up the first request that has a given id;
- edit the submitted fields of that first request;
- delete every request that has the id;
- post a comment and list the comments of a request;
- close a request, storing `minutes * 60 + seconds` as its duration;
- compute statistics: the number of closed requests (status `"закрыта"`), their average duration as
  minutes and seconds, and a count of each fault type over all requests.

Layout, one module per component:

- `wrappers.dfy` (`Wrappers`): `Option`, Python's `None`.
- `sequences.dfy` (`Sequences`): the comprehension `[x for x in s if p(x)]` as `Filter`, with its laws.
  The four comprehensions of the source are all instances of it.
- `entities.dfy` (`Entities`): the `Application` and `Comment` records. It holds `Application.close`,
  `get_duration`, the creation record and the edit of one record.
- `applications.dfy` (`Applications`): the application list. It has the first-match lookup
  (`next(...)`), the id filter, edit and close of the first match, and delete of all matches.
- `comments.dfy` (`Comments`): the comment list. It has the per-request listing, the comments page and
  the decision taken when a comment is posted.
- `statistics.dfy` (`Statistics`): the statistics page. The two loops are methods, proved against
  specification functions. Lemmas state what the report means.
- `tracker.dfy` (`Tracker`): the class `Store`. It owns both lists as `seq` fields. Each mutating handler
  is a method with a `modifies` clause that states the whole new state. Two client methods run scenarios
  through the class.

Design points:

- **Records are values.** Each request object in the Python list is reached only through that list, and
  no two list slots hold the same object. So mutating the object in place is modelled by replacing the
  list element with the updated record.
- **The clock is a parameter.** Times (`datetime.now()` and the formatted comment time) are passed in
  by the caller as opaque values.
- **Not found is a result.** A missing id is a result value (`found == false`, `None`), never an HTTP
  404.
- **The average is exact.** It is a `real`. The minutes are `Floor(avg / 60)` and the seconds are
  `avg - 60 * minutes`, as in Python's float `//` and `%`. With no closed request the average is 0.

Points where the code is more permissive than it may look, and which the model keeps as written:

- Status is free text, not an enumeration. An edit writes whatever the form sends. A request can be set
  to `"закрыта"` by an edit without being closed. It then counts as completed with no duration and adds
  0 to the total (`EditToClosedCountsWithoutDuration`). So "closing time and duration present exactly
  when closed" is not an invariant of the code, and the model does not assume it.
- Minutes and seconds are any integers. `int(...)` accepts negative numbers and nothing checks them, so
  the model does not require them to be non-negative.
- Posting a non-empty comment for an id that has no request does not store an unlinked comment. The
  handler dereferences the missing request and fails, so nothing is appended. The model reports this as
  the outcome `MissingApplication`. An empty or missing comment text is ignored before that point, so it
  does not fail.
- An empty `filter` argument counts as no filter, because `if filter_id:` is false for `""`.

## Model

| member | source | states |
|---|---|---|
| `Entities.NewApplication` | main.py:65-75 | a created request has the given id and creation time, the given equipment, fault type, description, client, responsible and executor, the pending status, no closing time and no duration |
| `Entities.Application.Close` | main.py:29-31 | closing sets the closed status and the closing time and changes no other field |
| `Entities.Application.WithDuration` | main.py:136-139 | the stored duration becomes the given number of seconds, so `get_duration` returns it; no other field changes |
| `Entities.Application.Edit` | main.py:87-90 | each of status, description, responsible and executor takes the submitted value when the form has that field and keeps its old value otherwise; every other field is unchanged |
| `Sequences.Filter` | main.py:57 | a comprehension keeps only elements that satisfy the condition and keeps every such element |
| `Sequences.FilterAppend` | main.py:124 | filtering distributes over concatenation, so the kept elements stay in list order |
| `Sequences.FilterMultiset` | main.py:100 | each kept element occurs as often as in the input; each other element does not occur |
| `Applications.FirstIndex` | main.py:82 | the position found holds the id and no earlier position does; not found means no position holds it |
| `Applications.Lookup` | main.py:131 | the lookup fails exactly when no request has the id; otherwise it yields a request of the list that has the id |
| `Applications.LookupIsFirstOfMatching` | main.py:98-100 | first match against all matches: the lookup yields the head of the list of all requests with the id, and fails exactly when that list is empty |
| `Applications.Listing` | main.py:53-57 | without a non-empty filter the whole list; with one, only requests with that id, each as often as in the store |
| `Applications.AppendThenLookup` | main.py:65-76 | after appending, an id already present still resolves to the older request; a new id resolves to the appended one; other ids are unaffected |
| `Applications.EditFirst` | main.py:82-92 | only the first request with the id is edited and every other request is kept; a missing id changes nothing |
| `Applications.EditThenLookup` | main.py:82-90 | after an edit the id resolves to the edited first match; every other id resolves as before |
| `Applications.CloseFirst` | main.py:131-139 | only the first request with the id is closed, with duration `minutes * 60 + seconds`; a missing id changes nothing |
| `Applications.CloseThenLookup` | main.py:131-139 | after a close the id resolves to a closed request with exactly `minutes * 60 + seconds` seconds and the new closing time, also when re-closed; other ids resolve as before |
| `Applications.DeleteThenLookup` | main.py:98-102 | after delete no request has the id, so a lookup of it fails |
| `Applications.DeleteKeepsOtherIds` | main.py:100 | delete keeps the requests of every other id, in order, and their lookups |
| `Applications.DeletePartitions` | main.py:100 | the deleted and the kept requests together are the store, element for element |
| `Applications.DeleteWithoutMatch` | main.py:98-102 | delete of an id that no request has leaves the list unchanged |
| `Comments.CommentsFor` | main.py:124 | a request's comments are exactly the stored comments with its id |
| `Comments.AppendThenList` | main.py:118-124 | appending a comment adds it at the end of its own request's list and leaves every other request's list unchanged |
| `Comments.CommentsPage` | main.py:122-127 | the page fails exactly when no request has the id; otherwise it is exactly `CommentsFor`: every stored comment with that id, in insertion order |
| `Comments.PostDecision` | main.py:107-118 | a comment is stored exactly when the text is present and non-empty and a request has the id; empty or missing text is ignored whatever the id |
| `Statistics.DurationTotalAppend` | main.py:149-153 | the duration total of two lists joined is the sum of their totals |
| `Statistics.SumDurations` | main.py:149-153 | the loop's total is the sum of the durations, with a missing duration adding 0 |
| `Statistics.Average` | main.py:154 | the average times the count is the total; with no closed request the average is 0 |
| `Statistics.SplitMinutes` | main.py:157-158 | 60 times the minutes plus the seconds is the average, and the seconds lie in [0, 60) |
| `Statistics.SplitMinutesUnique` | main.py:157-158 | that split is the only one whose seconds lie in [0, 60) |
| `Statistics.TallySnoc` | main.py:166-170 | one step of the table loop increments an existing key or starts a new key at 1 |
| `Statistics.CountFaultTypes` | main.py:165-170 | the table built by the loop has as keys exactly the fault types present, each mapped to its number of occurrences |
| `Statistics.TallyTotal` | main.py:165-170 | the counts in the table add up to the number of requests counted |
| `Statistics.ReportCountsClosed` | main.py:147-148 | the completed count is the length of the completed list, which holds every request with status `"закрыта"` exactly as often as the store does and no other request |
| `Statistics.ReportAverage` | main.py:149-158 | the reported minutes and seconds, times the count, give the total duration of the closed requests; 0 and 0 when none is closed; seconds below 60 |
| `Statistics.ReportFaultTypes` | main.py:165-170 | the report's table has as keys exactly the fault types present, open or closed; each value is that type's count; the values sum to the store size |
| `Statistics.EmptyStoreReport` | main.py:147-170 | an empty store reports 0 completed, 0 minutes, 0 seconds and an empty table |
| `Statistics.SingleRecordReport` | main.py:147-170 | a one-request store counts it as completed only when it is closed; its duration is then the average; its fault type is counted once |
| `Statistics.ExampleCompleted` | main.py:147-153 | two closed requests of 60 s and 90 s plus an open one give 2 completed and 150 s in all |
| `Statistics.ExampleFaultTypes` | main.py:165-170 | the fault types screen, screen, battery are counted as 2 screens and 1 battery, whatever the status |
| `Statistics.ExampleReport` | main.py:147-170 | that store reports 2 completed, 1 minute 15 seconds, and the counted fault types |
| `Statistics.CloseUpdatesStatistics` | main.py:134-153 | closing adds the request to the completed count unless it was already closed; its contribution to the total becomes `minutes * 60 + seconds`; the table is unchanged |
| `Statistics.EditKeepsFaultTable` | main.py:87-90 | an edit leaves the fault-type table unchanged |
| `Statistics.EditUpdatesStatistics` | main.py:87-90 | an edit changes the count and the total only through the status: the first match leaves the count when reopened and joins it when set closed, carrying its stored duration (or 0) out of or into the total |
| `Statistics.EditToClosedCountsWithoutDuration` | main.py:87 | setting the closed status by edit makes a closed request with no duration, which adds 1 to the count and 0 to the total |
| `Tracker.Store.constructor` | main.py:7-8 | both lists start empty |
| `Tracker.Store.CreateApplication` | main.py:61-77 | exactly one new pending request is appended at the end; earlier requests and the comments are unchanged |
| `Tracker.Store.EditApplication` | main.py:80-92 | reports whether the id was found; the list becomes the first-match edit of the old list; the comments are unchanged |
| `Tracker.Store.DeleteApplication` | main.py:95-102 | reports whether the id was found; if so every request with the id is removed and the rest kept in order, otherwise nothing changes |
| `Tracker.Store.PostComment` | main.py:104-120 | the outcome follows the posting decision; a comment with the id, the text and the time is appended only when posted; the requests never change |
| `Tracker.Store.CloseApplication` | main.py:129-143 | reports whether the id was found; the list becomes the first-match close of the old list; the comments are unchanged |
| `Tracker.Store.ComputeStatistics` | main.py:145-170 | the report is the statistics of the current list, with the meaning the report lemmas above state |
| `Tracker.CreateCloseScenario` | main.py:129-139 | a request created and closed twice ends closed with the second duration; it is the one completed request and its fault type is counted once |
| `Tracker.DuplicateIdScenario` | main.py:80-102 | with two requests under one id, an edit reaches only the first (the second stays pending and unchanged) and the lookup yields the first; one delete removes both, after which the id is not found |

Some members are reference definitions: they write a piece of the source out directly, and the
lemmas and methods in the table state what they mean.

- `Entities.Application.GetDuration` is `get_duration` (main.py:33-36). It returns the stored duration,
  or `None` when the request was never closed through the close handler. `NewApplication`,
  `WithDuration`, `CloseThenLookup` and `SumDurations` state its behaviour.
- `Applications.Without` is the comprehension of the delete handler (main.py:100). `DeleteThenLookup`,
  `DeleteKeepsOtherIds`, `DeletePartitions` and `DeleteWithoutMatch` state its behaviour.
- `Applications.Matching` is the generator inside `next(...)` (main.py:82): every request with the id, in
  list order. `LookupIsFirstOfMatching` states that the lookup is its head.
- `Statistics.Completed` is the completed list (main.py:147). `ReportCountsClosed` and
  `CompletedAround` state its behaviour.
- `Statistics.DurationTotal` is the sum the duration loop computes (main.py:149-153). `SumDurations` and
  `DurationTotalAppend` state its behaviour.
- `Statistics.DurationOrZero` is what one closed request adds to the total: its duration, or 0 when
  `get_duration()` is `None` (main.py:151-153). `SumDurations` and `ReplaceInCompleted` use it.
- `Statistics.FaultTypes` is the list of fault types the table loop reads, one per request, in list
  order (main.py:166-167). `CountFaultTypes` and `ReportFaultTypes` state what is built from it.
- `Statistics.Tally` is the table the fault-type loop builds (main.py:165-170). `CountFaultTypes`,
  `TallySnoc`, `TallyTotal` and `ReportFaultTypes` state its behaviour.
- `Statistics.StatisticsOf` is the whole statistics report (main.py:145-170). `ComputeStatistics`
  computes it, and `ReportCountsClosed`, `ReportAverage` and `ReportFaultTypes` state its meaning.

## Left out

- Flask routing, templates, redirects, the HTTP 404 tuples and `app.run` (main.py:1-4, 51-59, 77-78,
  91-93, 120, 125, 142, 172-179). These are presentation. A missing id is a result value instead.
- The GET branches of the edit, comments and close handlers. They only render a form or a page for the
  record that the lookup found. The comments page is `CommentsPage`.
- Form parsing: `request.form`/`request.args`, the `0` defaults of `request.form.get('minutes', 0)`,
  and the `ValueError` of `int(...)` on non-numeric input (main.py:134-135). Minutes and seconds arrive
  as integers. Fields missing from the edit form are `None`.
- `datetime.now()` and `strftime` (main.py:31, 67, 116). Times are opaque values that the caller passes
  in.
- The console `print` calls in `statistics` (main.py:160-163). Their total is `DurationTotal` of the
  completed list.
- Python float rounding of the average. The model uses exact `real` division.
- `Comment.to_dict` (main.py:44-49). Nothing calls it.
- Object identity and aliasing. Requests are values in the list, which is equivalent here because the
  lists are the only holders of the objects.
- The exception raised when posting a non-empty comment for a missing request (main.py:114). It is the
  outcome `MissingApplication`, with no change of state, rather than a crash of the request.
- Insertion order of the fault-type dictionary. The table is a `map`, because the page only shows the
  counts.
- Concurrency. The handlers run one at a time.
