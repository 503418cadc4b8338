/** The comment store's list logic: which comments belong to a request, and what the comments page shows. */
module Comments {
  import opened Wrappers
  import opened Sequences
  import opened Entities
  import Applications

  function AboutId(id: string): Comment -> bool {
    (c: Comment) => c.applicationId == id
  }

  /** `[c for c in comments if c.application_id == id]`. */
  function CommentsFor(comments: seq<Comment>, id: string): (r: seq<Comment>)
    ensures forall c :: c in r ==> c in comments && c.applicationId == id
    ensures forall c :: c in comments && c.applicationId == id ==> c in r
  {
    Filter(comments, AboutId(id))
  }

  /** The comments page: the request's comments in insertion order, or `None` (a 404) when no request has that id. */
  function CommentsPage(apps: seq<Application>, comments: seq<Comment>, id: string): (r: Option<seq<Comment>>)
    ensures r.None? <==> Applications.Lookup(apps, id).None?
    ensures r.Some? ==> r.value == CommentsFor(comments, id)
  {
    if Applications.Lookup(apps, id).Some? then Some(CommentsFor(comments, id)) else None
  }

  /** What posting a comment does. */
  datatype PostOutcome =
    | Posted            // the comment was appended
    | EmptyText         // no text or empty text: nothing appended, whatever the id
    | MissingApplication // non-empty text for an id no request has: the source fails here, nothing appended

  /** The decision the comment handler takes before appending. */
  function PostDecision(apps: seq<Application>, id: string, text: Option<string>): (r: PostOutcome)
    ensures r == Posted <==> text.Some? && text.value != "" && Applications.Lookup(apps, id).Some?
    ensures r == EmptyText <==> text.None? || text.value == ""
  {
    if text.None? || text.value == "" then EmptyText
    else if Applications.Lookup(apps, id).None? then MissingApplication
    else Posted
  }

  /**
   * Appending a comment adds it to the end of its own request's list and leaves every other request's
   * list unchanged.
   */
  lemma AppendThenList(comments: seq<Comment>, c: Comment, id: string)
    ensures CommentsFor(comments + [c], id) ==
      CommentsFor(comments, id) + (if c.applicationId == id then [c] else [])
  {
  }
}
