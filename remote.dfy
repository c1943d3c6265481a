/** The boundary with the review server. Nothing here talks to a network:
    every answer the page can receive is a value handed to the handler that
    awaited it, and every request the page issues is recorded in a log. */
module Remote {
  import opened Wrappers

  /** The client-side upload limit, 5 MiB. */
  const MaxUploadBytes: nat := 5 * 1024 * 1024

  /** A file picked in the file input or dropped on the drop zone. */
  datatype File = File(name: string, size: nat)

  /** The JSON body of a `POST /review` answer. The id is `null` when the
      server could not store the review. */
  datatype ReviewReply = ReviewReply(id: Option<int>, review: string)

  /** One element of the `GET /history` JSON array. */
  datatype HistoryItem = HistoryItem(id: int, filename: string, timestamp: string, reviewContent: string)

  /** The JSON body of a `DELETE /history/<id>` answer; `success` is its
      truthiness (a missing field reads as false). */
  datatype DeleteReply = DeleteReply(success: bool)

  /** How an awaited `fetch` ends: the promise is rejected (network failure),
      or a response arrives with a status and a body whose `response.json()`
      either parses (Some) or throws (None). */
  datatype Fetch<T> = Rejected | Resolved(status: int, json: Option<T>)

  /** `response.ok`. */
  predicate IsOk(status: int) {
    200 <= status <= 299
  }

  /** The outcome on which a handler that checks `response.ok` reaches its
      success branch: a response with an ok status and a parsable body. */
  predicate Delivered<T>(f: Fetch<T>) {
    f.Resolved? && IsOk(f.status) && f.json.Some?
  }

  /** The outcome on which the delete handler reaches its success branch:
      a parsable body whose `success` is truthy. The status is not consulted,
      so a failing status with `{"success": true}` counts as a deletion. */
  predicate Removed(f: Fetch<DeleteReply>) {
    f.Resolved? && f.json.Some? && f.json.value.success
  }

  /** A request the page sends to the server. */
  datatype Request =
    | PostReview(file: File)
    | GetHistory
    | DeleteReview(itemId: string)
}
