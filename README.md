# Code review assistant: the page controller

A model of the browser side of the code review assistant. The script tracks three things:
- the file waiting to be uploaded;
- the review shown in the output pane, with the id of that review;
- the history list fetched from the review server.

It keeps only some of them in step. Between handlers, a pending file is always named in the drop zone and can be submitted. The exception is an upload in flight: the file is still pending but the button is disabled (script.js:101). The converse does not hold: after an upload the slot is empty but the button stays enabled (script.js:128-130). An upload replaces the shown review and its id. A deletion clears the shown review when it is the one deleted. A refresh of the history list never looks at the shown review.

The model is the class `Page.ReviewPage`. Its fields are the script's two module-level variables (`fileToUpload`, `currentlyDisplayedReviewId`) and the parts of the page its handlers overwrite: the output pane, the history list, the submit button's enabled flag and the drop-zone text. Two logs stand for the effects the page has on the outside world: `requests` (every request sent to the server) and `alerts` (every alert box raised).

Each handler is a method. The outcome of every `fetch`, `response.json()` and `confirm` it waits for is passed in as a parameter. The methods are:
- `HandleFile`: picking or dropping a file.
- `Submit`: the upload form.
- `LoadHistory`: refreshing the history list.
- `SelectItem`: clicking an entry's title.
- `DeleteHistoryItem`: deleting a review, given its id as a string.
- `ClickDelete`: clicking an entry's delete button.

The invariant `Valid()` is required and ensured by every handler except `LoadHistory`. `LoadHistory` cannot require it, because `Submit` calls it while a file is still pending and submit is disabled. Callers of `LoadHistory` get `Valid()` back because the method changes only the list and the request log, and the list it leaves is well formed (`Views.Loaded`). The invariant says:
- a pending file is within the 5 MiB limit, can be submitted, and is named in the drop zone;
- a tracked id always has a rendered review beside it;
- every history entry's `data-id` is the decimal numeral of its item's id.

Module `Ids` models how an id travels through the page. The number is written into `data-id` with a template literal, read back as a string through `getAttribute`, and turned back into a number with `parseInt`. The model proves that `parseInt` recovers the number exactly. So a delete started from an entry, once confirmed and reported successful (script.js:20, 28), clears the display exactly when that entry's review is the one shown.

Behaviours of the code worth knowing:
- Start of an upload: the code clears the tracked id as soon as an upload starts (script.js:103), so after a failed upload no review is tracked.
- Delete answers: the delete handler never checks `response.ok` (script.js:27-28). Only a body whose `success` field is truthy counts as a deletion.
- Delete errors: a rejected delete (`success` false) and a failed request raise the same alert (script.js:37 and script.js:41). The two are not shown to the user as different errors.
- Unknown ids: the server answers `success: true` even for an id it does not hold (app.py:118-121), so the handler cannot tell a missing id from a deletion. In the model, the answer is an input either way.
- The upload answer's `id` is `null` when the server could not store the review (app.py:76-90). So a rendered review can have no tracked id.
- Stale display: a refresh replaces the list but never touches the tracked id or the output pane (script.js:45-87). A review that is missing from the new list stays tracked and shown (`Page.StaleTrackedIdScenario`).

## Model

| member | source | states |
|---|---|---|
| `Ids.NatToDecimal` | script.js:65 | the numeral written into `data-id` is a non-empty string of digits, and it starts with `0` only for zero, which is then the whole numeral |
| `Ids.LeadingDigits` | script.js:31 | the digits `parseInt` reads are the longest all-digit prefix of the string: the next character, if any, is not a digit |
| `Ids.DecimalValue` | script.js:65 | reading the digits of a written numeral gives back the number |
| `Ids.RoundTrip` | script.js:65-79 | `ParseInt` (the page's `parseInt`) of the string `IntToString` writes for `${item.id}` is that id, for every integer id |
| `Ids.IntToStringInjective` | script.js:65 | two ids get the same `data-id` string if and only if they are equal |
| `Ids.SameReviewByDataId` | script.js:29-31 | the strict comparison `shown === parseInt(data-id)` holds if and only if the tracked id is exactly that entry's id |
| `Ids.SameReviewNeedsTrackedId` | script.js:31 | `SameReview`, the `===` test, never holds when no review is tracked, whatever the `data-id` string |
| `Views.EntryForDataId` | script.js:60-67 | the `li` that `EntryFor` builds for a record keeps that record for its click handlers, and its `data-id` reads back as the record's id |
| `Views.Loaded` | script.js:45-87 | a refresh shows the error placeholder if and only if the fetch is rejected, the status is not ok or the body is not JSON; it shows "No history found" if and only if it got an empty array; otherwise it shows one entry per record, in server order, each built from its own record |
| `Views.LoadedDataIds` | script.js:65-78 | the `data-id` of every entry a refresh shows is a string that `parseInt` turns back into the id of that entry's record |
| `Page.ReviewPage.constructor` | script.js:3-4 | the page starts with no pending file, no tracked id, the placeholder in the output pane, the history not yet loaded, no requests and no alerts |
| `Page.ReviewPage.HandleFile` | script.js:6-17 | no file changes nothing; a file over 5 MiB only raises an alert, and the previous pending file and the button stay as they were; a file of at most 5 MiB replaces the pending file, is named in the drop zone and enables submit; the tracked id, the output, the list and the request log never change |
| `Page.ReviewPage.LoadHistory` | script.js:45-87 | a refresh sends exactly one `GET /history` and replaces the list with the `Loaded` view of its outcome |
| `Page.ReviewPage.Submit` | script.js:89-134 | with no pending file, only the "select a file" alert is raised and no request is sent; otherwise exactly one `POST` of the pending file is sent. A delivered answer tracks the returned id and renders the review, then exactly one refresh follows. Any other outcome shows the error notice, tracks no id and leaves the list alone. Either way submit ends enabled, the slot is empty and the drop zone shows its prompt |
| `Page.ReviewPage.SelectItem` | script.js:69-74 | clicking entry k renders its review and tracks its id, with no request and no change to the list |
| `Page.ReviewPage.DeleteHistoryItem` | script.js:19-43 | a cancelled confirmation changes nothing. After confirmation, exactly one `DELETE` for the given id string is sent. On a reported success (`Remote.Removed`: a parsable body with a truthy `success`, whatever the status), the display is reset to the placeholder and untracked if and only if the tracked id strictly equals `parseInt` of that string, and exactly one refresh follows. On a failure or a thrown error, only the alert is added: the tracked id, the output and the list do not change |
| `Page.ReviewPage.ClickDelete` | script.js:76-80 | deleting through entry k's button sends its `data-id`. A confirmed, reported deletion clears the display if and only if entry k's review is the one tracked, then refreshes once. The click never selects the entry |
| `Page.UploadThenDeleteScenario` | script.js:19-43 | a 2 KB upload answered with id 7 and review "# OK" tracks 7 and renders "# OK"; deleting "7" afterwards resets the display to the placeholder |
| `Page.UnrelatedDeleteScenario` | script.js:28-35 | with review 3 selected, deleting review 5 keeps review 3 tracked and rendered |
| `Page.ErrorStatusDeleteScenario` | script.js:27-35 | with review 3 selected, a confirmed delete answered with status 500 and `success: true` still clears the tracked id and resets the display to the placeholder, because the handler never checks the status |
| `Page.StaleTrackedIdScenario` | script.js:45-87 | with review 3 selected, a refresh that returns an empty array shows "No history found" but leaves review 3 tracked and rendered |
| `Page.SizeLimitScenario` | script.js:7-12 | a file of exactly 5 MiB is accepted; one byte more is refused with an alert and the accepted file stays in the slot |

## Left out

- The server (app.py) and the model-listing script (list_models.py) are not part of this model. They are HTTP routes, SQLite storage and calls to a language-model API. Every answer the server gives is an input to the handler that awaits it.
- Answer bodies are assumed to have the shape app.py sends. `json: None` stands for every body the handler cannot use: unparsable JSON, and also a POST body without `review` (where `marked.parse` throws, script.js:119 and 123-125) and a GET body that is not an array (where `forEach` throws, script.js:59 and 83-85). All of these reach the same catch block.
- `fetch`, `await`, `confirm` and `alert` are not modelled as calls. The dialog's answer and each request's outcome are parameters, and each alert is an entry in the `alerts` log.
- Interleaving of handlers is not modelled: each handler runs to completion before the next starts. So the model does not show what happens when a handler runs while an upload is in flight. One example: picking a new file re-enables the submit button (script.js:15), and the `finally` block then drops that file. Another consequence: with the button enabled again, a second `POST` can start while the first is still outstanding, so the disabled button does not reliably prevent a second submission.
- Refreshes: the source calls `loadHistory()` inside submit and delete without awaiting it. The model runs that call inline, with its own outcome parameter.
- `LoadHistory`: the model clears the list and appends one entry per record within a single handler run, so it does not show what the list looks like while the refresh is still running.
- Markdown rendering (`marked.parse`) is an external library. `Rendered(markdown)` carries the markdown source and stands for whatever the renderer makes of it. Sanitisation is not modelled.
- Presentation is not modelled: CSS classes, `innerHTML` markup, `scrollIntoView`, date formatting with `toLocaleString` (the timestamp is carried as received), and `console.error` logging. The loader and the button's "Analyzing..." caption are also left out; they are visible only while a request is outstanding, which this sequential model never shows. So is the form `reset()`.
- Drag-and-drop and file-input wiring (script.js:136-160) is event plumbing whose only effect is to call `HandleFile`. The first refresh on `DOMContentLoaded` is a `LoadHistory` call after the constructor.
- The initial page markup (index.html) is not part of this model. The constructor assumes the output pane shows the same placeholder as after a deletion, submit is disabled and the history list is not yet loaded.
- `Ids.ParseInt` models `parseInt` only as an optional sign followed by the longest run of decimal digits. Three JavaScript behaviours are left out because `data-id` strings never contain them: skipping leading whitespace, the `0x` hexadecimal prefix, and exponent notation (`1e+21`), which JavaScript uses to print integers of magnitude 10^21 or more.
- Ids are mathematical integers. The loss of precision in JavaScript numbers above 2^53 is not modelled.
