/** The page controller: the two module-level variables of the page script
    (the file waiting to be uploaded and the id of the review on display)
    together with the parts of the page its handlers overwrite. Every handler
    runs to completion before the next one starts. */
module Page {
  import opened Wrappers
  import opened Ids
  import opened Remote
  import opened Views

  /** The text of the drop zone. */
  datatype DropzoneText = Prompt | FileName(name: string)

  /** The `alert` boxes the handlers raise. */
  datatype Alert =
    | FileTooLarge          // "Error: File is larger than 5MB."
    | NoFileSelected        // "Please select a file to review."
    | DeleteFailed          // "Error: Could not delete item."

  class ReviewPage {
    var fileToUpload: Option<File>
    var currentlyDisplayedReviewId: Option<int>
    var reviewOutput: Display
    var historyList: HistoryView
    var submitEnabled: bool
    var dropzoneText: DropzoneText
    /** Every request sent so far, oldest first. */
    var requests: seq<Request>
    /** Every alert raised so far, oldest first. */
    var alerts: seq<Alert>

    /** What every handler keeps: a pending file passed the size gate, can be
        submitted and is named in the drop zone; a tracked id always has a
        rendered review beside it; every history entry's `data-id` is the
        numeral of its item's id. */
    ghost predicate Valid()
      reads this
    {
      && (fileToUpload.Some? ==> fileToUpload.value.size <= MaxUploadBytes && submitEnabled)
      && dropzoneText == (if fileToUpload.Some? then FileName(fileToUpload.value.name) else Prompt)
      && (currentlyDisplayedReviewId.Some? ==> reviewOutput.Rendered?)
      && WellFormed(historyList)
    }

    /** The page as it loads, before any handler has run. */
    constructor ()
      ensures Valid()
      ensures fileToUpload == None && currentlyDisplayedReviewId == None
      ensures reviewOutput == Placeholder && historyList == NotLoaded
      ensures !submitEnabled && dropzoneText == Prompt
      ensures requests == [] && alerts == []
    {
      fileToUpload := None;
      currentlyDisplayedReviewId := None;
      reviewOutput := Placeholder;
      historyList := NotLoaded;
      submitEnabled := false;
      dropzoneText := Prompt;
      requests := [];
      alerts := [];
    }

    /** A file chosen in the file input or dropped on the drop zone. */
    method HandleFile(file: Option<File>)
      requires Valid()
      modifies this`fileToUpload, this`dropzoneText, this`submitEnabled, this`alerts
      ensures Valid()
      ensures file == None ==> unchanged(this)
      ensures file.Some? && file.value.size > MaxUploadBytes ==>
        && fileToUpload == old(fileToUpload) && dropzoneText == old(dropzoneText)
        && submitEnabled == old(submitEnabled) && alerts == old(alerts) + [FileTooLarge]
      ensures file.Some? && file.value.size <= MaxUploadBytes ==>
        && fileToUpload == file && dropzoneText == FileName(file.value.name)
        && submitEnabled && alerts == old(alerts)
      ensures currentlyDisplayedReviewId == old(currentlyDisplayedReviewId)
      ensures reviewOutput == old(reviewOutput) && historyList == old(historyList)
      ensures requests == old(requests)
    {
      if file.Some? {
        if file.value.size > MaxUploadBytes {
          alerts := alerts + [FileTooLarge];
          return;
        }
        fileToUpload := file;
        dropzoneText := FileName(file.value.name);
        submitEnabled := true;
      }
    }

    /** A refresh of the history list: one `GET /history`, after which the
        list is replaced wholesale. */
    method LoadHistory(response: Fetch<seq<HistoryItem>>)
      modifies this`historyList, this`requests
      ensures historyList == Loaded(response)
      ensures requests == old(requests) + [GetHistory]
    {
      requests := requests + [GetHistory];
      // a rejected fetch, a status that is not ok and a body that is not
      // JSON all land in the same catch block
      if response.Rejected? || !IsOk(response.status) || response.json.None? {
        historyList := LoadError;
        return;
      }
      var historyData := response.json.value;
      historyList := Items([]);
      if |historyData| == 0 {
        historyList := NoHistory;
        return;
      }
      for i := 0 to |historyData|
        invariant requests == old(requests) + [GetHistory]
        invariant historyList.Items? && |historyList.entries| == i
        invariant forall j :: 0 <= j < i ==> historyList.entries[j] == EntryFor(historyData[j])
      {
        historyList := Items(historyList.entries + [EntryFor(historyData[i])]);
      }
      LoadedItems(response, historyList.entries);
    }

    /** The upload form's submit handler. With a pending file it sends one
        `POST /review`; a delivered answer is rendered and tracked and then
        exactly one refresh follows; every other outcome shows the error
        notice. Either way the button comes back and the slot is emptied. */
    method Submit(response: Fetch<ReviewReply>, refresh: Fetch<seq<HistoryItem>>)
      requires Valid()
      modifies this
      ensures Valid()
      ensures old(fileToUpload) == None ==>
        && fileToUpload == None && submitEnabled == old(submitEnabled)
        && dropzoneText == old(dropzoneText)
        && currentlyDisplayedReviewId == old(currentlyDisplayedReviewId)
        && reviewOutput == old(reviewOutput) && historyList == old(historyList)
        && requests == old(requests) && alerts == old(alerts) + [NoFileSelected]
      ensures old(fileToUpload).Some? ==>
        && fileToUpload == None && submitEnabled && dropzoneText == Prompt
        && alerts == old(alerts)
      ensures old(fileToUpload).Some? && Delivered(response) ==>
        && currentlyDisplayedReviewId == response.json.value.id
        && reviewOutput == Rendered(response.json.value.review)
        && historyList == Loaded(refresh)
        && requests == old(requests) + [PostReview(old(fileToUpload).value), GetHistory]
      ensures old(fileToUpload).Some? && !Delivered(response) ==>
        && currentlyDisplayedReviewId == None && reviewOutput == ErrorNotice
        && historyList == old(historyList)
        && requests == old(requests) + [PostReview(old(fileToUpload).value)]
    {
      if fileToUpload.None? {
        alerts := alerts + [NoFileSelected];
        return;
      }
      reviewOutput := Blank;
      submitEnabled := false;
      currentlyDisplayedReviewId := None;
      requests := requests + [PostReview(fileToUpload.value)];
      if response.Resolved? && IsOk(response.status) && response.json.Some? {
        var result := response.json.value;
        reviewOutput := Rendered(result.review);
        currentlyDisplayedReviewId := result.id;
        LoadHistory(refresh);
      } else {
        reviewOutput := ErrorNotice;
      }
      // the finally block
      submitEnabled := true;
      fileToUpload := None;
      dropzoneText := Prompt;
    }

    /** A click on the title of history entry k: its review is rendered and
        tracked, without any request. */
    method SelectItem(k: nat)
      requires Valid() && historyList.Items? && k < |historyList.entries|
      modifies this`currentlyDisplayedReviewId, this`reviewOutput
      ensures Valid()
      ensures currentlyDisplayedReviewId == Some(historyList.entries[k].item.id)
      ensures reviewOutput == Rendered(historyList.entries[k].item.reviewContent)
      ensures requests == old(requests) && historyList == old(historyList)
    {
      var item := historyList.entries[k].item;
      reviewOutput := Rendered(item.reviewContent);
      currentlyDisplayedReviewId := Some(item.id);
    }

    /** Deletion of the review whose id the string itemId carries. After the
        user confirms, one `DELETE` is sent; on a reported success the
        display is reset exactly when it shows that review, and one refresh
        follows; on any failure the user is alerted and nothing else moves. */
    method DeleteHistoryItem(itemId: string, confirmed: bool, response: Fetch<DeleteReply>,
                             refresh: Fetch<seq<HistoryItem>>)
      requires Valid()
      modifies this`currentlyDisplayedReviewId, this`reviewOutput, this`historyList
      modifies this`requests, this`alerts
      ensures Valid()
      ensures !confirmed ==> unchanged(this)
      ensures confirmed && Removed(response) ==>
        && (SameReview(old(currentlyDisplayedReviewId), itemId) ==>
              currentlyDisplayedReviewId == None && reviewOutput == Placeholder)
        && (!SameReview(old(currentlyDisplayedReviewId), itemId) ==>
              currentlyDisplayedReviewId == old(currentlyDisplayedReviewId)
              && reviewOutput == old(reviewOutput))
        && historyList == Loaded(refresh)
        && requests == old(requests) + [DeleteReview(itemId), GetHistory]
        && alerts == old(alerts)
      ensures confirmed && !Removed(response) ==>
        && currentlyDisplayedReviewId == old(currentlyDisplayedReviewId)
        && reviewOutput == old(reviewOutput) && historyList == old(historyList)
        && requests == old(requests) + [DeleteReview(itemId)]
        && alerts == old(alerts) + [DeleteFailed]
    {
      if !confirmed {
        return;
      }
      requests := requests + [DeleteReview(itemId)];
      if response.Rejected? || response.json.None? {
        // the catch block
        alerts := alerts + [DeleteFailed];
        return;
      }
      if response.json.value.success {
        if SameReview(currentlyDisplayedReviewId, itemId) {
          reviewOutput := Placeholder;
          currentlyDisplayedReviewId := None;
        }
        LoadHistory(refresh);
      } else {
        alerts := alerts + [DeleteFailed];
      }
    }

    /** A click on the delete button of history entry k: the id travels as
        the button's `data-id` string, and the click does not reach the
        entry's select handler. A confirmed, reported deletion clears the
        display exactly when it shows entry k's review. */
    method ClickDelete(k: nat, confirmed: bool, response: Fetch<DeleteReply>,
                       refresh: Fetch<seq<HistoryItem>>)
      requires Valid() && historyList.Items? && k < |historyList.entries|
      modifies this`currentlyDisplayedReviewId, this`reviewOutput, this`historyList
      modifies this`requests, this`alerts
      ensures Valid()
      ensures !confirmed ==> unchanged(this)
      ensures confirmed && Removed(response) ==>
        && (old(currentlyDisplayedReviewId) == Some(old(historyList.entries[k].item.id)) ==>
              currentlyDisplayedReviewId == None && reviewOutput == Placeholder)
        && (old(currentlyDisplayedReviewId) != Some(old(historyList.entries[k].item.id)) ==>
              currentlyDisplayedReviewId == old(currentlyDisplayedReviewId)
              && reviewOutput == old(reviewOutput))
        && historyList == Loaded(refresh)
        && requests == old(requests) + [DeleteReview(IntToString(old(historyList.entries[k].item.id))), GetHistory]
        && alerts == old(alerts)
      ensures confirmed && !Removed(response) ==>
        && currentlyDisplayedReviewId == old(currentlyDisplayedReviewId)
        && reviewOutput == old(reviewOutput) && historyList == old(historyList)
        && requests == old(requests) + [DeleteReview(IntToString(old(historyList.entries[k].item.id)))]
        && alerts == old(alerts) + [DeleteFailed]
    {
      var entry := historyList.entries[k];
      assert entry == EntryFor(entry.item);
      SameReviewByDataId(currentlyDisplayedReviewId, entry.item.id);
      DeleteHistoryItem(entry.dataId, confirmed, response, refresh);
    }
  }

  /** A 2 KB upload answered with id 7, then the deletion of "7" as the
      delete button passes it: the tracked review is cleared. */
  method UploadThenDeleteScenario() returns (shownAfterUpload: Option<int>, outputAfterUpload: Display,
                                             shownAfterDelete: Option<int>, outputAfterDelete: Display)
    ensures shownAfterUpload == Some(7) && outputAfterUpload == Rendered("# OK")
    ensures shownAfterDelete == None && outputAfterDelete == Placeholder
  {
    var page := new ReviewPage();
    page.HandleFile(Some(File("main.py", 2048)));
    var item := HistoryItem(7, "main.py", "2025-01-01 10:00:00", "# OK");
    page.Submit(Resolved(200, Some(ReviewReply(Some(7), "# OK"))), Resolved(200, Some([item])));
    shownAfterUpload, outputAfterUpload := page.currentlyDisplayedReviewId, page.reviewOutput;
    SameReviewByDataId(Some(7), 7);
    assert IntToString(7) == "7";
    page.DeleteHistoryItem("7", true, Resolved(200, Some(DeleteReply(true))), Resolved(200, Some([])));
    shownAfterDelete, outputAfterDelete := page.currentlyDisplayedReviewId, page.reviewOutput;
  }

  /** Review 3 selected, review 5 deleted: the display keeps review 3. */
  method UnrelatedDeleteScenario() returns (shown: Option<int>, output: Display)
    ensures shown == Some(3) && output == Rendered("three")
  {
    var page := new ReviewPage();
    var three := HistoryItem(3, "a.js", "2025-01-02 09:00:00", "three");
    var five := HistoryItem(5, "b.js", "2025-01-01 09:00:00", "five");
    page.LoadHistory(Resolved(200, Some([three, five])));
    page.SelectItem(0);
    page.ClickDelete(1, true, Resolved(200, Some(DeleteReply(true))), Resolved(200, Some([three])));
    shown, output := page.currentlyDisplayedReviewId, page.reviewOutput;
  }

  /** A file of exactly 5 MiB is taken; one byte more is refused and leaves
      the taken file in the slot. */
  method SizeLimitScenario() returns (afterLimit: Option<File>, afterOversize: Option<File>, warned: seq<Alert>)
    ensures afterLimit == Some(File("limit.bin", 5 * 1024 * 1024))
    ensures afterOversize == afterLimit && warned == [FileTooLarge]
  {
    var page := new ReviewPage();
    page.HandleFile(Some(File("limit.bin", 5 * 1024 * 1024)));
    afterLimit := page.fileToUpload;
    page.HandleFile(Some(File("over.bin", 5 * 1024 * 1024 + 1)));
    afterOversize, warned := page.fileToUpload, page.alerts;
  }

  /** A refresh never looks at the tracked review: with review 3 selected, a
      refresh that no longer lists it leaves review 3 tracked and shown. */
  method StaleTrackedIdScenario() returns (shown: Option<int>, output: Display, list: HistoryView)
    ensures shown == Some(3) && output == Rendered("three") && list == NoHistory
  {
    var page := new ReviewPage();
    var three := HistoryItem(3, "a.js", "2025-01-02 09:00:00", "three");
    page.LoadHistory(Resolved(200, Some([three])));
    page.SelectItem(0);
    page.LoadHistory(Resolved(200, Some([])));
    shown, output, list := page.currentlyDisplayedReviewId, page.reviewOutput, page.historyList;
  }

  /** The delete handler never looks at the status: with review 3 selected,
      a delete answered with status 500 and a truthy `success` still clears
      the display. */
  method ErrorStatusDeleteScenario() returns (shown: Option<int>, output: Display)
    ensures shown == None && output == Placeholder
  {
    var page := new ReviewPage();
    var three := HistoryItem(3, "a.js", "2025-01-02 09:00:00", "three");
    page.LoadHistory(Resolved(200, Some([three])));
    page.SelectItem(0);
    page.ClickDelete(0, true, Resolved(500, Some(DeleteReply(true))), Rejected);
    shown, output := page.currentlyDisplayedReviewId, page.reviewOutput;
  }
}
