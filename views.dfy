/** What the page shows, as abstract tags: the review output pane and the
    history list. Rendered markdown is kept as its source text, standing for
    whatever the markdown renderer makes of it. */
module Views {
  import opened Wrappers
  import opened Ids
  import opened Remote

  /** The review output pane. */
  datatype Display =
    | Placeholder           // "Your report will appear here..."
    | Blank                 // emptied while an upload is in progress
    | Rendered(markdown: string)
    | ErrorNotice           // "An error occurred while getting the review."

  /** One `li` of the history list: the `data-id` attribute of its delete
      button and the history item its click handlers close over. */
  datatype Entry = Entry(dataId: string, item: HistoryItem)

  /** The history list. */
  datatype HistoryView =
    | NotLoaded             // as the page starts, before the first refresh
    | LoadError             // "Error loading history."
    | NoHistory             // "No history found."
    | Items(entries: seq<Entry>)

  /** The `li` built for one history item. */
  function EntryFor(item: HistoryItem): Entry {
    Entry(IntToString(item.id), item)
  }

  /** Every entry's `data-id` is the numeral of the id of the item it shows. */
  predicate WellFormed(v: HistoryView) {
    v.Items? ==> forall j :: 0 <= j < |v.entries| ==> v.entries[j] == EntryFor(v.entries[j].item)
  }

  /** The list a refresh leaves behind, given how its fetch ended. */
  function Loaded(f: Fetch<seq<HistoryItem>>): (v: HistoryView)
    ensures WellFormed(v) && v != NotLoaded
    ensures v == LoadError <==> !Delivered(f)
    ensures v == NoHistory <==> Delivered(f) && f.json.value == []
    ensures v.Items? ==> Delivered(f) && |v.entries| == |f.json.value| > 0
    ensures v.Items? ==> forall j :: 0 <= j < |v.entries| ==> v.entries[j].item == f.json.value[j]
  {
    if !Delivered(f) then LoadError
    else if f.json.value == [] then NoHistory
    else Items(seq(|f.json.value|, j requires 0 <= j < |f.json.value| => EntryFor(f.json.value[j])))
  }

  /** A list built entry by entry from a delivered, non-empty array is the
      view a refresh leaves behind. */
  lemma LoadedItems(f: Fetch<seq<HistoryItem>>, es: seq<Entry>)
    requires Delivered(f) && f.json.value != [] && |es| == |f.json.value|
    requires forall j :: 0 <= j < |es| ==> es[j] == EntryFor(f.json.value[j])
    ensures Loaded(f) == Items(es)
  {
    assert Loaded(f).entries == es;
  }

  /** The delete button of every entry a refresh shows carries a string that
      `parseInt` turns back into the id of that entry's record. */
  lemma LoadedDataIds(f: Fetch<seq<HistoryItem>>, j: nat)
    requires Loaded(f).Items? && j < |Loaded(f).entries|
    ensures ParseInt(Loaded(f).entries[j].dataId) == Some(f.json.value[j].id)
  {
    RoundTrip(f.json.value[j].id);
  }

  /** The `li` built for a record keeps that record for its click handlers,
      and its delete button's `data-id` reads back as the record's id. */
  lemma EntryForDataId(item: HistoryItem)
    ensures EntryFor(item).item == item
    ensures ParseInt(EntryFor(item).dataId) == Some(item.id)
  {
    RoundTrip(item.id);
  }
}
