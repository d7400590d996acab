/** The clipboard history of clippy (`clippy/storage.py`): a newest-first
    list of copied texts, capped at fifty, kept in one JSON file. The file
    is reduced to what loading it can yield. */
module ClipStorage {
  import opened Text

  /** One remembered copy and the clock reading it was taken at, in
      seconds. */
  datatype HistoryItem = HistoryItem(content: string, ts: real)

  /** The most items kept. */
  const MaxItems: nat := 50

  /** What the history file holds: nothing, something that does not load
      (bad JSON or an unreadable file), or a list of items. */
  datatype HistoryFile = Missing | Malformed | Valid(items: seq<HistoryItem>)

  /** `load_history`: a missing or malformed file is an empty history. */
  function LoadHistory(file: HistoryFile): (r: seq<HistoryItem>)
    ensures file.Valid? ==> r == file.items
    ensures !file.Valid? ==> r == []
  {
    match file
    case Valid(items) => items
    case _ => []
  }

  /** `save_history`: the file holds the list. */
  function SaveHistory(history: seq<HistoryItem>): (r: HistoryFile)
    ensures r.Valid?
  {
    Valid(history)
  }

  /** `clear_history`: the file then loads as an empty history. */
  function ClearHistory(): (r: HistoryFile)
    ensures LoadHistory(r) == []
    ensures r.Valid?
  {
    SaveHistory([])
  }

  /** `history[:MAX_ITEMS]`. */
  function Cap(history: seq<HistoryItem>): (r: seq<HistoryItem>)
    ensures |r| <= MaxItems
    ensures r <= history
    ensures |history| <= MaxItems ==> r == history
    ensures |history| > MaxItems ==> |r| == MaxItems
  {
    if |history| <= MaxItems then history else history[..MaxItems]
  }

  /** The text is not worth remembering: empty or only whitespace. */
  predicate Blank(content: string) {
    content == "" || Strip(content) == ""
  }

  /** `add_item` on the loaded history: a blank text, or the text already
      at the head, leaves the history as it is; any other text goes in
      front, the previous items follow in order, and the list is cut to
      fifty. Only the head is compared, so an older copy of the text stays. */
  function AddItem(history: seq<HistoryItem>, content: string, now: real): (r: seq<HistoryItem>)
    ensures Blank(content) ==> r == history
    ensures history != [] && history[0].content == content ==> r == history
    ensures !Blank(content) && (history == [] || history[0].content != content) ==>
      && |r| == (if |history| + 1 <= MaxItems then |history| + 1 else MaxItems)
      && r[0] == HistoryItem(content, now)
      && r[1..] <= history
  {
    if Blank(content) then history
    else if history != [] && history[0].content == content then history
    else
      var r := Cap([HistoryItem(content, now)] + history);
      assert r[1..] <= history by {
        assert ([HistoryItem(content, now)] + history)[1..] == history;
      }
      r
  }

  /** The history never grows past fifty items once it is within the cap. */
  lemma AddItemBounded(history: seq<HistoryItem>, content: string, now: real)
    requires |history| <= MaxItems
    ensures |AddItem(history, content, now)| <= MaxItems
  {
  }

  /** Copying the same text twice in a row remembers it once. */
  lemma AddItemIdempotent(history: seq<HistoryItem>, content: string, t1: real, t2: real)
    ensures AddItem(AddItem(history, content, t1), content, t2) == AddItem(history, content, t1)
  {
  }

  /** After an accepted text, the history starts with it and then lists
      the previous items in their order, dropping only from the end. */
  lemma AddItemShiftsHistory(history: seq<HistoryItem>, content: string, now: real, k: nat)
    requires !Blank(content) && (history == [] || history[0].content != content)
    requires k < |history| && k + 1 < MaxItems
    ensures AddItem(history, content, now)[k + 1] == history[k]
  {
    var r := AddItem(history, content, now);
    assert r[1..][k] == history[k];
  }

  /** `get_items(limit)`: `history[:limit]` with Python's slice bounds: a
      limit beyond the length takes everything, a negative one drops that
      many items from the end. */
  function GetItems(history: seq<HistoryItem>, limit: int): (r: seq<HistoryItem>)
    ensures r <= history
    ensures 0 <= limit ==> |r| == (if limit < |history| then limit else |history|)
    ensures limit < 0 ==> |r| == (if |history| + limit > 0 then |history| + limit else 0)
  {
    if limit >= 0 then
      if limit < |history| then history[..limit] else history
    else if |history| + limit > 0 then history[..|history| + limit]
    else []
  }

  /** Asking for the default number of items of a capped history gives all
      of it; asking for no items gives none. */
  lemma GetItemsDefault(history: seq<HistoryItem>)
    requires |history| <= MaxItems
    ensures GetItems(history, MaxItems) == history
    ensures GetItems(history, 0) == []
  {
  }
}
