/** One run of the notice monitor (monitor.py, `check_for_updates`): load the
    previous identifiers, fetch and parse the page, compare, notify, save. */
module Monitor {
  import opened Wrappers
  import opened Extract
  import opened Diff
  import opened Store

  /** What a run that got as far as extraction must leave behind: when
      nothing was extracted, no message and the file untouched; otherwise the
      message `Classify` chooses and a file that decodes to `current`. */
  ghost predicate Completed(previous: set<string>, current: set<string>, msg: Message,
                            before: FileContent, after: FileContent)
  {
    if current == {} then msg == NoMessage && after == before
    else msg == Classify(previous, current) && Decode(after) == current
  }

  /** `fetched` tells whether the page was retrieved; `primary` and
      `fallback` are the items the `.card-body ul li` and `ul li` selectors
      found on it. The result is the message sent, if any. */
  method Run(store: NoticeStore, fetched: bool, primary: seq<Item>, fallback: seq<Item>)
    returns (msg: Message)
    modifies store
    ensures !fetched ==> msg == NoMessage && store.file == old(store.file)
    ensures fetched && primary == [] && fallback == [] ==>
      msg == NoMessage && store.file == old(store.file)
    ensures fetched && primary != [] ==>
      Completed(old(store.Stored()), Identifiers(primary), msg, old(store.file), store.file)
    ensures fetched && primary == [] && fallback != [] ==>
      Completed(old(store.Stored()), Identifiers(fallback), msg, old(store.file), store.file)
  {
    msg := NoMessage;
    var previous := store.Load();
    assert previous == store.Stored();
    if !fetched {
      return;
    }
    var noticeList := primary;
    if noticeList == [] {
      noticeList := fallback;
      if noticeList == [] {
        return;
      }
    }
    var current := ExtractIds(noticeList);
    if current == {} {
      return;
    }
    msg := Classify(previous, current);
    store.Save(current);
  }

  /** Two runs over the same page: whatever the first one sent, the second
      sends nothing. */
  method RunTwice(store: NoticeStore, primary: seq<Item>, fallback: seq<Item>)
    returns (first: Message, second: Message)
    modifies store
    ensures second == NoMessage
  {
    first := Run(store, true, primary, fallback);
    second := Run(store, true, primary, fallback);
  }
}
