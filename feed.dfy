/** Fetching one subscription's feed: choosing the items newer than the stored watermark
    and writing the new watermark back. The downloaded and parsed feed is an input;
    times are integers on one clock, 0 being Go's zero time. */
module Feed {
  import opened Text
  import opened Store

  /** A parsed feed item with its optional published and updated times. */
  datatype Item = Item(title: string, description: string, link: string,
                       published: Option<int>, updated: Option<int>)

  /** The outcome of downloading and parsing a feed. */
  datatype FeedResult = ParseFailed(reason: string) | Parsed(items: seq<Item>)

  /** A new item handed to the push stage. */
  datatype Message = Message(title: string, description: string, link: string, pubDate: int)

  /** getItemTime: the published time, else the updated time, else the current time. */
  function ItemTime(item: Item, now: int): int {
    if item.published.Some? then item.published.value
    else if item.updated.Some? then item.updated.value
    else now
  }

  function ToMessage(item: Item, now: int): Message {
    Message(item.title, item.description, item.link, ItemTime(item, now))
  }

  /** The watermark read for a feed: the stored time, or zero when the row is missing or its
      time cannot be read. */
  function Watermark(feedData: map<string, FeedRow>, name: string): int {
    if name in feedData && feedData[name].lastUpdate.Some? then feedData[name].lastUpdate.value else 0
  }

  /** The missing-row branch of the watermark lookup inserts a row stamped with the clock
      text of the moment and an empty title. */
  function Seed(feedData: map<string, FeedRow>, name: string, stamp: int): (r: map<string, FeedRow>)
    ensures name in r
    ensures forall k :: k in feedData ==> k in r && r[k] == feedData[k]
    ensures forall k :: k in r && k != name ==> k in feedData
  {
    if name in feedData then feedData else feedData[name := FeedRow(Some(stamp), "")]
  }

  /** Messages for the items whose effective time is strictly after the watermark, in feed
      order. */
  function NewMessages(items: seq<Item>, last: int, now: int): seq<Message>
    decreases |items|
  {
    if items == [] then []
    else
      var n := |items| - 1;
      NewMessages(items[..n], last, now)
        + (if ItemTime(items[n], now) > last then [ToMessage(items[n], now)] else [])
  }

  /** The greatest effective time over the items, starting from zero. */
  function MaxTime(items: seq<Item>, now: int): int
    decreases |items|
  {
    if items == [] then 0
    else
      var n := |items| - 1;
      var m := MaxTime(items[..n], now);
      if ItemTime(items[n], now) > m then ItemTime(items[n], now) else m
  }

  /** The feed_data table after a fetch of a feed with at least one item. */
  function AfterFetch(feedData: map<string, FeedRow>, name: string, items: seq<Item>,
                      now: int, stamp: int): map<string, FeedRow>
    requires items != []
  {
    var seeded := Seed(feedData, name, stamp);
    var latest := MaxTime(items, now);
    if latest != 0 then seeded[name := FeedRow(Some(latest), items[0].title)] else seeded
  }

  /** A fetch drops no feed_data row. */
  lemma AfterFetchKeys(feedData: map<string, FeedRow>, name: string, items: seq<Item>, now: int, stamp: int)
    requires items != []
    ensures feedData.Keys + {name} == AfterFetch(feedData, name, items, now, stamp).Keys
  {
  }

  /** fetchRSS over an already parsed feed. `now` is the clock an undated item takes,
      `stamp` the clock value stored when the feed has no watermark row yet. */
  method FetchRSS(db: Database, name: string, feed: FeedResult, now: int, stamp: int)
    returns (r: Result<seq<Message>>)
    requires db.Valid()
    modifies db`feedData
    ensures db.Valid()
    ensures feed.ParseFailed? ==> r == Err(feed.reason) && db.feedData == old(db.feedData)
    ensures feed.Parsed? && feed.items == [] ==> r == Ok([]) && db.feedData == old(db.feedData)
    ensures feed.Parsed? && feed.items != [] ==>
      r == Ok(NewMessages(feed.items, Watermark(old(db.feedData), name), now))
      && db.feedData == AfterFetch(old(db.feedData), name, feed.items, now, stamp)
  {
    if feed.ParseFailed? {
      return Err(feed.reason);
    }
    if feed.items != [] {
      AfterFetchKeys(db.feedData, name, feed.items, now, stamp);
      ConsistentMoreFeed(db.subscriptions, db.feedData, AfterFetch(db.feedData, name, feed.items, now, stamp));
    }
    var items := feed.items;
    if |items| == 0 {
      return Ok([]);
    }
    // getLastUpdateTime: a missing row means a zero watermark and a new row
    var lastUpdateTime := Watermark(db.feedData, name);
    if name !in db.feedData {
      db.feedData := db.feedData[name := FeedRow(Some(stamp), "")];
    }
    var messages: seq<Message> := [];
    var latestTime := 0;
    var i := 0;
    while i < |items|
      invariant 0 <= i <= |items|
      invariant messages == NewMessages(items[..i], lastUpdateTime, now)
      invariant latestTime == MaxTime(items[..i], now)
    {
      assert items[..i + 1][..i] == items[..i];
      var pubTime := ItemTime(items[i], now);
      if pubTime > latestTime {
        latestTime := pubTime;
      }
      if pubTime > lastUpdateTime {
        messages := messages + [Message(items[i].title, items[i].description, items[i].link, pubTime)];
      }
      i := i + 1;
    }
    assert items[..i] == items;
    // updateLastTime: an UPDATE of the (now existing) row
    if latestTime != 0 && name in db.feedData {
      db.feedData := db.feedData[name := FeedRow(Some(latestTime), items[0].title)];
    }
    return Ok(messages);
  }

  // ---------------------------------------------------------------- properties

  /** The selected messages are exactly the items newer than the watermark. */
  lemma {:induction false} NewMessagesMeaning(items: seq<Item>, last: int, now: int, m: Message)
    ensures m in NewMessages(items, last, now) <==>
      exists i :: 0 <= i < |items| && ItemTime(items[i], now) > last && m == ToMessage(items[i], now)
    decreases |items|
  {
    if items != [] {
      var n := |items| - 1;
      NewMessagesMeaning(items[..n], last, now, m);
      assert forall i :: 0 <= i < n ==> items[..n][i] == items[i];
    }
  }

  /** Selection keeps feed order: a feed split in two selects the first part's messages
      before the second part's. */
  lemma {:induction false} NewMessagesAppend(a: seq<Item>, b: seq<Item>, last: int, now: int)
    ensures NewMessages(a + b, last, now) == NewMessages(a, last, now) + NewMessages(b, last, now)
    decreases |b|
  {
    if b == [] {
      assert a + b == a;
    } else {
      var n := |b| - 1;
      NewMessagesAppend(a, b[..n], last, now);
      assert (a + b)[..|a + b| - 1] == a + b[..n];
      assert (a + b)[|a + b| - 1] == b[n];
    }
  }

  /** Every message's time is after the watermark. */
  lemma {:induction false} NewMessagesAreNewer(items: seq<Item>, last: int, now: int)
    ensures forall k :: 0 <= k < |NewMessages(items, last, now)| ==>
      NewMessages(items, last, now)[k].pubDate > last
    decreases |items|
  {
    if items != [] {
      NewMessagesAreNewer(items[..|items| - 1], last, now);
    }
  }

  /** The written watermark is the greatest effective time, unless every time is at most 0. */
  lemma {:induction false} MaxTimeMeaning(items: seq<Item>, now: int)
    ensures MaxTime(items, now) >= 0
    ensures forall i :: 0 <= i < |items| ==> ItemTime(items[i], now) <= MaxTime(items, now)
    ensures MaxTime(items, now) == 0 ||
      exists i :: 0 <= i < |items| && ItemTime(items[i], now) == MaxTime(items, now)
    decreases |items|
  {
    if items != [] {
      var n := |items| - 1;
      MaxTimeMeaning(items[..n], now);
      assert forall i :: 0 <= i < n ==> items[..n][i] == items[i];
    }
  }

  /** After a fetch with a positive latest time the watermark is that time and the stored
      title is the first item's; otherwise the row is the one before (or the seeded one). */
  lemma AfterFetchWatermark(feedData: map<string, FeedRow>, name: string, items: seq<Item>, now: int, stamp: int)
    requires items != []
    ensures var after := AfterFetch(feedData, name, items, now, stamp);
      && name in after
      && (MaxTime(items, now) != 0 ==>
            after[name] == FeedRow(Some(MaxTime(items, now)), items[0].title))
      && (MaxTime(items, now) == 0 ==> after[name] == Seed(feedData, name, stamp)[name])
      && (forall k :: k in after && k != name ==> k in feedData && after[k] == feedData[k])
      && (forall k :: k in feedData ==> k in after)
  {
  }

  /** The watermark is not monotonic: a feed whose items are all older than the stored
      watermark moves the watermark back. */
  lemma WatermarkCanMoveBack()
    ensures var feedData := map["news" := FeedRow(Some(100), "old")];
      var items := [Item("a", "", "", Some(50), None)];
      Watermark(AfterFetch(feedData, "news", items, 0, 0), "news") == 50
      && Watermark(feedData, "news") == 100
  {
    var items := [Item("a", "", "", Some(50), None)];
    assert items[..0] == [];
    assert MaxTime(items, 0) == 50;
  }

  /** Fetching the same dated items again right after a fetch selects nothing: the new
      watermark is at least every item's time. */
  lemma RefetchSelectsNothing(feedData: map<string, FeedRow>, name: string, items: seq<Item>,
                              now: int, stamp: int, later: int)
    requires items != []
    requires forall i :: 0 <= i < |items| ==> items[i].published.Some? || items[i].updated.Some?
    requires MaxTime(items, now) != 0
    ensures NewMessages(items, Watermark(AfterFetch(feedData, name, items, now, stamp), name), later) == []
  {
    var w := Watermark(AfterFetch(feedData, name, items, now, stamp), name);
    assert w == MaxTime(items, now);
    MaxTimeMeaning(items, now);
    assert forall i :: 0 <= i < |items| ==> ItemTime(items[i], later) == ItemTime(items[i], now);
    if NewMessages(items, w, later) != [] {
      var m := NewMessages(items, w, later)[0];
      NewMessagesMeaning(items, w, later, m);
    }
  }

  /** A feed without a watermark row gets every item with a positive time. */
  lemma FirstFetchSelectsAll(feedData: map<string, FeedRow>, name: string, items: seq<Item>, now: int, m: Message)
    requires name !in feedData
    ensures m in NewMessages(items, Watermark(feedData, name), now) <==>
      exists i :: 0 <= i < |items| && ItemTime(items[i], now) > 0 && m == ToMessage(items[i], now)
  {
    NewMessagesMeaning(items, 0, now, m);
  }
}
