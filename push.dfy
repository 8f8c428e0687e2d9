/** One subscription's pass of the monitor loop: fetch the feed, then for every new message
    and every subscribed user decide whether to notify, count the push and write the
    notification. Sending is modelled by the list of notifications the pass issues; the
    date formatting is a parameter. */
module Push {
  import opened Text
  import opened Store
  import opened Feed
  import opened Matcher
  import Html
  import Stats

  /** A subscription as the monitor reads it; channel 1 selects the channel layout. */
  datatype Subscription = Subscription(url: string, name: string, users: seq<int>, channel: int)

  /** A notification handed to the sender. */
  datatype Notice =
    | Photo(user: int, imageURL: string, caption: string)   // sendPhotoMessage
    | HtmlText(user: int, text: string)                     // sendHTMLMessage
    | Mirror(text: string)                                  // sendother, the copy for the admin

  /** The keywords of a user that a message matches; none when the user has no keywords. */
  function Matched(msg: Message, keywords: seq<string>): seq<string> {
    if keywords == [] then [] else MatchResult(keywords, Corpus(msg.title, msg.description))
  }

  /** Every matched keyword in a code tag, single spaces between. */
  function FormatKeywords(kws: seq<string>): string {
    Join(seq(|kws|, i requires 0 <= i < |kws| => "<code>" + kws[i] + "</code>"), " ")
  }

  /** The notification to the user and the text of the admin copy, for one push. */
  function Layout(sub: Subscription, msg: Message, user: int, kws: seq<string>, date: string): (Notice, string) {
    if sub.channel == 1 then
      var imageURL := Html.ExtractImageURL(msg.description);
      var clean := Html.Clean(msg.description);
      var html := Concat(["👋 ", sub.name, ": ", FormatKeywords(kws), "\n🕒 ", date, "\n", clean, "\n"]);
      var other := Concat(["👋 ", sub.name, "\n🕒 ", date, "\n", clean]);
      (if imageURL != "" then Photo(user, imageURL, html) else HtmlText(user, html), other)
    else
      var html := Concat(["📌 ", msg.title, "\n🔖 关键词: ", FormatKeywords(kws), "\n🕒 ", date, "\n🔗 ", msg.link]);
      var other := Concat(["📌 ", msg.title, "\n🕒 ", date, "\n🔗 ", msg.link]);
      (HtmlText(user, html), other)
  }

  /** The text a notification shows: the caption of a photo, or the message text. */
  function Body(n: Notice): string {
    match n
    case Photo(_, _, caption) => caption
    case HtmlText(_, text) => text
    case Mirror(text) => text
  }

  /** Each matched keyword is shown in a code tag. */
  lemma KeywordShown(kws: seq<string>, i: nat)
    requires i < |kws|
    ensures Contains(FormatKeywords(kws), "<code>" + kws[i] + "</code>")
  {
    var codes := seq(|kws|, j requires 0 <= j < |kws| => "<code>" + kws[j] + "</code>");
    JoinOccurs(codes, " ", i, codes[i], 0);
  }

  /** The layout of a push: a channel post with an image found in its description is sent as
      a photo of that image, everything else as an HTML text, both to the user; the user's
      text shows every matched keyword in a code tag and the date; a channel post shows the
      feed name and the cleaned description, an item its title and link, in the user's text
      and in the admin copy alike. */
  lemma {:induction false} LayoutMeaning(sub: Subscription, msg: Message, user: int, kws: seq<string>, date: string)
    ensures var (main, other) := Layout(sub, msg, user, kws, date);
      && (sub.channel == 1 && Html.ExtractImageURL(msg.description) != "" ==>
            main == Photo(user, Html.ExtractImageURL(msg.description), Body(main)))
      && (!(sub.channel == 1 && Html.ExtractImageURL(msg.description) != "") ==>
            main == HtmlText(user, Body(main)))
      && (forall i :: 0 <= i < |kws| ==> Contains(Body(main), "<code>" + kws[i] + "</code>"))
      && Contains(Body(main), date) && Contains(other, date)
      && (sub.channel == 1 ==>
            && Contains(Body(main), sub.name) && Contains(other, sub.name)
            && Contains(Body(main), Html.Clean(msg.description)) && Contains(other, Html.Clean(msg.description)))
      && (sub.channel != 1 ==>
            && Contains(Body(main), msg.title) && Contains(other, msg.title)
            && Contains(Body(main), msg.link) && Contains(other, msg.link))
  {
    var (main, other) := Layout(sub, msg, user, kws, date);
    var fk := FormatKeywords(kws);
    if sub.channel == 1 {
      var clean := Html.Clean(msg.description);
      var parts := ["👋 ", sub.name, ": ", fk, "\n🕒 ", date, "\n", clean, "\n"];
      var others := ["👋 ", sub.name, "\n🕒 ", date, "\n", clean];
      assert Body(main) == Concat(parts) && other == Concat(others);
      ConcatContains(parts, 1);
      ConcatContains(parts, 5);
      ConcatContains(parts, 7);
      ConcatContains(others, 1);
      ConcatContains(others, 3);
      ConcatContains(others, 5);
      KeywordsShownIn(kws, parts, 3);
    } else {
      var parts := ["📌 ", msg.title, "\n🔖 关键词: ", fk, "\n🕒 ", date, "\n🔗 ", msg.link];
      var others := ["📌 ", msg.title, "\n🕒 ", date, "\n🔗 ", msg.link];
      assert Body(main) == Concat(parts) && other == Concat(others);
      ConcatContains(parts, 1);
      ConcatContains(parts, 5);
      ConcatContains(parts, 7);
      ConcatContains(others, 1);
      ConcatContains(others, 3);
      ConcatContains(others, 5);
      KeywordsShownIn(kws, parts, 3);
    }
  }

  /** The keywords shown in the formatted list are shown in a text built around it. */
  lemma KeywordsShownIn(kws: seq<string>, parts: seq<string>, p: nat)
    requires p < |parts| && parts[p] == FormatKeywords(kws)
    ensures forall i :: 0 <= i < |kws| ==> Contains(Concat(parts), "<code>" + kws[i] + "</code>")
  {
    forall i | 0 <= i < |kws|
      ensures Contains(Concat(parts), "<code>" + kws[i] + "</code>")
    {
      var w := "<code>" + kws[i] + "</code>";
      KeywordShown(kws, i);
      ConcatOccurs(parts, p, w, IndexOf(parts[p], w));
    }
  }

  /** The notifications of one push: the user's, then the admin copy when the user is the
      admin. */
  function PushNotices(sub: Subscription, msg: Message, user: int, kws: seq<string>,
                       fmtDate: int -> string, admin: int): seq<Notice>
  {
    var (main, other) := Layout(sub, msg, user, kws, fmtDate(msg.pubDate));
    [main] + (if user == admin then [Mirror(other)] else [])
  }

  /** The notifications for one message and one user: none unless the message matches the
      user's keywords. */
  function UserNotices(sub: Subscription, msg: Message, user: int, userKeywords: map<int, seq<string>>,
                       fmtDate: int -> string, admin: int): seq<Notice>
  {
    var kws := Matched(msg, KeywordsOf(userKeywords, user));
    if kws != [] then PushNotices(sub, msg, user, kws, fmtDate, admin) else []
  }

  /** Whether a message is pushed to a user: the message matches some of the user's keywords. */
  predicate Pushed(msg: Message, user: int, userKeywords: map<int, seq<string>>) {
    Matched(msg, KeywordsOf(userKeywords, user)) != []
  }

  /** The notifications for one message over a list of users, in user order. */
  function MessageNotices(sub: Subscription, msg: Message, users: seq<int>,
                          userKeywords: map<int, seq<string>>, fmtDate: int -> string,
                          admin: int): seq<Notice>
    decreases |users|
  {
    if users == [] then []
    else
      var n := |users| - 1;
      MessageNotices(sub, msg, users[..n], userKeywords, fmtDate, admin)
        + UserNotices(sub, msg, users[n], userKeywords, fmtDate, admin)
  }

  /** The notifications for a list of messages, message by message. */
  function Notices(sub: Subscription, msgs: seq<Message>, userKeywords: map<int, seq<string>>,
                   fmtDate: int -> string, admin: int): seq<Notice>
    decreases |msgs|
  {
    if msgs == [] then []
    else
      var n := |msgs| - 1;
      Notices(sub, msgs[..n], userKeywords, fmtDate, admin)
        + MessageNotices(sub, msgs[n], sub.users, userKeywords, fmtDate, admin)
  }

  /** The number of users with a non-empty match for one message. */
  function MessagePairs(msg: Message, users: seq<int>, userKeywords: map<int, seq<string>>): nat
    decreases |users|
  {
    if users == [] then 0
    else
      var n := |users| - 1;
      MessagePairs(msg, users[..n], userKeywords) + (if Pushed(msg, users[n], userKeywords) then 1 else 0)
  }

  /** The number of (message, user) pairs with a non-empty match. */
  function Pairs(msgs: seq<Message>, users: seq<int>, userKeywords: map<int, seq<string>>): nat
    decreases |msgs|
  {
    if msgs == [] then 0
    else
      var n := |msgs| - 1;
      Pairs(msgs[..n], users, userKeywords) + MessagePairs(msgs[n], users, userKeywords)
  }

  /** The statistics after n pushes of one feed on one day. */
  function RecordTimes(s: Stats.Snapshot, name: string, today: string, n: nat): Stats.Snapshot
    decreases n
  {
    if n == 0 then s else Stats.Record(RecordTimes(s, name, today, n - 1), name, today)
  }

  /** The messages a fetch selects: the new items after the stored watermark. */
  function Selected(feedData: map<string, FeedRow>, name: string, feed: FeedResult, now: int): seq<Message> {
    if feed.ParseFailed? then [] else NewMessages(feed.items, Watermark(feedData, name), now)
  }

  /** The message text of one push, built as processSubscription builds it: the channel
      layout (with the image and the cleaned description) or the item layout, then the admin
      copy when the user is the admin. */
  method ComposeNotices(sub: Subscription, msg: Message, userID: int, matchedKeywords: seq<string>,
                        fmtDate: int -> string, admin: int)
    returns (ns: seq<Notice>)
    ensures ns == PushNotices(sub, msg, userID, matchedKeywords, fmtDate, admin)
    ensures |ns| == (if userID == admin then 2 else 1)
    ensures ns[0] == if sub.channel == 1 && Html.ExtractImageURL(msg.description) != ""
                     then Photo(userID, Html.ExtractImageURL(msg.description), Body(ns[0]))
                     else HtmlText(userID, Body(ns[0]))
    ensures forall i :: 0 <= i < |matchedKeywords| ==>
      Contains(Body(ns[0]), "<code>" + matchedKeywords[i] + "</code>")
    ensures userID == admin ==> ns[1].Mirror?
  {
    var formattedKeywords := FormatKeywords(matchedKeywords);
    var formattedDate := fmtDate(msg.pubDate);
    var htmlMessage: string;
    var otherpush: string;
    var main: Notice;
    if sub.channel == 1 {
      var imageURL := Html.ExtractImageURL(msg.description);
      var cleanDescription := Html.CleanHTMLContent(msg.description);
      htmlMessage := Concat(["👋 ", sub.name, ": ", formattedKeywords, "\n🕒 ", formattedDate, "\n", cleanDescription, "\n"]);
      otherpush := Concat(["👋 ", sub.name, "\n🕒 ", formattedDate, "\n", cleanDescription]);
      if imageURL != "" {
        main := Photo(userID, imageURL, htmlMessage);
      } else {
        main := HtmlText(userID, htmlMessage);
      }
    } else {
      htmlMessage := Concat(["📌 ", msg.title, "\n🔖 关键词: ", formattedKeywords, "\n🕒 ", formattedDate, "\n🔗 ", msg.link]);
      otherpush := Concat(["📌 ", msg.title, "\n🕒 ", formattedDate, "\n🔗 ", msg.link]);
      main := HtmlText(userID, htmlMessage);
    }
    ns := [main];
    if userID == admin {
      ns := ns + [Mirror(otherpush)];
    }
    assert (main, otherpush) == Layout(sub, msg, userID, matchedKeywords, formattedDate);
    LayoutMeaning(sub, msg, userID, matchedKeywords, formattedDate);
  }

  /** One (message, user) step of processSubscription: a user without keywords is skipped;
      a non-empty match is counted in the statistics and written out. */
  method ProcessUser(stats: Stats.PushStats, sub: Subscription, msg: Message, userID: int,
                     userKeywords: map<int, seq<string>>, today: string,
                     fmtDate: int -> string, admin: int)
    returns (ns: seq<Notice>, pushed: bool)
    requires stats.Valid()
    modifies stats
    ensures stats.Valid()
    ensures pushed == Pushed(msg, userID, userKeywords)
    ensures ns == UserNotices(sub, msg, userID, userKeywords, fmtDate, admin)
    ensures stats.Snap() == if pushed then Stats.Record(old(stats.Snap()), sub.name, today) else old(stats.Snap())
  {
    var keywords := KeywordsOf(userKeywords, userID);
    if |keywords| == 0 {
      return [], false;
    }
    var matchedKeywords := MatchesKeywords(msg.title, msg.description, keywords);
    if |matchedKeywords| == 0 {
      return [], false;
    }
    ns := ComposeNotices(sub, msg, userID, matchedKeywords, fmtDate, admin);
    stats.RecordPush(sub.name, today);
    pushed := true;
  }

  /** The loop step of processMessage: user j on top of the users before it. */
  method UserStep(stats: Stats.PushStats, sub: Subscription, msg: Message, j: nat,
                  userKeywords: map<int, seq<string>>, today: string,
                  fmtDate: int -> string, admin: int, notices: seq<Notice>, pushCount: nat,
                  ghost start: Stats.Snapshot)
    returns (notices': seq<Notice>, pushCount': nat)
    requires j < |sub.users|
    requires stats.Valid()
    requires notices == MessageNotices(sub, msg, sub.users[..j], userKeywords, fmtDate, admin)
    requires pushCount == MessagePairs(msg, sub.users[..j], userKeywords)
    requires stats.Snap() == RecordTimes(start, sub.name, today, pushCount)
    modifies stats
    ensures stats.Valid()
    ensures notices' == MessageNotices(sub, msg, sub.users[..j + 1], userKeywords, fmtDate, admin)
    ensures pushCount' == MessagePairs(msg, sub.users[..j + 1], userKeywords)
    ensures stats.Snap() == RecordTimes(start, sub.name, today, pushCount')
  {
    MessageStep(sub, msg, sub.users, j, userKeywords, fmtDate, admin);
    ghost var before := stats.Snap();
    var ns, pushed := ProcessUser(stats, sub, msg, sub.users[j], userKeywords, today, fmtDate, admin);
    pushCount' := pushCount;
    if pushed {
      RecordStep(start, sub.name, today, pushCount, before, stats.Snap());
      pushCount' := pushCount + 1;
    }
    notices' := notices + ns;
  }

  /** The inner loop of processSubscription: one message against every subscribed user. */
  method ProcessMessage(stats: Stats.PushStats, sub: Subscription, msg: Message,
                        userKeywords: map<int, seq<string>>, today: string,
                        fmtDate: int -> string, admin: int)
    returns (notices: seq<Notice>, pushCount: nat)
    requires stats.Valid()
    modifies stats
    ensures stats.Valid()
    ensures notices == MessageNotices(sub, msg, sub.users, userKeywords, fmtDate, admin)
    ensures pushCount == MessagePairs(msg, sub.users, userKeywords)
    ensures stats.Snap() == RecordTimes(old(stats.Snap()), sub.name, today, pushCount)
  {
    ghost var start := stats.Snap();
    notices := [];
    pushCount := 0;
    var j := 0;
    while j < |sub.users|
      invariant 0 <= j <= |sub.users|
      invariant notices == MessageNotices(sub, msg, sub.users[..j], userKeywords, fmtDate, admin)
      invariant pushCount == MessagePairs(msg, sub.users[..j], userKeywords)
      invariant stats.Valid() && stats.Snap() == RecordTimes(start, sub.name, today, pushCount)
    {
      notices, pushCount := UserStep(stats, sub, msg, j, userKeywords, today, fmtDate, admin,
                                     notices, pushCount, start);
      j := j + 1;
    }
    assert sub.users[..j] == sub.users;
  }

  /** A user with a match gets the notices of one push with the matched keywords. */
  lemma UserNoticesPushed(sub: Subscription, msg: Message, user: int, userKeywords: map<int, seq<string>>,
                          fmtDate: int -> string, admin: int)
    requires Pushed(msg, user, userKeywords)
    ensures UserNotices(sub, msg, user, userKeywords, fmtDate, admin)
      == PushNotices(sub, msg, user, Matched(msg, KeywordsOf(userKeywords, user)), fmtDate, admin)
  {
  }

  /** One more user extends a message's notifications and pair count by that user's. */
  lemma MessageStep(sub: Subscription, msg: Message, users: seq<int>, j: nat,
                    userKeywords: map<int, seq<string>>, fmtDate: int -> string, admin: int)
    requires j < |users|
    ensures MessageNotices(sub, msg, users[..j + 1], userKeywords, fmtDate, admin)
         == MessageNotices(sub, msg, users[..j], userKeywords, fmtDate, admin)
            + UserNotices(sub, msg, users[j], userKeywords, fmtDate, admin)
    ensures MessagePairs(msg, users[..j + 1], userKeywords)
         == MessagePairs(msg, users[..j], userKeywords) + (if Pushed(msg, users[j], userKeywords) then 1 else 0)
  {
    assert users[..j + 1][..j] == users[..j];
  }

  /** The outer loop step of processSubscription: message i on top of the messages before it. */
  method MessageLoopStep(stats: Stats.PushStats, sub: Subscription, messages: seq<Message>, i: nat,
                         userKeywords: map<int, seq<string>>, today: string,
                         fmtDate: int -> string, admin: int, notices: seq<Notice>, pushCount: nat,
                         ghost start: Stats.Snapshot)
    returns (notices': seq<Notice>, pushCount': nat)
    requires i < |messages|
    requires stats.Valid()
    requires notices == Notices(sub, messages[..i], userKeywords, fmtDate, admin)
    requires pushCount == Pairs(messages[..i], sub.users, userKeywords)
    requires stats.Snap() == RecordTimes(start, sub.name, today, pushCount)
    modifies stats
    ensures stats.Valid()
    ensures notices' == Notices(sub, messages[..i + 1], userKeywords, fmtDate, admin)
    ensures pushCount' == Pairs(messages[..i + 1], sub.users, userKeywords)
    ensures stats.Snap() == RecordTimes(start, sub.name, today, pushCount')
  {
    assert messages[..i + 1][..i] == messages[..i];
    var ns, count := ProcessMessage(stats, sub, messages[i], userKeywords, today, fmtDate, admin);
    RecordTimesAdd(start, sub.name, today, pushCount, count);
    notices' := notices + ns;
    pushCount' := pushCount + count;
  }

  /** The messages of one fetch against every subscribed user, message by message. */
  method PushMessages(stats: Stats.PushStats, sub: Subscription, messages: seq<Message>,
                      userKeywords: map<int, seq<string>>, today: string,
                      fmtDate: int -> string, admin: int)
    returns (notices: seq<Notice>, pushCount: nat)
    requires stats.Valid()
    modifies stats
    ensures stats.Valid()
    ensures notices == Notices(sub, messages, userKeywords, fmtDate, admin)
    ensures pushCount == Pairs(messages, sub.users, userKeywords)
    ensures stats.Snap() == RecordTimes(old(stats.Snap()), sub.name, today, pushCount)
  {
    ghost var start := stats.Snap();
    notices := [];
    pushCount := 0;
    var i := 0;
    while i < |messages|
      invariant 0 <= i <= |messages|
      invariant notices == Notices(sub, messages[..i], userKeywords, fmtDate, admin)
      invariant pushCount == Pairs(messages[..i], sub.users, userKeywords)
      invariant stats.Valid() && stats.Snap() == RecordTimes(start, sub.name, today, pushCount)
    {
      notices, pushCount := MessageLoopStep(stats, sub, messages, i, userKeywords, today, fmtDate, admin,
                                            notices, pushCount, start);
      i := i + 1;
    }
    assert messages[..i] == messages;
  }

  /** processSubscription. `now` and `stamp` are the fetch's clock values, `today` the date
      of every push of this pass, `fmtDate` the date formatting and `admin` the configured
      admin id. A failed fetch or a fetch without new messages pushes nothing. */
  method ProcessSubscription(db: Database, stats: Stats.PushStats, sub: Subscription, feed: FeedResult,
                             userKeywords: map<int, seq<string>>, now: int, stamp: int, today: string,
                             fmtDate: int -> string, admin: int)
    returns (notices: seq<Notice>, pushCount: nat)
    requires stats.Valid() && db.Valid()
    modifies db`feedData, stats
    ensures stats.Valid() && db.Valid()
    ensures notices == Notices(sub, Selected(old(db.feedData), sub.name, feed, now), userKeywords, fmtDate, admin)
    ensures pushCount == Pairs(Selected(old(db.feedData), sub.name, feed, now), sub.users, userKeywords)
    ensures stats.Snap() == RecordTimes(old(stats.Snap()), sub.name, today, pushCount)
    ensures db.feedData == if feed.Parsed? && feed.items != []
                           then AfterFetch(old(db.feedData), sub.name, feed.items, now, stamp)
                           else old(db.feedData)
  {
    var fetched := FetchRSS(db, sub.name, feed, now, stamp);
    if fetched.Err? || |fetched.value| == 0 {
      return [], 0;
    }
    notices, pushCount := PushMessages(stats, sub, fetched.value, userKeywords, today, fmtDate, admin);
  }

  /** One more push after n pushes is n + 1 pushes. */
  lemma RecordStep(s: Stats.Snapshot, name: string, today: string, n: nat,
                   before: Stats.Snapshot, after: Stats.Snapshot)
    requires before == RecordTimes(s, name, today, n)
    requires after == Stats.Record(before, name, today)
    ensures after == RecordTimes(s, name, today, n + 1)
  {
  }

  /** Recording a pushes and then b pushes is recording a + b pushes. */
  lemma {:induction false} RecordTimesAdd(s: Stats.Snapshot, name: string, today: string, a: nat, b: nat)
    ensures RecordTimes(RecordTimes(s, name, today, a), name, today, b) == RecordTimes(s, name, today, a + b)
    decreases b
  {
    if b > 0 {
      var m := RecordTimes(s, name, today, a);
      RecordTimesAdd(s, name, today, a, b - 1);
      assert RecordTimes(m, name, today, b) == Stats.Record(RecordTimes(m, name, today, b - 1), name, today);
      assert RecordTimes(s, name, today, a + b) == Stats.Record(RecordTimes(s, name, today, a + b - 1), name, today);
    }
  }

  // ---------------------------------------------------------------- properties

  /** Whom a notification is for; the admin copy is not for a subscribed user. */
  predicate ForUser(n: Notice, user: int) {
    (n.Photo? && n.user == user) || (n.HtmlText? && n.user == user)
  }

  /** Some notification in the list is for the user. */
  predicate HasNoticeFor(ns: seq<Notice>, user: int) {
    exists k :: 0 <= k < |ns| && ForUser(ns[k], user)
  }

  /** A concatenation holds a notification for the user when one of its parts does. */
  lemma HasNoticeForAppend(a: seq<Notice>, b: seq<Notice>, user: int)
    ensures HasNoticeFor(a + b, user) <==> HasNoticeFor(a, user) || HasNoticeFor(b, user)
  {
    if HasNoticeFor(a, user) {
      var k :| 0 <= k < |a| && ForUser(a[k], user);
      assert (a + b)[k] == a[k];
    }
    if HasNoticeFor(b, user) {
      var k :| 0 <= k < |b| && ForUser(b[k], user);
      assert (a + b)[|a| + k] == b[k];
    }
    if HasNoticeFor(a + b, user) {
      var k :| 0 <= k < |a + b| && ForUser((a + b)[k], user);
      if k < |a| {
        assert (a + b)[k] == a[k];
      } else {
        assert (a + b)[k] == b[k - |a|];
      }
    }
  }

  /** The notifications of one push hold one for the pushed user and for nobody else. */
  lemma PushNoticesFor(sub: Subscription, msg: Message, pushed: int, kws: seq<string>,
                       fmtDate: int -> string, admin: int, user: int)
    ensures HasNoticeFor(PushNotices(sub, msg, pushed, kws, fmtDate, admin), user) <==> user == pushed
  {
    var ns := PushNotices(sub, msg, pushed, kws, fmtDate, admin);
    assert ForUser(ns[0], pushed);
    assert forall k :: 0 <= k < |ns| && ForUser(ns[k], user) ==> user == pushed;
  }

  /** A message's notifications for the users: ones for a user exist exactly when the user
      is listed and the message matches the user's keywords. */
  lemma {:induction false} MessageNoticesFor(sub: Subscription, msg: Message, users: seq<int>,
                                           userKeywords: map<int, seq<string>>, fmtDate: int -> string,
                                           admin: int, user: int)
    ensures HasNoticeFor(MessageNotices(sub, msg, users, userKeywords, fmtDate, admin), user)
      <==> user in users && Pushed(msg, user, userKeywords)
    decreases |users|
  {
    if users != [] {
      var n := |users| - 1;
      var prev := MessageNotices(sub, msg, users[..n], userKeywords, fmtDate, admin);
      var tail := UserNotices(sub, msg, users[n], userKeywords, fmtDate, admin);
      MessageNoticesFor(sub, msg, users[..n], userKeywords, fmtDate, admin, user);
      HasNoticeForAppend(prev, tail, user);
      UserNoticesFor(sub, msg, users[n], userKeywords, fmtDate, admin, user);
      InInit(users, user);
    }
  }

  /** One user's notifications hold one for a user exactly when it is that user and the
      message is pushed to it. */
  lemma UserNoticesFor(sub: Subscription, msg: Message, u: int, userKeywords: map<int, seq<string>>,
                       fmtDate: int -> string, admin: int, user: int)
    ensures HasNoticeFor(UserNotices(sub, msg, u, userKeywords, fmtDate, admin), user)
      <==> u == user && Pushed(msg, u, userKeywords)
  {
    if Pushed(msg, u, userKeywords) {
      PushNoticesFor(sub, msg, u, Matched(msg, KeywordsOf(userKeywords, u)), fmtDate, admin, user);
    }
  }

  /** Membership in a non-empty list: in all but the last, or the last. */
  lemma InInit(users: seq<int>, user: int)
    requires users != []
    ensures user in users <==> user in users[..|users| - 1] || user == users[|users| - 1]
  {
    assert users == users[..|users| - 1] + [users[|users| - 1]];
  }

  /** A user whose keyword list is empty is never notified, and a user is notified about a
      message only when the message matches the user's keywords. */
  lemma NoKeywordsNoPush(sub: Subscription, msg: Message, userKeywords: map<int, seq<string>>,
                         fmtDate: int -> string, admin: int, user: int)
    requires KeywordsOf(userKeywords, user) == []
    ensures !HasNoticeFor(MessageNotices(sub, msg, sub.users, userKeywords, fmtDate, admin), user)
  {
    MessageNoticesFor(sub, msg, sub.users, userKeywords, fmtDate, admin, user);
  }

  /** The number of notifications that are not admin copies. */
  function Direct(ns: seq<Notice>): nat
    decreases |ns|
  {
    if ns == [] then 0
    else Direct(ns[..|ns| - 1]) + (if ns[|ns| - 1].Mirror? then 0 else 1)
  }

  /** Counting splits over concatenation. */
  lemma {:induction false} DirectAppend(a: seq<Notice>, b: seq<Notice>)
    ensures Direct(a + b) == Direct(a) + Direct(b)
    decreases |b|
  {
    if b == [] {
      assert a + b == a;
    } else {
      var n := |b| - 1;
      DirectAppend(a, b[..n]);
      assert (a + b)[..|a + b| - 1] == a + b[..n];
    }
  }

  /** The number of admin copies. */
  function Mirrors(ns: seq<Notice>): nat
    decreases |ns|
  {
    if ns == [] then 0
    else Mirrors(ns[..|ns| - 1]) + (if ns[|ns| - 1].Mirror? then 1 else 0)
  }

  lemma {:induction false} MirrorsAppend(a: seq<Notice>, b: seq<Notice>)
    ensures Mirrors(a + b) == Mirrors(a) + Mirrors(b)
    decreases |b|
  {
    if b == [] {
      assert a + b == a;
    } else {
      var n := |b| - 1;
      MirrorsAppend(a, b[..n]);
      assert (a + b)[..|a + b| - 1] == a + b[..n];
    }
  }

  /** Counting a single notification. */
  lemma CountSingle(x: Notice)
    ensures Direct([x]) == (if x.Mirror? then 0 else 1)
    ensures Mirrors([x]) == (if x.Mirror? then 1 else 0)
  {
    assert [x][..0] == [];
  }

  /** One push sends exactly one notification to the user, and one admin copy when the user
      is the admin. */
  lemma PushNoticesDirect(sub: Subscription, msg: Message, user: int, kws: seq<string>,
                          fmtDate: int -> string, admin: int)
    ensures Direct(PushNotices(sub, msg, user, kws, fmtDate, admin)) == 1
    ensures Mirrors(PushNotices(sub, msg, user, kws, fmtDate, admin)) == (if user == admin then 1 else 0)
  {
    var (main, other) := Layout(sub, msg, user, kws, fmtDate(msg.pubDate));
    var extra := if user == admin then [Mirror(other)] else [];
    assert PushNotices(sub, msg, user, kws, fmtDate, admin) == [main] + extra;
    DirectAppend([main], extra);
    MirrorsAppend([main], extra);
    CountSingle(main);
    if user == admin {
      CountSingle(Mirror(other));
    }
  }

  /** The number of user notifications for a message is the number of matching users. */
  lemma {:induction false} MessageDirect(sub: Subscription, msg: Message, users: seq<int>,
                                       userKeywords: map<int, seq<string>>, fmtDate: int -> string, admin: int)
    ensures Direct(MessageNotices(sub, msg, users, userKeywords, fmtDate, admin)) == MessagePairs(msg, users, userKeywords)
    decreases |users|
  {
    if users != [] {
      var n := |users| - 1;
      MessageDirect(sub, msg, users[..n], userKeywords, fmtDate, admin);
      var kws := Matched(msg, KeywordsOf(userKeywords, users[n]));
      var tail := if kws != [] then PushNotices(sub, msg, users[n], kws, fmtDate, admin) else [];
      DirectAppend(MessageNotices(sub, msg, users[..n], userKeywords, fmtDate, admin), tail);
      if kws != [] {
        PushNoticesDirect(sub, msg, users[n], kws, fmtDate, admin);
      }
    }
  }

  /** pushCount is the number of notifications sent to users: one per matching pair. */
  lemma {:induction false} PushCountIsDirectNotices(sub: Subscription, msgs: seq<Message>,
                                                   userKeywords: map<int, seq<string>>, fmtDate: int -> string, admin: int)
    ensures Direct(Notices(sub, msgs, userKeywords, fmtDate, admin)) == Pairs(msgs, sub.users, userKeywords)
    decreases |msgs|
  {
    if msgs != [] {
      var n := |msgs| - 1;
      PushCountIsDirectNotices(sub, msgs[..n], userKeywords, fmtDate, admin);
      DirectAppend(Notices(sub, msgs[..n], userKeywords, fmtDate, admin),
                   MessageNotices(sub, msgs[n], sub.users, userKeywords, fmtDate, admin));
      MessageDirect(sub, msgs[n], sub.users, userKeywords, fmtDate, admin);
    }
  }

  /** Admin copies go out only for the admin's own pushes: none when the admin is not among
      the listed users. */
  lemma {:induction false} MirrorOnlyForAdmin(sub: Subscription, msg: Message, users: seq<int>,
                                            userKeywords: map<int, seq<string>>, fmtDate: int -> string, admin: int)
    requires admin !in users
    ensures Mirrors(MessageNotices(sub, msg, users, userKeywords, fmtDate, admin)) == 0
    decreases |users|
  {
    if users != [] {
      var n := |users| - 1;
      assert users == users[..n] + [users[n]];
      MirrorOnlyForAdmin(sub, msg, users[..n], userKeywords, fmtDate, admin);
      var kws := Matched(msg, KeywordsOf(userKeywords, users[n]));
      var tail := if kws != [] then PushNotices(sub, msg, users[n], kws, fmtDate, admin) else [];
      MirrorsAppend(MessageNotices(sub, msg, users[..n], userKeywords, fmtDate, admin), tail);
      if kws != [] {
        PushNoticesDirect(sub, msg, users[n], kws, fmtDate, admin);
      }
    }
  }

  /** On the same day, n pushes add n to the total and to the feed's counter. */
  lemma {:induction false} RecordTimesSameDay(s: Stats.Snapshot, name: string, today: string, n: nat)
    requires s.date == today
    ensures RecordTimes(s, name, today, n).date == today
    ensures RecordTimes(s, name, today, n).total == s.total + n
    ensures n > 0 ==> (name in RecordTimes(s, name, today, n).byRss &&
      RecordTimes(s, name, today, n).byRss[name] == (if name in s.byRss then s.byRss[name] else 0) + n)
    decreases n
  {
    if n > 0 {
      RecordTimesSameDay(s, name, today, n - 1);
      Stats.RecordSameDay(RecordTimes(s, name, today, n - 1), name, today);
    }
  }
}
