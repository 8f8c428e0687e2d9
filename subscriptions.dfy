/** Subscribing and unsubscribing a user: the scheme check of the feed URL, the lookup of an
    existing row, the user list of a subscription and the feed_data row created with it.
    The subscriptions and feed_data tables are the in-memory tables of Store; checking that
    the URL serves a readable feed is a network call, so its outcome is a parameter. */
module Subscriptions {
  import opened Text
  import opened Store

  /** The two tables a subscription edit touches. */
  datatype Tables = Tables(subs: seq<SubRow>, feedData: map<string, FeedRow>)

  const InvalidURL := "无效的URL格式，请使用http或https开头的完整URL"
  const AlreadySubscribed := "你已经订阅了这个RSS源"
  const FeedDataTaken := "UNIQUE constraint failed: feed_data.rss_name"
  const NoRows := "sql: no rows in result set"
  const InputFormat := "❌ 格式错误！请按照以下格式输入：\nURL 名称\n例如：https://example.com/feed 科技新闻"

  function VerifyFailed(reason: string): string {
    "RSS源验证失败: " + reason
  }

  // ---------------------------------------------------------------- the URL scheme

  /** Control characters, which url.Parse refuses. */
  predicate IsCTL(c: char) {
    c < ' ' || c == '\U{007F}'
  }

  predicate HasCTL(s: string) {
    exists i :: 0 <= i < |s| && IsCTL(s[i])
  }

  predicate SchemeLetter(c: char) {
    'a' <= c <= 'z' || 'A' <= c <= 'Z'
  }

  predicate SchemeOther(c: char) {
    '0' <= c <= '9' || c == '+' || c == '-' || c == '.'
  }

  /** url.getScheme, scanning from position i: letters (then also digits, '+', '-', '.')
      up to a ':' make the scheme; any other character means there is no scheme. */
  function GetScheme(s: string, i: nat): Result<string>
    requires i <= |s|
    decreases |s| - i
  {
    if i == |s| then Ok("")
    else if SchemeLetter(s[i]) then GetScheme(s, i + 1)
    else if SchemeOther(s[i]) then (if i == 0 then Ok("") else GetScheme(s, i + 1))
    else if s[i] == ':' then (if i == 0 then Err("missing protocol scheme") else Ok(s[..i]))
    else Ok("")
  }

  /** The lower-cased scheme url.Parse gives the part of a URL before its fragment, or the
      error it reports first. */
  function ParseScheme(raw: string): Result<string> {
    var u := raw[..FirstIndex(raw, '#')];
    if HasCTL(u) then Err("invalid control character in URL")
    else
      match GetScheme(u, 0)
      case Ok(scheme) => Ok(Lower(scheme))
      case Err(e) => Err(e)
  }

  /** The check at the head of validateAndProcessSubscription. */
  predicate HttpScheme(raw: string) {
    ParseScheme(raw) == Ok("http") || ParseScheme(raw) == Ok("https")
  }

  // ---------------------------------------------------------------- table lookups and updates

  /** The row `SELECT users FROM subscriptions WHERE rss_url = ? OR rss_name = ?` reads: the
      first such row in table order, or -1 when there is none. */
  function FindRow(subs: seq<SubRow>, url: string, name: string): (k: int)
    ensures -1 <= k < |subs|
    ensures k >= 0 ==> subs[k].url == url || subs[k].name == name
    ensures forall j :: 0 <= j < |subs| && (k < 0 || j < k) ==> subs[j].url != url && subs[j].name != name
    decreases |subs|
  {
    if subs == [] then -1
    else if subs[0].url == url || subs[0].name == name then 0
    else
      var k := FindRow(subs[1..], url, name);
      if k < 0 then -1 else k + 1
  }

  /** The row `SELECT users FROM subscriptions WHERE rss_name = ?` reads, or -1. */
  function RowNamed(subs: seq<SubRow>, name: string): (k: int)
    ensures -1 <= k < |subs|
    ensures k >= 0 ==> subs[k].name == name
    ensures forall j :: 0 <= j < |subs| && (k < 0 || j < k) ==> subs[j].name != name
    decreases |subs|
  {
    if subs == [] then -1
    else if subs[0].name == name then 0
    else
      var k := RowNamed(subs[1..], name);
      if k < 0 then -1 else k + 1
  }

  /** `UPDATE subscriptions SET users = ? WHERE rss_url = ?` */
  function UpdateUsersByURL(subs: seq<SubRow>, url: string, users: seq<int>): seq<SubRow> {
    seq(|subs|, i requires 0 <= i < |subs| => if subs[i].url == url then subs[i].(users := users) else subs[i])
  }

  /** `UPDATE subscriptions SET users = ? WHERE rss_name = ?` */
  function UpdateUsersByName(subs: seq<SubRow>, name: string, users: seq<int>): seq<SubRow> {
    seq(|subs|, i requires 0 <= i < |subs| => if subs[i].name == name then subs[i].(users := users) else subs[i])
  }

  /** `DELETE FROM subscriptions WHERE rss_name = ?`: the other rows, in order. */
  function DeleteByName(subs: seq<SubRow>, name: string): seq<SubRow>
    decreases |subs|
  {
    if subs == [] then []
    else
      var n := |subs| - 1;
      DeleteByName(subs[..n], name) + (if subs[n].name != name then [subs[n]] else [])
  }

  // ---------------------------------------------------------------- subscribing

  /** validateAndProcessSubscription on the tables. `verifyError` is the failure reason of
      the feed check, `stamp` the CURRENT_TIMESTAMP a new feed_data row gets. Every error
      rolls the transaction back, so the tables are only returned on success. An existing
      row is found by URL or by name, but its user list is written back to the rows with
      the submitted URL. */
  function Subscribe(t: Tables, feedURL: string, name: string, channel: string, user: int,
                     verifyError: Option<string>, stamp: int): Result<Tables>
  {
    if !HttpScheme(feedURL) then Err(InvalidURL)
    else if verifyError.Some? then Err(VerifyFailed(verifyError.value))
    else
      var k := FindRow(t.subs, feedURL, name);
      if k < 0 then
        if name in t.feedData then Err(FeedDataTaken)
        else Ok(Tables(t.subs + [SubRow(feedURL, name, [user], channel)],
                       t.feedData[name := FeedRow(Some(stamp), "")]))
      else if user in t.subs[k].users then Err(AlreadySubscribed)
      else Ok(Tables(UpdateUsersByURL(t.subs, feedURL, t.subs[k].users + [user]), t.feedData))
  }

  /** validateAndProcessSubscription over the database. */
  method ValidateAndProcessSubscription(db: Database, feedURL: string, name: string, channel: string,
                                        userID: int, verifyError: Option<string>, stamp: int)
    returns (err: Option<string>)
    requires db.Valid()
    modifies db`subscriptions, db`feedData
    ensures db.Valid()
    ensures var r := Subscribe(Tables(old(db.subscriptions), old(db.feedData)), feedURL, name,
                               channel, userID, verifyError, stamp);
      && (r.Err? ==> err == Some(r.error)
                     && db.subscriptions == old(db.subscriptions) && db.feedData == old(db.feedData))
      && (r.Ok? ==> err == None && Tables(db.subscriptions, db.feedData) == r.value)
  {
    SubscribeKeepsConsistent(Tables(db.subscriptions, db.feedData), feedURL, name, channel, userID,
                             verifyError, stamp);
    if !HttpScheme(feedURL) {
      return Some(InvalidURL);
    }
    if verifyError.Some? {
      return Some(VerifyFailed(verifyError.value));
    }
    var k := FindRow(db.subscriptions, feedURL, name);
    if k < 0 {
      if name in db.feedData {
        return Some(FeedDataTaken);
      }
      db.subscriptions := db.subscriptions + [SubRow(feedURL, name, [userID], channel)];
      db.feedData := db.feedData[name := FeedRow(Some(stamp), "")];
      return None;
    }
    var existingUsers := db.subscriptions[k].users;
    var j := 0;
    while j < |existingUsers|
      invariant 0 <= j <= |existingUsers|
      invariant userID !in existingUsers[..j]
    {
      if existingUsers[j] == userID {
        return Some(AlreadySubscribed);
      }
      assert existingUsers[..j + 1] == existingUsers[..j] + [existingUsers[j]];
      j := j + 1;
    }
    assert existingUsers[..j] == existingUsers;
    existingUsers := existingUsers + [userID];
    db.subscriptions := UpdateUsersByURL(db.subscriptions, feedURL, existingUsers);
    err := None;
  }

  // ---------------------------------------------------------------- unsubscribing

  function DeletedReply(name: string): string {
    "✅ 订阅 \"" + name + "\" 已被完全删除"
  }

  function UnsubscribedReply(name: string): string {
    "✅ 你已取消订阅 \"" + name + "\""
  }

  /** removeSubscriptionForUser on the tables: the user is filtered out of the named row;
      a row left without users is deleted together with its feed_data row. */
  function Unsubscribe(t: Tables, user: int, name: string): Result<(Tables, string)> {
    var k := RowNamed(t.subs, name);
    if k < 0 then Err(NoRows)
    else
      var rest := Without(t.subs[k].users, user);
      if rest == [] then Ok((Tables(DeleteByName(t.subs, name), t.feedData - {name}), DeletedReply(name)))
      else Ok((Tables(UpdateUsersByName(t.subs, name, rest), t.feedData), UnsubscribedReply(name)))
  }

  /** removeSubscriptionForUser over the database. */
  method RemoveSubscriptionForUser(db: Database, userID: int, subscriptionName: string)
    returns (r: Result<string>)
    requires db.Valid()
    modifies db`subscriptions, db`feedData
    ensures db.Valid()
    ensures var u := Unsubscribe(Tables(old(db.subscriptions), old(db.feedData)), userID, subscriptionName);
      && (u.Err? ==> r == Err(u.error)
                     && db.subscriptions == old(db.subscriptions) && db.feedData == old(db.feedData))
      && (u.Ok? ==> r == Ok(u.value.1) && Tables(db.subscriptions, db.feedData) == u.value.0)
  {
    UnsubscribeKeepsConsistent(Tables(db.subscriptions, db.feedData), userID, subscriptionName);
    var k := RowNamed(db.subscriptions, subscriptionName);
    if k < 0 {
      return Err(NoRows);
    }
    var users := db.subscriptions[k].users;
    var newUsers: seq<int> := [];
    var i := 0;
    while i < |users|
      invariant 0 <= i <= |users|
      invariant newUsers == Without(users[..i], userID)
    {
      assert users[..i + 1][..i] == users[..i];
      if users[i] != userID {
        newUsers := newUsers + [users[i]];
      }
      i := i + 1;
    }
    assert users[..i] == users;
    if |newUsers| == 0 {
      db.subscriptions := DeleteByName(db.subscriptions, subscriptionName);
      db.feedData := db.feedData - {subscriptionName};
      r := Ok(DeletedReply(subscriptionName));
    } else {
      db.subscriptions := UpdateUsersByName(db.subscriptions, subscriptionName, newUsers);
      r := Ok(UnsubscribedReply(subscriptionName));
    }
  }

  // ---------------------------------------------------------------- the input dialogue

  /** handleSubscriptionInput and the trimming of addSubscription: the trimmed message is
      cut at its first two spaces into URL, name and channel flag; URL and name are trimmed
      again. */
  function SubscriptionInput(text: string): Result<(string, string, string)> {
    var parts := SplitN(TrimSpace(text), ' ', 3);
    if |parts| != 3 then Err(InputFormat)
    else Ok((TrimSpace(parts[0]), TrimSpace(parts[1]), parts[2]))
  }

  // ---------------------------------------------------------------- properties of the scheme check

  /** getScheme returns a non-empty scheme only as the text before a ':'. */
  lemma {:induction false} GetSchemeShape(s: string, i: nat)
    requires i <= |s|
    requires GetScheme(s, i).Ok? && GetScheme(s, i).value != ""
    ensures exists j :: i <= j < |s| && s[j] == ':' && GetScheme(s, i).value == s[..j]
    decreases |s| - i
  {
    if i < |s| && (SchemeLetter(s[i]) || SchemeOther(s[i])) {
      GetSchemeShape(s, i + 1);
    }
  }

  /** A run of letters from position i up to a ':' at j > 0 is read as the scheme s[..j]. */
  lemma {:induction false} GetSchemeOfLetters(s: string, i: nat, j: nat)
    requires i <= j < |s| && 0 < j && s[j] == ':'
    requires forall m :: i <= m < j ==> SchemeLetter(s[m])
    ensures GetScheme(s, i) == Ok(s[..j])
    decreases j - i
  {
    if i < j {
      GetSchemeOfLetters(s, i + 1, j);
    }
  }

  /** Lower-casing yields a given lower-case letter only from that letter or its capital. */
  lemma LowerCharLetter(c: char, l: char)
    requires 'a' <= l <= 'z' && LowerChar(c) == l
    ensures SchemeLetter(c) && c != '#'
  {
  }

  /** An accepted URL starts with its scheme and a ':'. */
  lemma HttpSchemePrefix(raw: string)
    requires HttpScheme(raw)
    ensures !HasCTL(raw[..FirstIndex(raw, '#')])
    ensures HasPrefix(Lower(raw), ParseScheme(raw).value + ":")
  {
    var f := FirstIndex(raw, '#');
    var u := raw[..f];
    var sc := GetScheme(u, 0).value;
    GetSchemeShape(u, 0);
    var j :| 0 <= j < |u| && u[j] == ':' && sc == u[..j];
    ColonPrefix(raw, f, sc, j);
    LowerColonPrefix(raw, sc, j);
  }

  /** A scheme read before a ':' in the part before the fragment is, with that ':', a
      prefix of the whole URL. */
  lemma ColonPrefix(raw: string, f: nat, sc: string, j: nat)
    requires f <= |raw| && j < f && raw[..f][j] == ':' && sc == raw[..f][..j]
    ensures raw[..j + 1] == sc + [':']
  {
  }

  /** Lower-casing keeps a scheme-and-colon prefix, lower-cased. */
  lemma LowerColonPrefix(raw: string, sc: string, j: nat)
    requires j < |raw| && raw[..j + 1] == sc + [':']
    ensures HasPrefix(Lower(raw), Lower(sc) + ":")
  {
    LowerPrefix(raw, j + 1);
    LowerAppend(sc, [':']);
    assert Lower([':']) == [':'];
  }

  /** A URL that starts with "http:" or "https:", in any letter case, and has no control
      character before its fragment passes the scheme check. */
  lemma HttpPrefixAccepted(raw: string, x: string)
    requires x == "http" || x == "https"
    requires !HasCTL(raw[..FirstIndex(raw, '#')])
    requires HasPrefix(Lower(raw), x + ":")
    ensures ParseScheme(raw) == Ok(x)
  {
    assert x != [] && forall m :: 0 <= m < |x| ==> 'a' <= x[m] <= 'z';
    LetterPrefixAccepted(raw, x);
  }

  /** A URL that starts, in any letter case, with a non-empty run of lower-case letters and
      a ':', with no control character before its fragment, has that run as its scheme. */
  lemma LetterPrefixAccepted(raw: string, x: string)
    requires x != [] && forall m :: 0 <= m < |x| ==> 'a' <= x[m] <= 'z'
    requires !HasCTL(raw[..FirstIndex(raw, '#')])
    requires HasPrefix(Lower(raw), x + ":")
    ensures ParseScheme(raw) == Ok(x)
  {
    var f := FirstIndex(raw, '#');
    var j := |x|;
    LetterPrefixShape(raw, x);
    assert f > j;
    var u := raw[..f];
    assert forall m :: 0 <= m < j ==> u[m] == raw[m];
    assert u[j] == ':';
    GetSchemeOfLetters(u, 0, j);
    assert u[..j] == raw[..j];
    LowerPrefix(raw, j);
    assert Lower(raw)[..j] == x;
  }

  /** The characters before the ':' of such a prefix are letters, and no '#'. */
  lemma LetterPrefixShape(raw: string, x: string)
    requires forall m :: 0 <= m < |x| ==> 'a' <= x[m] <= 'z'
    requires HasPrefix(Lower(raw), x + ":")
    ensures |x| < |raw| && raw[|x|] == ':'
    ensures forall m :: 0 <= m < |x| ==> SchemeLetter(raw[m]) && raw[m] != '#'
    ensures FirstIndex(raw, '#') > |x|
  {
    var j := |x|;
    var p := x + ":";
    PrefixChars(Lower(raw), p);
    forall m | 0 <= m < j ensures SchemeLetter(raw[m]) && raw[m] != '#' {
      assert p[m] == x[m];
      LowerCharLetter(raw[m], x[m]);
    }
    assert p[j] == ':';
    LowerCharColon(raw[j]);
    assert forall m :: 0 <= m < j + 1 ==> raw[m] != '#';
    FirstIndexPast(raw, '#', j + 1);
  }

  /** Only ':' lower-cases to ':'. */
  lemma LowerCharColon(c: char)
    requires LowerChar(c) == ':'
    ensures c == ':'
  {
  }

  /** The first c lies past the first n characters when none of them is c. */
  lemma FirstIndexPast(s: string, c: char, n: nat)
    requires n <= |s| && forall m :: 0 <= m < n ==> s[m] != c
    ensures FirstIndex(s, c) >= n
  {
  }

  /** A prefix agrees with the text character by character. */
  lemma PrefixChars(t: string, p: string)
    requires HasPrefix(t, p)
    ensures forall m :: 0 <= m < |p| ==> t[m] == p[m]
  {
    forall m | 0 <= m < |p| ensures t[m] == p[m] {
      assert t[..|p|][m] == t[m];
    }
  }

  /** The scheme check accepts a URL exactly when the part before its fragment has no
      control character and the URL starts with "http:" or "https:" in any letter case. */
  lemma HttpSchemeMeaning(raw: string)
    ensures HttpScheme(raw) <==>
      !HasCTL(raw[..FirstIndex(raw, '#')])
      && (HasPrefix(Lower(raw), "http:") || HasPrefix(Lower(raw), "https:"))
  {
    assert "http" + ":" == "http:" && "https" + ":" == "https:";
    if HttpScheme(raw) {
      HttpSchemePrefix(raw);
    } else if !HasCTL(raw[..FirstIndex(raw, '#')]) {
      if HasPrefix(Lower(raw), "http:") {
        HttpPrefixAccepted(raw, "http");
        assert false;
      } else if HasPrefix(Lower(raw), "https:") {
        HttpPrefixAccepted(raw, "https");
        assert false;
      }
    }
  }

  // ---------------------------------------------------------------- helpers on user lists

  lemma DistinctSnoc(xs: seq<int>, u: int)
    requires Distinct(xs) && u !in xs
    ensures Distinct(xs + [u])
  {
  }

  /** Filtering keeps a list free of duplicates and only drops elements. */
  lemma {:induction false} WithoutDistinct(xs: seq<int>, k: int)
    requires Distinct(xs)
    ensures Distinct(Without(xs, k))
    ensures forall x :: x in Without(xs, k) <==> x in xs && x != k
    decreases |xs|
  {
    if xs != [] {
      var n := |xs| - 1;
      assert xs == xs[..n] + [xs[n]];
      WithoutDistinct(xs[..n], k);
      assert xs[n] !in xs[..n];
      var w := Without(xs[..n], k);
      if xs[n] != k {
        DistinctSnoc(w, xs[n]);
      }
    }
  }

  /** Filtering out an element that is not there changes nothing. */
  lemma {:induction false} WithoutAbsent(xs: seq<int>, k: int)
    requires k !in xs
    ensures Without(xs, k) == xs
    decreases |xs|
  {
    if xs != [] {
      var n := |xs| - 1;
      var p := xs[..n];
      assert xs == p + [xs[n]];
      assert k !in p;
      WithoutAbsent(p, k);
      assert xs[n] != k;
      assert Without(xs, k) == Without(p, k) + [xs[n]];
    }
  }

  // ---------------------------------------------------------------- helpers on rows

  /** Deleting a name no row has changes nothing. */
  lemma {:induction false} DeleteAbsent(subs: seq<SubRow>, name: string)
    requires forall j :: 0 <= j < |subs| ==> subs[j].name != name
    ensures DeleteByName(subs, name) == subs
    decreases |subs|
  {
    if subs != [] {
      var n := |subs| - 1;
      DeleteAbsent(subs[..n], name);
      assert subs == subs[..n] + [subs[n]];
    }
  }

  /** Deleting the name only row k has removes row k. */
  lemma {:induction false} DeleteSingle(subs: seq<SubRow>, name: string, k: nat)
    requires k < |subs| && subs[k].name == name
    requires forall j :: 0 <= j < |subs| && j != k ==> subs[j].name != name
    ensures DeleteByName(subs, name) == subs[..k] + subs[k + 1..]
    decreases |subs|
  {
    var n := |subs| - 1;
    if k == n {
      DeleteAbsent(subs[..n], name);
    } else {
      DeleteSingle(subs[..n], name, k);
      assert subs[..n][..k] == subs[..k];
      assert subs[..n][k + 1..] + [subs[n]] == subs[k + 1..];
    }
  }

  /** Rewriting user lists keeps the tables consistent when every new list is non-empty
      and free of duplicates. */
  lemma ConsistentUsersRewritten(subs: seq<SubRow>, r: seq<SubRow>, feedData: map<string, FeedRow>)
    requires Consistent(subs, feedData) && |r| == |subs|
    requires forall i :: 0 <= i < |r| ==> r[i].name == subs[i].name && r[i].url == subs[i].url
    requires forall i :: 0 <= i < |r| ==> r[i].users != [] && Distinct(r[i].users)
    ensures Consistent(r, feedData)
  {
  }

  /** Removing a row and its feed_data row keeps the tables consistent. */
  lemma ConsistentRowRemoved(subs: seq<SubRow>, feedData: map<string, FeedRow>, k: nat)
    requires Consistent(subs, feedData) && k < |subs|
    ensures Consistent(subs[..k] + subs[k + 1..], feedData - {subs[k].name})
  {
    var r := subs[..k] + subs[k + 1..];
    assert forall i :: 0 <= i < |r| ==> r[i] == subs[if i < k then i else i + 1];
  }

  // ---------------------------------------------------------------- properties of subscribing

  /** A successful subscription keeps the tables consistent: names and URLs stay unique,
      every row keeps a non-empty list without duplicates and its feed_data row. */
  /** SubscribeConsistent for any outcome: an error leaves the tables as they were. */
  lemma SubscribeKeepsConsistent(t: Tables, feedURL: string, name: string, channel: string, user: int,
                                 verifyError: Option<string>, stamp: int)
    requires Consistent(t.subs, t.feedData)
    ensures var r := Subscribe(t, feedURL, name, channel, user, verifyError, stamp);
      r.Ok? ==> Consistent(r.value.subs, r.value.feedData)
  {
    if Subscribe(t, feedURL, name, channel, user, verifyError, stamp).Ok? {
      SubscribeConsistent(t, feedURL, name, channel, user, verifyError, stamp);
    }
  }

  lemma SubscribeConsistent(t: Tables, feedURL: string, name: string, channel: string, user: int,
                            verifyError: Option<string>, stamp: int)
    requires Consistent(t.subs, t.feedData)
    requires Subscribe(t, feedURL, name, channel, user, verifyError, stamp).Ok?
    ensures var t' := Subscribe(t, feedURL, name, channel, user, verifyError, stamp).value;
      Consistent(t'.subs, t'.feedData)
  {
    var k := FindRow(t.subs, feedURL, name);
    if k >= 0 {
      var users := t.subs[k].users + [user];
      DistinctSnoc(t.subs[k].users, user);
      ConsistentUsersRewritten(t.subs, UpdateUsersByURL(t.subs, feedURL, users), t.feedData);
    }
  }

  /** Subscribing to a feed nobody has, then unsubscribing from it, gives the tables back. */
  lemma SubscribeNewThenUnsubscribe(t: Tables, feedURL: string, name: string, channel: string,
                                    user: int, stamp: int)
    requires HttpScheme(feedURL)
    requires FindRow(t.subs, feedURL, name) < 0 && name !in t.feedData
    ensures var r := Subscribe(t, feedURL, name, channel, user, None, stamp);
      r.Ok? && Unsubscribe(r.value, user, name) == Ok((t, DeletedReply(name)))
  {
    var row := SubRow(feedURL, name, [user], channel);
    var fd := t.feedData[name := FeedRow(Some(stamp), "")];
    assert Subscribe(t, feedURL, name, channel, user, None, stamp) == Ok(Tables(t.subs + [row], fd));
    UnsubscribeLastRow(t.subs, row, fd, user);
    assert fd - {name} == t.feedData;
  }

  /** Leaving the last row, whose only user one is and whose name no other row has, deletes
      exactly that row and its feed_data row. */
  lemma UnsubscribeLastRow(subs: seq<SubRow>, row: SubRow, fd: map<string, FeedRow>, user: int)
    requires row.users == [user]
    requires forall j :: 0 <= j < |subs| ==> subs[j].name != row.name
    ensures Unsubscribe(Tables(subs + [row], fd), user, row.name)
      == Ok((Tables(subs, fd - {row.name}), DeletedReply(row.name)))
  {
    var all := subs + [row];
    var n := |subs|;
    assert forall j :: 0 <= j < n ==> all[j] == subs[j];
    assert all[n] == row;
    assert RowNamed(all, row.name) == n;
    assert Without([user], user) == [] by {
      assert [user][..0] == [];
    }
    DeleteSingle(all, row.name, n);
    assert all[..n] == subs && all[n + 1..] == [];
    assert DeleteByName(all, row.name) == subs;
    assert Without(all[n].users, user) == [];
  }

  /** With unique URLs, writing the users of the rows with row k's URL rewrites row k only. */
  lemma UpdateByURLSingle(subs: seq<SubRow>, feedData: map<string, FeedRow>, k: nat, users: seq<int>)
    requires Consistent(subs, feedData) && k < |subs|
    ensures UpdateUsersByURL(subs, subs[k].url, users) == subs[k := subs[k].(users := users)]
  {
  }

  /** With unique names, writing the users of the rows with row k's name rewrites row k only. */
  lemma UpdateByNameSingle(subs: seq<SubRow>, feedData: map<string, FeedRow>, k: nat, users: seq<int>)
    requires Consistent(subs, feedData) && k < |subs|
    ensures UpdateUsersByName(subs, subs[k].name, users) == subs[k := subs[k].(users := users)]
  {
  }

  /** Joining an existing feed by its URL and then leaving it by its name gives the tables
      back. */
  lemma SubscribeExistingThenUnsubscribe(t: Tables, feedURL: string, name: string, channel: string,
                                         user: int, stamp: int)
    requires Consistent(t.subs, t.feedData) && HttpScheme(feedURL)
    requires var k := FindRow(t.subs, feedURL, name);
      k >= 0 && t.subs[k].url == feedURL && user !in t.subs[k].users
    ensures var k := FindRow(t.subs, feedURL, name);
      var r := Subscribe(t, feedURL, name, channel, user, None, stamp);
      r.Ok? && Unsubscribe(r.value, user, t.subs[k].name) == Ok((t, UnsubscribedReply(t.subs[k].name)))
  {
    var k := FindRow(t.subs, feedURL, name);
    var row := t.subs[k];
    UpdateByURLSingle(t.subs, t.feedData, k, row.users + [user]);
    assert Subscribe(t, feedURL, name, channel, user, None, stamp)
      == Ok(Tables(t.subs[k := row.(users := row.users + [user])], t.feedData));
    LeaveJoinedRow(t.subs, t.feedData, k, user);
  }

  /** Leaving row k by its name right after joining it restores the row's users. */
  lemma LeaveJoinedRow(subs: seq<SubRow>, feedData: map<string, FeedRow>, k: nat, user: int)
    requires Consistent(subs, feedData) && k < |subs| && user !in subs[k].users
    ensures var joined := subs[k := subs[k].(users := subs[k].users + [user])];
      Unsubscribe(Tables(joined, feedData), user, subs[k].name)
        == Ok((Tables(subs, feedData), UnsubscribedReply(subs[k].name)))
  {
    var row := subs[k];
    var subs' := subs[k := row.(users := row.users + [user])];
    DistinctSnoc(row.users, user);
    ConsistentUsersRewritten(subs, subs', feedData);
    assert RowNamed(subs', row.name) == k;
    WithoutAppend(row.users, [user], user);
    assert Without([user], user) == [] by {
      assert [user][..0] == [];
    }
    WithoutAbsent(row.users, user);
    assert Without(row.users + [user], user) == row.users;
    UpdateByNameSingle(subs', feedData, k, row.users);
    assert subs'[k := row] == subs;
  }

  /** The found-by-name quirk: when the row is found by its name and no row has the
      submitted URL, the write-back touches nothing, yet the call succeeds. */
  lemma SubscribeByNameOnlyChangesNothing(t: Tables, feedURL: string, name: string, channel: string,
                                          user: int, stamp: int)
    requires HttpScheme(feedURL)
    requires FindRow(t.subs, feedURL, name) >= 0
    requires user !in t.subs[FindRow(t.subs, feedURL, name)].users
    requires forall j :: 0 <= j < |t.subs| ==> t.subs[j].url != feedURL
    ensures Subscribe(t, feedURL, name, channel, user, None, stamp) == Ok(t)
  {
    var k := FindRow(t.subs, feedURL, name);
    assert UpdateUsersByURL(t.subs, feedURL, t.subs[k].users + [user]) == t.subs;
  }

  /** The found-by-name quirk with two rows: the submitted name belongs to row k and the
      submitted URL to a later row m. Row k is found, and its users plus the new user are
      written to row m, whose own users are lost; row k stays as it was. */
  lemma SubscribeOverwritesOtherRow(t: Tables, feedURL: string, name: string, channel: string,
                                    user: int, stamp: int, k: nat, m: nat)
    requires Consistent(t.subs, t.feedData) && HttpScheme(feedURL)
    requires k < m < |t.subs| && t.subs[k].name == name && t.subs[m].url == feedURL
    requires user !in t.subs[k].users
    ensures Subscribe(t, feedURL, name, channel, user, None, stamp)
      == Ok(Tables(t.subs[m := t.subs[m].(users := t.subs[k].users + [user])], t.feedData))
  {
    var f := FindRow(t.subs, feedURL, name);
    assert f >= 0;
    assert f == k || f == m;
    assert f == k;
    UpdateByURLSingle(t.subs, t.feedData, m, t.subs[k].users + [user]);
  }

  // ---------------------------------------------------------------- properties of unsubscribing

  /** A successful removal keeps the tables consistent. */
  /** UnsubscribeConsistent for any outcome. */
  lemma UnsubscribeKeepsConsistent(t: Tables, user: int, name: string)
    requires Consistent(t.subs, t.feedData)
    ensures Unsubscribe(t, user, name).Ok? ==>
      var t' := Unsubscribe(t, user, name).value.0; Consistent(t'.subs, t'.feedData)
  {
    if Unsubscribe(t, user, name).Ok? {
      UnsubscribeConsistent(t, user, name);
    }
  }

  lemma UnsubscribeConsistent(t: Tables, user: int, name: string)
    requires Consistent(t.subs, t.feedData)
    requires Unsubscribe(t, user, name).Ok?
    ensures var t' := Unsubscribe(t, user, name).value.0;
      Consistent(t'.subs, t'.feedData)
  {
    var k := RowNamed(t.subs, name);
    var rest := Without(t.subs[k].users, user);
    WithoutDistinct(t.subs[k].users, user);
    if rest == [] {
      DeleteSingle(t.subs, name, k);
      ConsistentRowRemoved(t.subs, t.feedData, k);
    } else {
      ConsistentUsersRewritten(t.subs, UpdateUsersByName(t.subs, name, rest), t.feedData);
    }
  }

  /** Deleting row k, the only row named `name`, keeps every row of another name. */
  lemma OthersAfterDelete(subs: seq<SubRow>, name: string, k: nat)
    requires k < |subs| && subs[k].name == name
    ensures var r := subs[..k] + subs[k + 1..];
      forall x :: x in r && x.name != name <==> x in subs && x.name != name
  {
    var r := subs[..k] + subs[k + 1..];
    assert forall i :: 0 <= i < |r| ==> r[i] == subs[if i < k then i else i + 1];
    forall x | x in subs && x.name != name ensures x in r {
      var i :| 0 <= i < |subs| && subs[i] == x;
      if i < k { assert r[i] == x; } else { assert r[i - 1] == x; }
    }
  }

  /** Rewriting the users of the rows named `name` keeps every row of another name. */
  lemma OthersAfterUpdate(subs: seq<SubRow>, name: string, users: seq<int>)
    ensures var r := UpdateUsersByName(subs, name, users);
      forall x :: x in r && x.name != name <==> x in subs && x.name != name
  {
    var r := UpdateUsersByName(subs, name, users);
    forall x | x in subs && x.name != name ensures x in r {
      var i :| 0 <= i < |subs| && subs[i] == x;
      assert r[i] == x;
    }
  }

  /** After a removal the user is in no row of that name, the row left behind (if any) has
      the other users in their order, every other row is as it was, and the subscription and
      its feed_data row are gone exactly when no other user was left. */
  lemma UnsubscribeMeaning(t: Tables, user: int, name: string)
    requires Consistent(t.subs, t.feedData)
    requires Unsubscribe(t, user, name).Ok?
    ensures var k := RowNamed(t.subs, name);
      var rest := Without(t.subs[k].users, user);
      var t' := Unsubscribe(t, user, name).value.0;
      && (forall r :: r in t'.subs && r.name != name <==> r in t.subs && r.name != name)
      && (forall r :: r in t'.subs && r.name == name ==> user !in r.users && r.users == rest)
      && (rest == [] <==> name !in t'.feedData)
      && (rest == [] <==> forall r :: r in t'.subs ==> r.name != name)
  {
    var k := RowNamed(t.subs, name);
    var rest := Without(t.subs[k].users, user);
    WithoutDistinct(t.subs[k].users, user);
    if rest == [] {
      UnsubscribeDeleted(t, name, k);
    } else {
      UnsubscribeKept(t, name, k, rest);
      var r := UpdateUsersByName(t.subs, name, rest);
      assert r[k] in r;
    }
  }

  /** The branch that deletes: only the rows of other names are left, and no feed_data row
      of that name. */
  lemma UnsubscribeDeleted(t: Tables, name: string, k: nat)
    requires Consistent(t.subs, t.feedData) && k < |t.subs| && t.subs[k].name == name
    ensures var s' := DeleteByName(t.subs, name);
      && (forall r :: r in s' && r.name != name <==> r in t.subs && r.name != name)
      && (forall r :: r in s' ==> r.name != name)
      && name !in t.feedData - {name}
  {
    OnlyRowNamed(t.subs, t.feedData, k);
    DeleteSingle(t.subs, name, k);
    OthersAfterDelete(t.subs, name, k);
    NoneNamedAfterDelete(t.subs, name, k);
  }

  /** With unique names, no row but row k has row k's name. */
  lemma OnlyRowNamed(subs: seq<SubRow>, feedData: map<string, FeedRow>, k: nat)
    requires Consistent(subs, feedData) && k < |subs|
    ensures forall j :: 0 <= j < |subs| && j != k ==> subs[j].name != subs[k].name
  {
    forall j | 0 <= j < |subs| && j != k ensures subs[j].name != subs[k].name {
      if j < k {
        assert subs[j].name != subs[k].name;
      } else {
        assert subs[k].name != subs[j].name;
      }
    }
  }

  /** Deleting the only row of a name leaves no row of that name. */
  lemma NoneNamedAfterDelete(subs: seq<SubRow>, name: string, k: nat)
    requires k < |subs|
    requires forall j :: 0 <= j < |subs| && j != k ==> subs[j].name != name
    ensures forall r :: r in subs[..k] + subs[k + 1..] ==> r.name != name
  {
    var s' := subs[..k] + subs[k + 1..];
    forall r | r in s' ensures r.name != name {
      var i :| 0 <= i < |s'| && s'[i] == r;
      assert r == subs[if i < k then i else i + 1];
    }
  }

  /** The branch that rewrites: the rows of other names stay, the row of that name holds
      the remaining users, and it keeps its feed_data row. */
  lemma UnsubscribeKept(t: Tables, name: string, k: nat, rest: seq<int>)
    requires Consistent(t.subs, t.feedData) && k < |t.subs| && t.subs[k].name == name
    ensures var s' := UpdateUsersByName(t.subs, name, rest);
      && (forall r :: r in s' && r.name != name <==> r in t.subs && r.name != name)
      && (forall r :: r in s' && r.name == name ==> r.users == rest)
      && s'[k].name == name
      && name in t.feedData
  {
    OthersAfterUpdate(t.subs, name, rest);
    UpdateByNameSingle(t.subs, t.feedData, k, rest);
  }

  // ---------------------------------------------------------------- properties of the input

  /** SplitN cuts a space-free word off the front at the space after it. */
  lemma SplitAtSpace(w: string, rest: string)
    requires w != [] && forall i :: 0 <= i < |w| ==> !IsSpace(w[i])
    ensures forall n: nat :: n > 1 ==> SplitN(w + " " + rest, ' ', n) == [w] + SplitN(rest, ' ', n - 1)
  {
    var s := w + " " + rest;
    forall i | 0 <= i < |w| ensures s[i] != ' ' {
      assert s[i] == w[i];
    }
    FirstIndexAt(s, ' ', |w|);
    assert s[..|w|] == w && s[|w| + 1..] == rest;
  }

  /** A message "URL name flag" with a space-free URL and name reads back as its three
      parts. */
  lemma SubscriptionInputRoundTrip(url: string, name: string, channel: string)
    requires url != [] && name != [] && channel != []
    requires forall i :: 0 <= i < |url| ==> !IsSpace(url[i])
    requires forall i :: 0 <= i < |name| ==> !IsSpace(name[i])
    requires !IsSpace(channel[0]) && !IsSpace(channel[|channel| - 1])
    ensures SubscriptionInput(url + " " + name + " " + channel) == Ok((url, name, channel))
  {
    var text := url + " " + name + " " + channel;
    assert text[0] == url[0] && text[|text| - 1] == channel[|channel| - 1];
    TrimSpaceOfTrimmed(text);
    TrimSpaceOfTrimmed(url);
    TrimSpaceOfTrimmed(name);
    var rest := name + " " + channel;
    assert text == url + " " + rest;
    SplitAtSpace(url, rest);
    SplitAtSpace(name, channel);
    assert SplitN(channel, ' ', 1) == [channel];
  }
}
