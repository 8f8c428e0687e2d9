/** The bot's SQLite database as in-memory tables: the subscriptions table, the feed_data
    watermark table and the user_keywords table. Column encodings (the JSON text of user
    and keyword lists, the "2006-01-02 15:04:05" time text) are replaced by the values
    they encode. */
module Store {
  import opened Text

  /** A row of the subscriptions table; the row id is left out and rows keep insertion order. */
  datatype SubRow = SubRow(url: string, name: string, users: seq<int>, channel: string)

  /** A row of feed_data: the watermark (None when the column is NULL or does not parse as
      a time) and the title stored with it. */
  datatype FeedRow = FeedRow(lastUpdate: Option<int>, latestTitle: string)

  class Database {
    var subscriptions: seq<SubRow>
    var feedData: map<string, FeedRow>
    var userKeywords: map<int, seq<string>>

    constructor ()
      ensures subscriptions == [] && feedData == map[] && userKeywords == map[]
      ensures Valid()
    {
      subscriptions := [];
      feedData := map[];
      userKeywords := map[];
    }

    /** The table constraints and the bookkeeping the bot keeps between tables. */
    ghost predicate Valid()
      reads this
    {
      Consistent(subscriptions, feedData)
    }
  }

  /** getKeywordsForUser on the user_keywords table: a user without a row has no keywords. */
  function KeywordsOf(userKeywords: map<int, seq<string>>, user: int): seq<string> {
    if user in userKeywords then userKeywords[user] else []
  }

  /** No user appears twice in a list. */
  predicate Distinct(xs: seq<int>) {
    forall i, j :: 0 <= i < j < |xs| ==> xs[i] != xs[j]
  }

  /** Adding feed_data rows keeps the tables consistent. */
  lemma ConsistentMoreFeed(subs: seq<SubRow>, feedData: map<string, FeedRow>, feedData': map<string, FeedRow>)
    requires Consistent(subs, feedData)
    requires feedData.Keys <= feedData'.Keys
    ensures Consistent(subs, feedData')
  {
  }

  /** Subscription names are unique (the UNIQUE column), so are URLs (a new row is only
      inserted when neither its URL nor its name is taken), every row has at least one
      user and no user twice, and every row has a feed_data row. */
  predicate Consistent(subs: seq<SubRow>, feedData: map<string, FeedRow>) {
    && (forall i, j :: 0 <= i < j < |subs| ==> subs[i].name != subs[j].name && subs[i].url != subs[j].url)
    && (forall i :: 0 <= i < |subs| ==> subs[i].users != [] && Distinct(subs[i].users))
    && (forall i :: 0 <= i < |subs| ==> subs[i].name in feedData)
  }
}
