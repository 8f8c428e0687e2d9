# TGBot_RSS core, modelled in Dafny

TGBot_RSS is a Telegram bot that watches RSS feeds and notifies subscribers. Each user
keeps a list of keyword rules, and the bot pushes every new feed item that matches them.
This project models the bot's decision logic and proves properties about it:

- the keyword matcher, with block rules, wildcards and case folding;
- new-item selection against the stored watermark;
- the per-subscription push loop with its statistics and notification layout;
- the parsers of the stored user and keyword columns;
- the two HTML helpers that prepare channel posts;
- the daily push statistics;
- keyword and subscription editing;
- the splitting of long replies;
- the delete keyboards and the decoding of their callbacks;
- the per-user dialogue state, the command permission check and the configuration defaults.

Modelling conventions:

- Each SQLite table is an in-memory value: a sequence of rows, or a map keyed by the
  table's key. The class `Store.Database` holds these tables as fields, which the
  operations reassign.
- A parsed feed is a sequence of items. Each item has an optional published time and an
  optional updated time.
- Times are integers, with 0 standing for Go's zero time. The clock, the current date and
  the date formatting are parameters.
- Go strings are `seq<char>`. The exception is `splitMessage`, which cuts on byte offsets
  and therefore works on `seq<byte>`.

Modules, one per file:

- `Text` (text.dfy): the Go `strings` functions the code relies on: TrimSpace, Trim, Fields, Split, SplitN, Index, HasPrefix, TrimPrefix, ToLower; also decimal printing and byte-wise string order.
- `Matcher` (matcher.dfy): `matchesKeywords`. The anchored wildcard expression is decided by a greedy scanner. That scanner is proved equal to a reference glob semantics.
- `Feed` (feed.dfy): `fetchRSS`, `getItemTime`, and the missing-row branch of `getLastUpdateTime`.
- `Store` (store.dfy): the three tables and the invariant kept between them.
- `Parse` (parse.dfy): `parseUserIDs`, including `fmt.Sscanf("%d")` into an int64, and `parseKeywords`.
- `Html` (html.dfy): `extractImageURL` and `cleanHTMLContent`. Each regular expression is a hand-written scanner that follows the leftmost, greedy reading the regexp engine gives it.
- `Stats` (stats.dfy): `PushStats` with `resetPushStatsIfNeeded` and `recordPush`.
- `Push` (push.dfy): `processSubscription`.
- `Keywords` (keywords.dfy): `handleKeywordInput`, `addKeywordsForUser`, `removeKeywordForUser`.
- `Subscriptions` (subscriptions.dfy): the URL scheme check, `validateAndProcessSubscription`, `removeSubscriptionForUser`, `handleSubscriptionInput`.
- `Chunks` (chunks.dfy): `splitMessage`.
- `Keyboard` (keyboard.dfy): `CreateBackButton`, `CreateDeleteKeyboard`, and the dispatch of `handleCallbackQuery`.
- `Session` (session.dfy): the `userStates` map, the state rules of `handleCallbackQuery`, `handleStateMessage` and `handleCommand`, the permission check, and `loadConfig`.

Behaviours of the code worth knowing:

- The feed watermark is not monotonic. `fetchRSS` writes the greatest time among the
  items it just read, even when that time is older than the stored watermark
  (`Feed.WatermarkCanMoveBack`).
- The help text advertises `#t`/`#c`/`#a` scopes and `+name` feed filters. The matcher
  implements neither: such a rule is matched as plain text like any other.
- When `validateAndProcessSubscription` subscribes to an existing row, it finds the row
  by URL *or* name but writes the new user list only to rows with the submitted URL.
  If the row was found by name and no row has that URL, the subscription reports success
  and changes nothing (`Subscriptions.SubscribeByNameOnlyChangesNothing`). If the name
  belongs to one row and the URL to a later row, that later row's user list is replaced
  by the first row's list plus the user (`Subscriptions.SubscribeOverwritesOtherRow`).
- The placeholders that protect the kept tags can run into each other. The restores run
  in table order, bold first, so in `§§§I§§§B§§§/I§§§` (the protected `<i>B</i>`) the
  bold restore finds `§§§B§§§` starting inside the italic placeholder. The result is
  `§§§I<b>/I§§§` and not `<i>B</i>` (`Html.ItalicAroundB`). Bold spans are safe because
  their placeholders are restored first (`Html.BoldKept`).
- The img pass removes one tag per match and does not look again at the text it has
  already passed, so `<im<img>g>` becomes `<img>` (`Html.ImgPassJoins`).

## Model

| member | source | states |
|---|---|---|
| Matcher.MatchesKeywords | TGRSSBot/rss.go:207-269 | the matcher's result is the block-vetoed list of hitting positive rules over the lower-cased "title description" corpus |
| Matcher.NoRulesNoMatch | TGRSSBot/rss.go:208-210 | an empty rule list matches nothing |
| Matcher.ParseRuleMeaning | TGRSSBot/rss.go:218-227 | a rule is skipped exactly when it trims to empty; otherwise exactly one leading '-' marks it as a block rule and is removed |
| Matcher.HitsMeaning | TGRSSBot/rss.go:229-258 | a rule containing '*' hits exactly when the anchored wildcard matches the corpus; any other rule hits exactly when its lower-cased text occurs in the corpus |
| Matcher.ScanIsWildcard | TGRSSBot/rss.go:233-241 | the greedy scanner decides `^.*` + rule (with '*' read as `.*`) + `.*$` exactly, against the reference glob semantics |
| Matcher.WildcardLiteral | TGRSSBot/rss.go:233-241 | for a text without '*', the wildcard reading is the same as a substring test |
| Matcher.WildcardSplit | TGRSSBot/rss.go:233-241 | for a rule lit*rest, the leftmost occurrence of lit decides the wildcard match |
| Matcher.GlobSelf | TGRSSBot/rss.go:251-258 | a rule read as a wildcard pattern matches every text that starts with the rule itself |
| Matcher.LiteralImpliesWildcard | TGRSSBot/rss.go:251-258 | every literal occurrence is also a wildcard hit, so the substring fallback after a failed wildcard adds no hit |
| Matcher.ClassifyMeaning | TGRSSBot/rss.go:217-258 | a rule includes x exactly when it is the positive rule x and hits; it excludes exactly when it is a block rule that hits |
| Matcher.BlockVeto | TGRSSBot/rss.go:261-266 | one hitting block rule empties the result, whatever positive rules hit |
| Matcher.MatchResultMeaning | TGRSSBot/rss.go:212-268 | x is reported exactly when no rule excludes and some rule includes x |
| Matcher.ExcludedMeaning | TGRSSBot/rss.go:242-243 | the blocked list is non-empty exactly when some rule excluded |
| Matcher.IncludedMeaning | TGRSSBot/rss.go:244-245 | the matched list holds exactly the included texts |
| Matcher.IncludedLength | TGRSSBot/rss.go:217-258 | at most one reported text per rule |
| Matcher.MatchedAreTrimmedRules | TGRSSBot/rss.go:218-256 | every reported text is the trimmed text of some rule, in its original case |
| Matcher.BlankRuleIgnored | TGRSSBot/rss.go:218-221 | a blank rule may be dropped from any position of the list without changing the result |
| Matcher.LoneDashBlocksAll | TGRSSBot/rss.go:223-258 | a rule "-" blocks every item, because its empty text occurs in every corpus |
| Matcher.CorpusIgnoresCase | TGRSSBot/rss.go:214 | matching does not depend on the case of the item |
| Feed.Seed | TGRSSBot/rss.go:179-188 | a missing feed_data row is inserted, and every other row is left alone |
| Feed.FetchRSS | TGRSSBot/rss.go:117-165 | a parse error returns the error without writing; an empty feed gives no messages and no write; otherwise the result is the items newer than the watermark, and the table is the seeded table with the new watermark; the table invariant `Store.Database.Valid` is kept |
| Feed.NewMessagesMeaning | TGRSSBot/rss.go:142-157 | a message is returned exactly when some item's effective time is strictly after the watermark |
| Feed.NewMessagesAppend | TGRSSBot/rss.go:142-157 | selection keeps feed order |
| Feed.NewMessagesAreNewer | TGRSSBot/rss.go:149 | every returned message is newer than the watermark |
| Feed.MaxTimeMeaning | TGRSSBot/rss.go:140-146 | the latest time is the greatest effective time among the items, or 0 |
| Feed.AfterFetchWatermark | TGRSSBot/rss.go:159-162 | after a fetch the row holds the greatest time and the first item's title, unless every time is 0; no other row changes |
| Feed.WatermarkCanMoveBack | TGRSSBot/rss.go:140-162 | a feed whose items are all older than the watermark moves the watermark back |
| Feed.RefetchSelectsNothing | TGRSSBot/rss.go:142-162 | fetching the same dated items again right after a fetch selects nothing |
| Feed.FirstFetchSelectsAll | TGRSSBot/rss.go:131-136 | without a watermark row, every item with a positive time is selected |
| Parse.ParseUserIDs | TGRSSBot/rss.go:47-61 | the loop returns the ids of UserIDs: the trimmed column is split at commas and the fields that scan as positive numbers are kept |
| Parse.ScanDecimal | TGRSSBot/rss.go:56 | a scanned id always fits an int64 |
| Parse.KeptIDsMeaning | TGRSSBot/rss.go:54-59 | an id is kept exactly when its trimmed field scans to that positive number |
| Parse.KeptIDsPositive | TGRSSBot/rss.go:56-58 | every kept id is positive and fits an int64 |
| Parse.EmptyUsers | TGRSSBot/rss.go:48-51 | "" and "[]" give no ids |
| Parse.ScanPrinted | TGRSSBot/rss.go:56 | a printed positive number scans back to itself |
| Parse.UserIDsRoundTrip | TGRSSBot/rss.go:47-61 | reading back the JSON id list the bot writes gives the same ids |
| Parse.ParseKeywords | TGRSSBot/rss.go:91-114 | the loop returns the keywords of Keywords: nothing for blank text, the decoded array for a JSON array, else the trimmed non-empty comma pieces |
| Parse.CommaPieces | TGRSSBot/rss.go:106-112 | every comma piece kept is trimmed and non-empty |
| Parse.KeywordsClean | TGRSSBot/rss.go:106-113 | every keyword read from a comma list is trimmed and non-empty |
| Parse.KeywordsRoundTrip | TGRSSBot/rss.go:91-114 | a comma list of clean keywords reads back as the same list |
| Html.ExtractImageURLMeaning | TGRSSBot/rss.go:405-432 | the result is "" exactly when no pattern matches anywhere; otherwise it is the leftmost match of the first pattern, in the order img src, image URL, Telegram CDN URL |
| Html.FindMeaning | TGRSSBot/rss.go:407-428 | a pattern's first match is the match at the least start position that has one |
| Html.ImgAtMeaning | TGRSSBot/rss.go:407-412 | the img pattern yields the capture of the last `src=` that can be reached before the first '>', as greedy `[^>]+` does |
| Html.SrcAtMeaning | TGRSSBot/rss.go:407 | the capture is a non-empty run of non-quote characters between two quotes |
| Html.UrlAtMeaning | TGRSSBot/rss.go:415-420 | the image-URL match ends at the last dot of the URL run that is followed by a listed extension |
| Html.CdnAt | TGRSSBot/rss.go:423-428 | a CDN match is a non-empty string |
| Html.MatchNonEmpty | TGRSSBot/rss.go:407-428 | every match of every pattern is non-empty, so "" means that nothing was found |
| Html.CleanHTMLContent | TGRSSBot/rss.go:435-492 | the passes are applied in order, and the result never has three newlines in a row |
| Html.Collapse | TGRSSBot/rss.go:488-489 | runs of three or more newlines become two; a text without such runs is unchanged |
| Html.PlainTextUnchanged | TGRSSBot/rss.go:435-492 | text with no '<', no '§' and no triple newline passes through unchanged |
| Html.ImgTagRemoved | TGRSSBot/rss.go:437-438 | an `<img ...>` tag is removed wherever it stands after text holding no `<img`; that text is kept and the pass goes on after the tag's `>` |
| Html.ImgTagAtFront | TGRSSBot/rss.go:437-438 | an `<img ...>` tag at the front is removed and the pass goes on after its `>` |
| Html.ImgPassJoins | TGRSSBot/rss.go:437-438 | the single pass over `<im<img>g>` removes the inner tag and leaves `<img>`: the pass does not rescan what it joined |
| Html.BrBecomesNewline | TGRSSBot/rss.go:441-442 | `<br>`, `<br/>` and `<br />`, with any run of `\s` before the close, become one newline wherever they stand after text holding no `<br`; that text is kept and the pass goes on after the tag |
| Html.BrAtFront | TGRSSBot/rss.go:441-442 | such a br tag at the front becomes a newline and the pass goes on after it |
| Html.BoldProtect | TGRSSBot/rss.go:449-465 | the protect passes turn `<b>` and `</b>` around text without `<` into their placeholders and change nothing else |
| Html.BoldUnprotect | TGRSSBot/rss.go:472-485 | the restore passes turn the bold placeholders around text without `§` back into `<b>` and `</b>` and change nothing else |
| Html.BoldKept | TGRSSBot/rss.go:435-492 | a bold span around text without `<`, without `§` and without three newlines in a row comes out of the whole cleaning unchanged |
| Html.ItalicProtect | TGRSSBot/rss.go:449-465 | the bold passes leave `<i>` and `</i>` around text without `<` alone, and the italic passes turn them into their placeholders |
| Html.ItalicAroundB | TGRSSBot/rss.go:435-492 | `<i>B</i>` comes out as `§§§I<b>/I§§§`: the bold restore finds `§§§B§§§` across the two italic placeholders |
| Html.StripLeavesNoTag | TGRSSBot/rss.go:468-469 | after the strip pass, no '<' is followed later by a '>' |
| Push.ProcessSubscription | TGRSSBot/rss.go:272-350 | a failed or empty fetch pushes nothing; otherwise the notifications and pushCount are those of the selected messages against the subscribed users, and the statistics record pushCount pushes; the table invariant is kept |
| Push.PushMessages | TGRSSBot/rss.go:288-348 | the message loop gives the notifications and pair count of all messages, and records that many pushes |
| Push.ProcessMessage | TGRSSBot/rss.go:290-347 | the user loop gives one message's notifications and pair count, and records that many pushes |
| Push.ProcessUser | TGRSSBot/rss.go:291-346 | a user without keywords is skipped; a non-empty match is one push, one recorded push and that user's notifications |
| Push.ComposeNotices | TGRSSBot/rss.go:305-345 | one push gives the user a photo of the image found in a channel post's description, or else an HTML text; that text shows every matched keyword in a code tag; the admin, and only the admin, also gets the copy |
| Push.LayoutMeaning | TGRSSBot/rss.go:317-341 | photo exactly for a channel post with an image, HTML text otherwise, both to the user; every matched keyword in a code tag and the date are shown; a channel post shows the feed name and the cleaned description, an item its title and link, in the user's text and in the admin copy |
| Push.KeywordShown | TGRSSBot/rss.go:306-313 | every matched keyword appears in the formatted list as `<code>keyword</code>` |
| Push.NoKeywordsNoPush | TGRSSBot/rss.go:291-294 | a user with no keywords, or whose keywords do not match, gets no notification |
| Push.MessageNoticesFor | TGRSSBot/rss.go:290-298 | a user is notified about a message exactly when the user is listed and the message matches the user's keywords |
| Push.PushNoticesFor | TGRSSBot/rss.go:325-345 | one push notifies the pushed user and nobody else |
| Push.PushNoticesDirect | TGRSSBot/rss.go:325-345 | one push sends exactly one notification to the user, plus one admin copy when the user is the admin |
| Push.MessageDirect | TGRSSBot/rss.go:289-299 | the notifications for a message number the matching users |
| Push.PushCountIsDirectNotices | TGRSSBot/rss.go:288-299 | pushCount equals the number of notifications sent to users |
| Push.MirrorOnlyForAdmin | TGRSSBot/rss.go:343-345 | there is no admin copy when the admin is not among the listed users |
| Push.RecordTimesSameDay | TGRSSBot/rss.go:299-304 | on the same day, n recorded pushes add n to the total and to the feed's counter |
| Stats.PushStats.constructor | TGRSSBot/main.go:114-117 | the statistics start at today's date with no pushes |
| Stats.PushStats.ResetIfNeeded | TGRSSBot/main.go:124-140 | the counters are cleared exactly when the date changed, and stay consistent |
| Stats.PushStats.RecordPush | TGRSSBot/main.go:143-159 | a push is recorded after the reset, and the counters stay consistent |
| Stats.InitialConsistent | TGRSSBot/main.go:114-117 | at start the total equals the sum of the per-feed counts |
| Stats.ResetConsistent | TGRSSBot/main.go:128-139 | a reset keeps the total equal to the sum of the per-feed counts |
| Stats.RecordConsistent | TGRSSBot/main.go:143-159 | a recorded push keeps the total equal to the sum of the per-feed counts |
| Stats.ResetIdempotent | TGRSSBot/main.go:128-139 | a second reset on the same day changes nothing |
| Stats.RecordOnNewDay | TGRSSBot/main.go:148-158 | on a new day a push gives date today, total 1 and {name: 1} |
| Stats.RecordSameDay | TGRSSBot/main.go:156-158 | on the same day a push adds one to the total and to its feed, and nothing else changes |
| Keywords.KeywordInput | TGRSSBot/main.go:982-997 | the whitespace-separated words are non-empty and free of spaces, or the input is rejected |
| Keywords.KeywordInputMeaning | TGRSSBot/main.go:984-994 | input is accepted exactly when it holds a non-space character |
| Keywords.KeywordInputWords | TGRSSBot/main.go:984-990 | the accepted tokens, written one after another, are exactly the non-space characters of the message, in order |
| Keywords.KeywordInputJoin | TGRSSBot/main.go:984-990 | words without spaces sent separated by single spaces are accepted as exactly those words |
| Text.FieldsConcat | TGRSSBot/main.go:990 | strings.Fields loses, adds and moves no non-space character |
| Text.FieldsJoin | TGRSSBot/main.go:990 | strings.Fields splits single-space-joined words back into those words |
| Keywords.ProcessKeywords | TGRSSBot/main.go:1334-1351 | the normalisation loop gives the processed keywords: full-width commas become commas, tokens are split at commas, and pieces are trimmed and kept when non-empty |
| Keywords.KeptPiecesMeaning | TGRSSBot/main.go:1340-1349 | a piece survives exactly when it is not blank, and it survives trimmed |
| Keywords.KeptPiecesSingle | TGRSSBot/main.go:1346-1350 | a token without a comma is kept whole, trimmed, unless it is blank |
| Keywords.ProcessedClean | TGRSSBot/main.go:1334-1351 | every processed keyword is non-empty, trimmed and free of both commas |
| Keywords.Collect | TGRSSBot/main.go:1327-1330 | the set of stored keywords |
| Keywords.AddNew | TGRSSBot/main.go:1353-1360 | the set becomes the union, and addedCount is the number of distinct new keywords not already stored |
| Keywords.Enumerate | TGRSSBot/main.go:1367-1371 | every key is listed exactly once, in any order |
| Keywords.SortStrings | TGRSSBot/main.go:1374 | sorting keeps the multiset of keywords |
| Keywords.SortSorted | TGRSSBot/main.go:1374 | sort.Strings gives a sorted list |
| Keywords.SortAscending | TGRSSBot/main.go:1367-1374 | sorting a list without duplicates gives a strictly ascending list |
| Keywords.SortElems | TGRSSBot/main.go:1374 | sorting keeps the set of keywords |
| Keywords.AscendingUnique | TGRSSBot/main.go:1367-1374 | the stored list does not depend on the map's iteration order |
| Keywords.AddKeywordsForUser | TGRSSBot/main.go:1319-1425 | with nothing new, nothing is written and the reply says so; otherwise the user's list becomes the strictly ascending union of the old and new keywords, no other user changes, and the reply counts both; the table invariant is kept |
| Keywords.AddAgainAddsNothing | TGRSSBot/main.go:1353-1365 | adding the same input again adds nothing |
| Keywords.RemoveKeywordForUser | TGRSSBot/main.go:1427-1490 | an absent keyword gives "不存在" and no write; otherwise every exact occurrence is dropped and the rest is kept in order; the table invariant is kept |
| Keywords.RemovedKeywordAbsent | TGRSSBot/main.go:1433-1445 | after removal the keyword is gone and every other keyword remains |
| Subscriptions.HttpSchemeMeaning | TGRSSBot/main.go:1699-1702 | a URL passes the check exactly when it has no control character before its fragment and starts with "http:" or "https:", ignoring case |
| Subscriptions.GetSchemeShape | TGRSSBot/main.go:1699 | a non-empty scheme is the text before a ':' |
| Subscriptions.FindRow | TGRSSBot/main.go:1718 | the lookup returns the first row whose URL or name matches, or none |
| Subscriptions.RowNamed | TGRSSBot/main.go:1556 | the lookup returns the first row with that name, or none |
| Subscriptions.ValidateAndProcessSubscription | TGRSSBot/main.go:1697-1773 | the database becomes the tables of Subscribe on success and is unchanged on any error, which is returned; the table invariant is kept |
| Store.Database.constructor | TGRSSBot/main.go:1237-1252 | the database starts with empty tables, which satisfy the table invariant |
| Feed.AfterFetchKeys | TGRSSBot/rss.go:159-188 | a fetch keeps every feed_data row and adds at most the fetched feed's row |
| Subscriptions.SubscribeConsistent | TGRSSBot/main.go:1716-1769 | a successful subscription keeps names and URLs unique, user lists non-empty and without duplicates, and every row with a feed_data row |
| Subscriptions.SubscribeNewThenUnsubscribe | TGRSSBot/main.go:1720-1741 | creating a subscription and then leaving it restores both tables |
| Subscriptions.SubscribeExistingThenUnsubscribe | TGRSSBot/main.go:1744-1768 | joining an existing row found by URL and then leaving it restores both tables |
| Subscriptions.SubscribeByNameOnlyChangesNothing | TGRSSBot/main.go:1718-1768 | a row found only by name is not updated, yet the call reports success |
| Subscriptions.SubscribeOverwritesOtherRow | TGRSSBot/main.go:1718-1768 | with the name on one row and the URL on a later row, the later row gets the first row's users plus the new user |
| Subscriptions.UpdateByURLSingle | TGRSSBot/main.go:1765 | with unique URLs, the update touches exactly the row with that URL |
| Subscriptions.RemoveSubscriptionForUser | TGRSSBot/main.go:1545-1640 | the database becomes the tables of Unsubscribe on success and is unchanged on error; the table invariant is kept |
| Subscriptions.WithoutDistinct | TGRSSBot/main.go:1607-1612 | filtering a user out keeps the list free of duplicates, and keeps exactly the other users |
| Subscriptions.UnsubscribeMeaning | TGRSSBot/main.go:1607-1630 | other rows are unchanged, the named row loses the user, and when no users remain the row and its feed_data row are gone |
| Subscriptions.UnsubscribeConsistent | TGRSSBot/main.go:1607-1630 | leaving a subscription keeps the tables consistent |
| Subscriptions.SubscriptionInputRoundTrip | TGRSSBot/main.go:1000-1010 | "url name channel" with space-free url and name reads back as those three parts |
| Chunks.SplitMessage | TGRSSBot/main.go:1839-1863 | the loop gives the chunks of Pieces |
| Chunks.LastIndexOf | TGRSSBot/main.go:1845 | the result is the last position of the byte, or -1 |
| Chunks.Cut | TGRSSBot/main.go:1843-1853 | a chunk ends at the window's last newline when that newline lies past the middle, else at the window's end |
| Chunks.PiecesBounds | TGRSSBot/main.go:1839-1863 | every chunk is non-empty and at most maxLength bytes, and every chunk but the last is longer than maxLength/2 |
| Chunks.PiecesRejoin | TGRSSBot/main.go:1846-1853 | putting the dropped newlines back between the chunks gives the text |
| Chunks.LastNotDropped | TGRSSBot/main.go:1846-1860 | only a newline followed by more text is dropped |
| Chunks.SplitShort | TGRSSBot/main.go:1842-1860 | empty text gives no chunks; a text that fits gives itself; a longer text gives at least two chunks |
| Keyboard.CreateDeleteKeyboard | TGRSSBot/main.go:476-499 | the keyboard is the item buttons in rows of three, then an empty row, then the back button |
| Keyboard.ItemButtons | TGRSSBot/main.go:481-485 | one "❌ item" button with data prefix_item per item, in item order |
| Keyboard.RowsShape | TGRSSBot/main.go:480-491 | there are ⌈n/3⌉ item rows of one to three buttons, which laid end to end are the buttons in order |
| Keyboard.KeywordButtonDecodes | TGRSSBot/main.go:1163-1165 | a keyword delete button decodes to deleting exactly its keyword |
| Keyboard.SubscriptionButtonDecodes | TGRSSBot/main.go:1167-1169 | a subscription delete button decodes to deleting exactly its subscription |
| Keyboard.BackButtonDecodes | TGRSSBot/main.go:1139-1140 | the back button returns to the main menu |
| Session.Sessions.SetUserState | TGRSSBot/main.go:303-319 | the user's state is replaced, and no other user changes |
| Session.Sessions.GetUserState | TGRSSBot/main.go:322-326 | the user's state, or none when there is no state |
| Session.Sessions.ClearUserState | TGRSSBot/main.go:330-335 | the user's state is removed, and no other user changes |
| Session.AfterButton | TGRSSBot/main.go:1133-1135 | the two "add" buttons set the user's state and every other button clears it; other users are untouched |
| Session.Sessions.PressButton | TGRSSBot/main.go:1132-1152 | a button press changes the states as AfterButton says |
| Session.Sessions.RouteText | TGRSSBot/main.go:933-979 | a non-command text goes to keyword or subscription input by the user's state, an unknown state is cleared, and without a state a reply to one of the two prompts is routed to that input |
| Session.Sessions.HandleCommand | TGRSSBot/main.go:1076-1096 | the command is allowed by CommandAllowed, and an allowed "start" clears the state |
| Session.AfterButtonKnown | TGRSSBot/main.go:1133-1152 | buttons only store the two known actions |
| Session.KnownRoutes | TGRSSBot/main.go:933-979 | with only known actions stored, no text is routed to the unknown-state branch |
| Session.ReplyRouteMeaning | TGRSSBot/main.go:940-951 | without a state, a reply is keyword input exactly when the replied text has the keyword prompt, subscription input exactly when it has only the subscription prompt, and anything else gets the default hint |
| Session.RouteAfterButton | TGRSSBot/main.go:1133-1152 | after "add_keyword" text is keyword input, after "add_subscription" subscription input, and after any other button it is routed as a stateless message, by the text it replies to |
| Session.CommandAllowedMeaning | TGRSSBot/main.go:1079-1087 | with an admin configured only the admin may use commands; with ADMINIDS 0, everybody may |
| Session.LoadConfig | TGRSSBot/main.go:183-207 | a loaded configuration has a bot token and a positive cycle time |
| Session.LoadConfigMeaning | TGRSSBot/main.go:196-203 | loading succeeds exactly when the file decodes and has a token; only a cycle time that is not positive changes, to 300 |
| Session.LoadConfigIdempotent | TGRSSBot/main.go:196-203 | loading a loaded configuration again changes nothing |

## Left out

- Telegram transport and UI are not modelled: `MessageSender`, the send functions, `HandleLongText`'s sends, `showMainMenu`, `showHelp`, `createMainMenuKeyboard`, and the keyword/subscription views. Keyboards are sequences of rows of (caption, data) buttons.
- Telegram's 64-byte limit on callback data is not modelled, so a long keyword's delete button is not rejected.
- SQLite plumbing is not modelled: `initDatabase`, `withDB`, transactions, the queries of `getSubscriptions`, `getUserKeywords`, `getSubscriptionsForUser` and `getUserStats`. The tables are in-memory values. Database and I/O errors are not modelled, except a missing row.
- Users and keywords are stored as JSON text. The model stores the decoded lists. The JSON branch of `parseKeywords` takes what `encoding/json` decoded as an input.
- `removeSubscriptionForUser`'s fallback for the legacy ",1,2," users format (main.go:1566-1603) is not modelled. The model only reads lists in the format the bot writes.
- The network is not modelled. `verifyRSSFeed`'s verdict is an input. gofeed parsing is an input: a parse error, or a list of items.
- `createHTTPClient`, `sendother` and `downloadcounnt` are not modelled.
- Time is not modelled. Times are integers, and `time.Now`, today's date and the UTC+8 "2006-01-02 15:04:05" formatting are parameters. The truncation to seconds when the watermark is stored is not modelled.
- Concurrency is not modelled: the goroutines of `checkAllRSS`, the ticker of `startRSSMonitor`, the `go send…` calls, and the three mutexes. One subscription is processed at a time.
- Logging (`logMessage`, `writeToLogFile`) is not modelled.
- `GetPushStatsInfo` is not modelled, because its text depends on Go's map iteration order.
- `strings.ToLower` is modelled on ASCII letters only. Other characters are left unchanged.
- Regular-expression metacharacters other than `*` inside user rules are read literally. Also, `.` in the wildcard expression does not match "\n" in Go, but here it matches any character.
- `cleanHTMLContent`'s placeholders are modelled literally. Which tags survive is proved for plain text, for a bold span (`Html.BoldKept`) and for the italic span that shows the placeholder clash (`Html.ItalicAroundB`). No general statement covers the other kept tags, text that already holds `§§§` sequences, or the `<a href>` rewrite; for those only the absence of triple newlines is proved. A general whitelist lemma would be false as the code stands: `<i>B</i>` does not survive.
- `Subscriptions.HttpScheme`: `url.Parse`'s other failures (bad host, port or escapes) are not modelled. Only control characters before the fragment and a missing scheme are errors.
- The `Data` map of `UserState` is always nil in the source and is not modelled.
- Clearing the state after a successful keyword or subscription add (main.go:578, 723) is `ClearUserState`. The model does not compose it with the add operations.
- Reading and decoding config.json is an input to `LoadConfig`: open failed, decode failed, or the decoded configuration.
- `Store.Database.constructor` starts from empty tables. The SQL statements of `initDatabase` are not modelled; the constraints they declare are part of `Store.Database.Valid`.
