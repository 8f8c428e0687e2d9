/** Editing a user's keyword list: tokenising the input of the add dialogue, normalising
    and merging new keywords into the stored list, and deleting one keyword. The stored
    JSON list is modelled by the list it encodes. */
module Keywords {
  import opened Text
  import opened Store

  // ---------------------------------------------------------------- input

  const InvalidInput := "❌ 请输入有效的关键词"

  /** handleKeywordInput: the whitespace-separated words of the message, or the error reply
      when there are none. */
  function KeywordInput(text: string): (r: Result<seq<string>>)
    ensures r.Ok? ==> r.value != []
    ensures r.Ok? ==> forall i :: 0 <= i < |r.value| ==>
      r.value[i] != [] && forall j :: 0 <= j < |r.value[i]| ==> !IsSpace(r.value[i][j])
    ensures r.Err? ==> r.error == InvalidInput
  {
    var t := TrimSpace(text);
    if t == "" then Err(InvalidInput)
    else
      var keywords := Fields(t);
      if |keywords| == 0 then Err(InvalidInput) else Ok(keywords)
  }

  // ---------------------------------------------------------------- normalisation

  /** The comma-separated pieces of one token once full-width commas are ASCII commas. */
  function Pieces(k: string): seq<string> {
    Split(ReplaceChar(k, '，', ','), ',')
  }

  /** The trimmed pieces that are not empty, in order. */
  function KeptPieces(ps: seq<string>): (r: seq<string>)
    ensures forall i :: 0 <= i < |r| ==> r[i] != [] && !IsSpace(r[i][0]) && !IsSpace(r[i][|r[i]| - 1])
    decreases |ps|
  {
    if ps == [] then []
    else
      var n := |ps| - 1;
      var t := TrimSpace(ps[n]);
      KeptPieces(ps[..n]) + (if t != [] then [t] else [])
  }

  /** The keywords that a list of tokens yields, token by token. */
  function Processed(tokens: seq<string>): seq<string>
    decreases |tokens|
  {
    if tokens == [] then []
    else
      var n := |tokens| - 1;
      Processed(tokens[..n]) + KeptPieces(Pieces(tokens[n]))
  }

  /** The normalisation loop of addKeywordsForUser: a token with a comma is split at its
      commas, every piece is trimmed and the empty ones are dropped. */
  method ProcessKeywords(newKeywords: seq<string>) returns (processed: seq<string>)
    ensures processed == Processed(newKeywords)
  {
    processed := [];
    var i := 0;
    while i < |newKeywords|
      invariant 0 <= i <= |newKeywords|
      invariant processed == Processed(newKeywords[..i])
    {
      ProcessedSnoc(newKeywords, i);
      var k := ReplaceChar(newKeywords[i], '，', ',');
      var kept: seq<string>;
      if ',' in k {
        var parts := Split(k, ',');
        kept := KeepTrimmed(parts);
      } else {
        KeptPiecesSingle(k);
        var trimmed := TrimSpace(k);
        kept := if trimmed != "" then [trimmed] else [];
      }
      assert kept == KeptPieces(Pieces(newKeywords[i]));
      processed := processed + kept;
      i := i + 1;
    }
    assert newKeywords[..i] == newKeywords;
  }

  /** The inner loop over the comma-separated parts of one token. */
  method KeepTrimmed(parts: seq<string>) returns (kept: seq<string>)
    ensures kept == KeptPieces(parts)
  {
    kept := [];
    var j := 0;
    while j < |parts|
      invariant 0 <= j <= |parts|
      invariant kept == KeptPieces(parts[..j])
    {
      assert parts[..j + 1][..j] == parts[..j];
      var trimmed := TrimSpace(parts[j]);
      if trimmed != "" {
        kept := kept + [trimmed];
      }
      j := j + 1;
    }
    assert parts[..j] == parts;
  }

  /** One more token adds the kept pieces of that token. */
  lemma ProcessedSnoc(tokens: seq<string>, i: nat)
    requires i < |tokens|
    ensures Processed(tokens[..i + 1]) == Processed(tokens[..i]) + KeptPieces(Pieces(tokens[i]))
  {
    assert tokens[..i + 1][..i] == tokens[..i];
  }

  /** A token without a comma is kept whole, once trimmed, unless it is blank. */
  lemma KeptPiecesSingle(k: string)
    requires ',' !in k
    ensures KeptPieces(Split(k, ',')) == if TrimSpace(k) != "" then [TrimSpace(k)] else []
  {
    SplitWithoutSeparator(k, ',');
    assert [k][..0] == [];
  }

  /** A string without the separator splits into itself. */
  lemma SplitWithoutSeparator(s: string, sep: char)
    requires sep !in s
    ensures Split(s, sep) == [s]
  {
    assert FirstIndex(s, sep) == |s|;
  }

  // ---------------------------------------------------------------- sorting

  /** Ascending in Go's string order, equal neighbours allowed. */
  predicate Sorted(xs: seq<string>) {
    forall i, j :: 0 <= i < j < |xs| ==> !LexLess(xs[j], xs[i])
  }

  /** Strictly ascending: sorted and without duplicates. */
  predicate Ascending(xs: seq<string>) {
    forall i, j :: 0 <= i < j < |xs| ==> LexLess(xs[i], xs[j])
  }

  /** No element occurs twice. */
  predicate NoDup(xs: seq<string>) {
    forall i, j :: 0 <= i < j < |xs| ==> xs[i] != xs[j]
  }

  /** The elements of a list as a set. */
  function Elems(xs: seq<string>): set<string> {
    set x | x in xs
  }

  /** Only the empty list has no elements. */
  lemma ElemsEmpty(xs: seq<string>)
    ensures Elems(xs) == {} <==> xs == []
  {
    if xs != [] {
      assert xs[0] in Elems(xs);
    }
  }

  /** Insert x before the first element that is not below it. */
  function Insert(x: string, xs: seq<string>): (r: seq<string>)
    ensures multiset(r) == multiset(xs) + multiset{x}
    decreases |xs|
  {
    if xs == [] then [x]
    else if LexLess(xs[0], x) then
      assert xs == [xs[0]] + xs[1..];
      [xs[0]] + Insert(x, xs[1..])
    else [x] + xs
  }

  /** sort.Strings, as an insertion sort. */
  function SortStrings(xs: seq<string>): (r: seq<string>)
    ensures multiset(r) == multiset(xs)
    decreases |xs|
  {
    if xs == [] then []
    else
      var n := |xs| - 1;
      assert xs == xs[..n] + [xs[n]];
      Insert(xs[n], SortStrings(xs[..n]))
  }

  /** "Not below" is transitive. */
  lemma NotBelowTransitive(a: string, b: string, c: string)
    requires !LexLess(b, a) && !LexLess(c, b)
    ensures !LexLess(c, a)
  {
    if a != b && b != c {
      LexLessTotal(a, b);
      LexLessTotal(b, c);
      LexLessTransitive(a, b, c);
      LexLessAsymmetric(a, c);
    }
  }

  /** Inserting into a sorted list keeps it sorted. */
  lemma {:induction false} InsertSorted(x: string, xs: seq<string>)
    requires Sorted(xs)
    ensures Sorted(Insert(x, xs))
    decreases |xs|
  {
    if xs != [] {
      if LexLess(xs[0], x) {
        var t := Insert(x, xs[1..]);
        InsertSorted(x, xs[1..]);
        LexLessAsymmetric(xs[0], x);
        forall k | 0 <= k < |t| ensures !LexLess(t[k], xs[0]) {
          assert t[k] in multiset(t);
          if t[k] != x {
            assert t[k] in multiset(xs[1..]);
            var m :| 0 <= m < |xs[1..]| && xs[1..][m] == t[k];
            assert xs[m + 1] == t[k];
          }
        }
        assert Insert(x, xs) == [xs[0]] + t;
      } else {
        LexLessIrreflexive(xs[0]);
        forall j | 0 <= j < |xs| ensures !LexLess(xs[j], x) {
          NotBelowTransitive(x, xs[0], xs[j]);
        }
      }
    }
  }

  /** Inserting a new element into a strictly ascending list keeps it strictly ascending. */
  lemma {:induction false} InsertAscending(x: string, xs: seq<string>)
    requires Ascending(xs) && x !in xs
    ensures Ascending(Insert(x, xs))
    decreases |xs|
  {
    if xs != [] {
      if LexLess(xs[0], x) {
        var t := Insert(x, xs[1..]);
        InsertAscending(x, xs[1..]);
        forall k | 0 <= k < |t| ensures LexLess(xs[0], t[k]) {
          assert t[k] in multiset(t);
          if t[k] != x {
            assert t[k] in multiset(xs[1..]);
            var m :| 0 <= m < |xs[1..]| && xs[1..][m] == t[k];
            assert xs[m + 1] == t[k];
          }
        }
        assert Insert(x, xs) == [xs[0]] + t;
      } else {
        LexLessTotal(x, xs[0]);
        forall j | 0 <= j < |xs| ensures LexLess(x, xs[j]) {
          if j > 0 {
            LexLessTransitive(x, xs[0], xs[j]);
          }
        }
      }
    }
  }

  /** sort.Strings gives a sorted list. */
  lemma {:induction false} SortSorted(xs: seq<string>)
    ensures Sorted(SortStrings(xs))
    decreases |xs|
  {
    if xs != [] {
      var n := |xs| - 1;
      SortSorted(xs[..n]);
      InsertSorted(xs[n], SortStrings(xs[..n]));
    }
  }

  /** Sorting a list without duplicates gives a strictly ascending list. */
  lemma {:induction false} SortAscending(xs: seq<string>)
    requires NoDup(xs)
    ensures Ascending(SortStrings(xs))
    decreases |xs|
  {
    if xs != [] {
      var n := |xs| - 1;
      var front := xs[..n];
      assert NoDup(front);
      SortAscending(front);
      assert xs[n] !in front;
      assert xs[n] !in multiset(SortStrings(front));
      InsertAscending(xs[n], SortStrings(front));
    }
  }

  /** Sorting keeps the elements. */
  lemma SortElems(xs: seq<string>)
    ensures Elems(SortStrings(xs)) == Elems(xs)
  {
    var r := SortStrings(xs);
    assert forall x :: x in r <==> x in multiset(r);
    assert forall x :: x in xs <==> x in multiset(xs);
  }

  /** Two strictly ascending lists with the same elements are equal: the stored list does
      not depend on the order in which the keyword set is enumerated. */
  lemma {:induction false} AscendingUnique(a: seq<string>, b: seq<string>)
    requires Ascending(a) && Ascending(b) && Elems(a) == Elems(b)
    ensures a == b
    decreases |a|
  {
    ElemsEmpty(a);
    ElemsEmpty(b);
    if a != [] && b != [] {
      assert a[0] in Elems(b) && b[0] in Elems(a);
      var j :| 0 <= j < |b| && b[j] == a[0];
      var i :| 0 <= i < |a| && a[i] == b[0];
      if a[0] != b[0] {
        assert i > 0 && j > 0;
        LexLessAsymmetric(a[0], b[0]);
      }
      LexLessIrreflexive(a[0]);
      assert a[0] !in a[1..] && a[0] !in b[1..];
      assert Elems(a[1..]) == Elems(a) - {a[0]};
      assert Elems(b[1..]) == Elems(b) - {a[0]};
      AscendingUnique(a[1..], b[1..]);
      assert a == [a[0]] + a[1..] && b == [b[0]] + b[1..];
    }
  }

  // ---------------------------------------------------------------- adding

  const NothingAdded := "❌ 没有新增关键词，可能全部已存在"

  /** The numbered keyword line of a reply: "1.a  2.b  ...". */
  function KeywordList(kws: seq<string>): string {
    Join(seq(|kws|, i requires 0 <= i < |kws| => NatToString(i + 1) + "." + kws[i]), "  ")
  }

  function AddedReply(added: nat, final: seq<string>): string {
    "✅ 成功添加 " + NatToString(added) + " 个关键词\n当前共有 " + NatToString(|final|)
      + " 个关键词\n\n📋 关键词列表：\n" + KeywordList(final)
  }

  /** The number of distinct processed keywords that are not stored yet. */
  function AddedCount(existing: seq<string>, processed: seq<string>): nat {
    |Elems(processed) - Elems(existing)|
  }

  /** addKeywordsForUser. The keyword set is enumerated in an arbitrary order before it is
      sorted, as Go's map iteration is. */
  method AddKeywordsForUser(db: Database, userID: int, newKeywords: seq<string>) returns (reply: string)
    requires db.Valid()
    modifies db`userKeywords
    ensures db.Valid()
    ensures var existing := KeywordsOf(old(db.userKeywords), userID);
      var processed := Processed(newKeywords);
      if AddedCount(existing, processed) == 0 then
        reply == NothingAdded && db.userKeywords == old(db.userKeywords)
      else
        && userID in db.userKeywords
        && db.userKeywords == old(db.userKeywords)[userID := db.userKeywords[userID]]
        && Ascending(db.userKeywords[userID])
        && Elems(db.userKeywords[userID]) == Elems(existing) + Elems(processed)
        && reply == AddedReply(AddedCount(existing, processed), db.userKeywords[userID])
  {
    var existingKeywords := KeywordsOf(db.userKeywords, userID);
    var keywordMap := Collect(existingKeywords);
    var processedKeywords := ProcessKeywords(newKeywords);
    var addedCount;
    keywordMap, addedCount := AddNew(keywordMap, existingKeywords, processedKeywords);
    if addedCount == 0 {
      return NothingAdded;
    }
    var finalKeywords := Enumerate(keywordMap);
    SortAscending(finalKeywords);
    SortElems(finalKeywords);
    finalKeywords := SortStrings(finalKeywords);
    db.userKeywords := db.userKeywords[userID := finalKeywords];
    reply := AddedReply(addedCount, finalKeywords);
  }

  /** The keyword set of the stored list. */
  method Collect(xs: seq<string>) returns (keywordMap: set<string>)
    ensures keywordMap == Elems(xs)
  {
    keywordMap := {};
    var i := 0;
    while i < |xs|
      invariant 0 <= i <= |xs|
      invariant keywordMap == Elems(xs[..i])
    {
      assert xs[..i + 1] == xs[..i] + [xs[i]];
      keywordMap := keywordMap + {xs[i]};
      i := i + 1;
    }
    assert xs[..i] == xs;
  }

  /** The counting loop: every processed keyword not in the set yet is added and counted. */
  method AddNew(keywordMap: set<string>, existing: seq<string>, processed: seq<string>)
    returns (keywordMap': set<string>, addedCount: nat)
    requires keywordMap == Elems(existing)
    ensures keywordMap' == Elems(existing) + Elems(processed)
    ensures addedCount == AddedCount(existing, processed)
  {
    keywordMap' := keywordMap;
    addedCount := 0;
    var i := 0;
    while i < |processed|
      invariant 0 <= i <= |processed|
      invariant keywordMap' == keywordMap + Elems(processed[..i])
      invariant addedCount == |keywordMap' - keywordMap|
    {
      var k := processed[i];
      ElemsSnoc(processed, i);
      if k !in keywordMap' {
        NewKeyCounted(keywordMap', keywordMap, k);
        keywordMap' := keywordMap' + {k};
        addedCount := addedCount + 1;
      }
      i := i + 1;
    }
    assert processed[..i] == processed;
    NewKeysBeyond(keywordMap, existing, processed);
  }

  /** The keys the list adds beyond the base set are its elements not in the base list. */
  lemma NewKeysBeyond(base: set<string>, existing: seq<string>, processed: seq<string>)
    requires base == Elems(existing)
    ensures base + Elems(processed) - base == Elems(processed) - Elems(existing)
  {
  }

  /** A key not in the set yet adds one to the number of keys beyond the base set. */
  lemma NewKeyCounted(keys: set<string>, base: set<string>, k: string)
    requires k !in keys
    ensures |keys + {k} - base| == |keys - base| + (if k in base then 0 else 1)
  {
    if k in base {
      assert keys + {k} - base == keys - base;
    } else {
      assert keys + {k} - base == (keys - base) + {k};
    }
  }

  /** One more element of a list adds that element to the set. */
  lemma ElemsSnoc(xs: seq<string>, i: nat)
    requires i < |xs|
    ensures Elems(xs[..i + 1]) == Elems(xs[..i]) + {xs[i]}
  {
    assert xs[..i + 1] == xs[..i] + [xs[i]];
  }

  /** Appending an element adds it to the set. */
  lemma ElemsAppend(xs: seq<string>, k: string)
    ensures Elems(xs + [k]) == Elems(xs) + {k}
  {
    assert forall x :: x in xs + [k] <==> x in xs || x == k;
  }

  /** Appending an element not yet present keeps the list free of duplicates. */
  lemma NoDupAppend(xs: seq<string>, k: string)
    requires NoDup(xs) && k !in Elems(xs)
    ensures NoDup(xs + [k])
  {
    var ys := xs + [k];
    forall i, j | 0 <= i < j < |ys| ensures ys[i] != ys[j] {
      if j == |xs| {
        assert ys[i] == xs[i] && xs[i] in Elems(xs);
      } else {
        assert ys[i] == xs[i] && ys[j] == xs[j];
      }
    }
  }

  /** The keys of the set as a list without duplicates, in an unspecified order. */
  method Enumerate(keywordMap: set<string>) returns (xs: seq<string>)
    ensures Elems(xs) == keywordMap && NoDup(xs)
  {
    xs := [];
    var rest := keywordMap;
    while rest != {}
      invariant Elems(xs) + rest == keywordMap
      invariant Elems(xs) !! rest
      invariant NoDup(xs)
      decreases |rest|
    {
      var k :| k in rest;
      assert k !in Elems(xs);
      ElemsAppend(xs, k);
      NoDupAppend(xs, k);
      xs := xs + [k];
      rest := rest - {k};
    }
  }

  // ---------------------------------------------------------------- removing

  function NotFoundReply(keyword: string): string {
    "❌ 关键词 \"" + keyword + "\" 不存在"
  }

  function RemovedReply(keyword: string, rest: seq<string>): string {
    if rest == [] then "✅ 关键词 \"" + keyword + "\" 已删除\n当前没有关键词"
    else
      "✅ 关键词 \"" + keyword + "\" 已删除\n当前剩余 " + NatToString(|rest|)
        + " 个关键词\n\n📋 关键词列表：\n" + KeywordList(SortStrings(rest))
  }

  /** removeKeywordForUser: every exact occurrence is dropped and the rest is stored in its
      order; nothing is written when the keyword is not in the list. */
  method RemoveKeywordForUser(db: Database, userID: int, keyword: string) returns (reply: string)
    requires db.Valid()
    modifies db`userKeywords
    ensures db.Valid()
    ensures var keywords := KeywordsOf(old(db.userKeywords), userID);
      if keyword !in keywords then
        reply == NotFoundReply(keyword) && db.userKeywords == old(db.userKeywords)
      else
        && db.userKeywords == old(db.userKeywords)[userID := Without(keywords, keyword)]
        && reply == RemovedReply(keyword, Without(keywords, keyword))
  {
    var keywords := KeywordsOf(db.userKeywords, userID);
    var newKeywords: seq<string> := [];
    var found := false;
    var i := 0;
    while i < |keywords|
      invariant 0 <= i <= |keywords|
      invariant newKeywords == Without(keywords[..i], keyword)
      invariant found <==> keyword in keywords[..i]
    {
      assert keywords[..i + 1][..i] == keywords[..i];
      assert keywords[..i + 1] == keywords[..i] + [keywords[i]];
      if keywords[i] != keyword {
        newKeywords := newKeywords + [keywords[i]];
      } else {
        found := true;
      }
      i := i + 1;
    }
    assert keywords[..i] == keywords;
    if !found {
      return NotFoundReply(keyword);
    }
    db.userKeywords := db.userKeywords[userID := newKeywords];
    reply := RemovedReply(keyword, newKeywords);
  }

  // ---------------------------------------------------------------- properties

  /** After a removal the keyword is gone and every other stored keyword is still there. */
  lemma RemovedKeywordAbsent(xs: seq<string>, k: string)
    ensures k !in Without(xs, k)
    ensures Elems(Without(xs, k)) == Elems(xs) - {k}
  {
    WithoutCounts(xs, k);
    assert forall x :: x in Without(xs, k) <==> x in multiset(Without(xs, k));
  }

  /** The pieces a token yields contain no comma of either width and no space at either end. */
  lemma {:induction false} KeptPiecesCommaFree(ps: seq<string>)
    requires forall i :: 0 <= i < |ps| ==> ',' !in ps[i] && '，' !in ps[i]
    ensures forall i :: 0 <= i < |KeptPieces(ps)| ==> ',' !in KeptPieces(ps)[i] && '，' !in KeptPieces(ps)[i]
    decreases |ps|
  {
    if ps != [] {
      var n := |ps| - 1;
      KeptPiecesCommaFree(ps[..n]);
      var t := TrimSpace(ps[n]);
      var a :| TrimmedAt(ps[n], t, a, IsSpace);
      assert forall c :: c in t ==> c in ps[n];
    }
  }

  /** Every piece of a token is free of either comma. */
  lemma PiecesCommaFree(k: string)
    ensures forall i :: 0 <= i < |Pieces(k)| ==> ',' !in Pieces(k)[i] && '，' !in Pieces(k)[i]
  {
    var r := ReplaceChar(k, '，', ',');
    assert '，' !in r;
    JoinSplit(r, ',');
    forall i | 0 <= i < |Pieces(k)| ensures '，' !in Pieces(k)[i] {
      SplitPieceWithin(r, ',', i);
    }
  }

  /** A piece of a split holds only characters of the split string. */
  lemma {:induction false} SplitPieceWithin(s: string, sep: char, i: nat)
    requires i < |Split(s, sep)|
    ensures forall c :: c in Split(s, sep)[i] ==> c in s
    decreases |s|
  {
    var k := FirstIndex(s, sep);
    if k < |s| && i > 0 {
      SplitPieceWithin(s[k + 1..], sep, i - 1);
    }
  }

  /** Every processed keyword is non-empty, trimmed and free of either comma. */
  lemma {:induction false} ProcessedClean(tokens: seq<string>)
    ensures forall i :: 0 <= i < |Processed(tokens)| ==>
      var x := Processed(tokens)[i];
      x != [] && !IsSpace(x[0]) && !IsSpace(x[|x| - 1]) && ',' !in x && '，' !in x
    decreases |tokens|
  {
    if tokens != [] {
      var n := |tokens| - 1;
      ProcessedClean(tokens[..n]);
      PiecesCommaFree(tokens[n]);
      KeptPiecesCommaFree(Pieces(tokens[n]));
    }
  }

  /** Every piece, trimmed. */
  function TrimmedPieces(ps: seq<string>): (r: seq<string>)
    ensures |r| == |ps|
  {
    seq(|ps|, j requires 0 <= j < |ps| => TrimSpace(ps[j]))
  }

  /** A piece survives normalisation exactly when it is not blank, and survives trimmed. */
  lemma {:induction false} KeptPiecesMeaning(ps: seq<string>, x: string)
    ensures x in KeptPieces(ps) <==> x != [] && x in TrimmedPieces(ps)
    decreases |ps|
  {
    if ps != [] {
      var n := |ps| - 1;
      var t := TrimSpace(ps[n]);
      var front := ps[..n];
      assert KeptPieces(ps) == KeptPieces(front) + (if t != [] then [t] else []);
      TrimmedPiecesSnoc(ps);
      KeptPiecesMeaning(front, x);
    }
  }

  /** The trimmed pieces of a list are those of its front, then its last piece trimmed. */
  lemma TrimmedPiecesSnoc(ps: seq<string>)
    requires ps != []
    ensures TrimmedPieces(ps) == TrimmedPieces(ps[..|ps| - 1]) + [TrimSpace(ps[|ps| - 1])]
  {
    var n := |ps| - 1;
    var a := TrimmedPieces(ps);
    var b := TrimmedPieces(ps[..n]) + [TrimSpace(ps[n])];
    forall j | 0 <= j < |a| ensures a[j] == b[j] {
      if j < n {
        assert ps[..n][j] == ps[j];
      }
    }
  }

  /** Adding twice the same input adds nothing the second time. */
  lemma AddAgainAddsNothing(existing: seq<string>, final: seq<string>, processed: seq<string>)
    requires Elems(final) == Elems(existing) + Elems(processed)
    ensures AddedCount(final, processed) == 0
  {
    assert Elems(processed) - Elems(final) == {};
  }

  /** The keyword input yields a token exactly when the text holds a non-space character. */
  lemma KeywordInputMeaning(text: string)
    ensures KeywordInput(text).Ok? <==> exists i :: 0 <= i < |text| && !IsSpace(text[i])
  {
    var t := TrimSpace(text);
    var a :| TrimmedAt(text, t, a, IsSpace);
    if t != [] {
      assert !IsSpace(text[a]);
      FieldsNonEmpty(t);
    } else {
      assert forall i :: 0 <= i < |text| ==> IsSpace(text[i]);
    }
  }

  /** The accepted tokens are the words of the text: written one after another they are
      exactly its non-space characters, in order. */
  lemma KeywordInputWords(text: string)
    ensures KeywordInput(text).Ok? ==> Concat(KeywordInput(text).value) == NonSpace(text)
  {
    FieldsConcat(TrimSpace(text));
    NonSpaceOfTrimSpace(text);
  }

  /** Words without spaces, sent separated by single spaces, are accepted as those words. */
  lemma KeywordInputJoin(ws: seq<string>)
    requires ws != [] && forall i :: 0 <= i < |ws| ==> Word(ws[i])
    ensures KeywordInput(Join(ws, " ")) == Ok(ws)
  {
    var s := Join(ws, " ");
    JoinWordsEnds(ws);
    TrimSpaceOfTrimmed(s);
    FieldsJoin(ws);
  }
}
