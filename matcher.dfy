/** The keyword matcher of the push engine: a user's rules are checked against an item's
    lower-cased "title description" corpus; block rules (leading '-') veto the item,
    other rules that hit are reported in rule order. */
module Matcher {
  import opened Text

  // ---------------------------------------------------------------- wildcard semantics

  /** Reference meaning of a wildcard pattern: '*' stands for any run of characters,
      every other character for itself, and the whole corpus must be covered. */
  predicate Glob(p: string, s: string)
    decreases |p| + |s|
  {
    if p == [] then s == []
    else if p[0] == '*' then Glob(p[1..], s) || (s != [] && Glob(p, s[1..]))
    else s != [] && s[0] == p[0] && Glob(p[1..], s[1..])
  }

  /** The anchored regular expression `^.*` + rule (with every `*` read as `.*`) + `.*$`
      that the engine compiles for a rule containing '*', in terms of Glob. */
  predicate WildcardMatches(rule: string, corpus: string) {
    Glob("*" + rule + "*", corpus)
  }

  /** A greedy scanner for WildcardMatches: each literal piece between stars is located at
      its leftmost occurrence after the previous piece. */
  function Scan(rule: string, s: string): (b: bool)
    decreases |rule|, 1
  {
    var j := FirstIndex(rule, '*');
    var i := IndexOf(s, rule[..j]);
    if i < 0 then false else ScanFrom(rule, s, j, i)
  }

  /** The scan once the j characters before the first star were found at i: done when the
      rule has no star, else the rest of the rule is scanned after them. */
  function ScanFrom(rule: string, s: string, j: nat, i: nat): bool
    requires j <= |rule| && i + j <= |s|
    decreases |rule|, 0
  {
    if j == |rule| then true else Scan(rule[j + 1..], s[i + j..])
  }

  lemma {:induction false} GlobStar(s: string)
    ensures Glob("*", s)
    decreases |s|
  {
    if s != [] {
      GlobStar(s[1..]);
    }
  }

  /** A leading star absorbs any prefix of the corpus. */
  lemma {:induction false} StarPrefix(q: string, s: string)
    ensures Glob("*" + q, s) <==> exists k :: 0 <= k <= |s| && Glob(q, s[k..])
    decreases |s|
  {
    var p := "*" + q;
    assert p[1..] == q;
    if s == [] {
      assert s[0..] == s;
    } else {
      StarPrefix(q, s[1..]);
      assert s[0..] == s;
      if Glob(p, s) {
        if !Glob(q, s) {
          var k :| 0 <= k <= |s[1..]| && Glob(q, s[1..][k..]);
          assert s[1..][k..] == s[k + 1..];
        }
      } else {
        forall k | 0 <= k <= |s| ensures !Glob(q, s[k..]) {
          if k > 0 {
            assert s[1..][k - 1..] == s[k..];
          }
        }
      }
    }
  }

  /** A star-free literal at the head of a pattern must appear at the head of the corpus. */
  lemma {:induction false} LiteralPrefix(lit: string, q: string, s: string)
    requires '*' !in lit
    ensures Glob(lit + q, s) <==> HasPrefix(s, lit) && Glob(q, s[|lit|..])
    decreases |lit|
  {
    if lit == [] {
      assert lit + q == q;
      assert s[0..] == s;
    } else {
      var p := lit + q;
      assert p[0] == lit[0] && p[1..] == lit[1..] + q;
      assert lit[0] != '*';
      assert '*' !in lit[1..];
      if s != [] {
        LiteralPrefix(lit[1..], q, s[1..]);
        if |lit| <= |s| {
          assert s[1..][|lit| - 1..] == s[|lit|..];
          assert s[..|lit|] == [s[0]] + s[1..][..|lit| - 1];
          assert lit == [lit[0]] + lit[1..];
        }
      }
    }
  }

  /** The wildcard's set of hits only grows when the corpus is extended at the front. */
  lemma StarSuffix(q: string, s: string, k: nat)
    requires k <= |s|
    requires Glob("*" + q, s[k..])
    ensures Glob("*" + q, s)
  {
    StarPrefix(q, s[k..]);
    var m :| 0 <= m <= |s[k..]| && Glob(q, s[k..][m..]);
    assert s[k..][m..] == s[k + m..];
    StarPrefix(q, s);
  }

  /** A star-free rule is a wildcard hit exactly when it occurs in the corpus. */
  lemma WildcardLiteral(w: string, s: string)
    requires '*' !in w
    ensures WildcardMatches(w, s) <==> IndexOf(s, w) >= 0
  {
    assert ("*" + w + "*") == "*" + (w + "*");
    StarPrefix(w + "*", s);
    var i := IndexOf(s, w);
    if i >= 0 {
      TrailingStarAt(w, s, i);
    } else if WildcardMatches(w, s) {
      var k :| 0 <= k <= |s| && Glob(w + "*", s[k..]);
      TrailingStarAt(w, s, k);
    }
  }

  /** The pattern w* matches the corpus from position k exactly when w occurs at k. */
  lemma TrailingStarAt(w: string, s: string, k: nat)
    requires '*' !in w && k <= |s|
    ensures Glob(w + "*", s[k..]) <==> OccursAt(s, w, k)
  {
    var t := s[k..];
    LiteralPrefix(w, "*", t);
    if |w| <= |t| {
      assert t[..|w|] == s[k..k + |w|];
      GlobStar(t[|w|..]);
    }
  }

  /** The pattern lit*rest* matches the corpus from position k exactly when lit occurs at k
      and the rest matches after it. */
  lemma SplitAt(lit: string, rest: string, s: string, k: nat)
    requires '*' !in lit && k <= |s|
    ensures Glob(lit + ("*" + rest + "*"), s[k..]) <==>
      OccursAt(s, lit, k) && WildcardMatches(rest, s[k + |lit|..])
  {
    LiteralAt(lit, "*" + rest + "*", s, k);
  }

  /** A star-free literal at the head of a pattern matched from k must occur at k. */
  lemma LiteralAt(lit: string, q: string, s: string, k: nat)
    requires '*' !in lit && k <= |s|
    ensures Glob(lit + q, s[k..]) <==> OccursAt(s, lit, k) && Glob(q, s[k + |lit|..])
  {
    LiteralPrefix(lit, q, s[k..]);
    if k + |lit| <= |s| {
      assert s[k..][..|lit|] == s[k..k + |lit|];
      assert s[k..][|lit|..] == s[k + |lit|..];
    }
  }

  /** For a rule lit*rest, the leftmost occurrence of lit is as good as any other. */
  lemma WildcardSplit(rule: string, lit: string, rest: string, s: string)
    requires '*' !in lit && rule == lit + "*" + rest
    ensures var i := IndexOf(s, lit);
      WildcardMatches(rule, s) <==> i >= 0 && WildcardMatches(rest, s[i + |lit|..])
  {
    var i := IndexOf(s, lit);
    if WildcardMatches(rule, s) {
      SplitForward(rule, lit, rest, s);
    }
    if i >= 0 && WildcardMatches(rest, s[i + |lit|..]) {
      SplitBackward(rule, lit, rest, s);
    }
  }

  /** The wildcard of lit*rest read as a leading star before lit*rest*. */
  lemma SplitShape(rule: string, lit: string, rest: string, s: string)
    requires rule == lit + "*" + rest
    ensures WildcardMatches(rule, s) <==> Glob("*" + (lit + ("*" + rest + "*")), s)
  {
    assert "*" + rule + "*" == "*" + (lit + ("*" + rest + "*"));
  }

  /** A match of lit*rest goes through the leftmost occurrence of lit. */
  lemma SplitForward(rule: string, lit: string, rest: string, s: string)
    requires '*' !in lit && rule == lit + "*" + rest
    requires WildcardMatches(rule, s)
    ensures var i := IndexOf(s, lit); i >= 0 && WildcardMatches(rest, s[i + |lit|..])
  {
    var i := IndexOf(s, lit);
    var tailPat := "*" + rest + "*";
    SplitShape(rule, lit, rest, s);
    StarPrefix(lit + tailPat, s);
    var k :| 0 <= k <= |s| && Glob(lit + tailPat, s[k..]);
    SplitAt(lit, rest, s, k);
    assert 0 <= i <= k;
    EarlierOccurrence(lit, rest, s, i, k);
  }

  /** What matches after a later occurrence of lit also matches after an earlier one. */
  lemma EarlierOccurrence(lit: string, rest: string, s: string, i: nat, k: nat)
    requires i <= k && k + |lit| <= |s|
    requires WildcardMatches(rest, s[k + |lit|..])
    ensures WildcardMatches(rest, s[i + |lit|..])
  {
    var t := s[i + |lit|..];
    assert s[k + |lit|..] == t[k - i..];
    assert "*" + rest + "*" == "*" + (rest + "*");
    StarSuffix(rest + "*", t, k - i);
  }

  /** An occurrence of lit followed by a match of rest is a match of lit*rest. */
  lemma SplitBackward(rule: string, lit: string, rest: string, s: string)
    requires '*' !in lit && rule == lit + "*" + rest
    requires IndexOf(s, lit) >= 0 && WildcardMatches(rest, s[IndexOf(s, lit) + |lit|..])
    ensures WildcardMatches(rule, s)
  {
    var i := IndexOf(s, lit);
    SplitShape(rule, lit, rest, s);
    SplitAt(lit, rest, s, i);
    StarPrefix(lit + ("*" + rest + "*"), s);
  }

  /** The greedy scanner decides the anchored wildcard exactly. */
  lemma {:induction false} ScanIsWildcard(rule: string, s: string)
    ensures Scan(rule, s) == WildcardMatches(rule, s)
    decreases |rule|, 1
  {
    var j := FirstIndex(rule, '*');
    if j == |rule| {
      LeadingLiteral(rule);
      assert rule[..j] == rule;
      WildcardLiteral(rule, s);
    } else {
      ScanAtStar(rule, s);
    }
  }

  /** The text before the first star holds no star. */
  lemma LeadingLiteral(rule: string)
    ensures '*' !in rule[..FirstIndex(rule, '*')]
  {
    var lit := rule[..FirstIndex(rule, '*')];
    forall t | 0 <= t < |lit| ensures lit[t] != '*' {
      assert lit[t] == rule[t];
    }
  }

  /** The inductive step of ScanIsWildcard for a rule with a star. */
  lemma {:induction false} ScanAtStar(rule: string, s: string)
    requires FirstIndex(rule, '*') < |rule|
    ensures Scan(rule, s) == WildcardMatches(rule, s)
    decreases |rule|, 0
  {
    var j := FirstIndex(rule, '*');
    var lit := rule[..j];
    var rest := rule[j + 1..];
    LeadingLiteral(rule);
    StarSplit(rule, j);
    var i := IndexOf(s, lit);
    WildcardSplit(rule, lit, rest, s);
    ScanUnfold(rule, s, j, i);
    if i >= 0 {
      assert |lit| == j;
      ScanIsWildcard(rest, s[i + j..]);
    }
  }

  /** A rule is the text before its star, the star and the text after it. */
  lemma StarSplit(rule: string, j: nat)
    requires j < |rule| && rule[j] == '*'
    ensures rule == rule[..j] + "*" + rule[j + 1..]
  {
  }

  /** One step of the scanner on a rule with a star. */
  lemma ScanUnfold(rule: string, s: string, j: nat, i: int)
    requires j == FirstIndex(rule, '*') && j < |rule|
    requires i == IndexOf(s, rule[..j])
    ensures i < 0 ==> !Scan(rule, s)
    ensures i >= 0 ==> Scan(rule, s) == Scan(rule[j + 1..], s[i + j..])
  {
    if i >= 0 {
      assert Scan(rule, s) == ScanFrom(rule, s, j, i);
      ScanFromStar(rule, s, j, i);
    }
  }

  /** The scan after the first piece, for a rule with a star. */
  lemma ScanFromStar(rule: string, s: string, j: nat, i: nat)
    requires j < |rule| && i + j <= |s|
    ensures ScanFrom(rule, s, j, i) == Scan(rule[j + 1..], s[i + j..])
  {
  }

  /** Every literal occurrence of a rule is also a wildcard hit: each '*' of the rule can
      stand for the '*' it faces in the corpus. So the substring fallback the engine tries
      after a failed wildcard never adds a hit for a rule with '*'. */
  lemma {:induction false} GlobSelf(w: string, u: string)
    ensures Glob(w + "*", w + u)
    decreases |w|
  {
    if w == [] {
      assert w + "*" == "*" && w + u == u;
      GlobStar(u);
    } else {
      GlobSelf(w[1..], u);
      assert (w + "*")[1..] == w[1..] + "*";
      assert (w + u)[1..] == w[1..] + u;
      if w[0] == '*' {
        var p := w + "*";
        var s := w + u;
        // the star takes the corpus's '*' and the rest matches
        assert Glob(p[1..], s[1..]);
        StarSkip(p[1..], s[1..]);
      }
    }
  }

  /** A star may consume one more character. */
  lemma StarSkip(q: string, s: string)
    requires Glob(q, s)
    ensures Glob("*" + q, s)
  {
    StarPrefix(q, s);
    assert s[0..] == s;
  }

  lemma LiteralImpliesWildcard(rule: string, corpus: string)
    requires Contains(corpus, rule)
    ensures WildcardMatches(rule, corpus)
  {
    var k := IndexOf(corpus, rule);
    SelfAt(rule, corpus, k);
    StarPrefix(rule + "*", corpus);
    assert ("*" + rule + "*") == "*" + (rule + "*");
  }

  /** An occurrence of w at k is matched by w* from k on. */
  lemma SelfAt(w: string, s: string, k: int)
    requires OccursAt(s, w, k)
    ensures Glob(w + "*", s[k..])
  {
    var t := s[k..];
    assert t[..|w|] == w;
    assert t == w + t[|w|..];
    GlobSelf(w, t[|w|..]);
  }

  // ---------------------------------------------------------------- rules

  /** One keyword rule after trimming: `text` is what the engine reports (original case,
      the block marker removed), `block` whether it started with '-'. */
  datatype Rule = Rule(block: bool, text: string)

  /** Trim the keyword, skip it when blank, and strip one leading '-' from a block rule. */
  function ParseRule(keyword: string): Option<Rule> {
    var t := TrimSpace(keyword);
    if t == [] then None
    else if t[0] == '-' then Some(Rule(true, t[1..]))
    else Some(Rule(false, t))
  }

  /** A rule is skipped exactly when it is blank; otherwise its trimmed form is the optional
      block marker followed by the reported text. */
  lemma ParseRuleMeaning(keyword: string)
    ensures ParseRule(keyword).None? <==> TrimSpace(keyword) == []
    ensures ParseRule(keyword).Some? ==>
      var r := ParseRule(keyword).value;
      r.block == (TrimSpace(keyword)[0] == '-')
      && TrimSpace(keyword) == (if r.block then ['-'] else []) + r.text
  {
    var t := TrimSpace(keyword);
    if t != [] {
      assert t == [t[0]] + t[1..];
    }
  }

  /** The lower-cased corpus an item is matched against. */
  function Corpus(title: string, description: string): string {
    Lower(title + " " + description)
  }

  /** Whether a rule hits a corpus: the wildcard first when the rule has a '*', the
      substring search otherwise or when the wildcard fails. */
  predicate Hits(r: Rule, corpus: string) {
    var pat := Lower(r.text);
    ('*' in pat && Scan(pat, corpus)) || Contains(corpus, pat)
  }

  /** Hits reads as: the wildcard meaning for '*' rules, a substring test for the others. */
  lemma HitsMeaning(r: Rule, corpus: string)
    ensures Hits(r, corpus) <==>
      (if '*' in Lower(r.text) then WildcardMatches(Lower(r.text), corpus)
       else Contains(corpus, Lower(r.text)))
  {
    var pat := Lower(r.text);
    ScanIsWildcard(pat, corpus);
    if '*' in pat && Contains(corpus, pat) {
      LiteralImpliesWildcard(pat, corpus);
    }
  }

  /** What one keyword contributes: nothing when blank, nothing when it misses, otherwise
      its text as a positive or a block hit. */
  datatype Verdict = Skip | Miss | Include(text: string) | Exclude(text: string)

  function Classify(keyword: string, corpus: string): Verdict {
    match ParseRule(keyword)
    case None => Skip
    case Some(r) =>
      if !Hits(r, corpus) then Miss
      else if r.block then Exclude(r.text)
      else Include(r.text)
  }

  /** The verdicts of a rule list, in rule order. */
  function Verdicts(keywords: seq<string>, corpus: string): (vs: seq<Verdict>)
    ensures |vs| == |keywords|
  {
    seq(|keywords|, i requires 0 <= i < |keywords| => Classify(keywords[i], corpus))
  }

  /** Texts of the positive hits, in order. */
  function Included(vs: seq<Verdict>): seq<string>
    decreases |vs|
  {
    if vs == [] then []
    else
      var n := |vs| - 1;
      Included(vs[..n]) + (if vs[n].Include? then [vs[n].text] else [])
  }

  /** Texts of the block hits, in order. */
  function Excluded(vs: seq<Verdict>): seq<string>
    decreases |vs|
  {
    if vs == [] then []
    else
      var n := |vs| - 1;
      Excluded(vs[..n]) + (if vs[n].Exclude? then [vs[n].text] else [])
  }

  /** The engine's answer for verdicts: nothing when a block rule hit, else the positive hits. */
  function Resolve(vs: seq<Verdict>): seq<string> {
    if Excluded(vs) != [] then [] else Included(vs)
  }

  /** What the matcher returns for a rule list and a corpus. */
  function MatchResult(keywords: seq<string>, corpus: string): seq<string> {
    Resolve(Verdicts(keywords, corpus))
  }

  /** The matcher over one item. */
  method MatchesKeywords(title: string, description: string, keywords: seq<string>)
    returns (matched: seq<string>)
    ensures matched == MatchResult(keywords, Corpus(title, description))
  {
    if |keywords| == 0 {
      return [];
    }
    matched := [];
    var blocked: seq<string> := [];
    var content := Lower(title + " " + description);
    ghost var vs := Verdicts(keywords, content);
    var i := 0;
    while i < |keywords|
      invariant 0 <= i <= |keywords|
      invariant matched == Included(vs[..i])
      invariant blocked == Excluded(vs[..i])
    {
      assert vs[..i + 1][..i] == vs[..i];
      assert vs[i] == Classify(keywords[i], content);
      var keyword := TrimSpace(keywords[i]);
      if keyword == [] {
        i := i + 1;
        continue;
      }
      // strings.HasPrefix(keyword, "-") and strings.TrimPrefix(keyword, "-")
      var isBlock := keyword[0] == '-';
      if isBlock {
        keyword := keyword[1..];
      }
      var lowerKeyword := Lower(keyword);
      var hit := false;
      if '*' in lowerKeyword {
        hit := Scan(lowerKeyword, content);
      }
      if !hit {
        hit := Contains(content, lowerKeyword);
      }
      assert hit == Hits(Rule(isBlock, keyword), content);
      if hit {
        if isBlock {
          blocked := blocked + [keyword];
        } else {
          matched := matched + [keyword];
        }
      }
      i := i + 1;
    }
    assert vs[..i] == vs;
    if |blocked| > 0 {
      return [];
    }
  }

  // ---------------------------------------------------------------- properties

  /** Excluded is non-empty exactly when some verdict is a block hit. */
  lemma {:induction false} ExcludedMeaning(vs: seq<Verdict>)
    ensures Excluded(vs) != [] <==> exists i :: 0 <= i < |vs| && vs[i].Exclude?
    decreases |vs|
  {
    if vs != [] {
      var n := |vs| - 1;
      ExcludedMeaning(vs[..n]);
      assert forall i :: 0 <= i < n ==> vs[..n][i] == vs[i];
    }
  }

  /** A text is included exactly when some verdict includes it. */
  lemma {:induction false} IncludedMeaning(vs: seq<Verdict>, x: string)
    ensures x in Included(vs) <==> exists i :: 0 <= i < |vs| && vs[i] == Include(x)
    decreases |vs|
  {
    if vs != [] {
      var n := |vs| - 1;
      IncludedMeaning(vs[..n], x);
      assert forall i :: 0 <= i < n ==> vs[..n][i] == vs[i];
    }
  }

  /** Each included text comes from a distinct verdict, in order: Included is the
      subsequence of Include verdicts, so it is no longer than the rule list. */
  lemma {:induction false} IncludedLength(vs: seq<Verdict>)
    ensures |Included(vs)| <= |vs|
    ensures |Included(vs)| == |vs| ==> forall i :: 0 <= i < |vs| ==> vs[i].Include?
    decreases |vs|
  {
    if vs != [] {
      var n := |vs| - 1;
      IncludedLength(vs[..n]);
      assert forall i :: 0 <= i < n ==> vs[..n][i] == vs[i];
    }
  }

  /** Block veto: one hitting block rule empties the result, whatever else hit. */
  lemma BlockVeto(keywords: seq<string>, corpus: string, i: int)
    requires 0 <= i < |keywords|
    requires ParseRule(keywords[i]).Some? && ParseRule(keywords[i]).value.block
    requires Hits(ParseRule(keywords[i]).value, corpus)
    ensures MatchResult(keywords, corpus) == []
  {
    var vs := Verdicts(keywords, corpus);
    assert vs[i].Exclude?;
    ExcludedMeaning(vs);
  }

  /** Without a hitting block rule, a text is reported exactly when some rule includes it;
      with one, nothing is reported. */
  lemma MatchResultMeaning(keywords: seq<string>, corpus: string, x: string)
    ensures x in MatchResult(keywords, corpus) <==>
      (forall j :: 0 <= j < |keywords| ==> !Classify(keywords[j], corpus).Exclude?)
      && exists i :: 0 <= i < |keywords| && Classify(keywords[i], corpus) == Include(x)
  {
    var vs := Verdicts(keywords, corpus);
    ExcludedMeaning(vs);
    IncludedMeaning(vs, x);
    assert forall j :: 0 <= j < |vs| ==> vs[j] == Classify(keywords[j], corpus);
    if Excluded(vs) != [] {
      var i :| 0 <= i < |vs| && vs[i].Exclude?;
      assert Classify(keywords[i], corpus).Exclude?;
    }
  }

  /** A rule includes x exactly when it is the positive rule x and x hits; it excludes
      exactly when it is a block rule that hits. */
  lemma ClassifyMeaning(keyword: string, corpus: string, x: string)
    ensures Classify(keyword, corpus) == Include(x) <==>
      ParseRule(keyword) == Some(Rule(false, x)) && Hits(Rule(false, x), corpus)
    ensures Classify(keyword, corpus).Exclude? <==>
      ParseRule(keyword).Some? && ParseRule(keyword).value.block
      && Hits(ParseRule(keyword).value, corpus)
  {
  }

  /** An empty rule list matches nothing. */
  lemma NoRulesNoMatch(corpus: string)
    ensures MatchResult([], corpus) == []
  {
    assert Verdicts([], corpus) == [];
  }

  /** Reported texts are the trimmed rules as written: each is TrimSpace of some rule. */
  lemma MatchedAreTrimmedRules(keywords: seq<string>, corpus: string, x: string)
    requires x in MatchResult(keywords, corpus)
    ensures exists i :: 0 <= i < |keywords| && TrimSpace(keywords[i]) == x
  {
    MatchResultMeaning(keywords, corpus, x);
    var i :| 0 <= i < |keywords| && Classify(keywords[i], corpus) == Include(x);
    ClassifyMeaning(keywords[i], corpus, x);
    ParseRuleMeaning(keywords[i]);
  }

  /** Blank verdicts change nothing, wherever they appear. */
  lemma {:induction false} SkipIgnored(a: seq<Verdict>, b: seq<Verdict>)
    ensures Included(a + [Skip] + b) == Included(a + b)
    ensures Excluded(a + [Skip] + b) == Excluded(a + b)
    decreases |b|
  {
    if b == [] {
      assert a + [Skip] + b == a + [Skip];
      assert (a + [Skip])[..|a|] == a;
      assert a + b == a;
    } else {
      var n := |b| - 1;
      SkipIgnored(a, b[..n]);
      var l := a + [Skip] + b;
      var r := a + b;
      assert l[..|l| - 1] == a + [Skip] + b[..n];
      assert r[..|r| - 1] == a + b[..n];
      assert l[|l| - 1] == b[n] == r[|r| - 1];
    }
  }

  /** Verdicts are computed rule by rule, so they distribute over concatenation. */
  lemma VerdictsConcat(a: seq<string>, b: seq<string>, corpus: string)
    ensures Verdicts(a + b, corpus) == Verdicts(a, corpus) + Verdicts(b, corpus)
  {
    var l := a + b;
    forall k | 0 <= k < |l|
      ensures Verdicts(l, corpus)[k] == (Verdicts(a, corpus) + Verdicts(b, corpus))[k]
    {
      if k < |a| { assert l[k] == a[k]; } else { assert l[k] == b[k - |a|]; }
    }
  }

  /** A blank rule may be dropped from any position of the rule list. */
  lemma BlankRuleIgnored(a: seq<string>, blank: string, b: seq<string>, corpus: string)
    requires TrimSpace(blank) == []
    ensures MatchResult(a + [blank] + b, corpus) == MatchResult(a + b, corpus)
  {
    var va := Verdicts(a, corpus);
    var vb := Verdicts(b, corpus);
    assert Verdicts([blank], corpus) == [Skip];
    VerdictsConcat(a, [blank], corpus);
    VerdictsConcat(a + [blank], b, corpus);
    VerdictsConcat(a, b, corpus);
    SkipIgnored(va, vb);
  }

  /** A lone "-" is a block rule with an empty text, which occurs in every corpus. */
  lemma LoneDashBlocksAll(keywords: seq<string>, i: int, corpus: string)
    requires 0 <= i < |keywords| && keywords[i] == "-"
    ensures MatchResult(keywords, corpus) == []
  {
    TrimSpaceOfTrimmed("-");
    assert Lower([]) == [];
    assert OccursAt(corpus, [], 0) by { assert corpus[0..0] == []; }
    BlockVeto(keywords, corpus, i);
  }

  /** Matching ignores the case of the item: an upper-case item gives the same corpus. */
  lemma CorpusIgnoresCase(title: string, description: string)
    ensures Corpus(Lower(title), Lower(description)) == Corpus(title, description)
  {
    assert Lower(title) + " " + Lower(description) == Lower(title + " " + description);
    LowerIdempotent(title + " " + description);
  }
}
