/** The two HTML helpers of the push stage: picking the first image URL out of an item's
    description, and reducing the description to the tags Telegram accepts. Every regular
    expression is written out as a scanner with Go's leftmost-first semantics: the match
    that starts first wins, and among matches starting there the one a backtracking
    matcher tries first (greedy repetitions as long as possible). */
module Html {
  import opened Text

  /** The regular-expression class `\s`: tab, newline, form feed, carriage return, space. */
  predicate RegexSpace(c: char) {
    c == '\t' || c == '\n' || c == '\U{000C}' || c == '\r' || c == ' '
  }

  predicate IsQuote(c: char) { c == '"' || c == '\'' }

  predicate NotQuote(c: char) { !IsQuote(c) }

  /** The class `[^\s"']` of URL characters. */
  predicate UrlChar(c: char) { !RegexSpace(c) && !IsQuote(c) }

  predicate IsNewline(c: char) { c == '\n' }

  // ================================================================ extractImageURL

  /** The last present value of a sequence of optional results. */
  function LastSome(xs: seq<Option<string>>): Option<string>
    decreases |xs|
  {
    if xs == [] then None
    else if xs[|xs| - 1].Some? then xs[|xs| - 1]
    else LastSome(xs[..|xs| - 1])
  }

  /** The first present value of a sequence of optional results. */
  function FirstSome(xs: seq<Option<string>>): Option<string>
    decreases |xs|
  {
    if xs == [] then None
    else if xs[0].Some? then xs[0]
    else FirstSome(xs[1..])
  }

  /** Length of the extension alternative matching right after a dot at q, tried in the
      order jpg, jpeg, png, gif, webp; 0 when none does. */
  function ExtLen(s: string, q: nat): (n: nat)
    ensures n == 0 || n == 3 || n == 4
    ensures n > 0 ==> q + 1 + n <= |s|
  {
    if OccursAt(s, "jpg", q + 1) then 3
    else if OccursAt(s, "jpeg", q + 1) then 4
    else if OccursAt(s, "png", q + 1) then 3
    else if OccursAt(s, "gif", q + 1) then 3
    else if OccursAt(s, "webp", q + 1) then 4
    else 0
  }

  /** `src=["']([^"']+)["']` read at p: the capture, a maximal run of non-quote characters
      between two quotes. */
  function SrcAt(s: string, p: nat): (r: Option<string>)
    ensures r.Some? ==> r.value != [] && forall k :: 0 <= k < |r.value| ==> NotQuote(r.value[k])
  {
    if OccursAt(s, "src=", p) && p + 4 < |s| && IsQuote(s[p + 4]) then
      var c := p + 5 + LeadLen(s[p + 5..], NotQuote);
      if c > p + 5 && c < |s| then Some(s[p + 5..c]) else None
    else None
  }

  /** `\.(jpg|jpeg|png|gif|webp)` read at q, for a match that started at i: the whole match. */
  function DotAt(s: string, i: nat, q: nat): (r: Option<string>)
    ensures r.Some? ==> r.value != []
  {
    var n := ExtLen(s, q);
    if i <= q < |s| && s[q] == '.' && n > 0 then Some(s[i..q + 1 + n]) else None
  }

  /** End of an `https?://` prefix at i, or -1. The optional `s` is tried first. */
  function SchemeEnd(s: string, i: nat): (r: int)
    ensures r == -1 || (i + 7 <= r <= |s|)
  {
    if OccursAt(s, "https://", i) then i + 8
    else if OccursAt(s, "http://", i) then i + 7
    else -1
  }

  /** `<img[^>]+src=["']([^"']+)["']` at i: the greedy `[^>]+` stops before the first `>`,
      so `src=` is read at the greatest position up to there where it reads as an
      attribute. */
  function ImgAt(s: string, i: nat): Option<string> {
    if OccursAt(s, "<img", i) then
      var g := i + 4 + FirstIndex(s[i + 4..], '>');
      LastSome(SrcCandidates(s, i + 5, g))
    else None
  }

  /** SrcAt at each position lo .. hi. */
  function SrcCandidates(s: string, lo: nat, hi: int): (xs: seq<Option<string>>)
    ensures |xs| == if hi < lo then 0 else hi - lo + 1
    ensures forall k :: 0 <= k < |xs| ==> xs[k] == SrcAt(s, lo + k)
  {
    seq(if hi < lo then 0 else hi - lo + 1, k requires k >= 0 => SrcAt(s, lo + k))
  }

  /** DotAt at each position lo .. hi, for a match that started at i. */
  function DotCandidates(s: string, i: nat, lo: nat, hi: int): (xs: seq<Option<string>>)
    ensures |xs| == if hi < lo then 0 else hi - lo + 1
    ensures forall k :: 0 <= k < |xs| ==> xs[k] == DotAt(s, i, lo + k)
  {
    seq(if hi < lo then 0 else hi - lo + 1, k requires k >= 0 => DotAt(s, i, lo + k))
  }

  /** `https?://[^\s"']+\.(jpg|jpeg|png|gif|webp)` at i: the dot is the last one inside the
      run of URL characters that an extension follows. */
  function UrlAt(s: string, i: nat): Option<string> {
    var r := SchemeEnd(s, i);
    if r < 0 then None else UrlRun(s, i, r)
  }

  /** The extension search over the run of URL characters behind a scheme ending at r. */
  function UrlRun(s: string, i: nat, r: nat): Option<string>
    requires r <= |s|
  {
    var e := r + LeadLen(s[r..], UrlChar);
    LastSome(DotCandidates(s, i, r + 1, e))
  }

  /** `https?://cdn[0-9]*\.cdn-telegram\.org/[^\s"']+` at i. */
  function CdnAt(s: string, i: nat): (r: Option<string>)
    ensures r.Some? ==> r.value != []
  {
    var r := SchemeEnd(s, i);
    if r < 0 || !OccursAt(s, "cdn", r) then None
    else
      var d := r + 3 + LeadLen(s[r + 3..], IsDigit);
      if !OccursAt(s, ".cdn-telegram.org/", d) then None
      else
        var m := d + 18 + LeadLen(s[d + 18..], UrlChar);
        if m > d + 18 then Some(s[i..m]) else None
  }

  /** The three patterns, in the order they are tried. */
  datatype Pattern = ImgSrc | ImageUrl | TelegramCdn

  /** What a pattern yields for a match starting at i: the capture for the img pattern, the
      whole match for the two URL patterns. */
  function MatchAt(pat: Pattern, s: string, i: nat): Option<string> {
    match pat
      case ImgSrc => ImgAt(s, i)
      case ImageUrl => UrlAt(s, i)
      case TelegramCdn => CdnAt(s, i)
  }

  /** What the pattern yields at each start position 0 .. |s|. */
  function Starts(pat: Pattern, s: string): (ms: seq<Option<string>>)
    ensures |ms| == |s| + 1
  {
    seq(|s| + 1, j requires j >= 0 => MatchAt(pat, s, j))
  }

  /** A pattern's leftmost match in s (FindStringSubmatch / FindString). */
  function Find(pat: Pattern, s: string): Option<string> {
    FirstSome(Starts(pat, s))
  }

  /** extractImageURL: the img tag's src, else a URL ending in an image extension, else a
      Telegram CDN URL, else the empty string. */
  function ExtractImageURL(htmlContent: string): string {
    var img := Find(ImgSrc, htmlContent);
    if img.Some? then img.value
    else
      var url := Find(ImageUrl, htmlContent);
      if url.Some? then url.value
      else
        var cdn := Find(TelegramCdn, htmlContent);
        if cdn.Some? then cdn.value else ""
  }


  // ================================================================ cleanHTMLContent

  /** ReplaceAllString for a pattern that is a literal: leftmost occurrences, not overlapping. */
  function ReplaceAll(s: string, pat: string, rep: string): string
    requires pat != []
    decreases |s|, 1
  {
    var i := IndexOf(s, pat);
    if i < 0 then s else ReplaceAt(s, pat, rep, i)
  }

  /** The replacement from its first occurrence at i on. */
  function ReplaceAt(s: string, pat: string, rep: string, i: nat): string
    requires pat != [] && i + |pat| <= |s|
    decreases |s|, 0
  {
    s[..i] + rep + ReplaceAll(s[i + |pat|..], pat, rep)
  }

  /** ReplaceAllString(s, "") for `open[^>]*>`: each occurrence of open up to the next `>`
      is removed. */
  function StripSpans(s: string, open: string): string
    requires open != []
    decreases |s|, 1
  {
    var i := IndexOf(s, open);
    if i < 0 then s else StripAt(s, open, i)
  }

  /** The strip of a text whose first opening is at i: up to the next `>`, or nothing when
      no `>` follows. */
  function StripAt(s: string, open: string, i: nat): string
    requires open != [] && i + |open| <= |s|
    decreases |s|, 0
  {
    var k := i + |open| + FirstIndex(s[i + |open|..], '>');
    if k == |s| then s else s[..i] + StripSpans(s[k + 1..], open)
  }

  /** End of a `<br\s*\/?>` at i (which starts with `<br`), or -1. */
  function BrEnd(s: string, i: nat): int
    requires i + 3 <= |s|
  {
    var w := i + 3 + LeadLen(s[i + 3..], RegexSpace);
    if w < |s| && s[w] == '>' then w + 1
    else if w + 1 < |s| && s[w] == '/' && s[w + 1] == '>' then w + 2
    else -1
  }

  /** ReplaceAllString(s, "\n") for `<br\s*\/?>`. */
  function ReplaceBr(s: string): string
    decreases |s|, 1
  {
    var i := IndexOf(s, "<br");
    if i < 0 then s else BrAt(s, i)
  }

  /** The br pass from its first `<br` at i: a tag becomes a newline, a `<br` that starts
      no tag is kept and the search goes on one character later. */
  function BrAt(s: string, i: nat): string
    requires i + 3 <= |s|
    decreases |s|, 0
  {
    var e := BrEnd(s, i);
    if e < 0 then s[..i + 1] + ReplaceBr(s[i + 1..])
    else s[..i] + "\n" + ReplaceBr(s[e..])
  }

  /** For `<a\s+href=["']([^"']+)["'][^>]*>` at i (which starts with `<a`): the captured
      URL and the end of the match. */
  function AnchorAt(s: string, i: nat): Option<(string, nat)>
    requires i + 2 <= |s|
  {
    var w := i + 2 + LeadLen(s[i + 2..], RegexSpace);
    if w == i + 2 || !OccursAt(s, "href=", w) || w + 5 >= |s| || !IsQuote(s[w + 5]) then None
    else
      var c := w + 6 + LeadLen(s[w + 6..], NotQuote);
      if c == w + 6 || c >= |s| then None
      else
        var g := c + 1 + FirstIndex(s[c + 1..], '>');
        if g >= |s| then None else Some((s[w + 6..c], g + 1))
  }

  /** The anchor pass: each `<a href="URL" ...>` becomes `§§§A§§§URL§§§`. */
  function AnchorOpen(s: string): string
    decreases |s|
  {
    var i := IndexOf(s, "<a");
    if i < 0 then s
    else match AnchorAt(s, i)
      case None => s[..i + 1] + AnchorOpen(s[i + 1..])
      case Some((url, e)) => s[..i] + "§§§A§§§" + url + "§§§" + AnchorOpen(s[e..])
  }

  /** The anchor restore: `§§§A§§§(.*?)§§§` becomes `<a href="$1">`; the lazy group ends at
      the first `§§§` and cannot cross a newline. */
  function AnchorRestore(s: string): string
    decreases |s|
  {
    var i := IndexOf(s, "§§§A§§§");
    if i < 0 then s
    else
      var j := IndexFrom(s, "§§§", i + 7);
      if j >= 0 && '\n' !in s[i + 7..j] then
        s[..i] + "<a href=\"" + s[i + 7..j] + "\">" + AnchorRestore(s[j + 3..])
      else s[..i + 1] + AnchorRestore(s[i + 1..])
  }

  /** The tags Telegram accepts, each with the placeholder that protects it from the
      generic tag strip. */
  const Tags: seq<(string, string)> := [
    ("<b>", "§§§B§§§"), ("</b>", "§§§/B§§§"),
    ("<i>", "§§§I§§§"), ("</i>", "§§§/I§§§"),
    ("<u>", "§§§U§§§"), ("</u>", "§§§/U§§§"),
    ("<s>", "§§§S§§§"), ("</s>", "§§§/S§§§"),
    ("<code>", "§§§CODE§§§"), ("</code>", "§§§/CODE§§§"),
    ("<pre>", "§§§PRE§§§"), ("</pre>", "§§§/PRE§§§")
  ]

  /** The table read right to left: placeholder back to tag. */
  function Swapped(pairs: seq<(string, string)>): (r: seq<(string, string)>)
    ensures |r| == |pairs|
    ensures forall k :: 0 <= k < |pairs| ==> r[k] == (pairs[k].1, pairs[k].0)
  {
    seq(|pairs|, k requires 0 <= k < |pairs| => (pairs[k].1, pairs[k].0))
  }

  predicate PatternsNonEmpty(pairs: seq<(string, string)>) {
    forall k :: 0 <= k < |pairs| ==> pairs[k].0 != []
  }

  /** The literal replacements of a table, applied one after the other in table order. */
  function ReplaceEach(s: string, pairs: seq<(string, string)>): string
    requires PatternsNonEmpty(pairs)
    decreases |pairs|
  {
    if pairs == [] then s
    else
      var n := |pairs| - 1;
      ReplaceAll(ReplaceEach(s, pairs[..n]), pairs[n].0, pairs[n].1)
  }

  /** Step 3 up to the generic strip: the accepted tags become placeholders. */
  function Protect(s: string): string {
    ReplaceAll(AnchorOpen(ReplaceEach(s, Tags)), "</a>", "§§§/A§§§")
  }

  /** The restores after the generic strip: placeholders become tags again. */
  function Unprotect(s: string): string {
    ReplaceAll(AnchorRestore(ReplaceEach(s, Swapped(Tags))), "§§§/A§§§", "</a>")
  }

  /** cleanHTMLContent as a composition of its passes. */
  function Clean(html: string): string {
    Collapse(Unprotect(StripSpans(Protect(ReplaceBr(StripSpans(html, "<img"))), "<")))
  }

  /** cleanHTMLContent: the passes applied to the content one after another. The result never
      holds three newlines in a row. */
  method CleanHTMLContent(htmlContent: string) returns (content: string)
    ensures content == Clean(htmlContent)
    ensures NoTriple(content)
  {
    // 1. drop img tags
    content := StripSpans(htmlContent, "<img");
    // 2. br tags become newlines
    content := ReplaceBr(content);
    // 3. protect the accepted tags, strip every other tag, restore
    var i := 0;
    ghost var before := content;
    while i < |Tags|
      invariant 0 <= i <= |Tags|
      invariant content == ReplaceEach(before, Tags[..i])
    {
      assert Tags[..i + 1][..i] == Tags[..i];
      content := ReplaceAll(content, Tags[i].0, Tags[i].1);
      i := i + 1;
    }
    assert Tags[..i] == Tags;
    content := AnchorOpen(content);
    content := ReplaceAll(content, "</a>", "§§§/A§§§");
    content := StripSpans(content, "<");
    var restore := Swapped(Tags);
    i := 0;
    before := content;
    while i < |restore|
      invariant 0 <= i <= |restore|
      invariant content == ReplaceEach(before, restore[..i])
    {
      assert restore[..i + 1][..i] == restore[..i];
      content := ReplaceAll(content, restore[i].0, restore[i].1);
      i := i + 1;
    }
    assert restore[..i] == restore;
    content := AnchorRestore(content);
    content := ReplaceAll(content, "§§§/A§§§", "</a>");
    // 4. collapse runs of newlines
    content := Collapse(content);
  }

  /** Three newlines in a row at k. */
  predicate TripleAt(s: string, k: int) {
    0 <= k && k + 2 < |s| && s[k] == '\n' && s[k + 1] == '\n' && s[k + 2] == '\n'
  }

  ghost predicate NoTriple(s: string) {
    forall k :: !TripleAt(s, k)
  }

  /** The leftmost three newlines in a row at or after from, or -1. */
  function TripleFrom(s: string, from: nat): (r: int)
    ensures r == -1 || (from <= r && TripleAt(s, r))
    ensures r == -1 ==> forall k :: from <= k ==> !TripleAt(s, k)
    ensures r >= 0 ==> forall k :: from <= k < r ==> !TripleAt(s, k)
    decreases |s| - from
  {
    if from + 2 >= |s| then -1
    else if TripleAt(s, from) then from
    else TripleFrom(s, from + 1)
  }

  /** ReplaceAllString(s, "\n\n") for `\n{3,}`: every run of three or more newlines becomes
      two. The result has no three newlines in a row, keeps a first character that is not a
      newline, and leaves a text without such runs alone. */
  function Collapse(s: string): (r: string)
    ensures NoTriple(r)
    ensures s != [] && s[0] != '\n' ==> r != [] && r[0] == s[0]
    ensures NoTriple(s) ==> r == s
    decreases |s|
  {
    var i := TripleFrom(s, 0);
    if i < 0 then s
    else
      var e := i + LeadLen(s[i..], IsNewline);
      var a := s[..i];
      var c := Collapse(s[e..]);
      assert NoTriple(a) by {
        forall k ensures !TripleAt(a, k) {
          assert TripleAt(a, k) ==> TripleAt(s, k);
        }
      }
      assert a != [] ==> a[|a| - 1] != '\n' by {
        if a != [] {
          assert !TripleAt(s, i - 1);
          assert a[|a| - 1] == s[i - 1];
        }
      }
      JoinNoTriple(a, c);
      a + "\n\n" + c
  }

  /** Joining two texts without triple newlines by two newlines makes none when the
      joined ends are not newlines. */
  lemma JoinNoTriple(a: string, c: string)
    requires NoTriple(a) && NoTriple(c)
    requires a == [] || a[|a| - 1] != '\n'
    requires c == [] || c[0] != '\n'
    ensures NoTriple(a + "\n\n" + c)
  {
    var t := a + "\n\n" + c;
    assert forall j :: 0 <= j < |a| ==> t[j] == a[j];
    assert forall j :: 0 <= j < |c| ==> t[|a| + 2 + j] == c[j];
    forall k ensures !TripleAt(t, k) {
      if k + 2 < |a| {
        assert !TripleAt(a, k);
      } else if k >= |a| + 2 {
        assert !TripleAt(c, k - |a| - 2);
      }
    }
  }

  // ---------------------------------------------------------------- properties of the clean-up

  /** A pattern whose first character does not occur in s does not occur in s. */
  lemma Absent(s: string, w: string)
    requires w != [] && w[0] !in s
    ensures IndexOf(s, w) == -1
  {
    forall k ensures !OccursAt(s, w, k) {
      if 0 <= k && k + |w| <= |s| {
        assert s[k..k + |w|][0] == s[k];
      }
    }
  }

  /** A table of replacements whose patterns all start with a character absent from s
      changes nothing. */
  lemma ReplaceEachAbsent(s: string, pairs: seq<(string, string)>)
    requires PatternsNonEmpty(pairs)
    requires forall k :: 0 <= k < |pairs| ==> pairs[k].0[0] !in s
    ensures ReplaceEach(s, pairs) == s
  {
    forall k | 0 <= k < |pairs| ensures IndexOf(s, pairs[k].0) < 0 {
      Absent(s, pairs[k].0);
    }
    ReplaceEachNone(s, pairs);
  }

  /** Text with no `<`, no `§` and no three newlines in a row passes through unchanged. */
  lemma PlainTextUnchanged(s: string)
    requires '<' !in s && '§' !in s
    requires NoTriple(s)
    ensures Clean(s) == s
  {
    Absent(s, "<img");
    Absent(s, "<br");
    ReplaceEachAbsent(s, Tags);
    Absent(s, "<a");
    Absent(s, "</a>");
    Absent(s, "<");
    ReplaceEachAbsent(s, Swapped(Tags));
    Absent(s, "§§§A§§§");
    Absent(s, "§§§/A§§§");
  }

  /** A bold span around plain text (no `<`, no `§`, no three newlines in a row) comes
      through the clean-up unchanged: the img and br passes find nothing, the bold tags
      become placeholders, survive the generic strip and are restored. */
  lemma BoldKept(t: string)
    requires '<' !in t && '§' !in t && NoTriple(t)
    ensures Clean("<b>" + t + "</b>") == "<b>" + t + "</b>"
  {
    var s := "<b>" + t + "</b>";
    var m := "§§§B§§§" + t + "§§§/B§§§";
    BoldOpenings(t);
    StripNone(s, "<img");
    ReplaceBrNone(s);
    BoldProtect(t);
    Absent(m, "<");
    StripNone(m, "<");
    BoldUnprotect(t);
    BoldNoTriple(t);
  }

  /** Neither `<img` nor `<br` occurs in a bold span around text without `<`. */
  lemma BoldOpenings(t: string)
    requires '<' !in t
    ensures IndexOf("<b>" + t + "</b>", "<img") < 0
    ensures IndexOf("<b>" + t + "</b>", "<br") < 0
  {
    var s := "<b>" + t + "</b>";
    var c := |t| + 3;
    MismatchAt(s, "<img", 0, 1);
    MismatchAt(s, "<img", c, 1);
    NotAround("<b>", t, "</b>", "<img");
    MismatchAt(s, "<br", 0, 2);
    MismatchAt(s, "<br", c, 1);
    NotAround("<b>", t, "</b>", "<br");
  }

  /** A pattern whose first character only the first characters of the two tags hold
      occurs in `o + t + c` only where one of the tags starts. */
  lemma NotAround(o: string, t: string, c: string, w: string)
    requires w != [] && o != [] && c != []
    requires w[0] !in o[1..] && w[0] !in t && w[0] !in c[1..]
    requires !OccursAt(o + t + c, w, 0) && !OccursAt(o + t + c, w, |o| + |t|)
    ensures IndexOf(o + t + c, w) < 0
  {
    var s := o + t + c;
    var e := |o| + |t|;
    forall k | 0 < k < |s| && k != e ensures s[k] != w[0] {
      if k < |o| {
        assert s[k] == o[1..][k - 1];
      } else if k < e {
        assert s[k] == t[k - |o|];
      } else {
        assert s[k] == c[1..][k - e - 1];
      }
    }
    AbsentUnlessAt(s, w, {0, e});
  }

  /** The protect passes turn the bold tags around text without `<` into their
      placeholders and change nothing else. */
  lemma BoldProtect(t: string)
    requires '<' !in t
    ensures Protect("<b>" + t + "</b>") == "§§§B§§§" + t + "§§§/B§§§"
  {
    var s := "<b>" + t + "</b>";
    var m := "§§§B§§§" + t + "§§§/B§§§";
    assert Tags[0..] == Tags;
    TagPairs();
    ClosingLacksOpening();
    WrapPasses(Tags, 0, "<b>", t, "</b>", "§§§B§§§", "§§§/B§§§");
    TagsAbsent(m, 2);
    Absent(m, "<a");
    Absent(m, "</a>");
    ReplaceAllNone(m, "</a>", "§§§/A§§§");
  }

  /** The restore passes turn the bold placeholders around text without `§` back into
      tags and change nothing else. */
  lemma BoldUnprotect(t: string)
    requires '§' !in t
    ensures Unprotect("§§§B§§§" + t + "§§§/B§§§") == "<b>" + t + "</b>"
  {
    var s := "<b>" + t + "</b>";
    BoldRestores(t);
    PlaceholdersAbsent(s, 2);
    Absent(s, "§§§A§§§");
    Absent(s, "§§§/A§§§");
    ReplaceAllNone(s, "§§§/A§§§", "</a>");
  }

  /** The two bold restores give the bold tags back. */
  lemma BoldRestores(t: string)
    requires '§' !in t
    ensures ReplaceEach("§§§B§§§" + t + "§§§/B§§§", Swapped(Tags))
      == ReplaceEach("<b>" + t + "</b>", Swapped(Tags)[2..])
  {
    var sw := Swapped(Tags);
    assert sw[0..] == sw;
    TagPairs();
    ClosingLacksOpening();
    WrapPasses(sw, 0, "§§§B§§§", t, "§§§/B§§§", "<b>", "</b>");
  }

  /** A closing tag or placeholder does not hold its opening one. */
  lemma ClosingLacksOpening()
    ensures IndexOf("</b>", "<b>") < 0 && IndexOf("</i>", "<i>") < 0
    ensures IndexOf("§§§/B§§§", "§§§B§§§") < 0
  {
    MismatchAt("</b>", "<b>", 0, 1);
    AbsentUnlessAt("</b>", "<b>", {0});
    MismatchAt("</i>", "<i>", 0, 1);
    AbsentUnlessAt("</i>", "<i>", {0});
    var P := "§§§B§§§";
    var Q := "§§§/B§§§";
    MismatchAt(Q, P, 0, 3);
    MismatchAt(Q, P, 1, 2);
    AbsentUnlessAt(Q, P, {0, 1, 2, 5, 6, 7});
  }

  /** A bold span around text without three newlines in a row has none either. */
  lemma BoldNoTriple(t: string)
    requires NoTriple(t)
    ensures NoTriple("<b>" + t + "</b>")
  {
    var s := "<b>" + t + "</b>";
    forall k ensures !TripleAt(s, k) {
      if 3 <= k <= |t| {
        assert !TripleAt(t, k - 3);
        assert s[k] == t[k - 3] && s[k + 1] == t[k - 2] && s[k + 2] == t[k - 1];
      }
    }
  }

  /** Two neighbouring replacements of a table, for a tag pair around text that holds
      neither tag's first character: the opening tag at the front and the closing tag at
      the back become their replacements. */
  lemma WrapPasses(pairs: seq<(string, string)>, n: nat, o: string, t: string, c: string,
                   o': string, c': string)
    requires PatternsNonEmpty(pairs) && n + 1 < |pairs|
    requires pairs[n] == (o, o') && pairs[n + 1] == (c, c')
    requires o != [] && o[0] !in t && IndexOf(c, o) < 0
    requires c != [] && c[0] !in o' + t
    ensures ReplaceEach(o + t + c, pairs[n..]) == ReplaceEach(o' + t + c', pairs[n + 2..])
  {
    ReplaceEachFrom(o + t + c, pairs, n, o, o');
    ReplaceFront(o, t, c, o');
    ReplaceEachFrom(o' + t + c, pairs, n + 1, c, c');
    ReplaceBack(o' + t, c, c');
  }

  /** A pattern at the front of `o + t + c` that occurs nowhere else is replaced there. */
  lemma ReplaceFront(o: string, t: string, c: string, rep: string)
    requires o != [] && o[0] !in t && IndexOf(c, o) < 0
    ensures ReplaceAll(o + t + c, o, rep) == rep + t + c
  {
    assert o + t + c == o + (t + c);
    ReplaceAllFront(o, t + c, rep);
    NoStartIn(t, c, o);
    ReplaceAllAfter(t, c, o, rep);
    ReplaceAllNone(c, o, rep);
  }

  /** A pattern at the back of `p + c` whose first character p lacks is replaced there. */
  lemma ReplaceBack(p: string, c: string, rep: string)
    requires c != [] && c[0] !in p
    ensures ReplaceAll(p + c, c, rep) == p + rep
  {
    NoStartIn(p, c, c);
    ReplaceAllAfter(p, c, c, rep);
    assert c + [] == c;
    ReplaceAllFront(c, [], rep);
    ReplaceAllNone([], c, rep);
  }

  /** The italic tags around text without `<` are protected like the bold ones: the bold
      passes find nothing and the italic passes make placeholders. */
  lemma ItalicProtect(t: string)
    requires '<' !in t
    ensures Protect("<i>" + t + "</i>") == "§§§I§§§" + t + "§§§/I§§§"
  {
    var u := "§§§I§§§" + t + "§§§/I§§§";
    ItalicSkipsBold(t);
    ItalicPasses(t);
    TagsAbsent(u, 4);
    Absent(u, "<a");
    Absent(u, "</a>");
    ReplaceAllNone(u, "</a>", "§§§/A§§§");
  }

  /** The bold passes find nothing around italic text without `<`. */
  lemma ItalicSkipsBold(t: string)
    requires '<' !in t
    ensures ReplaceEach("<i>" + t + "</i>", Tags) == ReplaceEach("<i>" + t + "</i>", Tags[2..])
  {
    var s := "<i>" + t + "</i>";
    ItalicNoBold(t);
    assert Tags[0..] == Tags;
    SkipPass(s, Tags, 0);
    SkipPass(s, Tags, 1);
  }

  /** Neither bold tag occurs around italic text without `<`. */
  lemma ItalicNoBold(t: string)
    requires '<' !in t
    ensures IndexOf("<i>" + t + "</i>", "<b>") < 0
    ensures IndexOf("<i>" + t + "</i>", "</b>") < 0
  {
    var s := "<i>" + t + "</i>";
    var c := |t| + 3;
    MismatchAt(s, "<b>", 0, 1);
    MismatchAt(s, "<b>", c, 1);
    NotAround("<i>", t, "</i>", "<b>");
    MismatchAt(s, "</b>", 0, 1);
    MismatchAt(s, "</b>", c, 2);
    NotAround("<i>", t, "</i>", "</b>");
  }

  /** A replacement of a table whose pattern does not occur is skipped. */
  lemma SkipPass(s: string, pairs: seq<(string, string)>, n: nat)
    requires PatternsNonEmpty(pairs) && n < |pairs| && IndexOf(s, pairs[n].0) < 0
    ensures ReplaceEach(s, pairs[n..]) == ReplaceEach(s, pairs[n + 1..])
  {
    ReplaceEachFrom(s, pairs, n, pairs[n].0, pairs[n].1);
    ReplaceAllNone(s, pairs[n].0, pairs[n].1);
  }

  /** The italic passes turn the italic tags into their placeholders. */
  lemma ItalicPasses(t: string)
    requires '<' !in t
    ensures ReplaceEach("<i>" + t + "</i>", Tags[2..])
      == ReplaceEach("§§§I§§§" + t + "§§§/I§§§", Tags[4..])
  {
    TagPairs();
    ClosingLacksOpening();
    WrapPasses(Tags, 2, "<i>", t, "</i>", "§§§I§§§", "§§§/I§§§");
  }

  /** Quirk of the restore order: the restores run one placeholder at a time over the whole
      text, so a placeholder can be found across two neighbouring ones. Italic text that is
      just `B` is protected as `§§§I§§§B§§§/I§§§`, the bold restore finds `§§§B§§§`
      straddling the italic placeholders, and the italic tags never come back. */
  lemma ItalicAroundB(t: string)
    requires t == "B"
    ensures Clean("<i>" + t + "</i>") == "§§§I<b>/I§§§"
  {
    var s := "<i>" + t + "</i>";
    var u := "§§§I§§§" + t + "§§§/I§§§";
    ItalicOpenings(t);
    StripNone(s, "<img");
    ReplaceBrNone(s);
    ItalicProtect(t);
    Absent(u, "<");
    StripNone(u, "<");
    ItalicAroundBUnprotect(t);
    NoNewlineNoTriple("§§§I<b>/I§§§");
  }

  /** Neither `<img` nor `<br` occurs in an italic span around text without `<`. */
  lemma ItalicOpenings(t: string)
    requires '<' !in t
    ensures IndexOf("<i>" + t + "</i>", "<img") < 0
    ensures IndexOf("<i>" + t + "</i>", "<br") < 0
  {
    var s := "<i>" + t + "</i>";
    var c := |t| + 3;
    MismatchAt(s, "<img", 0, 2);
    MismatchAt(s, "<img", c, 1);
    NotAround("<i>", t, "</i>", "<img");
    MismatchAt(s, "<br", 0, 1);
    MismatchAt(s, "<br", c, 1);
    NotAround("<i>", t, "</i>", "<br");
  }

  /** The restore passes of the protected italic `B`: the bold placeholder is found at 4,
      and what is left holds no whole placeholder. */
  lemma ItalicAroundBUnprotect(t: string)
    requires t == "B"
    ensures Unprotect("§§§I§§§" + t + "§§§/I§§§") == "§§§I<b>/I§§§"
  {
    var u := "§§§I§§§" + t + "§§§/I§§§";
    var v := "§§§I<b>/I§§§";
    ItalicAroundBRestores(t);
    LeftoverRestores();
    UnprotectLeftover(u, v);
  }

  /** Unprotect gives v back when the first restore pass turns u into v and no other pass
      finds anything in v. */
  lemma UnprotectLeftover(u: string, v: string)
    requires ReplaceEach(u, Swapped(Tags)) == ReplaceEach(v, Swapped(Tags)[1..])
    requires ReplaceEach(v, Swapped(Tags)[1..]) == v
    requires AnchorRestore(v) == v && ReplaceAll(v, "§§§/A§§§", "</a>") == v
    ensures Unprotect(u) == v
  {
  }

  /** The first restore pass over the protected italic `B` is the bold one. */
  lemma ItalicAroundBRestores(t: string)
    requires t == "B"
    ensures ReplaceEach("§§§I§§§" + t + "§§§/I§§§", Swapped(Tags))
      == ReplaceEach("§§§I<b>/I§§§", Swapped(Tags)[1..])
  {
    var sw := Swapped(Tags);
    assert sw[0..] == sw;
    TagPairs();
    ReplaceEachFrom("§§§I§§§" + t + "§§§/I§§§", sw, 0, "§§§B§§§", "<b>");
    BoldRestoreStraddles(t);
  }

  /** No restore finds anything in what the bold restore leaves of the italic `B`. */
  lemma LeftoverRestores()
    ensures ReplaceEach("§§§I<b>/I§§§", Swapped(Tags)[1..]) == "§§§I<b>/I§§§"
    ensures AnchorRestore("§§§I<b>/I§§§") == "§§§I<b>/I§§§"
    ensures ReplaceAll("§§§I<b>/I§§§", "§§§/A§§§", "</a>") == "§§§I<b>/I§§§"
  {
    var v := "§§§I<b>/I§§§";
    var rest := Swapped(Tags)[1..];
    forall k | 0 <= k < |rest| ensures IndexOf(v, rest[k].0) < 0 {
      TagShape(k + 1);
      LeftoverNone(rest[k].0);
    }
    ReplaceEachNone(v, rest);
    LeftoverNone("§§§A§§§");
    LeftoverNone("§§§/A§§§");
    ReplaceAllNone(v, "§§§/A§§§", "</a>");
  }

  /** The bold restore finds `§§§B§§§` at 4, across the two italic placeholders. */
  lemma BoldRestoreStraddles(t: string)
    requires t == "B"
    ensures ReplaceAll("§§§I§§§" + t + "§§§/I§§§", "§§§B§§§", "<b>") == "§§§I<b>/I§§§"
  {
    var P := "§§§B§§§";
    var x := "§§§" + t + "§§§/I§§§";
    var u := "§§§I" + x;
    calc {
      ReplaceAll("§§§I§§§" + t + "§§§/I§§§", P, "<b>");
      { assert "§§§I§§§" + t + "§§§/I§§§" == u; }
      ReplaceAll(u, P, "<b>");
      {
        MismatchAt(u, P, 0, 3);
        MismatchAt(u, P, 1, 2);
        MismatchAt(u, P, 2, 1);
        MismatchAt(u, P, 3, 0);
        ReplaceAllAfter("§§§I", x, P, "<b>");
      }
      "§§§I" + ReplaceAll(x, P, "<b>");
      {
        assert x == P + "/I§§§";
        ReplaceAllFront(P, "/I§§§", "<b>");
        ReplaceAllNone("/I§§§", P, "<b>");
      }
      "§§§I" + ("<b>" + "/I§§§");
    }
  }

  /** No placeholder-like pattern (three `§`, then a fifth character other than `<`) occurs
      in what the bold restore leaves of `<i>B</i>`. */
  lemma LeftoverNone(w: string)
    requires |w| >= 7 && w[0] == '§' && w[1] == '§' && w[2] == '§' && w[4] != '<'
    ensures IndexOf("§§§I<b>/I§§§", w) < 0
  {
    var v := "§§§I<b>/I§§§";
    MismatchAt(v, w, 0, 4);
    MismatchAt(v, w, 1, 2);
    MismatchAt(v, w, 2, 1);
    AbsentUnlessAt(v, w, {0, 1, 2, 9, 10, 11});
  }

  /** Text without newlines has no three in a row. */
  lemma NoNewlineNoTriple(s: string)
    requires '\n' !in s
    ensures NoTriple(s)
  {
    forall k | 0 <= k < |s| ensures s[k] != '\n' {
      assert s[k] in s;
    }
  }

  // ---------------------------------------------------------------- literal replacement

  /** A text without the pattern is left as it is. */
  lemma ReplaceAllNone(s: string, pat: string, rep: string)
    requires pat != [] && IndexOf(s, pat) < 0
    ensures ReplaceAll(s, pat, rep) == s
  {
  }

  /** A pattern at the front is replaced and the replacement goes on behind it. */
  lemma ReplaceAllFront(pat: string, u: string, rep: string)
    requires pat != []
    ensures ReplaceAll(pat + u, pat, rep) == rep + ReplaceAll(u, pat, rep)
  {
    AtFront(pat, u);
    assert (pat + u)[|pat|..] == u;
    assert (pat + u)[..0] + rep == rep;
  }

  /** A replacement leaves a front part alone in which no occurrence starts. */
  lemma ReplaceAllAfter(p: string, x: string, pat: string, rep: string)
    requires pat != []
    requires forall k :: 0 <= k < |p| ==> !OccursAt(p + x, pat, k)
    ensures ReplaceAll(p + x, pat, rep) == p + ReplaceAll(x, pat, rep)
  {
    IndexAfter(p, x, pat);
    ReplaceAllShifted(p, x, pat, rep);
  }

  /** ReplaceAllAfter once the first occurrence is known to be the back part's, shifted. */
  lemma ReplaceAllShifted(p: string, x: string, pat: string, rep: string)
    requires pat != []
    requires IndexOf(p + x, pat) == if IndexOf(x, pat) < 0 then -1 else |p| + IndexOf(x, pat)
    ensures ReplaceAll(p + x, pat, rep) == p + ReplaceAll(x, pat, rep)
  {
    var q := IndexOf(x, pat);
    if q >= 0 {
      ReplaceAtAfter(p, x, pat, rep, q);
    } else {
      ReplaceAllNone(p + x, pat, rep);
      ReplaceAllNone(x, pat, rep);
    }
  }

  /** The replacement from an occurrence does not depend on the text in front. */
  lemma ReplaceAtAfter(p: string, x: string, pat: string, rep: string, q: nat)
    requires pat != [] && q + |pat| <= |x|
    ensures ReplaceAt(p + x, pat, rep, |p| + q) == p + ReplaceAt(x, pat, rep, q)
  {
    assert (p + x)[..|p| + q] == p + x[..q];
    assert (p + x)[|p| + q + |pat|..] == x[q + |pat|..];
    var r := ReplaceAll(x[q + |pat|..], pat, rep);
    assert (p + x[..q]) + rep + r == p + (x[..q] + rep + r);
  }

  /** A table applied in two parts, one after the other. */
  lemma {:induction false} ReplaceEachSplit(s: string, pairs: seq<(string, string)>, n: nat)
    requires PatternsNonEmpty(pairs) && n <= |pairs|
    ensures ReplaceEach(s, pairs) == ReplaceEach(ReplaceEach(s, pairs[..n]), pairs[n..])
    decreases |pairs|
  {
    if n == |pairs| {
      assert pairs[..n] == pairs;
      assert pairs[n..] == [];
    } else {
      var m := |pairs| - 1;
      ReplaceEachSplit(s, pairs[..m], n);
      assert pairs[..m][..n] == pairs[..n];
      assert pairs[n..][..m - n] == pairs[..m][n..];
      assert pairs[n..][m - n] == pairs[m];
    }
  }

  /** A table from its n-th replacement on: that replacement, then the rest. */
  lemma ReplaceEachFrom(s: string, pairs: seq<(string, string)>, n: nat, pat: string, rep: string)
    requires PatternsNonEmpty(pairs) && n < |pairs| && pairs[n] == (pat, rep)
    ensures pat != []
    ensures ReplaceEach(s, pairs[n..]) == ReplaceEach(ReplaceAll(s, pat, rep), pairs[n + 1..])
  {
    var rest := pairs[n..];
    ReplaceEachSplit(s, rest, 1);
    assert rest[..1][..0] == [];
    assert rest[1..] == pairs[n + 1..];
  }

  /** The first table entries, both ways round. */
  lemma TagPairs()
    ensures Tags[0] == ("<b>", "§§§B§§§") && Tags[1] == ("</b>", "§§§/B§§§")
    ensures Tags[2] == ("<i>", "§§§I§§§") && Tags[3] == ("</i>", "§§§/I§§§")
    ensures Swapped(Tags)[0] == ("§§§B§§§", "<b>") && Swapped(Tags)[1] == ("§§§/B§§§", "</b>")
  {
  }

  /** Each tag of the table starts with `<`, each placeholder with `§`. */
  lemma TagShape(k: nat)
    requires k < |Tags|
    ensures Tags[k].0 != [] && Tags[k].0[0] == '<'
    ensures |Tags[k].1| >= 7 && Tags[k].1[0] == '§' && Tags[k].1[1] == '§'
    ensures Tags[k].1[2] == '§' && Tags[k].1[4] != '<'
  {
  }

  /** The tag passes from the n-th on change nothing in a text without `<`. */
  lemma TagsAbsent(s: string, n: nat)
    requires n <= |Tags| && '<' !in s
    ensures ReplaceEach(s, Tags[n..]) == s
  {
    var rest := Tags[n..];
    forall k | 0 <= k < |rest| ensures rest[k].0 != [] && IndexOf(s, rest[k].0) < 0 {
      TagShape(n + k);
      Absent(s, rest[k].0);
    }
    ReplaceEachNone(s, rest);
  }

  /** The restore passes from the n-th on change nothing in a text without `§`. */
  lemma PlaceholdersAbsent(s: string, n: nat)
    requires n <= |Tags| && '§' !in s
    ensures ReplaceEach(s, Swapped(Tags)[n..]) == s
  {
    var rest := Swapped(Tags)[n..];
    forall k | 0 <= k < |rest| ensures rest[k].0 != [] && IndexOf(s, rest[k].0) < 0 {
      TagShape(n + k);
      Absent(s, rest[k].0);
    }
    ReplaceEachNone(s, rest);
  }

  /** A table none of whose patterns occurs in s changes nothing. */
  lemma {:induction false} ReplaceEachNone(s: string, pairs: seq<(string, string)>)
    requires PatternsNonEmpty(pairs)
    requires forall k :: 0 <= k < |pairs| ==> IndexOf(s, pairs[k].0) < 0
    ensures ReplaceEach(s, pairs) == s
    decreases |pairs|
  {
    if pairs != [] {
      var n := |pairs| - 1;
      ReplaceEachNone(s, pairs[..n]);
    }
  }

  /** No `<` is followed, anywhere later, by a `>`. */
  ghost predicate TagFree(r: string) {
    forall a, b :: 0 <= a < b < |r| && r[a] == '<' ==> r[b] != '>'
  }

  /** After the generic strip `<[^>]*>` no tag is left: no `<` has a `>` after it. */
  lemma {:induction false} StripLeavesNoTag(s: string)
    ensures TagFree(StripSpans(s, "<"))
    decreases |s|
  {
    var i := IndexOf(s, "<");
    NoOpenBefore(s, i);
    if i >= 0 {
      var k := i + 1 + FirstIndex(s[i + 1..], '>');
      if k < |s| {
        StripLeavesNoTag(s[k + 1..]);
        StripUnfold(s, "<", i, k);
        TagFreeConcat(s[..i], StripSpans(s[k + 1..], "<"));
      } else {
        OpenWithoutClose(s, i);
      }
    }
  }

  /** Before the first `<` (everywhere, when there is none) no character is a `<`. */
  lemma NoOpenBefore(s: string, i: int)
    requires i == IndexOf(s, "<")
    ensures forall k :: 0 <= k < |s| && (i < 0 || k < i) ==> s[k] != '<'
  {
    forall k | 0 <= k < |s| && (i < 0 || k < i) ensures s[k] != '<' {
      assert s[k..k + 1] == [s[k]];
      assert !OccursAt(s, "<", k);
    }
  }

  /** A strip whose first opening at i is closed by the `>` at k. */
  lemma StripUnfold(s: string, open: string, i: nat, k: nat)
    requires open != [] && i == IndexOf(s, open)
    requires k == i + |open| + FirstIndex(s[i + |open|..], '>') && k < |s|
    ensures StripSpans(s, open) == s[..i] + StripSpans(s[k + 1..], open)
  {
    StripSpansAt(s, open, i);
    StripAtUnfold(s, open, i, k);
  }

  /** The strip goes on from the first opening. */
  lemma StripSpansAt(s: string, open: string, i: nat)
    requires open != [] && i == IndexOf(s, open)
    ensures StripSpans(s, open) == StripAt(s, open, i)
  {
  }

  /** The strip from an opening at i closed by the `>` at k. */
  lemma StripAtUnfold(s: string, open: string, i: nat, k: nat)
    requires open != [] && i + |open| <= |s|
    requires k == i + |open| + FirstIndex(s[i + |open|..], '>') && k < |s|
    ensures StripAt(s, open, i) == s[..i] + StripSpans(s[k + 1..], open)
  {
  }

  /** A `<`-free text in front keeps a text free of tags. */
  lemma TagFreeConcat(a: string, b: string)
    requires forall k :: 0 <= k < |a| ==> a[k] != '<'
    requires TagFree(b)
    ensures TagFree(a + b)
  {
    var r := a + b;
    forall x, y | 0 <= x < y < |r| && r[x] == '<' ensures r[y] != '>' {
      assert r[x] == b[x - |a|];
      assert r[y] == b[y - |a|];
    }
  }

  /** A text whose first `<` has no `>` after it is free of tags. */
  lemma OpenWithoutClose(s: string, i: nat)
    requires i < |s| && i + 1 + FirstIndex(s[i + 1..], '>') == |s|
    requires forall k :: 0 <= k < i ==> s[k] != '<'
    ensures TagFree(s)
  {
    forall b | i < b < |s| ensures s[b] != '>' {
      assert s[i + 1..][b - i - 1] == s[b];
    }
  }

  /** The img pass removes an `<img ...>` tag wherever it stands when no `<img` comes
      before it: the text in front is kept and the pass goes on after the tag's `>`. */
  lemma ImgTagRemoved(p: string, u: string, t: string)
    requires !Contains(p, "<img") && '>' !in u
    ensures StripSpans(p + "<img" + u + ">" + t, "<img") == p + StripSpans(t, "<img")
  {
    var x := "<img" + u + ">" + t;
    assert "<img"[1..] == "img";
    NoStraddle(p, x, "<img");
    assert p + "<img" + u + ">" + t == p + x;
    StripAfter(p, x, "<img");
    ImgTagAtFront(u, t);
  }

  /** A strip leaves a front part alone in which no opening starts. */
  lemma StripAfter(p: string, x: string, open: string)
    requires open != []
    requires forall k :: 0 <= k < |p| ==> !OccursAt(p + x, open, k)
    ensures StripSpans(p + x, open) == p + StripSpans(x, open)
  {
    IndexAfter(p, x, open);
    StripShifted(p, x, open);
  }

  /** StripAfter once the first opening is known to be the back part's, shifted. */
  lemma StripShifted(p: string, x: string, open: string)
    requires open != []
    requires IndexOf(p + x, open) == if IndexOf(x, open) < 0 then -1 else |p| + IndexOf(x, open)
    ensures StripSpans(p + x, open) == p + StripSpans(x, open)
  {
    var q := IndexOf(x, open);
    if q >= 0 {
      StripShiftedAt(p, x, open, q);
    } else {
      StripNone(p + x, open);
      StripNone(x, open);
    }
  }

  /** StripShifted when the back part holds an opening, first at q. */
  lemma StripShiftedAt(p: string, x: string, open: string, q: nat)
    requires open != [] && q == IndexOf(x, open) && IndexOf(p + x, open) == |p| + q
    ensures StripSpans(p + x, open) == p + StripSpans(x, open)
  {
    StripFrom(p + x, open, |p| + q);
    StripFrom(x, open, q);
    StripAtAfter(p, x, open, q);
    Chain(StripSpans(p + x, open), StripAt(p + x, open, |p| + q), p, StripAt(x, open, q), StripSpans(x, open));
  }

  /** The strip goes on from the first opening. */
  lemma StripFrom(s: string, open: string, i: nat)
    requires open != [] && i == IndexOf(s, open)
    ensures i + |open| <= |s| && StripSpans(s, open) == StripAt(s, open, i)
  {
  }

  /** A text without an opening is left as it is. */
  lemma StripNone(s: string, open: string)
    requires open != [] && IndexOf(s, open) < 0
    ensures StripSpans(s, open) == s
  {
  }

  /** A strip from an opening does not depend on the text in front. */
  lemma StripAtAfter(p: string, x: string, open: string, q: nat)
    requires open != [] && q + |open| <= |x|
    ensures StripAt(p + x, open, |p| + q) == p + StripAt(x, open, q)
  {
    var s := p + x;
    var i := |p| + q;
    assert s[i + |open|..] == x[q + |open|..];
    var k := q + |open| + FirstIndex(x[q + |open|..], '>');
    if k < |x| {
      StripAtClosed(p, x, open, q, k);
      StripAtUnfold(x, open, q, k);
    } else {
      StripAtOpen(s, open, i);
      StripAtOpen(x, open, q);
    }
  }

  /** StripAtAfter when a `>` closes the opening. */
  lemma StripAtClosed(p: string, x: string, open: string, q: nat, k: nat)
    requires open != [] && q + |open| <= |x|
    requires k == q + |open| + FirstIndex(x[q + |open|..], '>') && k < |x|
    ensures StripAt(p + x, open, |p| + q) == p + (x[..q] + StripSpans(x[k + 1..], open))
  {
    var s := p + x;
    var i := |p| + q;
    var K := |p| + k;
    CloseAfter(p, x, q, open, k);
    assert s[K + 1..] == x[k + 1..];
    assert s[..i] == p + x[..q];
    StripAtUnfold(s, open, i, K);
    Associative(p, x[..q], StripSpans(x[k + 1..], open));
  }

  /** The first `>` behind a front part is found where it is in the back part. */
  lemma CloseAfter(p: string, x: string, q: nat, open: string, k: nat)
    requires q + |open| <= |x|
    requires k == q + |open| + FirstIndex(x[q + |open|..], '>') && k < |x|
    ensures |p| + k == |p| + q + |open| + FirstIndex((p + x)[|p| + q + |open|..], '>')
  {
    var t := (p + x)[|p| + q + |open|..];
    var f := k - q - |open|;
    assert x[q + |open|..][f] == '>';
    assert t[f] == x[q + |open|..][f];
    forall j | 0 <= j < f ensures t[j] != '>' {
      assert t[j] == x[q + |open|..][j];
    }
    FirstIndexAt(t, '>', f);
  }

  /** Concatenation is associative. */
  lemma Associative(a: string, b: string, c: string)
    ensures (a + b) + c == a + (b + c)
  {
  }

  /** A strip from an opening with no `>` after it keeps the text. */
  lemma StripAtOpen(s: string, open: string, i: nat)
    requires open != [] && i + |open| <= |s|
    requires i + |open| + FirstIndex(s[i + |open|..], '>') == |s|
    ensures StripAt(s, open, i) == s
  {
  }

  /** The img pass does not look again at what it has passed: in `<im<img>g>` it removes
      the inner tag, and the text around it joins into a new `<img>`. */
  lemma ImgPassJoins(p: string, q: string)
    requires p == "<im" && q == "g>"
    ensures StripSpans(p + "<img>" + q, "<img") == "<img>"
  {
    AbsentUnlessAt(p, "<img", {0});
    assert p + "<img>" + q == p + "<img" + "" + ">" + q;
    ImgTagRemoved(p, "", q);
    Absent(q, "<img");
    StripNone(q, "<img");
    assert p + q == "<img>";
  }

  /** The img pass removes an `<img ...>` tag at the front. */
  lemma ImgTagAtFront(u: string, t: string)
    requires '>' !in u
    ensures StripSpans("<img" + u + ">" + t, "<img") == StripSpans(t, "<img")
  {
    var s := "<img" + u + ">" + t;
    assert OccursAt(s, "<img", 0);
    assert s[4..] == u + ">" + t;
    assert (u + ">" + t)[|u|] == '>';
    assert FirstIndex(s[4..], '>') == |u|;
    assert s[4 + |u| + 1..] == t;
  }

  /** The leading run of f-characters is n long when the first n characters satisfy f and
      the next one, if any, does not. */
  lemma LeadLenIs(t: string, f: char -> bool, n: nat)
    requires n <= |t| && forall k :: 0 <= k < n ==> f(t[k])
    requires n < |t| ==> !f(t[n])
    ensures LeadLen(t, f) == n
  {
  }

  /** The br pass turns `<br>`, `<br/>` and `<br />` (with any `\s` run) into a newline
      wherever it stands when no `<br` comes before it: the text in front is kept and the
      pass goes on after the tag. */
  lemma BrBecomesNewline(p: string, ws: string, slash: bool, t: string)
    requires !Contains(p, "<br")
    requires forall k :: 0 <= k < |ws| ==> RegexSpace(ws[k])
    ensures var close := if slash then "/>" else ">";
      ReplaceBr(p + "<br" + ws + close + t) == p + "\n" + ReplaceBr(t)
  {
    var close := if slash then "/>" else ">";
    var x := "<br" + ws + close + t;
    assert "<br"[1..] == "br";
    NoStraddle(p, x, "<br");
    assert p + "<br" + ws + close + t == p + x;
    ReplaceBrAfter(p, x);
    BrAtFront(ws, slash, t);
  }

  /** The br pass leaves a front part alone in which no `<br` starts. */
  lemma ReplaceBrAfter(p: string, x: string)
    requires forall k :: 0 <= k < |p| ==> !OccursAt(p + x, "<br", k)
    ensures ReplaceBr(p + x) == p + ReplaceBr(x)
  {
    IndexAfter(p, x, "<br");
    ReplaceBrShifted(p, x);
  }

  /** ReplaceBrAfter once the first `<br` is known to be the back part's, shifted. */
  lemma ReplaceBrShifted(p: string, x: string)
    requires IndexOf(p + x, "<br") == if IndexOf(x, "<br") < 0 then -1 else |p| + IndexOf(x, "<br")
    ensures ReplaceBr(p + x) == p + ReplaceBr(x)
  {
    var q := IndexOf(x, "<br");
    if q >= 0 {
      BrAtAfter(p, x, q);
      ReplaceBrFirst(p + x, |p| + q);
      ReplaceBrFirst(x, q);
    } else {
      ReplaceBrNone(p + x);
      ReplaceBrNone(x);
    }
  }

  /** The br pass goes on from the first `<br`. */
  lemma ReplaceBrFirst(s: string, i: nat)
    requires i == IndexOf(s, "<br")
    ensures i + 3 <= |s| && ReplaceBr(s) == BrAt(s, i)
  {
  }

  /** A text without `<br` is left as it is by the br pass. */
  lemma ReplaceBrNone(s: string)
    requires IndexOf(s, "<br") < 0
    ensures ReplaceBr(s) == s
  {
  }

  /** The br pass from a `<br` does not depend on the text in front. */
  lemma BrAtAfter(p: string, x: string, q: nat)
    requires q + 3 <= |x|
    ensures BrAt(p + x, |p| + q) == p + BrAt(x, q)
  {
    BrEndAfter(p, x, q);
    var e := BrEnd(x, q);
    if e < 0 {
      BrSkipAfter(p, x, q);
    } else {
      BrTagAfter(p, x, q, e);
    }
  }

  /** The br pass at a `<br` that starts no tag. */
  lemma BrAtSkip(s: string, i: nat)
    requires i + 3 <= |s| && BrEnd(s, i) < 0
    ensures BrAt(s, i) == s[..i + 1] + ReplaceBr(s[i + 1..])
  {
  }

  /** The br pass at a `<br` tag that ends at e. */
  lemma BrAtTag(s: string, i: nat, e: nat)
    requires i + 3 <= |s| && BrEnd(s, i) == e
    ensures i + 3 <= e <= |s|
    ensures BrAt(s, i) == s[..i] + "\n" + ReplaceBr(s[e..])
  {
  }

  /** A `<br` that is no tag is kept, behind a front part as without it. */
  lemma BrSkipAfter(p: string, x: string, q: nat)
    requires q + 3 <= |x| && BrEnd(x, q) < 0 && BrEnd(p + x, |p| + q) < 0
    ensures BrAt(p + x, |p| + q) == p + BrAt(x, q)
  {
    BrAtSkip(p + x, |p| + q);
    BrAtSkip(x, q);
    assert (p + x)[..|p| + q + 1] == p + x[..q + 1];
    assert (p + x)[|p| + q + 1..] == x[q + 1..];
    Associative(p, x[..q + 1], ReplaceBr(x[q + 1..]));
  }

  /** A `<br` tag becomes a newline, behind a front part as without it. */
  lemma BrTagAfter(p: string, x: string, q: nat, e: nat)
    requires q + 3 <= |x| && BrEnd(x, q) == e && BrEnd(p + x, |p| + q) == |p| + e
    ensures BrAt(p + x, |p| + q) == p + BrAt(x, q)
  {
    BrAtTag(p + x, |p| + q, |p| + e);
    BrAtTag(x, q, e);
    BrTagShift(p, x, q, e);
    Chain(BrAt(p + x, |p| + q), (p + x)[..|p| + q] + "\n" + ReplaceBr((p + x)[|p| + e..]),
      p, x[..q] + "\n" + ReplaceBr(x[e..]), BrAt(x, q));
  }

  /** Two rewrites and a shift behind a front part, chained. */
  lemma Chain(a: string, b: string, p: string, c: string, d: string)
    requires a == b && b == p + c && d == c
    ensures a == p + d
  {
  }

  /** The pieces of a `<br` tag's replacement, behind a front part. */
  lemma BrTagShift(p: string, x: string, q: nat, e: nat)
    requires q + 3 <= e <= |x|
    ensures (p + x)[..|p| + q] + "\n" + ReplaceBr((p + x)[|p| + e..])
      == p + (x[..q] + "\n" + ReplaceBr(x[e..]))
  {
    assert (p + x)[..|p| + q] == p + x[..q];
    assert (p + x)[|p| + e..] == x[e..];
    var r := ReplaceBr(x[e..]);
    assert (p + x[..q]) + "\n" + r == p + (x[..q] + "\n" + r);
  }

  /** Where a `<br` tag ends does not depend on the text in front of it. */
  lemma BrEndAfter(p: string, x: string, q: nat)
    requires q + 3 <= |x|
    ensures BrEnd(p + x, |p| + q) == if BrEnd(x, q) < 0 then -1 else |p| + BrEnd(x, q)
  {
    assert (p + x)[|p| + q + 3..] == x[q + 3..];
  }

  /** The br pass turns `<br>`, `<br/>` and `<br />` (with any `\s` run) at the front into a
      newline. */
  lemma BrAtFront(ws: string, slash: bool, t: string)
    requires forall k :: 0 <= k < |ws| ==> RegexSpace(ws[k])
    ensures var close := if slash then "/>" else ">";
      ReplaceBr("<br" + ws + close + t) == "\n" + ReplaceBr(t)
  {
    var close := if slash then "/>" else ">";
    var s := "<br" + ws + close + t;
    var e := 3 + |ws| + |close|;
    AtFront("<br", ws + close + t);
    BrEndAt(ws, slash, t);
    assert s[e..] == t;
    ReplaceBrAtFront(s, e);
  }

  /** A `<br` tag at the front ending at e becomes a newline. */
  lemma ReplaceBrAtFront(s: string, e: int)
    requires |s| >= 3 && IndexOf(s, "<br") == 0 && BrEnd(s, 0) == e && 0 <= e <= |s|
    ensures ReplaceBr(s) == "\n" + ReplaceBr(s[e..])
  {
    assert s[..0] + "\n" == "\n";
  }

  /** A text that starts with w has its first occurrence of w at 0. */
  lemma AtFront(w: string, u: string)
    ensures IndexOf(w + u, w) == 0
  {
    assert (w + u)[0..|w|] == w;
    assert OccursAt(w + u, w, 0);
  }

  /** A `<br`, a `\s` run and `>` or `/>` at the front end where the close does. */
  lemma BrEndAt(ws: string, slash: bool, t: string)
    requires forall k :: 0 <= k < |ws| ==> RegexSpace(ws[k])
    ensures var close := if slash then "/>" else ">";
      BrEnd("<br" + ws + close + t, 0) == 3 + |ws| + |close|
  {
    var close := if slash then "/>" else ">";
    var s := "<br" + ws + close + t;
    assert s[3..] == ws + close + t;
    assert (ws + close + t)[|ws|] == close[0];
    LeadLenIs(s[3..], RegexSpace, |ws|);
    assert s[3 + |ws|] == close[0];
    if slash {
      assert s[3 + |ws| + 1] == '>';
    }
  }

  // ---------------------------------------------------------------- properties of the image search

  /** LastSome picks the present value with the greatest index. */
  lemma {:induction false} LastSomeMeaning(xs: seq<Option<string>>)
    ensures LastSome(xs).None? <==> forall k :: 0 <= k < |xs| ==> xs[k].None?
    ensures LastSome(xs).Some? ==>
      exists k :: 0 <= k < |xs| && xs[k] == LastSome(xs) && forall k' :: k < k' < |xs| ==> xs[k'].None?
    decreases |xs|
  {
    if xs == [] {
    } else if xs[|xs| - 1].Some? {
      assert xs[|xs| - 1] == LastSome(xs);
    } else {
      var n := |xs| - 1;
      var ys := xs[..n];
      LastSomeMeaning(ys);
      assert LastSome(xs) == LastSome(ys);
      assert forall k :: 0 <= k < n ==> ys[k] == xs[k];
      if LastSome(ys).Some? {
        var k :| 0 <= k < |ys| && ys[k] == LastSome(ys) && forall k' :: k < k' < |ys| ==> ys[k'].None?;
        assert xs[k] == LastSome(xs);
        assert forall k' :: k < k' < |xs| ==> xs[k'].None?;
      }
    }
  }

  /** FirstSome picks the present value with the least index. */
  lemma {:induction false} FirstSomeMeaning(xs: seq<Option<string>>)
    ensures FirstSome(xs).None? <==> forall k :: 0 <= k < |xs| ==> xs[k].None?
    ensures FirstSome(xs).Some? ==>
      exists k :: 0 <= k < |xs| && xs[k] == FirstSome(xs) && forall k' :: 0 <= k' < k ==> xs[k'].None?
    decreases |xs|
  {
    if xs != [] && xs[0].None? {
      FirstSomeMeaning(xs[1..]);
      assert forall k :: 1 <= k < |xs| ==> xs[1..][k - 1] == xs[k];
      if FirstSome(xs).Some? {
        var k :| 0 <= k < |xs[1..]| && xs[1..][k] == FirstSome(xs[1..])
          && forall k' :: 0 <= k' < k ==> xs[1..][k'].None?;
        assert xs[k + 1] == FirstSome(xs);
        assert forall k' :: 0 <= k' < k + 1 ==> xs[k'].None?;
      }
    }
  }

  /** No pattern matches at a start past the end of the text. */
  lemma MatchPastEnd(pat: Pattern, s: string, j: nat)
    requires j > |s|
    ensures MatchAt(pat, s, j).None?
  {
  }

  /** Every match of every pattern is a non-empty string. */
  lemma MatchNonEmpty(pat: Pattern, s: string, j: nat)
    requires MatchAt(pat, s, j).Some?
    ensures MatchAt(pat, s, j).value != []
  {
    match pat
      case ImgSrc =>
        var g := j + 4 + FirstIndex(s[j + 4..], '>');
        LastSomeMeaning(SrcCandidates(s, j + 5, g));
      case ImageUrl =>
        var r := SchemeEnd(s, j);
        var e := r + LeadLen(s[r..], UrlChar);
        LastSomeMeaning(DotCandidates(s, j, r + 1, e));
      case TelegramCdn =>
  }

  /** A pattern's first match is the match at the least start position that has one, and
      there is none exactly when no start position has one. */
  lemma FindMeaning(pat: Pattern, s: string)
    ensures Find(pat, s).None? <==> forall j: nat :: MatchAt(pat, s, j).None?
    ensures Find(pat, s).Some? ==>
      exists j: nat :: MatchAt(pat, s, j) == Find(pat, s)
        && forall k: nat :: k < j ==> MatchAt(pat, s, k).None?
  {
    var ms := Starts(pat, s);
    FirstSomeMeaning(ms);
    assert forall j :: 0 <= j < |ms| ==> ms[j] == MatchAt(pat, s, j);
    forall j: nat | j > |s| ensures MatchAt(pat, s, j).None? {
      MatchPastEnd(pat, s, j);
    }
  }

  /** extractImageURL returns the empty string exactly when none of the three patterns
      matches anywhere, and otherwise the leftmost match of the first pattern that matches. */
  lemma ExtractImageURLMeaning(s: string)
    ensures ExtractImageURL(s) == "" <==>
      forall pat: Pattern, j: nat :: MatchAt(pat, s, j).None?
    ensures Find(ImgSrc, s).Some? ==> ExtractImageURL(s) == Find(ImgSrc, s).value
    ensures Find(ImgSrc, s).None? && Find(ImageUrl, s).Some? ==>
      ExtractImageURL(s) == Find(ImageUrl, s).value
    ensures Find(ImgSrc, s).None? && Find(ImageUrl, s).None? ==>
      ExtractImageURL(s) == (if Find(TelegramCdn, s).Some? then Find(TelegramCdn, s).value else "")
  {
    FindMeaning(ImgSrc, s);
    FindMeaning(ImageUrl, s);
    FindMeaning(TelegramCdn, s);
    forall pat: Pattern, j: nat | MatchAt(pat, s, j).Some? ensures MatchAt(pat, s, j).value != [] {
      MatchNonEmpty(pat, s, j);
    }
  }

  /** The `src=` value at p as the regular expression reads it: a quote, a non-empty run of
      non-quote characters (the capture) and a quote. */
  lemma SrcAtMeaning(s: string, p: nat, v: string)
    ensures SrcAt(s, p) == Some(v) <==>
      && OccursAt(s, "src=", p) && p + 4 < |s| && IsQuote(s[p + 4])
      && v != [] && p + 5 + |v| < |s| && s[p + 5..p + 5 + |v|] == v
      && (forall k :: 0 <= k < |v| ==> NotQuote(v[k]))
      && IsQuote(s[p + 5 + |v|])
  {
    if OccursAt(s, "src=", p) && p + 4 < |s| && IsQuote(s[p + 4]) {
      var c := p + 5 + LeadLen(s[p + 5..], NotQuote);
      if v != [] && p + 5 + |v| < |s| && s[p + 5..p + 5 + |v|] == v
         && (forall k :: 0 <= k < |v| ==> NotQuote(v[k])) && IsQuote(s[p + 5 + |v|]) {
        var t := s[p + 5..];
        assert forall k :: 0 <= k < |v| ==> t[k] == v[k];
        assert t[|v|] == s[p + 5 + |v|];
        LeadLenIs(t, NotQuote, |v|);
        assert t[..|v|] == v;
      }
    }
  }

  /** The last SrcAt result over positions lo .. hi, by position. */
  lemma LastSrc(s: string, lo: nat, hi: int)
    ensures LastSome(SrcCandidates(s, lo, hi)).None? <==> forall p: nat :: lo <= p <= hi ==> SrcAt(s, p).None?
    ensures LastSome(SrcCandidates(s, lo, hi)).Some? ==>
      exists p: nat :: lo <= p <= hi && SrcAt(s, p) == LastSome(SrcCandidates(s, lo, hi))
        && forall q: nat :: p < q <= hi ==> SrcAt(s, q).None?
  {
    var xs := SrcCandidates(s, lo, hi);
    LastSomeMeaning(xs);
    forall p: nat | lo <= p <= hi ensures xs[p - lo] == SrcAt(s, p) { }
    if LastSome(xs).Some? {
      var k :| 0 <= k < |xs| && xs[k] == LastSome(xs) && forall k' :: k < k' < |xs| ==> xs[k'].None?;
      assert SrcAt(s, lo + k) == LastSome(xs);
    }
  }

  /** The last DotAt result over positions lo .. hi, by position. */
  lemma LastDot(s: string, i: nat, lo: nat, hi: int)
    ensures LastSome(DotCandidates(s, i, lo, hi)).None? <==> forall q: nat :: lo <= q <= hi ==> DotAt(s, i, q).None?
    ensures LastSome(DotCandidates(s, i, lo, hi)).Some? ==>
      exists q: nat :: lo <= q <= hi && DotAt(s, i, q) == LastSome(DotCandidates(s, i, lo, hi))
        && forall q': nat :: q < q' <= hi ==> DotAt(s, i, q').None?
  {
    var xs := DotCandidates(s, i, lo, hi);
    LastSomeMeaning(xs);
    forall q: nat | lo <= q <= hi ensures xs[q - lo] == DotAt(s, i, q) { }
    if LastSome(xs).Some? {
      var k :| 0 <= k < |xs| && xs[k] == LastSome(xs) && forall k' :: k < k' < |xs| ==> xs[k'].None?;
      assert DotAt(s, i, lo + k) == LastSome(xs);
    }
  }

  /** Where the img pattern may read `src=`: at least one character after `<img`, with no
      `>` in between. */
  predicate SrcReachable(s: string, i: nat, p: int) {
    i + 5 <= p <= |s| && forall k :: i + 4 <= k < p ==> s[k] != '>'
  }

  /** The reachable positions are those up to the first `>` after `<img`. */
  lemma SrcReachableRange(s: string, i: nat, p: nat)
    requires i + 4 <= |s|
    ensures SrcReachable(s, i, p) <==> i + 5 <= p <= i + 4 + FirstIndex(s[i + 4..], '>')
  {
    var g := i + 4 + FirstIndex(s[i + 4..], '>');
    if g < |s| {
      assert s[i + 4..][g - i - 4] == s[g];
    }
    if i + 5 <= p <= g {
      forall k | i + 4 <= k < p ensures s[k] != '>' {
        assert s[i + 4..][k - i - 4] == s[k];
      }
    }
  }

  /** The img pattern at i yields the capture of the last reachable `src=` that reads as an
      attribute, as the greedy `[^>]+` does. */
  lemma ImgAtMeaning(s: string, i: nat)
    ensures ImgAt(s, i).Some? <==>
      OccursAt(s, "<img", i) && exists p: nat :: SrcReachable(s, i, p) && SrcAt(s, p).Some?
    ensures ImgAt(s, i).Some? ==>
      exists p: nat :: SrcReachable(s, i, p) && SrcAt(s, p) == ImgAt(s, i)
        && forall q: nat :: p < q && SrcReachable(s, i, q) ==> SrcAt(s, q).None?
  {
    if OccursAt(s, "<img", i) {
      var g := i + 4 + FirstIndex(s[i + 4..], '>');
      LastSrc(s, i + 5, g);
      if ImgAt(s, i).Some? {
        var p: nat :| i + 5 <= p <= g && SrcAt(s, p) == ImgAt(s, i)
          && forall q: nat :: p < q <= g ==> SrcAt(s, q).None?;
        SrcReachableRange(s, i, p);
        forall q: nat | p < q && SrcReachable(s, i, q) ensures SrcAt(s, q).None? {
          SrcReachableRange(s, i, q);
        }
      } else {
        forall p: nat | SrcReachable(s, i, p) ensures SrcAt(s, p).None? {
          SrcReachableRange(s, i, p);
        }
      }
    }
  }

  /** s[r..q] is a non-empty run of URL characters. */
  predicate UrlRunTo(s: string, r: int, q: int) {
    0 <= r < q <= |s| && forall k :: r <= k < q ==> UrlChar(s[k])
  }

  /** The URL runs from r are those ending up to the end of the maximal run. */
  lemma UrlRunRange(s: string, r: nat, q: nat)
    requires r <= |s|
    ensures UrlRunTo(s, r, q) <==> r + 1 <= q <= r + LeadLen(s[r..], UrlChar)
  {
    var e := r + LeadLen(s[r..], UrlChar);
    if e < |s| {
      assert s[r..][e - r] == s[e];
    }
    if r + 1 <= q <= e {
      forall k | r <= k < q ensures UrlChar(s[k]) {
        assert s[r..][k - r] == s[k];
      }
    }
  }

  /** The image-URL pattern at i ends at the last dot inside the URL-character run that an
      extension follows, as the greedy `[^\s"']+` does. */
  lemma UrlAtMeaning(s: string, i: nat)
    ensures UrlAt(s, i).Some? <==>
      SchemeEnd(s, i) >= 0 && exists q: nat :: UrlRunTo(s, SchemeEnd(s, i), q) && DotAt(s, i, q).Some?
    ensures UrlAt(s, i).Some? ==>
      exists q: nat :: UrlRunTo(s, SchemeEnd(s, i), q) && DotAt(s, i, q) == UrlAt(s, i)
        && forall q': nat :: q < q' && UrlRunTo(s, SchemeEnd(s, i), q') ==> DotAt(s, i, q').None?
  {
    var r := SchemeEnd(s, i);
    if r >= 0 {
      UrlRunMeaning(s, i, r);
    }
  }

  /** The last dot candidate inside the URL-character run from r, as a statement about the
      runs. */
  lemma UrlRunMeaning(s: string, i: nat, r: nat)
    requires r <= |s|
    ensures var x := UrlRun(s, i, r);
      && (x.Some? <==> exists q: nat :: UrlRunTo(s, r, q) && DotAt(s, i, q).Some?)
      && (x.Some? ==>
            exists q: nat :: UrlRunTo(s, r, q) && DotAt(s, i, q) == x
              && forall q': nat :: q < q' && UrlRunTo(s, r, q') ==> DotAt(s, i, q').None?)
  {
    var e := r + LeadLen(s[r..], UrlChar);
    var x := LastSome(DotCandidates(s, i, r + 1, e));
    LastDot(s, i, r + 1, e);
    if x.Some? {
      var q: nat :| r + 1 <= q <= e && DotAt(s, i, q) == x
        && forall q': nat :: q < q' <= e ==> DotAt(s, i, q').None?;
      UrlRunLast(s, i, r, q);
      assert UrlRunTo(s, r, q) && DotAt(s, i, q) == x;
    } else {
      UrlRunNoDot(s, i, r);
    }
  }

  /** A dot candidate with none after it in the run is the last one among the runs. */
  lemma UrlRunLast(s: string, i: nat, r: nat, q: nat)
    requires r <= |s|
    requires var e := r + LeadLen(s[r..], UrlChar);
      r + 1 <= q <= e && forall q': nat :: q < q' <= e ==> DotAt(s, i, q').None?
    ensures UrlRunTo(s, r, q)
    ensures forall q': nat :: q < q' && UrlRunTo(s, r, q') ==> DotAt(s, i, q').None?
  {
    UrlRunRange(s, r, q);
    forall q': nat | q < q' && UrlRunTo(s, r, q') ensures DotAt(s, i, q').None? {
      UrlRunRange(s, r, q');
    }
  }

  /** With no dot candidate in the run, no run ends at one. */
  lemma UrlRunNoDot(s: string, i: nat, r: nat)
    requires r <= |s|
    requires var e := r + LeadLen(s[r..], UrlChar);
      forall q: nat :: r + 1 <= q <= e ==> DotAt(s, i, q).None?
    ensures forall q: nat :: UrlRunTo(s, r, q) ==> DotAt(s, i, q).None?
  {
    forall q: nat | UrlRunTo(s, r, q) ensures DotAt(s, i, q).None? {
      UrlRunRange(s, r, q);
    }
  }
}
