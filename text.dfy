/** Text helpers with the meaning of the Go library calls the bot relies on
    (package strings, unicode.IsSpace, strconv/fmt decimal integers).
    Strings are sequences of Unicode scalar values. */
module Text {

  datatype Option<T> = None | Some(value: T)

  /** An operation's outcome: a value, or the error text the bot would show or log. */
  datatype Result<T> = Ok(value: T) | Err(error: string)

  /** unicode.IsSpace: the Latin-1 list and the White_Space table above it. */
  predicate IsSpace(c: char) {
    || c == '\t' || c == '\n' || c == '\U{000B}' || c == '\U{000C}' || c == '\r' || c == ' '
    || c == '\U{0085}' || c == '\U{00A0}' || c == '\U{1680}'
    || ('\U{2000}' <= c <= '\U{200A}')
    || c == '\U{2028}' || c == '\U{2029}' || c == '\U{202F}' || c == '\U{205F}' || c == '\U{3000}'
  }

  /** Characters the caller wants removed from the ends of a string. */
  predicate InCut(c: char, cut: string) { c in cut }

  // ---------------------------------------------------------------- trimming

  /** Number of leading characters that satisfy f. */
  function LeadLen(s: string, f: char -> bool): (k: nat)
    ensures k <= |s|
    ensures forall i :: 0 <= i < k ==> f(s[i])
    ensures k < |s| ==> !f(s[k])
    decreases |s|
  {
    if s == [] || !f(s[0]) then 0 else 1 + LeadLen(s[1..], f)
  }

  /** Number of trailing characters that satisfy f. */
  function TailLen(s: string, f: char -> bool): (k: nat)
    ensures k <= |s|
    ensures forall i :: |s| - k <= i < |s| ==> f(s[i])
    ensures k < |s| ==> !f(s[|s| - k - 1])
    decreases |s|
  {
    if s == [] || !f(s[|s| - 1]) then 0 else 1 + TailLen(s[..|s| - 1], f)
  }

  /** strings.TrimFunc: drop the longest prefix and the longest suffix made of f-characters. */
  function TrimFunc(s: string, f: char -> bool): (r: string)
    ensures |r| <= |s|
    ensures r == [] || (!f(r[0]) && !f(r[|r| - 1]))
    ensures exists i :: TrimmedAt(s, r, i, f)
  {
    var a := LeadLen(s, f);
    var t := s[a..];
    var b := TailLen(t, f);
    var r := t[..|t| - b];
    assert r == s[a..a + |r|];
    assert TrimmedAt(s, r, a, f);
    r
  }

  /** r is s with a run of f-characters removed before position i and after r. */
  predicate TrimmedAt(s: string, r: string, i: int, f: char -> bool) {
    0 <= i <= |s| - |r| && r == s[i..i + |r|]
    && (forall k :: 0 <= k < i ==> f(s[k]))
    && (forall k :: i + |r| <= k < |s| ==> f(s[k]))
  }

  /** strings.TrimSpace */
  function TrimSpace(s: string): (r: string)
    ensures r == [] || (!IsSpace(r[0]) && !IsSpace(r[|r| - 1]))
  {
    TrimFunc(s, IsSpace)
  }

  /** strings.Trim(s, cut): trims every leading and trailing character listed in cut. */
  function Trim(s: string, cut: string): (r: string)
    ensures r == [] || (r[0] !in cut && r[|r| - 1] !in cut)
  {
    TrimFunc(s, c => InCut(c, cut))
  }

  /** A string with no space at either end is its own TrimSpace. */
  lemma {:induction false} TrimSpaceOfTrimmed(s: string)
    requires s == [] || (!IsSpace(s[0]) && !IsSpace(s[|s| - 1]))
    ensures TrimSpace(s) == s
  {
    var f := IsSpace;
    var a := LeadLen(s, f);
    assert a == 0;
    assert s[a..] == s;
    var b := TailLen(s, f);
    assert b == 0;
  }

  // ---------------------------------------------------------------- searching

  /** w occurs in s at position k. */
  predicate OccursAt(s: string, w: string, k: int) {
    0 <= k && k + |w| <= |s| && s[k..k + |w|] == w
  }

  /** strings.Index from a starting offset: the leftmost occurrence at or after from, or -1. */
  function IndexFrom(s: string, w: string, from: nat): (r: int)
    ensures r == -1 || (from <= r && OccursAt(s, w, r))
    ensures r == -1 ==> forall k :: from <= k ==> !OccursAt(s, w, k)
    ensures r >= 0 ==> forall k :: from <= k < r ==> !OccursAt(s, w, k)
    decreases |s| - from
  {
    if from + |w| > |s| then -1
    else if s[from..from + |w|] == w then from
    else IndexFrom(s, w, from + 1)
  }

  /** strings.Index */
  function IndexOf(s: string, w: string): (r: int)
    ensures r == -1 || OccursAt(s, w, r)
    ensures r == -1 <==> forall k :: !OccursAt(s, w, k)
    ensures r >= 0 ==> forall k :: 0 <= k < r ==> !OccursAt(s, w, k)
  {
    IndexFrom(s, w, 0)
  }

  /** strings.Contains */
  predicate Contains(s: string, w: string) {
    IndexOf(s, w) >= 0
  }

  /** An occurrence in the front part is one in the whole. */
  lemma OccursPrefix(a: string, b: string, w: string, k: int)
    requires OccursAt(a, w, k)
    ensures OccursAt(a + b, w, k)
  {
    assert (a + b)[k..k + |w|] == a[k..k + |w|];
  }

  /** An occurrence in the back part is one in the whole, shifted by the front part. */
  lemma OccursShift(a: string, b: string, w: string, k: int)
    requires OccursAt(b, w, k)
    ensures OccursAt(a + b, w, |a| + k)
  {
    assert (a + b)[|a| + k..|a| + k + |w|] == b[k..k + |w|];
  }

  /** An occurrence anywhere is what Contains reports. */
  lemma OccursContains(s: string, w: string, k: int)
    requires OccursAt(s, w, k)
    ensures Contains(s, w)
  {
  }

  /** A differing character at offset j rules out an occurrence at k. */
  lemma MismatchAt(s: string, w: string, k: int, j: nat)
    requires 0 <= k && j < |w|
    requires k + j < |s| ==> s[k + j] != w[j]
    ensures !OccursAt(s, w, k)
  {
    if k + |w| <= |s| {
      assert s[k..k + |w|][j] == s[k + j];
    }
  }

  /** w does not occur when every place that starts with w's first character is ruled out. */
  lemma AbsentUnlessAt(s: string, w: string, ks: set<int>)
    requires w != []
    requires forall k :: 0 <= k < |s| && s[k] == w[0] ==> k in ks
    requires forall k :: k in ks ==> !OccursAt(s, w, k)
    ensures IndexOf(s, w) < 0
  {
    forall k | 0 <= k && k !in ks ensures !OccursAt(s, w, k) {
      if k + |w| <= |s| {
        assert s[k..k + |w|][0] == s[k];
      }
    }
  }

  /** An occurrence that starts in the back part is an occurrence in the back part. */
  lemma OccursAfter(p: string, x: string, w: string, k: int)
    requires k >= |p|
    ensures OccursAt(p + x, w, k) <==> OccursAt(x, w, k - |p|)
  {
    if k + |w| <= |p + x| {
      assert (p + x)[k..k + |w|] == x[k - |p|..k - |p| + |w|];
    }
  }

  /** No occurrence starts in a front part without w's first character. */
  lemma NoStartIn(p: string, x: string, w: string)
    requires w != [] && w[0] !in p
    ensures forall k :: 0 <= k < |p| ==> !OccursAt(p + x, w, k)
  {
    forall k | 0 <= k < |p| ensures !OccursAt(p + x, w, k) {
      MismatchAt(p + x, w, k, 0);
    }
  }

  /** No occurrence starts in a front part without w when the back part starts with w's
      first character and w has it only once: an occurrence cannot reach across. */
  lemma NoStraddle(p: string, x: string, w: string)
    requires w != [] && w[0] !in w[1..]
    requires IndexOf(p, w) < 0
    requires x != [] && x[0] == w[0]
    ensures forall k :: 0 <= k < |p| ==> !OccursAt(p + x, w, k)
  {
    forall k | 0 <= k < |p| ensures !OccursAt(p + x, w, k) {
      if k + |w| <= |p| {
        assert (p + x)[k..k + |w|] == p[k..k + |w|];
        assert !OccursAt(p, w, k);
      } else {
        var j := |p| - k;
        assert w[1..][j - 1] == w[j];
        MismatchAt(p + x, w, k, j);
      }
    }
  }

  /** With no occurrence starting in the front part, the first occurrence is the back
      part's, shifted. */
  lemma IndexAfter(p: string, x: string, w: string)
    requires forall k :: 0 <= k < |p| ==> !OccursAt(p + x, w, k)
    ensures IndexOf(p + x, w) == if IndexOf(x, w) < 0 then -1 else |p| + IndexOf(x, w)
  {
    var q := IndexOf(x, w);
    var r := IndexOf(p + x, w);
    if q < 0 {
      forall k | k >= |p| ensures !OccursAt(p + x, w, k) {
        OccursAfter(p, x, w, k);
      }
    } else {
      OccursAfter(p, x, w, |p| + q);
      assert r >= |p|;
      OccursAfter(p, x, w, r);
    }
  }

  /** strings.HasPrefix */
  predicate HasPrefix(s: string, p: string) {
    |p| <= |s| && s[..|p|] == p
  }

  /** strings.TrimPrefix */
  function TrimPrefix(s: string, p: string): (r: string)
    ensures HasPrefix(s, p) ==> s == p + r
    ensures !HasPrefix(s, p) ==> r == s
  {
    if HasPrefix(s, p) then s[|p|..] else s
  }

  /** Whether the character c occurs in s. */
  predicate HasChar(s: string, c: char) { c in s }

  /** Index of the first c in s, or |s| when there is none. */
  function FirstIndex(s: string, c: char): (k: nat)
    ensures k <= |s|
    ensures forall i :: 0 <= i < k ==> s[i] != c
    ensures k < |s| ==> s[k] == c
    decreases |s|
  {
    if s == [] then 0 else if s[0] == c then 0 else 1 + FirstIndex(s[1..], c)
  }

  /** The first c is at k when c is at k and not before. */
  lemma FirstIndexAt(s: string, c: char, k: nat)
    requires k < |s| && s[k] == c
    requires forall i :: 0 <= i < k ==> s[i] != c
    ensures FirstIndex(s, c) == k
  {
  }

  // ---------------------------------------------------------------- splitting and joining

  /** strings.Join */
  function Join(xs: seq<string>, sep: string): string
    decreases |xs|
  {
    if xs == [] then [] else if |xs| == 1 then xs[0] else xs[0] + sep + Join(xs[1..], sep)
  }

  /** strings.Split with a one-character separator: every piece, empty ones included. */
  function Split(s: string, sep: char): (r: seq<string>)
    ensures |r| >= 1
    ensures forall i :: 0 <= i < |r| ==> sep !in r[i]
    decreases |s|
  {
    var k := FirstIndex(s, sep);
    if k == |s| then [s] else [s[..k]] + Split(s[k + 1..], sep)
  }

  /** strings.SplitN(s, sep, n) for n > 0: at most n pieces, the last holding the rest. */
  function SplitN(s: string, sep: char, n: nat): (r: seq<string>)
    requires n > 0
    ensures 1 <= |r| <= n
    ensures forall i :: 0 <= i < |r| - 1 ==> sep !in r[i]
    decreases n
  {
    var k := FirstIndex(s, sep);
    if n == 1 || k == |s| then [s] else [s[..k]] + SplitN(s[k + 1..], sep, n - 1)
  }

  /** Joining the pieces of Split with the separator gives the string back. */
  lemma {:induction false} JoinSplit(s: string, sep: char)
    ensures Join(Split(s, sep), [sep]) == s
    decreases |s|
  {
    var k := FirstIndex(s, sep);
    if k < |s| {
      var rest := Split(s[k + 1..], sep);
      calc {
        Join(Split(s, sep), [sep]);
        Join([s[..k]] + rest, [sep]);
        { JoinCons(s[..k], rest, [sep]); }
        s[..k] + [sep] + Join(rest, [sep]);
        { JoinSplit(s[k + 1..], sep); }
        s[..k] + [sep] + s[k + 1..];
        { CutAt(s, k); }
        s;
      }
    }
  }

  /** Joining a piece in front of at least one other puts the separator between. */
  lemma JoinCons(x: string, rest: seq<string>, sep: string)
    requires rest != []
    ensures Join([x] + rest, sep) == x + sep + Join(rest, sep)
  {
    assert ([x] + rest)[1..] == rest;
  }

  /** A string is the text before position k, the character at k and the text after. */
  lemma CutAt(s: string, k: nat)
    requires k < |s|
    ensures s == s[..k] + [s[k]] + s[k + 1..]
  {
  }

  /** Joining the pieces of SplitN with the separator gives the string back. */
  lemma {:induction false} JoinSplitN(s: string, sep: char, n: nat)
    requires n > 0
    ensures Join(SplitN(s, sep, n), [sep]) == s
    decreases n
  {
    var k := FirstIndex(s, sep);
    if n > 1 && k < |s| {
      var rest := SplitN(s[k + 1..], sep, n - 1);
      calc {
        Join(SplitN(s, sep, n), [sep]);
        Join([s[..k]] + rest, [sep]);
        { JoinCons(s[..k], rest, [sep]); }
        s[..k] + [sep] + Join(rest, [sep]);
        { JoinSplitN(s[k + 1..], sep, n - 1); }
        s[..k] + [sep] + s[k + 1..];
        { CutAt(s, k); }
        s;
      }
    }
  }

  /** Splitting a join of separator-free pieces gives the pieces back. */
  lemma {:induction false} SplitJoin(xs: seq<string>, sep: char)
    requires |xs| >= 1
    requires forall i :: 0 <= i < |xs| ==> sep !in xs[i]
    ensures Split(Join(xs, [sep]), sep) == xs
    decreases |xs|
  {
    var s := Join(xs, [sep]);
    if |xs| == 1 {
      assert s == xs[0];
      assert FirstIndex(s, sep) == |s|;
    } else {
      var tail := Join(xs[1..], [sep]);
      assert s == xs[0] + [sep] + tail;
      assert FirstIndex(s, sep) == |xs[0]| by {
        var k := FirstIndex(s, sep);
        assert s[|xs[0]|] == sep;
        forall i | 0 <= i < |xs[0]| ensures s[i] != sep { assert s[i] == xs[0][i]; }
      }
      assert s[..|xs[0]|] == xs[0];
      assert s[|xs[0]| + 1..] == tail;
      SplitJoin(xs[1..], sep);
      assert [xs[0]] + xs[1..] == xs;
    }
  }

  /** Length of the leading run of non-space characters. */
  function WordLen(s: string): (k: nat)
    ensures k <= |s|
    ensures forall i :: 0 <= i < k ==> !IsSpace(s[i])
    ensures k < |s| ==> IsSpace(s[k])
    decreases |s|
  {
    if s == [] || IsSpace(s[0]) then 0 else 1 + WordLen(s[1..])
  }

  /** strings.Fields: the maximal runs of non-space characters, in order. */
  function Fields(s: string): (r: seq<string>)
    ensures forall i :: 0 <= i < |r| ==> Word(r[i])
    decreases |s|
  {
    var a := LeadLen(s, IsSpace);
    var t := s[a..];
    if t == [] then []
    else
      var w := WordLen(t);
      assert w > 0;
      [t[..w]] + Fields(t[w..])
  }

  /** Fields of a string with a non-space character is not empty. */
  lemma {:induction false} FieldsNonEmpty(s: string)
    requires exists i :: 0 <= i < |s| && !IsSpace(s[i])
    ensures Fields(s) != []
  {
    var a := LeadLen(s, IsSpace);
    var i :| 0 <= i < |s| && !IsSpace(s[i]);
    assert a <= i;
    assert s[a..] != [];
  }

  /** The strings of a list written one after another. */
  function Concat(xs: seq<string>): string
    decreases |xs|
  {
    if xs == [] then [] else xs[0] + Concat(xs[1..])
  }

  /** What occurs in one of the parts occurs in the parts written one after another. */
  lemma {:induction false} ConcatOccurs(parts: seq<string>, i: nat, w: string, k: int)
    requires i < |parts| && OccursAt(parts[i], w, k)
    ensures Contains(Concat(parts), w)
    decreases i
  {
    var rest := Concat(parts[1..]);
    assert Concat(parts) == parts[0] + rest;
    if i == 0 {
      OccursPrefix(parts[0], rest, w, k);
      OccursContains(Concat(parts), w, k);
    } else {
      assert parts[1..][i - 1] == parts[i];
      ConcatOccurs(parts[1..], i - 1, w, k);
      var j := IndexOf(rest, w);
      OccursShift(parts[0], rest, w, j);
      OccursContains(Concat(parts), w, |parts[0]| + j);
    }
  }

  /** What occurs in one of the joined strings occurs in the join. */
  lemma {:induction false} JoinOccurs(xs: seq<string>, sep: string, i: nat, w: string, k: int)
    requires i < |xs| && OccursAt(xs[i], w, k)
    ensures Contains(Join(xs, sep), w)
    decreases i
  {
    if |xs| == 1 {
      OccursContains(xs[0], w, k);
    } else {
      var rest := Join(xs[1..], sep);
      assert Join(xs, sep) == (xs[0] + sep) + rest;
      if i == 0 {
        OccursPrefix(xs[0], sep + rest, w, k);
        assert xs[0] + (sep + rest) == (xs[0] + sep) + rest;
        OccursContains(Join(xs, sep), w, k);
      } else {
        assert xs[1..][i - 1] == xs[i];
        JoinOccurs(xs[1..], sep, i - 1, w, k);
        var j := IndexOf(rest, w);
        OccursShift(xs[0] + sep, rest, w, j);
        OccursContains(Join(xs, sep), w, |xs[0] + sep| + j);
      }
    }
  }

  /** Each part is contained in the parts written one after another. */
  lemma ConcatContains(parts: seq<string>, i: nat)
    requires i < |parts|
    ensures Contains(Concat(parts), parts[i])
  {
    ConcatOccurs(parts, i, parts[i], 0);
  }

  /** The non-space characters of a string, in order. */
  function NonSpace(s: string): string
    decreases |s|
  {
    if s == [] then [] else (if IsSpace(s[0]) then [] else [s[0]]) + NonSpace(s[1..])
  }

  lemma {:induction false} NonSpaceAppend(x: string, y: string)
    ensures NonSpace(x + y) == NonSpace(x) + NonSpace(y)
    decreases |x|
  {
    if x == [] {
      assert x + y == y;
    } else {
      assert (x + y)[1..] == x[1..] + y;
      NonSpaceAppend(x[1..], y);
    }
  }

  /** A run of spaces has no non-space character. */
  lemma {:induction false} NonSpaceOfSpaces(x: string)
    requires forall i :: 0 <= i < |x| ==> IsSpace(x[i])
    ensures NonSpace(x) == []
    decreases |x|
  {
    if x != [] {
      NonSpaceOfSpaces(x[1..]);
    }
  }

  /** A word without spaces keeps every character. */
  lemma {:induction false} NonSpaceOfWord(x: string)
    requires forall i :: 0 <= i < |x| ==> !IsSpace(x[i])
    ensures NonSpace(x) == x
    decreases |x|
  {
    if x != [] {
      NonSpaceOfWord(x[1..]);
      assert [x[0]] + x[1..] == x;
    }
  }

  /** TrimSpace only removes spaces. */
  lemma NonSpaceOfTrimSpace(s: string)
    ensures NonSpace(TrimSpace(s)) == NonSpace(s)
  {
    var r := TrimSpace(s);
    var i :| TrimmedAt(s, r, i, IsSpace);
    assert s == s[..i] + r + s[i + |r|..];
    NonSpaceAppend(s[..i] + r, s[i + |r|..]);
    NonSpaceAppend(s[..i], r);
    NonSpaceOfSpaces(s[..i]);
    NonSpaceOfSpaces(s[i + |r|..]);
  }

  /** The fields of a string, written one after another, are exactly its non-space
      characters: no character is lost, added or moved. */
  lemma {:induction false} FieldsConcat(s: string)
    ensures Concat(Fields(s)) == NonSpace(s)
    decreases |s|
  {
    var t := s[LeadLen(s, IsSpace)..];
    NonSpaceAfterSpaces(s);
    if t != [] {
      var w := WordLen(t);
      FieldsConcat(t[w..]);
      FieldsUnfold(s);
      NonSpaceWordThen(t);
    }
  }

  /** Leading white space adds nothing to NonSpace. */
  lemma NonSpaceAfterSpaces(s: string)
    ensures NonSpace(s) == NonSpace(s[LeadLen(s, IsSpace)..])
  {
    var a := LeadLen(s, IsSpace);
    assert s == s[..a] + s[a..];
    NonSpaceAppend(s[..a], s[a..]);
    NonSpaceOfSpaces(s[..a]);
  }

  /** The leading word is kept whole by NonSpace. */
  lemma NonSpaceWordThen(t: string)
    ensures NonSpace(t) == t[..WordLen(t)] + NonSpace(t[WordLen(t)..])
  {
    var w := WordLen(t);
    assert t == t[..w] + t[w..];
    NonSpaceAppend(t[..w], t[w..]);
    NonSpaceOfWord(t[..w]);
  }

  lemma FieldsUnfold(s: string)
    requires s[LeadLen(s, IsSpace)..] != []
    ensures var t := s[LeadLen(s, IsSpace)..]; var w := WordLen(t);
      Concat(Fields(s)) == t[..w] + Concat(Fields(t[w..]))
  {
    var t := s[LeadLen(s, IsSpace)..];
    var w := WordLen(t);
    var r := Fields(s);
    assert r == [t[..w]] + Fields(t[w..]);
    assert r[1..] == Fields(t[w..]);
  }

  /** A non-empty string without spaces. */
  predicate Word(w: string) {
    w != [] && forall j :: 0 <= j < |w| ==> !IsSpace(w[j])
  }

  /** A list of words without spaces is what Fields reads back from them joined by single
      spaces. */
  lemma {:induction false} FieldsJoin(ws: seq<string>)
    requires forall i :: 0 <= i < |ws| ==> Word(ws[i])
    ensures Fields(Join(ws, " ")) == ws
    decreases |ws|
  {
    if ws == [] {
    } else if |ws| == 1 {
      assert Word(ws[0]);
      FieldsOfWord(ws[0], []);
      assert ws[0] + [] == ws[0];
    } else {
      assert Word(ws[0]) && Word(ws[1]);
      assert forall i :: 0 <= i < |ws[1..]| ==> Word(ws[1..][i]);
      FieldsJoin(ws[1..]);
      FieldsJoinCons(ws);
    }
  }

  /** A word in front of a joined list adds that word in front of its fields. */
  lemma FieldsJoinCons(ws: seq<string>)
    requires |ws| > 1 && Word(ws[0]) && Word(ws[1])
    requires Fields(Join(ws[1..], " ")) == ws[1..]
    ensures Fields(Join(ws, " ")) == ws
  {
    var rest := Join(ws[1..], " ");
    var sp := " " + rest;
    assert Join(ws, " ") == ws[0] + sp;
    JoinNonEmptyStart(ws[1..]);
    FieldsAfterSpace(rest);
    assert sp[0] == ' ';
    FieldsOfWord(ws[0], sp);
    assert Fields(Join(ws, " ")) == [ws[0]] + ws[1..];
    assert [ws[0]] + ws[1..] == ws;
  }

  /** Words joined by spaces start and end with a non-space character. */
  lemma {:induction false} JoinWordsEnds(ws: seq<string>)
    requires ws != [] && forall i :: 0 <= i < |ws| ==> Word(ws[i])
    ensures var s := Join(ws, " "); s != [] && !IsSpace(s[0]) && !IsSpace(s[|s| - 1])
    decreases |ws|
  {
    assert Word(ws[0]);
    if |ws| > 1 {
      var rest := Join(ws[1..], " ");
      assert forall i :: 0 <= i < |ws[1..]| ==> Word(ws[1..][i]);
      JoinWordsEnds(ws[1..]);
      var s := ws[0] + " " + rest;
      assert Join(ws, " ") == s;
      assert s[0] == ws[0][0];
      assert s[|s| - 1] == rest[|rest| - 1];
    }
  }

  /** A word followed by a space or nothing is the first field. */
  lemma FieldsOfWord(w: string, rest: string)
    requires w != [] && forall j :: 0 <= j < |w| ==> !IsSpace(w[j])
    requires rest == [] || IsSpace(rest[0])
    ensures Fields(w + rest) == [w] + Fields(rest)
  {
    var s := w + rest;
    assert LeadLen(s, IsSpace) == 0;
    assert s[0..] == s;
    var k := WordLen(s);
    WordLenOfWord(w, rest);
    assert s[..k] == w && s[k..] == rest;
    FieldsLeadingWord(s);
  }

  /** The leading word of a word followed by a space or nothing is that word. */
  lemma {:induction false} WordLenOfWord(w: string, rest: string)
    requires forall j :: 0 <= j < |w| ==> !IsSpace(w[j])
    requires rest == [] || IsSpace(rest[0])
    ensures WordLen(w + rest) == |w|
    decreases |w|
  {
    if w == [] {
      assert w + rest == rest;
    } else {
      assert (w + rest)[1..] == w[1..] + rest;
      WordLenOfWord(w[1..], rest);
    }
  }

  /** Unfolding Fields at a string that starts with a non-space character. */
  lemma FieldsLeadingWord(s: string)
    requires s != [] && !IsSpace(s[0])
    ensures Fields(s) == [s[..WordLen(s)]] + Fields(s[WordLen(s)..])
  {
    assert LeadLen(s, IsSpace) == 0;
    assert s[0..] == s;
  }

  /** Leading spaces do not change the fields. */
  lemma FieldsAfterSpace(s: string)
    requires s != [] && !IsSpace(s[0])
    ensures Fields(" " + s) == Fields(s)
  {
    var x := " " + s;
    assert LeadLen(x, IsSpace) == 1 by {
      assert x[1..] == s;
      assert LeadLen(s, IsSpace) == 0;
    }
    assert x[1..] == s;
    FieldsLeadingWord(s);
  }

  /** A join of non-empty words starting with a non-space word starts with that word. */
  lemma JoinNonEmptyStart(ws: seq<string>)
    requires ws != [] && ws[0] != [] && !IsSpace(ws[0][0])
    ensures Join(ws, " ") != [] && Join(ws, " ")[0] == ws[0][0]
  {
    if |ws| > 1 {
      assert Join(ws, " ") == ws[0] + " " + Join(ws[1..], " ");
    }
  }

  // ---------------------------------------------------------------- filtering

  /** The list without any occurrence of k, in the original order. */
  function Without<T(==)>(xs: seq<T>, k: T): seq<T>
    decreases |xs|
  {
    if xs == [] then []
    else
      var n := |xs| - 1;
      Without(xs[..n], k) + (if xs[n] != k then [xs[n]] else [])
  }

  /** An element removed from a list is gone, every other one keeps its number of occurrences. */
  lemma {:induction false} WithoutCounts<T>(xs: seq<T>, k: T)
    ensures multiset(Without(xs, k)) == multiset(xs)[k := 0]
    decreases |xs|
  {
    if xs != [] {
      var n := |xs| - 1;
      var p := xs[..n];
      WithoutCounts(p, k);
      assert xs == p + [xs[n]];
      assert multiset(xs) == multiset(p) + multiset{xs[n]};
      if xs[n] == k {
        assert Without(xs, k) == Without(p, k) + [];
        assert multiset(xs)[k := 0] == multiset(p)[k := 0];
      } else {
        assert Without(xs, k) == Without(p, k) + [xs[n]];
        assert multiset(xs)[k := 0] == multiset(p)[k := 0] + multiset{xs[n]};
      }
    }
  }

  /** Removal keeps the order of the rest: it distributes over concatenation. */
  lemma {:induction false} WithoutAppend<T>(a: seq<T>, b: seq<T>, k: T)
    ensures Without(a + b, k) == Without(a, k) + Without(b, k)
    decreases |b|
  {
    if b == [] {
      assert a + b == a;
    } else {
      var n := |b| - 1;
      WithoutAppend(a, b[..n], k);
      assert (a + b)[..|a + b| - 1] == a + b[..n];
    }
  }

  // ---------------------------------------------------------------- character maps

  /** Lower-casing of one character; only the ASCII letters are mapped. */
  function LowerChar(c: char): char {
    if 'A' <= c <= 'Z' then (c as int + 32) as char else c
  }

  /** strings.ToLower, character by character. */
  function Lower(s: string): (r: string)
    ensures |r| == |s|
  {
    seq(|s|, i requires 0 <= i < |s| => LowerChar(s[i]))
  }

  /** Lower-casing works character by character: it commutes with taking a prefix. */
  lemma LowerPrefix(s: string, n: nat)
    requires n <= |s|
    ensures Lower(s[..n]) == Lower(s)[..n]
  {
  }

  /** Lower-casing distributes over concatenation. */
  lemma LowerAppend(a: string, b: string)
    ensures Lower(a + b) == Lower(a) + Lower(b)
  {
  }

  /** A string without capitals is its own lower-case form. */
  lemma LowerOfLower(s: string)
    requires forall i :: 0 <= i < |s| ==> !('A' <= s[i] <= 'Z')
    ensures Lower(s) == s
  {
  }

  /** Lower-casing twice is lower-casing once. */
  lemma LowerIdempotent(s: string)
    ensures Lower(Lower(s)) == Lower(s)
  {
  }

  /** strings.ReplaceAll for a one-character pattern and a one-character replacement. */
  function ReplaceChar(s: string, a: char, b: char): (r: string)
    ensures |r| == |s|
    ensures forall i {:trigger r[i]} :: 0 <= i < |s| ==> r[i] == (if s[i] == a then b else s[i])
  {
    seq(|s|, i requires 0 <= i < |s| => if s[i] == a then b else s[i])
  }

  // ---------------------------------------------------------------- decimal numbers

  predicate IsDigit(c: char) { '0' <= c <= '9' }

  function DigitChar(d: nat): (c: char)
    requires d < 10
    ensures IsDigit(c) && c as int - '0' as int == d
  {
    ('0' as int + d) as char
  }

  /** The value of a string of decimal digits. */
  function DecimalValue(ds: string): (v: nat)
    requires forall i :: 0 <= i < |ds| ==> IsDigit(ds[i])
    decreases |ds|
  {
    if ds == [] then 0
    else
      assert IsDigit(ds[|ds| - 1]);
      DecimalValue(ds[..|ds| - 1]) * 10 + (ds[|ds| - 1] as int - '0' as int)
  }

  /** strconv.Itoa for a non-negative number (what fmt's %d prints). */
  function NatToString(n: nat): (s: string)
    ensures |s| >= 1
    ensures forall i :: 0 <= i < |s| ==> IsDigit(s[i])
    decreases n
  {
    if n < 10 then [DigitChar(n)] else NatToString(n / 10) + [DigitChar(n % 10)]
  }

  /** Reading back a printed number gives the number. */
  lemma {:induction false} DecimalValueOfNatToString(n: nat)
    ensures DecimalValue(NatToString(n)) == n
    decreases n
  {
    var s := NatToString(n);
    if n >= 10 {
      DecimalValueOfNatToString(n / 10);
      assert s[..|s| - 1] == NatToString(n / 10);
    }
  }

  /** A printed number does not start with '0' unless it is 0 itself. */
  lemma {:induction false} NatToStringLeading(n: nat)
    ensures n > 0 ==> NatToString(n)[0] != '0'
    decreases n
  {
    if n >= 10 {
      NatToStringLeading(n / 10);
    }
  }

  // ---------------------------------------------------------------- ordering

  /** Byte-wise string order of Go's sort.Strings; on Unicode scalar values UTF-8 byte
      order is code point order, so the comparison is made on characters. */
  predicate LexLess(a: string, b: string)
    decreases |a|
  {
    if a == [] then b != []
    else if b == [] then false
    else if a[0] != b[0] then a[0] < b[0]
    else LexLess(a[1..], b[1..])
  }

  lemma {:induction false} LexLessIrreflexive(a: string)
    ensures !LexLess(a, a)
    decreases |a|
  {
    if a != [] { LexLessIrreflexive(a[1..]); }
  }

  lemma {:induction false} LexLessTransitive(a: string, b: string, c: string)
    requires LexLess(a, b) && LexLess(b, c)
    ensures LexLess(a, c)
    decreases |a|
  {
    if a != [] && b != [] && c != [] && a[0] == b[0] && b[0] == c[0] {
      LexLessTransitive(a[1..], b[1..], c[1..]);
    }
  }

  lemma {:induction false} LexLessTotal(a: string, b: string)
    requires a != b
    ensures LexLess(a, b) || LexLess(b, a)
    decreases |a|
  {
    if a != [] && b != [] && a[0] == b[0] {
      assert a == [a[0]] + a[1..] && b == [b[0]] + b[1..];
      LexLessTotal(a[1..], b[1..]);
    }
  }

  lemma {:induction false} LexLessAsymmetric(a: string, b: string)
    requires LexLess(a, b)
    ensures !LexLess(b, a)
    decreases |a|
  {
    if a != [] && b != [] && a[0] == b[0] {
      LexLessAsymmetric(a[1..], b[1..]);
    }
  }
}
