/** The engine's readers for the users and keywords columns. */
module Parse {
  import opened Text

  const Int64Min: int := -0x8000_0000_0000_0000
  const Int64Max: int := 0x7FFF_FFFF_FFFF_FFFF

  /** Length of the leading run of decimal digits. */
  function DigitRun(s: string): (k: nat)
    ensures k <= |s|
    ensures forall i :: 0 <= i < k ==> IsDigit(s[i])
    ensures k < |s| ==> !IsDigit(s[k])
    decreases |s|
  {
    if s == [] || !IsDigit(s[0]) then 0 else 1 + DigitRun(s[1..])
  }

  /** fmt.Sscanf(s, "%d", &id) into an int64: an optional sign, then the longest run of at
      least one digit; the rest of the input is ignored; a value outside int64 is an error.
      None stands for a scan that stored nothing (n == 0). */
  function ScanDecimal(s: string): (r: Option<int>)
    ensures r.Some? ==> Int64Min <= r.value <= Int64Max
  {
    var neg := s != [] && s[0] == '-';
    var start := if s != [] && (s[0] == '-' || s[0] == '+') then 1 else 0;
    var rest := s[start..];
    var k := DigitRun(rest);
    if k == 0 then None
    else
      var magnitude: int := DecimalValue(rest[..k]);
      var v := if neg then -magnitude else magnitude;
      if Int64Min <= v <= Int64Max then Some(v) else None
  }

  /** The scan of every field, in order. */
  function Scans(fields: seq<string>): (r: seq<Option<int>>)
    ensures |r| == |fields|
  {
    seq(|fields|, i requires 0 <= i < |fields| => ScanDecimal(TrimSpace(fields[i])))
  }

  /** The positive values among the scans, in order. */
  function Positives(rs: seq<Option<int>>): seq<int>
    decreases |rs|
  {
    if rs == [] then []
    else
      var n := |rs| - 1;
      Positives(rs[..n]) + (if rs[n].Some? && rs[n].value > 0 then [rs[n].value] else [])
  }

  /** The ids kept from the comma-separated fields: those that scan as a positive number. */
  function KeptIDs(fields: seq<string>): seq<int> {
    Positives(Scans(fields))
  }

  /** What parseUserIDs returns for a users column. */
  function UserIDs(usersStr: string): seq<int> {
    var t := Trim(usersStr, "[] ");
    if t == [] then [] else KeptIDs(Split(t, ','))
  }

  /** parseUserIDs */
  method ParseUserIDs(usersStr: string) returns (userIDs: seq<int>)
    ensures userIDs == UserIDs(usersStr)
  {
    var t := Trim(usersStr, "[] ");
    if t == [] {
      return [];
    }
    var fields := Split(t, ',');
    ghost var rs := Scans(fields);
    userIDs := [];
    var i := 0;
    while i < |fields|
      invariant 0 <= i <= |fields| == |rs|
      invariant userIDs == Positives(rs[..i])
    {
      var r := ScanDecimal(TrimSpace(fields[i]));
      PositivesStep(userIDs, rs, i, r);
      if r.Some? && r.value > 0 {
        userIDs := userIDs + [r.value];
      }
      i := i + 1;
    }
    assert rs[..i] == rs;
  }

  /** The loop step of parseUserIDs: the kept ids grow by the next scan when it is positive. */
  lemma PositivesStep(ids: seq<int>, rs: seq<Option<int>>, i: nat, r: Option<int>)
    requires i < |rs| && ids == Positives(rs[..i]) && r == rs[i]
    ensures (if r.Some? && r.value > 0 then ids + [r.value] else ids) == Positives(rs[..i + 1])
  {
    PositivesSnoc(rs, i);
  }

  /** One more scan adds its value when it is positive. */
  lemma PositivesSnoc(rs: seq<Option<int>>, i: nat)
    requires i < |rs|
    ensures Positives(rs[..i + 1])
      == Positives(rs[..i]) + (if rs[i].Some? && rs[i].value > 0 then [rs[i].value] else [])
  {
    assert rs[..i + 1][..i] == rs[..i];
  }

  // ---------------------------------------------------------------- keywords column

  /** The trimmed, non-empty comma-separated pieces, in order. */
  function CommaPieces(fields: seq<string>): (r: seq<string>)
    ensures forall k :: 0 <= k < |r| ==> r[k] != [] && r[k] == TrimSpace(r[k])
    decreases |fields|
  {
    if fields == [] then []
    else
      var n := |fields| - 1;
      var kw := TrimSpace(fields[n]);
      if kw != [] then TrimSpaceIdempotent(fields[n]); CommaPieces(fields[..n]) + [kw]
      else CommaPieces(fields[..n])
  }

  lemma TrimSpaceIdempotent(s: string)
    ensures TrimSpace(TrimSpace(s)) == TrimSpace(s)
  {
    TrimSpaceOfTrimmed(TrimSpace(s));
  }

  /** What parseKeywords returns. `decoded` is what encoding/json makes of the text when the
      text is a JSON array of strings, None when it is not valid JSON. */
  function Keywords(keywordsStr: string, decoded: Option<seq<string>>): seq<string> {
    var t := TrimSpace(keywordsStr);
    if t == [] then []
    else if |t| >= 1 && t[0] == '[' && t[|t| - 1] == ']' && decoded.Some? then decoded.value
    else CommaPieces(Split(t, ','))
  }

  /** parseKeywords */
  method ParseKeywords(keywordsStr: string, decoded: Option<seq<string>>) returns (keywords: seq<string>)
    ensures keywords == Keywords(keywordsStr, decoded)
  {
    var t := TrimSpace(keywordsStr);
    if t == [] {
      return [];
    }
    if t[0] == '[' && t[|t| - 1] == ']' && decoded.Some? {
      return decoded.value;
    }
    var fields := Split(t, ',');
    keywords := [];
    var i := 0;
    while i < |fields|
      invariant 0 <= i <= |fields|
      invariant keywords == CommaPieces(fields[..i])
    {
      assert fields[..i + 1][..i] == fields[..i];
      var kw := TrimSpace(fields[i]);
      if kw != [] {
        keywords := keywords + [kw];
      }
      i := i + 1;
    }
    assert fields[..i] == fields;
  }

  // ---------------------------------------------------------------- properties

  /** A value is kept exactly when some scan gave that positive value. */
  lemma {:induction false} PositivesMeaning(rs: seq<Option<int>>, id: int)
    ensures id in Positives(rs) <==> exists i :: 0 <= i < |rs| && rs[i] == Some(id) && id > 0
    decreases |rs|
  {
    if rs != [] {
      var n := |rs| - 1;
      PositivesMeaning(rs[..n], id);
      assert forall i :: 0 <= i < n ==> rs[..n][i] == rs[i];
    }
  }

  /** A user id is kept exactly when its field scans as a positive number. */
  lemma KeptIDsMeaning(fields: seq<string>, id: int)
    ensures id in KeptIDs(fields) <==>
      exists i :: 0 <= i < |fields| && ScanDecimal(TrimSpace(fields[i])) == Some(id) && id > 0
  {
    var rs := Scans(fields);
    PositivesMeaning(rs, id);
    assert forall i :: 0 <= i < |fields| ==> rs[i] == ScanDecimal(TrimSpace(fields[i]));
  }

  /** Every id read is positive and fits an int64. */
  lemma {:induction false} PositivesBounded(rs: seq<Option<int>>)
    requires forall i :: 0 <= i < |rs| && rs[i].Some? ==> rs[i].value <= Int64Max
    ensures forall k :: 0 <= k < |Positives(rs)| ==> 0 < Positives(rs)[k] <= Int64Max
    decreases |rs|
  {
    if rs != [] {
      PositivesBounded(rs[..|rs| - 1]);
    }
  }

  lemma KeptIDsPositive(fields: seq<string>)
    ensures forall k :: 0 <= k < |KeptIDs(fields)| ==> 0 < KeptIDs(fields)[k] <= Int64Max
  {
    PositivesBounded(Scans(fields));
  }

  /** The empty list and its bracketed form give no ids. */
  lemma EmptyUsers()
    ensures UserIDs("") == [] && UserIDs("[]") == []
  {
    var f := c => InCut(c, "[] ");
    assert LeadLen("", f) == 0;
    assert "[]"[1..] == "]";
    assert "]"[1..] == "";
    assert LeadLen("[]", f) == 2;
  }

  /** A printed positive number scans back to itself. */
  lemma ScanPrinted(n: nat)
    requires 0 < n <= Int64Max
    ensures ScanDecimal(NatToString(n)) == Some(n)
  {
    var s := NatToString(n);
    NatToStringLeading(n);
    DecimalValueOfNatToString(n);
    assert !(s[0] == '-' || s[0] == '+');
    assert s[0..] == s;
    DigitRunAll(s);
    assert s[..|s|] == s;
  }

  lemma {:induction false} DigitRunAll(s: string)
    requires forall i :: 0 <= i < |s| ==> IsDigit(s[i])
    ensures DigitRun(s) == |s|
    decreases |s|
  {
    if s != [] {
      DigitRunAll(s[1..]);
    }
  }

  /** The JSON text json.Marshal gives for a list of ids that are all positive. */
  function RenderIDs(ids: seq<nat>): string {
    "[" + Join(Printed(ids), [',']) + "]"
  }

  function Printed(ids: seq<nat>): (r: seq<string>)
    ensures |r| == |ids|
    ensures forall k :: 0 <= k < |r| ==> r[k] == NatToString(ids[k])
    decreases |ids|
  {
    if ids == [] then [] else [NatToString(ids[0])] + Printed(ids[1..])
  }

  /** A join of printed numbers starts and ends with a digit and has only digits and commas. */
  lemma {:induction false} JoinPrintedShape(ids: seq<nat>)
    requires ids != []
    ensures var s := Join(Printed(ids), [',']);
      s != [] && IsDigit(s[0]) && IsDigit(s[|s| - 1])
    decreases |ids|
  {
    var p := Printed(ids);
    if |ids| > 1 {
      JoinPrintedShape(ids[1..]);
      assert Printed(ids)[1..] == Printed(ids[1..]);
    }
  }

  /** Trimming "[]" and spaces from a bracketed text that starts and ends with a digit
      leaves the inside. */
  lemma TrimBrackets(body: string)
    requires body != [] && IsDigit(body[0]) && IsDigit(body[|body| - 1])
    ensures Trim("[" + body + "]", "[] ") == body
  {
    var f := c => InCut(c, "[] ");
    var s := "[" + body + "]";
    assert s[1..][0] == body[0];
    assert LeadLen(s[1..], f) == 0;
    assert LeadLen(s, f) == 1;
    var t := s[1..];
    assert t == body + "]";
    assert t[..|t| - 1] == body;
    assert TailLen(t[..|t| - 1], f) == 0;
    assert TailLen(t, f) == 1;
  }

  /** Reading back the users column the bot writes gives the same ids. */
  lemma UserIDsRoundTrip(ids: seq<nat>)
    requires forall k :: 0 <= k < |ids| ==> 0 < ids[k] <= Int64Max
    ensures UserIDs(RenderIDs(ids)) == ids
  {
    if ids == [] {
      assert RenderIDs(ids) == "[]";
      EmptyUsers();
    } else {
      var p := Printed(ids);
      var body := Join(p, [',']);
      JoinPrintedShape(ids);
      TrimBrackets(body);
      forall k | 0 <= k < |p| ensures ',' !in p[k] {
        assert forall c :: 0 <= c < |p[k]| ==> IsDigit(p[k][c]);
      }
      SplitJoin(p, ',');
      KeptPrinted(ids);
    }
  }

  lemma KeptPrinted(ids: seq<nat>)
    requires forall k :: 0 <= k < |ids| ==> 0 < ids[k] <= Int64Max
    ensures KeptIDs(Printed(ids)) == ids
  {
    var p := Printed(ids);
    var rs := Scans(p);
    forall k | 0 <= k < |ids| ensures rs[k] == Some(ids[k] as int) {
      assert p[k] == NatToString(ids[k]);
      ScanField(ids[k]);
    }
    PositivesOfValues(rs, ids);
  }

  /** A printed number is its own trimmed field. */
  lemma ScanField(n: nat)
    requires 0 < n <= Int64Max
    ensures ScanDecimal(TrimSpace(NatToString(n))) == Some(n)
  {
    var s := NatToString(n);
    assert IsDigit(s[0]) && IsDigit(s[|s| - 1]);
    TrimSpaceOfTrimmed(s);
    ScanPrinted(n);
  }

  lemma {:induction false} PositivesOfValues(rs: seq<Option<int>>, ids: seq<nat>)
    requires |rs| == |ids|
    requires forall k :: 0 <= k < |ids| ==> ids[k] > 0 && rs[k] == Some(ids[k] as int)
    ensures Positives(rs) == ids
    decreases |rs|
  {
    if rs != [] {
      var n := |rs| - 1;
      PositivesOfValues(rs[..n], ids[..n]);
      assert ids[..n] + [ids[n]] == ids;
    }
  }

  /** Every keyword read from a comma list is trimmed and not empty. */
  lemma KeywordsClean(keywordsStr: string)
    ensures forall k :: 0 <= k < |Keywords(keywordsStr, None)| ==>
      Keywords(keywordsStr, None)[k] != [] && Keywords(keywordsStr, None)[k] == TrimSpace(Keywords(keywordsStr, None)[k])
  {
  }

  /** A legacy comma list of clean keywords reads back as the same list. */
  lemma KeywordsRoundTrip(ks: seq<string>)
    requires ks != []
    requires forall k :: 0 <= k < |ks| ==> ks[k] != [] && ks[k] == TrimSpace(ks[k]) && ',' !in ks[k]
    ensures Keywords(Join(ks, [',']), None) == ks
  {
    var s := Join(ks, [',']);
    JoinEnds(ks);
    TrimSpaceOfTrimmed(s);
    SplitJoin(ks, ',');
    CommaPiecesOfClean(ks);
  }

  /** A join of clean pieces neither starts nor ends with a space. */
  lemma {:induction false} JoinEnds(ks: seq<string>)
    requires ks != []
    requires forall k :: 0 <= k < |ks| ==> ks[k] != [] && ks[k] == TrimSpace(ks[k])
    ensures var s := Join(ks, [',']); s != [] && !IsSpace(s[0]) && !IsSpace(s[|s| - 1])
    decreases |ks|
  {
    var s := Join(ks, [',']);
    assert ks[0] == TrimSpace(ks[0]);
    if |ks| > 1 {
      JoinEnds(ks[1..]);
      var t := Join(ks[1..], [',']);
      assert s == ks[0] + [','] + t;
      assert s[|s| - 1] == t[|t| - 1];
    }
  }

  lemma {:induction false} CommaPiecesOfClean(ks: seq<string>)
    requires forall k :: 0 <= k < |ks| ==> ks[k] != [] && ks[k] == TrimSpace(ks[k])
    ensures CommaPieces(ks) == ks
    decreases |ks|
  {
    if ks != [] {
      var n := |ks| - 1;
      CommaPiecesOfClean(ks[..n]);
      assert ks[..n] + [ks[n]] == ks;
    }
  }
}
