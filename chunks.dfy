/** splitMessage: a long reply is cut into chunks of at most maxLength bytes, preferring to
    break at the last newline of each window when that newline lies past its middle. Go
    strings are byte strings, so the text is a sequence of bytes. */
module Chunks {
  newtype byte = b: int | 0 <= b < 0x100

  /** '\n' */
  const NL: byte := 10

  /** The length handleLongText passes. */
  const MaxMessageLength := 4000

  /** strings.LastIndex for a one-byte separator: the last position of c in s, or -1. */
  function LastIndexOf(s: seq<byte>, c: byte): (k: int)
    ensures -1 <= k < |s|
    ensures k >= 0 ==> s[k] == c
    ensures forall j :: k < j < |s| ==> s[j] != c
    decreases |s|
  {
    if s == [] then -1
    else if s[|s| - 1] == c then |s| - 1
    else LastIndexOf(s[..|s| - 1], c)
  }

  /** One chunk, and whether the newline that followed it was consumed by the break. */
  datatype Piece = Piece(chunk: seq<byte>, dropped: bool)

  /** Where the first chunk of an over-long text ends: at the last newline of the first n
      bytes when it lies past n/2, else at n. */
  function Cut(text: seq<byte>, n: int): (e: nat)
    requires 0 < n < |text|
    ensures n / 2 < e <= n
    ensures e < n ==> text[e] == NL && forall j :: e < j < n ==> text[j] != NL
    ensures e == n ==> forall j :: n / 2 < j < n ==> text[j] != NL
  {
    var l := LastIndexOf(text[..n], NL);
    if l != -1 && l > n / 2 then l else n
  }

  /** Where the rest starts after a cut at e: a newline break skips the newline. */
  function Resume(e: nat, n: int): nat {
    if e < n then e + 1 else e
  }

  /** The pieces splitMessage produces, front to back. */
  function Pieces(text: seq<byte>, n: int): seq<Piece>
    requires n > 0
    decreases |text|
  {
    if |text| > n then
      var e := Cut(text, n);
      [Piece(text[..e], e < n)] + Pieces(text[Resume(e, n)..], n)
    else if |text| > 0 then [Piece(text, false)]
    else []
  }

  /** The chunk texts of a list of pieces. */
  function Texts(ps: seq<Piece>): seq<seq<byte>>
    decreases |ps|
  {
    if ps == [] then [] else [ps[0].chunk] + Texts(ps[1..])
  }

  /** The pieces glued back together, each consumed newline put back. */
  function Rejoin(ps: seq<Piece>): seq<byte>
    decreases |ps|
  {
    if ps == [] then []
    else ps[0].chunk + (if ps[0].dropped then [NL] else []) + Rejoin(ps[1..])
  }

  /** splitMessage */
  method SplitMessage(text: seq<byte>, maxLength: int) returns (chunks: seq<seq<byte>>)
    requires maxLength > 0
    ensures chunks == Texts(Pieces(text, maxLength))
  {
    var rest := text;
    chunks := [];
    while |rest| > maxLength
      invariant chunks + Texts(Pieces(rest, maxLength)) == Texts(Pieces(text, maxLength))
      decreases |rest|
    {
      ghost var before := rest;
      ghost var e := Cut(rest, maxLength);
      LoopStep(chunks, rest, maxLength);
      var chunk := rest[..maxLength];
      var lastNewline := LastIndexOf(chunk, NL);
      if lastNewline != -1 && lastNewline > maxLength / 2 {
        chunk := rest[..lastNewline];
        rest := rest[lastNewline + 1..];
      } else {
        rest := rest[maxLength..];
      }
      assert chunk == before[..e] && rest == before[Resume(e, maxLength)..];
      chunks := chunks + [chunk];
    }
    if |rest| > 0 {
      chunks := chunks + [rest];
    }
  }

  /** One turn of the loop: the first chunk moves from the pieces still to come to the
      chunks already made. */
  lemma LoopStep(done: seq<seq<byte>>, text: seq<byte>, n: int)
    requires 0 < n < |text|
    ensures done + Texts(Pieces(text, n))
      == (done + [text[..Cut(text, n)]]) + Texts(Pieces(text[Resume(Cut(text, n), n)..], n))
  {
    var e := Cut(text, n);
    var p := Piece(text[..e], e < n);
    var qs := Pieces(text[Resume(e, n)..], n);
    PiecesUnfold(text, n);
    TextsCons(p, qs);
    assert done + ([p.chunk] + Texts(qs)) == (done + [p.chunk]) + Texts(qs);
  }

  /** The first piece of an over-long text, then the pieces of what follows it. */
  lemma PiecesUnfold(text: seq<byte>, n: int)
    requires 0 < n < |text|
    ensures var e := Cut(text, n);
      Pieces(text, n) == [Piece(text[..e], e < n)] + Pieces(text[Resume(e, n)..], n)
  {
  }

  /** The texts of a piece put in front. */
  lemma TextsCons(p: Piece, qs: seq<Piece>)
    ensures Texts([p] + qs) == [p.chunk] + Texts(qs)
  {
    assert ([p] + qs)[1..] == qs;
  }

  /** The rejoined text of a piece put in front. */
  lemma RejoinCons(p: Piece, qs: seq<Piece>)
    ensures Rejoin([p] + qs) == p.chunk + (if p.dropped then [NL] else []) + Rejoin(qs)
  {
    assert ([p] + qs)[1..] == qs;
  }

  /** The text is the first chunk, the newline the cut consumed, if any, and the rest. */
  lemma Reassemble(text: seq<byte>, n: int)
    requires 0 < n < |text|
    ensures var e := Cut(text, n);
      text == text[..e] + (if e < n then [NL] else []) + text[Resume(e, n)..]
  {
    var e := Cut(text, n);
    if e < n {
      assert text == text[..e] + [NL] + text[e + 1..];
    } else {
      assert text == text[..e] + text[e..];
    }
  }

  // ---------------------------------------------------------------- properties

  /** Every chunk is non-empty and at most n bytes long; every chunk but the last is longer
      than n/2 bytes. */
  lemma {:induction false} PiecesBounds(text: seq<byte>, n: int)
    requires n > 0
    ensures forall i :: 0 <= i < |Pieces(text, n)| ==> 0 < |Pieces(text, n)[i].chunk| <= n
    ensures forall i :: 0 <= i < |Pieces(text, n)| - 1 ==> |Pieces(text, n)[i].chunk| > n / 2
    decreases |text|
  {
    if |text| > n {
      var e := Cut(text, n);
      var s := Resume(e, n);
      PiecesBounds(text[s..], n);
      var qs := Pieces(text[s..], n);
      var ps := Pieces(text, n);
      assert ps == [Piece(text[..e], e < n)] + qs;
      forall i | 0 <= i < |ps| ensures 0 < |ps[i].chunk| <= n && (i < |ps| - 1 ==> |ps[i].chunk| > n / 2) {
        if i == 0 {
          assert ps[0].chunk == text[..e];
          assert n / 2 < e <= n;
          assert |text[..e]| == e;
        } else {
          assert ps[i] == qs[i - 1];
          assert 0 < |qs[i - 1].chunk| <= n;
        }
      }
    }
  }

  /** Putting the consumed newlines back between the chunks gives the text. */
  lemma {:induction false} PiecesRejoin(text: seq<byte>, n: int)
    requires n > 0
    ensures Rejoin(Pieces(text, n)) == text
    decreases |text|
  {
    if |text| > n {
      var e := Cut(text, n);
      var s := Resume(e, n);
      PiecesRejoin(text[s..], n);
      PiecesUnfold(text, n);
      RejoinCons(Piece(text[..e], e < n), Pieces(text[s..], n));
      Reassemble(text, n);
    }
  }

  /** Only the last piece keeps its trailing newline: a consumed newline is always followed
      by more text. */
  lemma {:induction false} LastNotDropped(text: seq<byte>, n: int)
    requires n > 0
    ensures var ps := Pieces(text, n); ps != [] ==> !ps[|ps| - 1].dropped
    decreases |text|
  {
    if |text| > n {
      var s := Resume(Cut(text, n), n);
      LastNotDropped(text[s..], n);
      assert |text[s..]| > 0;
    }
  }

  /** No text gives no chunk; a text that fits is sent as it is; a longer text is split. */
  lemma SplitShort(text: seq<byte>, n: int)
    requires n > 0
    ensures Texts(Pieces(text, n)) == [] <==> text == []
    ensures 0 < |text| <= n ==> Texts(Pieces(text, n)) == [text]
    ensures |text| > n ==> |Pieces(text, n)| >= 2
  {
    if |text| > n {
      var s := Resume(Cut(text, n), n);
      assert |text[s..]| > 0;
    }
  }
}
