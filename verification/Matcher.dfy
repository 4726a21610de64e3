/** The regular-expression matcher of match.c against the language its patterns denote. */
module Matcher {

  // ---------------------------------------------------------------- what a pattern means

  datatype Atom = Any | Only(c: char)

  datatype Piece = One(atom: Atom) | Star(atom: Atom)

  function AtomOf(c: char): Atom {
    if c == '.' then Any else Only(c)
  }

  predicate Fits(a: Atom, c: char) {
    a.Any? || a.c == c
  }

  /** The pieces of a pattern: a character followed by `*` is repeated, whatever the character; a `$` at the
      very end is an anchor and elsewhere a character. */
  function Pieces(regexp: string): seq<Piece> {
    if regexp == "" || regexp == "$" then []
    else if |regexp| > 1 && regexp[1] == '*' then [Star(AtomOf(regexp[0]))] + Pieces(regexp[2..])
    else [One(AtomOf(regexp[0]))] + Pieces(regexp[1..])
  }

  predicate AtEnd(regexp: string) {
    if regexp == "" then false
    else if regexp == "$" then true
    else if |regexp| > 1 && regexp[1] == '*' then AtEnd(regexp[2..])
    else AtEnd(regexp[1..])
  }

  predicate InPiece(w: string, p: Piece) {
    (p.One? ==> |w| == 1) && forall i :: 0 <= i < |w| ==> Fits(p.atom, w[i])
  }

  /** The language of a sequence of pieces: the concatenation of the languages of the pieces. */
  ghost predicate In(w: string, ps: seq<Piece>)
    decreases |ps|
  {
    if ps == [] then w == ""
    else exists k :: 0 <= k <= |w| && InPiece(w[..k], ps[0]) && In(w[k..], ps[1..])
  }

  /** Some beginning of the text belongs to the pattern's language; the whole text, under a final `$`. */
  ghost predicate Begins(regexp: string, text: string) {
    exists k :: 0 <= k <= |text| && In(text[..k], Pieces(regexp)) && (AtEnd(regexp) ==> k == |text|)
  }

  /** Some substring does; under a leading `^` it must be at the beginning. */
  ghost predicate Matches(regexp: string, text: string) {
    if regexp != "" && regexp[0] == '^' then Begins(regexp[1..], text)
    else exists i :: 0 <= i <= |text| && Begins(regexp, text[i..])
  }

  // ---------------------------------------------------------------- one piece at a time

  lemma Cuts(w: string, j: nat, k: nat)
    requires j <= k <= |w|
    ensures w[..k][..j] == w[..j] && w[..k][j..] == w[j..k] && w[j..][..k - j] == w[j..k]
  {
  }

  lemma InUnfolds(w: string, p: Piece, ps: seq<Piece>)
    ensures In(w, [p] + ps) <==> exists k :: 0 <= k <= |w| && InPiece(w[..k], p) && In(w[k..], ps)
  {
    assert ([p] + ps)[0] == p && ([p] + ps)[1..] == ps;
  }

  /** A beginning of the text in the language of a piece followed by a pattern is a beginning in the language
      of the piece, followed by a beginning of what is left in the language of the pattern. */
  lemma BeginsUnfolds(regexp: string, p: Piece, rest: string, text: string)
    requires Pieces(regexp) == [p] + Pieces(rest) && AtEnd(regexp) == AtEnd(rest)
    ensures Begins(regexp, text) <==> exists n :: 0 <= n <= |text| && InPiece(text[..n], p) && Begins(rest, text[n..])
  {
    var ps := Pieces(rest);
    if Begins(regexp, text) {
      var k :| 0 <= k <= |text| && In(text[..k], Pieces(regexp)) && (AtEnd(regexp) ==> k == |text|);
      InUnfolds(text[..k], p, ps);
      var n :| 0 <= n <= k && InPiece(text[..k][..n], p) && In(text[..k][n..], ps);
      Cuts(text, n, k);
      assert In(text[n..][..k - n], ps);
      assert InPiece(text[..n], p) && Begins(rest, text[n..]);
    }
    if n :| 0 <= n <= |text| && InPiece(text[..n], p) && Begins(rest, text[n..]) {
      var m :| 0 <= m <= |text[n..]| && In(text[n..][..m], ps) && (AtEnd(rest) ==> m == |text[n..]|);
      var k := n + m;
      Cuts(text, n, k);
      InUnfolds(text[..k], p, ps);
      assert InPiece(text[..k][..n], p) && In(text[..k][n..], ps);
    }
  }

  lemma BeginsEmpty(text: string)
    ensures Begins("", text) && (Begins("$", text) <==> text == "")
  {
    assert In(text[..0], Pieces(""));
    if text == "" { assert In(text[..0], Pieces("$")); }
  }

  // ---------------------------------------------------------------- patterns without repetition

  /** Neither a repetition nor an anchor at the end. */
  predicate Simple(r: string) {
    forall k :: 0 <= k < |r| ==> r[k] != '*' && r[k] != '$'
  }

  /** From position i on the text has the pattern's characters; a dot stands for any. */
  ghost predicate StandsAt(r: string, text: string, i: nat) {
    i + |r| <= |text| && forall k :: 0 <= k < |r| ==> r[k] == '.' || text[i + k] == r[k]
  }

  lemma OnePiece(a: Atom, rest: string, text: string)
    ensures (exists n :: 0 <= n <= |text| && InPiece(text[..n], One(a)) && Begins(rest, text[n..])) <==>
            text != "" && Fits(a, text[0]) && Begins(rest, text[1..])
  {
    if text != "" && Fits(a, text[0]) { assert InPiece(text[..1], One(a)); }
    if n :| 0 <= n <= |text| && InPiece(text[..n], One(a)) && Begins(rest, text[n..]) {
      assert n == 1 && text[..1][0] == text[0];
    }
  }

  /** A simple pattern, with or without a final anchor. */
  lemma {:induction false} SimpleBegins(r: string, text: string)
    requires Simple(r)
    ensures Begins(r, text) <==> StandsAt(r, text, 0)
    ensures Begins(r + "$", text) <==> StandsAt(r, text, 0) && |text| == |r|
    decreases |r|
  {
    BeginsEmpty(text);
    if r == "" {
      assert r + "$" == "$";
    } else {
      var a, rest, left := AtomOf(r[0]), r[1..], if text == "" then "" else text[1..];
      SimplePieces(r);
      SimpleBegins(rest, left);
      BeginsUnfolds(r, One(a), rest, text);
      BeginsUnfolds(r + "$", One(a), rest + "$", text);
      OnePiece(a, rest, text);
      OnePiece(a, rest + "$", text);
      hide Begins;
      if text != "" { StandsStep(r, text); }
    }
  }

  lemma StandsStep(r: string, text: string)
    requires r != "" && text != ""
    ensures StandsAt(r, text, 0) <==> (r[0] == '.' || text[0] == r[0]) && StandsAt(r[1..], text[1..], 0)
  {
    if (r[0] == '.' || text[0] == r[0]) && StandsAt(r[1..], text[1..], 0) {
      forall k | 0 < k < |r| ensures r[k] == '.' || text[k] == r[k] {
        assert r[1..][k - 1] == r[k] && text[1..][k - 1] == text[k];
      }
    }
  }

  lemma SimplePieces(r: string)
    requires r != "" && Simple(r)
    ensures Simple(r[1..]) && Pieces(r) == [One(AtomOf(r[0]))] + Pieces(r[1..]) && AtEnd(r) == AtEnd(r[1..])
    ensures Pieces(r + "$") == [One(AtomOf(r[0]))] + Pieces(r[1..] + "$") && AtEnd(r + "$") == AtEnd(r[1..] + "$")
  {
    assert (r + "$")[1..] == r[1..] + "$";
  }

  /** Without repetition the matcher is a search for a substring, where a dot fits any character; `^` ties it to
      the beginning of the text, `$` to the end, and both to the whole text. */
  lemma SimpleSearch(r: string, text: string)
    requires Simple(r) && (r != "" ==> r[0] != '^')
    ensures Matches(r, text) <==> exists i: nat :: StandsAt(r, text, i)
    ensures Matches(r + "$", text) <==> |r| <= |text| && StandsAt(r, text, |text| - |r|)
    ensures Matches("^" + r, text) <==> StandsAt(r, text, 0)
    ensures Matches("^" + r + "$", text) <==> StandsAt(r, text, 0) && |text| == |r|
  {
    assert ("^" + r)[1..] == r && ("^" + r + "$")[1..] == r + "$";
    SimpleBegins(r, text);
    forall i: nat | i <= |text|
      ensures Begins(r, text[i..]) <==> StandsAt(r, text, i)
      ensures Begins(r + "$", text[i..]) <==> StandsAt(r, text, i) && |text| == i + |r|
    {
      SimpleBegins(r, text[i..]);
    }
    hide Begins;
  }

  /** A repetition alone: a dot repeated fits everything, another character only itself. */
  lemma RepetitionOnly(c: char, text: string)
    ensures Matches(['^', c, '*', '$'], text) <==> c == '.' || forall k :: 0 <= k < |text| ==> text[k] == c
  {
    var r: string := [c, '*', '$'];
    assert ['^', c, '*', '$'][1..] == r && r[2..] == "$";
    BeginsUnfolds(r, Star(AtomOf(c)), "$", text);
    forall n | 0 <= n <= |text| ensures Begins("$", text[n..]) <==> n == |text| { BeginsEmpty(text[n..]); }
    assert text[..|text|] == text;
    hide Begins;
    assert Begins(r, text) <==> InPiece(text, Star(AtomOf(c)));
  }

  // ---------------------------------------------------------------- match.c

  /** `matchhere`: search for regexp at the beginning of text. */
  method MatchHere(regexp: string, text: string) returns (found: bool)
    ensures found <==> Begins(regexp, text)
    decreases |regexp|, 0
  {
    BeginsEmpty(text);
    if regexp == "" {
      return true;
    }
    if |regexp| > 1 && regexp[1] == '*' {
      BeginsUnfolds(regexp, Star(AtomOf(regexp[0])), regexp[2..], text);
      found := MatchStar(regexp[0], regexp[2..], text);
      return;
    }
    if regexp[0] == '$' && |regexp| == 1 {
      return text == "";
    }
    BeginsUnfolds(regexp, One(AtomOf(regexp[0])), regexp[1..], text);
    if text != "" && (regexp[0] == '.' || regexp[0] == text[0]) {
      assert InPiece(text[..1], One(AtomOf(regexp[0])));
      found := MatchHere(regexp[1..], text[1..]);
    } else {
      found := false;
    }
  }

  /** `matchstar`: search for c*regexp at the beginning of text. */
  method MatchStar(c: char, regexp: string, text: string) returns (found: bool)
    ensures found <==> exists n :: 0 <= n <= |text| && InPiece(text[..n], Star(AtomOf(c))) && Begins(regexp, text[n..])
    decreases |regexp|, 1
  {
    var i := 0;
    while true
      invariant 0 <= i <= |text| && InPiece(text[..i], Star(AtomOf(c)))
      invariant forall n :: 0 <= n < i ==> !Begins(regexp, text[n..])
      decreases |text| - i
    {
      found := MatchHere(regexp, text[i..]);
      if found { return; }
      if i == |text| || !(text[i] == c || c == '.') {
        if i < |text| {
          forall n | i < n <= |text| ensures !InPiece(text[..n], Star(AtomOf(c))) { assert text[..n][i] == text[i]; }
        }
        return;
      }
      i := i + 1;
    }
  }

  /** `match`: search for regexp anywhere in text. */
  method Match(regexp: string, text: string) returns (found: bool)
    ensures found <==> Matches(regexp, text)
  {
    if regexp != "" && regexp[0] == '^' {
      found := MatchHere(regexp[1..], text);
      return;
    }
    var i := 0;
    while i <= |text|
      invariant 0 <= i <= |text| + 1
      invariant forall n :: 0 <= n < i ==> !Begins(regexp, text[n..])
    {
      found := MatchHere(regexp, text[i..]);
      if found { return; }
      i := i + 1;
    }
    found := false;
  }
}
