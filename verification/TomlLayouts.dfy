/** String arrays printed over any number of lines, with blanks, comments and a
    trailing comma, are read back as the list they print. */
module TomlLayouts {
  import opened Wrappers
  import opened Utf8
  import opened Splitting
  import opened StrictToml

  // -----------------------------------------------------------------------
  // Printed arrays, piece by piece

  datatype Piece = Blank(c: scalar) | Element(text: Text) | Comma | Open | Close

  /** An element that a one-line array can hold: no quote, backslash, comma or
      line break. */
  predicate Plain(t: Text) {
    forall i :: 0 <= i < |t| ==>
      t[i] != QUOTE && t[i] != BACKSLASH && t[i] != COMMA && t[i] != LF && t[i] != CR
  }

  predicate PieceOk(p: Piece) {
    match p
    case Blank(c) => White(c)
    case Element(text) => Plain(text)
    case _ => true
  }

  ghost predicate PiecesOk(ps: seq<Piece>) {
    forall i :: 0 <= i < |ps| ==> PieceOk(ps[i])
  }

  function PieceText(p: Piece): (t: Text)
    ensures t != []
  {
    match p
    case Blank(c) => [c]
    case Element(text) => [QUOTE] + text + [QUOTE]
    case Comma => [COMMA]
    case Open => [OPEN]
    case Close => [CLOSE]
  }

  function PiecesText(ps: seq<Piece>): Text {
    if ps == [] then [] else PieceText(ps[0]) + PiecesText(ps[1..])
  }

  lemma {:induction false} TextAppend(a: seq<Piece>, b: seq<Piece>)
    ensures PiecesText(a + b) == PiecesText(a) + PiecesText(b)
  {
    hide PieceText;
    if a == [] {
      assert a + b == b;
    } else {
      TextAppend(a[1..], b);
      assert (a + b)[1..] == a[1..] + b;
      var first, rest := PieceText(a[0]), PiecesText(a[1..]);
      assert first + (rest + PiecesText(b)) == first + rest + PiecesText(b);
    }
  }

  lemma TextOfOne(p: Piece)
    ensures PiecesText([p]) == PieceText(p)
  {
    assert PiecesText([p]) == PieceText(p) + PiecesText([]);
  }

  /** The pieces that are not blank. */
  function Solid(ps: seq<Piece>): seq<Piece> {
    if ps == [] then [] else if ps[0].Blank? then Solid(ps[1..]) else [ps[0]] + Solid(ps[1..])
  }

  lemma {:induction false} SolidAppend(a: seq<Piece>, b: seq<Piece>)
    ensures Solid(a + b) == Solid(a) + Solid(b)
  {
    if a == [] {
      assert a + b == b;
    } else {
      SolidAppend(a[1..], b);
      assert (a + b)[1..] == a[1..] + b;
      assert [a[0]] + (Solid(a[1..]) + Solid(b)) == [a[0]] + Solid(a[1..]) + Solid(b);
    }
  }

  lemma {:induction false} SolidHas(ps: seq<Piece>, p: Piece)
    ensures p in Solid(ps) <==> p in ps && !p.Blank?
  {
    if ps != [] {
      SolidHas(ps[1..], p);
      assert ps == [ps[0]] + ps[1..];
    }
  }

  // -----------------------------------------------------------------------
  // Trimming

  function DropBlanks(ps: seq<Piece>): (r: seq<Piece>)
    ensures r == [] || !r[0].Blank?
    ensures Solid(r) == Solid(ps)
    ensures PiecesOk(ps) ==> PiecesOk(r)
    ensures forall p :: p in r ==> p in ps
  {
    if ps != [] && ps[0].Blank? then DropBlanks(ps[1..]) else ps
  }

  function ChopBlanks(ps: seq<Piece>): (r: seq<Piece>)
    ensures r <= ps && (r == [] || !r[|r| - 1].Blank?)
    ensures Solid(r) == Solid(ps)
  {
    if ps != [] && ps[|ps| - 1].Blank? then
      assert ps == ps[..|ps| - 1] + [ps[|ps| - 1]];
      (SolidAppend(ps[..|ps| - 1], [ps[|ps| - 1]]); ChopBlanks(ps[..|ps| - 1]))
    else ps
  }

  function TrimPieces(ps: seq<Piece>): (r: seq<Piece>)
    ensures Solid(r) == Solid(ps) && (PiecesOk(ps) ==> PiecesOk(r))
    ensures r == [] || (!r[0].Blank? && !r[|r| - 1].Blank?)
    ensures forall p :: p in r ==> p in ps
  {
    ChopBlanks(DropBlanks(ps))
  }

  lemma SolidEnds(p: Piece)
    requires PieceOk(p)
    ensures White(PieceText(p)[0]) <==> p.Blank?
    ensures White(PieceText(p)[|PieceText(p)| - 1]) <==> p.Blank?
  {}

  lemma {:induction false} StartTrimmed(ps: seq<Piece>)
    requires PiecesOk(ps)
    ensures TrimStart(PiecesText(ps)) == PiecesText(DropBlanks(ps))
  {
    hide PieceOk, White;
    if ps != [] {
      SolidEnds(ps[0]);
      var text := PiecesText(ps);
      assert text[0] == PieceText(ps[0])[0];
      if ps[0].Blank? {
        assert text[1..] == PiecesText(ps[1..]);
        StartTrimmed(ps[1..]);
      }
    }
  }

  /** Trimming the end stops at a solid piece, whatever is in front. */
  lemma {:induction false} EndTrimmed(front: Text, ps: seq<Piece>)
    requires PiecesOk(ps) && (front == [] || !White(front[|front| - 1]) || Solid(ps) != [])
    ensures TrimEnd(front + PiecesText(ps)) == front + PiecesText(ChopBlanks(ps))
    decreases |ps|
  {
    hide PieceOk, White;
    var text := front + PiecesText(ps);
    if ps == [] {
      assert text == front;
    } else {
      var init, last := ps[..|ps| - 1], ps[|ps| - 1];
      assert ps == init + [last];
      TextAppend(init, [last]);
      TextOfOne(last);
      SolidEnds(last);
      SolidAppend(init, [last]);
      assert text == front + PiecesText(init) + PieceText(last);
      assert text[|text| - 1] == PieceText(last)[|PieceText(last)| - 1];
      if last.Blank? {
        assert text[..|text| - 1] == front + PiecesText(init);
        EndTrimmed(front, init);
      }
    }
  }

  lemma Trimmed(ps: seq<Piece>)
    requires PiecesOk(ps)
    ensures Trim(PiecesText(ps)) == PiecesText(TrimPieces(ps))
  {
    StartTrimmed(ps);
    var rest := DropBlanks(ps);
    EndTrimmed([], rest);
    assert [] + PiecesText(rest) == PiecesText(rest);
    assert [] + PiecesText(ChopBlanks(rest)) == PiecesText(ChopBlanks(rest));
  }

  // -----------------------------------------------------------------------
  // Scanning

  /** `s` stands at position `i`. */
  ghost predicate Stands(line: Text, i: nat, s: Text) {
    i + |s| <= |line| && line[i..i + |s|] == s
  }

  lemma StandsSplit(line: Text, i: nat, a: Text, b: Text)
    requires Stands(line, i, a + b)
    ensures Stands(line, i, a) && Stands(line, i + |a|, b)
  {
    assert line[i..i + |a|] == (a + b)[..|a|];
    assert line[i + |a|..i + |a| + |b|] == (a + b)[|a|..];
  }

  lemma StandsFirst(line: Text, i: nat, c: scalar, rest: Text)
    requires Stands(line, i, [c] + rest)
    ensures i < |line| && line[i] == c && Stands(line, i + 1, rest)
  {
    StandsSplit(line, i, [c], rest);
    assert line[i..i + 1][0] == c;
  }

  lemma {:induction false} ScanQuoted(line: Text, i: nat, t: Text, depth: nat)
    requires Stands(line, i, t) && Plain(t)
    ensures CommentStart(line, i, true, false) == CommentStart(line, i + |t|, true, false)
    ensures BalanceFrom(line, i, true, false, depth) == BalanceFrom(line, i + |t|, true, false, depth)
    decreases |t|
  {
    if t != [] {
      assert t == [t[0]] + t[1..];
      StandsFirst(line, i, t[0], t[1..]);
      ScanQuoted(line, i + 1, t[1..], depth);
    }
  }

  lemma ScanElement(line: Text, i: nat, t: Text, depth: nat)
    requires Stands(line, i, PieceText(Element(t))) && Plain(t)
    ensures CommentStart(line, i, false, false) == CommentStart(line, i + |t| + 2, false, false)
    ensures BalanceFrom(line, i, false, false, depth) == BalanceFrom(line, i + |t| + 2, false, false, depth)
  {
    assert PieceText(Element(t)) == [QUOTE] + (t + [QUOTE]);
    StandsFirst(line, i, QUOTE, t + [QUOTE]);
    StandsSplit(line, i + 1, t, [QUOTE]);
    StandsFirst(line, i + 1 + |t|, QUOTE, []);
    ScanQuoted(line, i + 1, t, depth);
  }

  /** How many brackets are open after the pieces; none when one closes too many. */
  function DepthAfter(ps: seq<Piece>, depth: nat): Option<nat> {
    if ps == [] then Some(depth)
    else if ps[0].Open? then DepthAfter(ps[1..], depth + 1)
    else if ps[0].Close? then (if depth == 0 then None else DepthAfter(ps[1..], depth - 1))
    else DepthAfter(ps[1..], depth)
  }

  lemma ScanPiece(line: Text, i: nat, p: Piece, depth: nat)
    requires PieceOk(p) && Stands(line, i, PieceText(p))
    ensures CommentStart(line, i, false, false) == CommentStart(line, i + |PieceText(p)|, false, false)
    ensures BalanceFrom(line, i, false, false, depth) ==
              if p.Close? && depth == 0 then None
              else BalanceFrom(line, i + |PieceText(p)|, false, false,
                               if p.Open? then depth + 1 else if p.Close? then depth - 1 else depth)
  {
    match p
    case Element(t) => ScanElement(line, i, t, depth);
    case _ => assert line[i..i + 1] == PieceText(p) && line[i] == PieceText(p)[0];
  }

  lemma {:induction false} ScanPieces(line: Text, i: nat, ps: seq<Piece>, depth: nat)
    requires PiecesOk(ps) && Stands(line, i, PiecesText(ps))
    ensures CommentStart(line, i, false, false) == CommentStart(line, i + |PiecesText(ps)|, false, false)
    ensures BalanceFrom(line, i, false, false, depth) ==
              if DepthAfter(ps, depth).None? then None
              else BalanceFrom(line, i + |PiecesText(ps)|, false, false, DepthAfter(ps, depth).value)
    decreases |ps|
  {
    hide PieceOk, Stands, PieceText;
    if ps != [] {
      StandsSplit(line, i, PieceText(ps[0]), PiecesText(ps[1..]));
      ScanPiece(line, i, ps[0], depth);
      ScanPieces(line, i + |PieceText(ps[0])|, ps[1..],
                 if ps[0].Open? then depth + 1 else if ps[0].Close? && depth > 0 then depth - 1 else depth);
    }
  }

  lemma PiecesBalanced(ps: seq<Piece>)
    requires PiecesOk(ps)
    ensures Balanced(PiecesText(ps)) == if DepthAfter(ps, 0).None? then None else Some(DepthAfter(ps, 0).value == 0)
  {
    var text := PiecesText(ps);
    assert text[0..|text|] == text;
    ScanPieces(text, 0, ps, 0);
  }

  /** One printed line. */
  datatype Line = Line(pieces: seq<Piece>, comment: Option<Text>)

  function CommentText(comment: Option<Text>): Text {
    if comment.None? then [] else [HASH] + comment.value
  }

  function LineText(l: Line): Text {
    PiecesText(l.pieces) + CommentText(l.comment)
  }

  /** Behind plain characters and pieces, the comment is found and cut off. */
  lemma CommentCut(front: Text, l: Line)
    requires PiecesOk(l.pieces)
    requires forall i :: 0 <= i < |front| ==> front[i] != QUOTE && front[i] != HASH
    ensures Uncommented(front + LineText(l)) == Some(front + PiecesText(l.pieces))
  {
    var line, text := front + LineText(l), PiecesText(l.pieces);
    ScanFront(line, 0, front);
    assert Stands(line, |front|, text);
    ScanPieces(line, |front|, l.pieces, 0);
    var end := |front| + |text|;
    assert line[..end] == front + text;
    if l.comment.Some? {
      assert line[end] == HASH;
    }
  }

  lemma {:induction false} ScanFront(line: Text, i: nat, front: Text)
    requires i <= |front| <= |line| && line[..|front|] == front
    requires forall k :: 0 <= k < |front| ==> front[k] != QUOTE && front[k] != HASH
    ensures CommentStart(line, i, false, false) == CommentStart(line, |front|, false, false)
    decreases |front| - i
  {
    if i < |front| {
      assert line[i] == line[..|front|][i];
      ScanFront(line, i + 1, front);
    }
  }

  // -----------------------------------------------------------------------
  // From pieces back to the list

  /** The solid pieces between the brackets, elements separated by commas. */
  function Listing(es: seq<Text>): seq<Piece> {
    if es == [] then []
    else if |es| == 1 then [Element(es[0])]
    else [Element(es[0]), Comma] + Listing(es[1..])
  }

  ghost predicate NoBrackets(ps: seq<Piece>) {
    Open !in ps && Close !in ps
  }

  lemma {:induction false} NoCommaText(ps: seq<Piece>)
    requires PiecesOk(ps) && Comma !in ps
    ensures COMMA !in PiecesText(ps)
  {
    if ps != [] {
      NoCommaText(ps[1..]);
      assert PieceOk(ps[0]);
    }
  }

  lemma ReadOne(ps: seq<Piece>, e: Text)
    requires PiecesOk(ps) && Solid(ps) == [Element(e)]
    ensures ReadString(Trim(PiecesText(ps))) == Some(e)
  {
    Trimmed(ps);
    var r := TrimPieces(ps);
    SolidIsAll(r, Element(e));
    TextOfOne(Element(e));
    assert PieceOk(r[0]);
    assert PieceText(Element(e))[1..|e| + 1] == e;
  }

  /** Pieces that neither start nor end blank and have one solid piece. */
  lemma SolidIsAll(r: seq<Piece>, p: Piece)
    requires r == [] || (!r[0].Blank? && !r[|r| - 1].Blank?)
    requires Solid(r) == [p]
    ensures r == [p]
  {
    if |r| > 1 {
      SolidTwo(r);
    } else {
      assert Solid(r) == if r[0].Blank? then Solid([]) else [r[0]] + Solid([]);
    }
  }

  lemma SolidTwo(r: seq<Piece>)
    requires |r| > 1 && !r[0].Blank? && !r[|r| - 1].Blank?
    ensures |Solid(r)| > 1
  {
    SolidHas(r[1..], r[|r| - 1]);
    assert r[1..][|r| - 2] == r[|r| - 1];
    assert r[|r| - 1] in Solid(r[1..]);
  }

  lemma {:induction false} ReadListing(ps: seq<Piece>, es: seq<Text>)
    requires PiecesOk(ps) && es != [] && Solid(ps) == Listing(es)
    ensures ReadItems(Split(PiecesText(ps), COMMA)) == Some(es)
    decreases |es|
  {
    hide PiecesOk, ReadString, Trim, Solid, Split, PiecesText, BeforeComma, BehindComma;
    if |es| == 1 {
      assert [es[0]] == es;
      OneItem(ps, es[0]);
    } else {
      FirstCut(ps, es);
      var a, b := BeforeComma(ps), BehindComma(ps);
      ReadOne(a, es[0]);
      ReadListing(b, es[1..]);
      var parts := [PiecesText(a)] + Split(PiecesText(b), COMMA);
      assert parts[0] == PiecesText(a) && parts[1..] == Split(PiecesText(b), COMMA);
      assert [es[0]] + es[1..] == es;
    }
  }

  lemma OneItem(ps: seq<Piece>, e: Text)
    requires PiecesOk(ps) && Solid(ps) == [Element(e)]
    ensures ReadItems(Split(PiecesText(ps), COMMA)) == Some([e])
  {
    hide ReadString, Trim, Solid, PiecesOk;
    SolidHas(ps, Comma);
    assert Comma !in ps;
    NoCommaText(ps);
    SplitNone(PiecesText(ps), COMMA);
    ReadOne(ps, e);
    var parts, nothing: seq<Text> := [PiecesText(ps)], [];
    assert parts[1..] == nothing && [e] + nothing == [e];
    assert ReadItems(nothing) == Some(nothing);
  }

  lemma OkSlices(ps: seq<Piece>, i: nat)
    requires PiecesOk(ps) && i < |ps|
    ensures PiecesOk(ps[..i]) && PiecesOk(ps[i + 1..])
  {}

  function BeforeComma(ps: seq<Piece>): seq<Piece> {
    ps[..IndexOf(ps, Comma)]
  }

  function BehindComma(ps: seq<Piece>): seq<Piece> {
    if IndexOf(ps, Comma) < |ps| then ps[IndexOf(ps, Comma) + 1..] else []
  }

  /** The pieces before and behind the first comma. */
  lemma FirstCut(ps: seq<Piece>, es: seq<Text>)
    requires PiecesOk(ps) && |es| > 1 && Solid(ps) == Listing(es)
    ensures PiecesOk(BeforeComma(ps)) && PiecesOk(BehindComma(ps))
    ensures Solid(BeforeComma(ps)) == [Element(es[0])] && Solid(BehindComma(ps)) == Listing(es[1..])
    ensures Split(PiecesText(ps), COMMA) == [PiecesText(BeforeComma(ps))] + Split(PiecesText(BehindComma(ps)), COMMA)
  {
    hide PiecesOk, Solid, Split, Listing, PiecesText;
    SolidHas(ps, Comma);
    ListingStep(es);
    var i := IndexOf(ps, Comma);
    assert ps[..|ps|] == ps;
    var a, b := ps[..i], ps[i + 1..];
    OkSlices(ps, i);
    CutListing(ps, es, i);
    NoCommaText(a);
    TextAppend(a, [Comma] + b);
    assert ps == a + ([Comma] + b);
    TextAppend([Comma], b);
    TextOfOne(Comma);
    assert PiecesText(ps) == PiecesText(a) + [COMMA] + PiecesText(b);
    SplitFirst(PiecesText(a), COMMA, PiecesText(b));
  }

  /** The first comma of a listing stands behind its first element. */
  lemma CutListing(ps: seq<Piece>, es: seq<Text>, i: nat)
    requires |es| > 1 && Solid(ps) == Listing(es) && i < |ps| && ps[i] == Comma && Comma !in ps[..i]
    ensures Solid(ps[..i]) == [Element(es[0])] && Solid(ps[i + 1..]) == Listing(es[1..])
  {
    hide Solid, Listing;
    var a, b := ps[..i], ps[i + 1..];
    assert ps == a + [Comma] + b;
    SolidAppend(a + [Comma], b);
    SolidAppend(a, [Comma]);
    SolidOfComma();
    SolidHas(a, Comma);
    ListingStep(es);
    SameCut(Solid(a), Solid(b), Element(es[0]), Listing(es[1..]));
  }

  lemma SolidOfComma()
    ensures Solid([Comma]) == [Comma]
  {
    assert Solid([Comma]) == [Comma] + Solid([]);
  }

  lemma ListingStep(es: seq<Text>)
    requires |es| > 1
    ensures Listing(es) == [Element(es[0]), Comma] + Listing(es[1..]) && Comma in Listing(es)
  {
    assert Listing(es)[1] == Comma;
  }

  /** Two ways of cutting at the first comma are the same. */
  lemma SameCut(x: seq<Piece>, y: seq<Piece>, e: Piece, rest: seq<Piece>)
    requires x + [Comma] + y == [e, Comma] + rest && Comma !in x && e != Comma
    ensures x == [e] && y == rest
  {
    var all := x + [Comma] + y;
    assert all[|x|] == Comma && all[0] == e && all[1] == Comma;
    assert forall k :: 0 <= k < |x| ==> all[k] == x[k];
    assert forall k :: 0 <= k < |x| ==> all[k] != Comma;
    assert |x| == 1;
    assert x == all[..1] && y == all[2..] && rest == all[2..];
  }

  // -----------------------------------------------------------------------
  // The value that brackets enclose

  lemma SolidLast(r: seq<Piece>)
    requires r != [] && !r[|r| - 1].Blank?
    ensures Solid(r) == Solid(r[..|r| - 1]) + [r[|r| - 1]]
  {
    var last := r[|r| - 1];
    assert r == r[..|r| - 1] + [last];
    SolidAppend(r[..|r| - 1], [last]);
    assert Solid([last]) == [last] + Solid([]);
  }

  lemma SolidFirst(r: seq<Piece>)
    requires r != [] && !r[0].Blank?
    ensures Solid(r) == [r[0]] + Solid(r[1..])
  {}

  /** The solid pieces of an array: its brackets, the listing, and perhaps a
      comma behind it. */
  function ArraySolid(es: seq<Text>, trailing: bool): seq<Piece> {
    [Open] + Inside(es, trailing) + [Close]
  }

  function Inside(es: seq<Text>, trailing: bool): seq<Piece> {
    Listing(es) + if trailing then [Comma] else []
  }

  lemma {:induction false} ListingHasNoBrackets(es: seq<Text>)
    ensures NoBrackets(Listing(es)) && (es == [] ==> Listing(es) == [])
    ensures es != [] ==> Listing(es) != [] && Listing(es)[|Listing(es)| - 1] == Element(es[|es| - 1])
  {
    if |es| > 1 {
      ListingHasNoBrackets(es[1..]);
    }
  }

  /** Without the trailing comma, if there is one. */
  lemma CommaDropped(r: seq<Piece>, es: seq<Text>, trailing: bool) returns (q: seq<Piece>)
    requires PiecesOk(r) && Solid(r) == Inside(es, trailing)
    requires r == [] || (!r[0].Blank? && !r[|r| - 1].Blank?)
    ensures PiecesOk(q) && Solid(q) == Listing(es) && WithoutComma(PiecesText(r)) == PiecesText(q)
  {
    hide Listing;
    ListingHasNoBrackets(es);
    if r == [] {
      q := r;
    } else {
      var init, last := r[..|r| - 1], r[|r| - 1];
      SolidLast(r);
      assert r == init + [last];
      TextAppend(init, [last]);
      TextOfOne(last);
      assert Inside(es, trailing)[|Inside(es, trailing)| - 1] == last;
      var text := PiecesText(r);
      assert text == PiecesText(init) + PieceText(last);
      if trailing {
        q := init;
        assert text[..|text| - 1] == PiecesText(init) && text[|text| - 1] == COMMA;
        assert Inside(es, trailing) == Listing(es) + [Comma];
        assert Solid(init) == Inside(es, trailing)[..|Inside(es, trailing)| - 1];
      } else {
        q := r;
        assert Inside(es, trailing) == Listing(es);
        assert last.Element? && text[|text| - 1] == QUOTE;
      }
    }
  }

  lemma ArrayReadsBack(qs: seq<Piece>, es: seq<Text>, trailing: bool)
    requires PiecesOk(qs) && |qs| >= 2 && qs[0] == Open && qs[|qs| - 1] == Close
    requires Solid(qs) == ArraySolid(es, trailing)
    ensures ReadStringArray(PiecesText(qs)) == Some(es)
  {
    hide Listing, Trim, Split, ReadItems, PiecesText, Solid, Inside;
    var inner := qs[1..|qs| - 1];
    BetweenBrackets(qs, inner, es, trailing);
    Trimmed(inner);
    var q := CommaDropped(TrimPieces(inner), es, trailing);
    Trimmed(q);
    var core := TrimPieces(q);
    NoListing(core, es);
    if es != [] {
      ReadListing(core, es);
    }
  }

  lemma BetweenBrackets(qs: seq<Piece>, inner: seq<Piece>, es: seq<Text>, trailing: bool)
    requires PiecesOk(qs) && |qs| >= 2 && qs[0] == Open && qs[|qs| - 1] == Close && inner == qs[1..|qs| - 1]
    requires Solid(qs) == ArraySolid(es, trailing)
    ensures PiecesOk(inner) && Solid(inner) == Inside(es, trailing)
    ensures PiecesText(qs) == [OPEN] + PiecesText(inner) + [CLOSE]
  {
    hide Listing, Solid, PiecesText, Inside;
    var init := qs[..|qs| - 1];
    SolidLast(qs);
    SolidFirst(init);
    assert init[1..] == inner && qs == init + [Close] && init == [Open] + inner;
    assert Solid(qs)[..|Solid(qs)| - 1][1..] == Inside(es, trailing);
    TextAppend(init, [Close]);
    TextAppend([Open], inner);
    TextOfOne(Open);
    TextOfOne(Close);
  }

  /** Trimmed pieces are empty text only if there is no element. */
  lemma NoListing(core: seq<Piece>, es: seq<Text>)
    requires (core == [] || !core[0].Blank?) && Solid(core) == Listing(es)
    ensures PiecesText(core) == [] <==> es == []
  {
    if core != [] {
      SolidFirst(core);
      assert PieceText(core[0]) != [];
    }
  }

  // -----------------------------------------------------------------------
  // Reading the lines

  lemma {:induction false} DepthAppend(a: seq<Piece>, b: seq<Piece>, depth: nat)
    ensures DepthAfter(a + b, depth) ==
              if DepthAfter(a, depth).None? then None else DepthAfter(b, DepthAfter(a, depth).value)
    decreases |a|
  {
    if a == [] {
      assert a + b == b;
    } else {
      assert (a + b)[1..] == a[1..] + b;
      if a[0].Close? {
        if depth > 0 {
          DepthAppend(a[1..], b, depth - 1);
        }
      } else {
        DepthAppend(a[1..], b, if a[0].Open? then depth + 1 else depth);
      }
    }
  }

  lemma {:induction false} DepthStays(ps: seq<Piece>, depth: nat)
    requires NoBrackets(ps)
    ensures DepthAfter(ps, depth) == Some(depth)
  {
    if ps != [] {
      DepthStays(ps[1..], depth);
      assert ps[0] in ps;
    }
  }

  /** The pieces of a value with one more line. */
  function Joined(ps: seq<Piece>, q: seq<Piece>): seq<Piece> {
    if q == [] then ps else ps + [Blank(SPACE)] + q
  }

  lemma JoinedFacts(ps: seq<Piece>, q: seq<Piece>)
    requires PiecesOk(ps) && ps != [] && PiecesOk(q)
    ensures Joined(ps, q) != [] && Joined(ps, q)[0] == ps[0]
    ensures PiecesOk(Joined(ps, q)) && Solid(Joined(ps, q)) == Solid(ps) + Solid(q)
    ensures q != [] ==> Extended(PiecesText(ps), PiecesText(q)) == PiecesText(Joined(ps, q)) && PiecesText(q) != []
    ensures q != [] ==> |Joined(ps, q)| >= 2 && Joined(ps, q)[|Joined(ps, q)| - 1] == q[|q| - 1]
    ensures PiecesText(ps) != []
    ensures DepthAfter(ps, 0) == Some(1) ==> DepthAfter(Joined(ps, q), 0) == DepthAfter(q, 1)
  {
    hide DepthAfter, Solid;
    var blank := [Blank(SPACE)];
    SolidAppend(ps + blank, q);
    SolidAppend(ps, blank);
    NoSolidInBlank();
    TextAppend(ps + blank, q);
    TextAppend(ps, blank);
    TextOfOne(Blank(SPACE));
    DepthAppend(ps + blank, q, 0);
    DepthAppend(ps, blank, 0);
    DepthStays(blank, 1);
    DepthStays([], 1);
    assert Solid(ps) + [] == Solid(ps);
    assert PieceText(ps[0]) != [] && (q != [] ==> PieceText(q[0]) != []);
    assert PieceOk(Blank(SPACE));
  }

  lemma NoSolidInBlank()
    ensures Solid([Blank(SPACE)]) == [] && Solid([]) == []
  {
    assert Solid([Blank(SPACE)]) == Solid([]);
  }

  /** A value under construction: its text, and one bracket open. */
  ghost predicate Building(r: Reader, key: Text, ps: seq<Piece>) {
    && r.pending == Some(Pending(key, PiecesText(ps)))
    && PiecesOk(ps) && ps != [] && ps[0] == Open && DepthAfter(ps, 0) == Some(1)
  }

  /** What a line of a value under construction does to it. */
  lemma ContinuedLine(r: Reader, key: Text, ps: seq<Piece>, l: Line) returns (next: seq<Piece>)
    requires Building(r, key, ps) && PiecesOk(l.pieces) && Open !in l.pieces
    ensures next == Joined(ps, TrimPieces(l.pieces))
    ensures PiecesOk(next) && next != [] && next[0] == Open && Solid(next) == Solid(ps) + Solid(l.pieces)
    ensures DepthAfter(next, 0) == Some(1) ==>
              StepLine(r, LineText(l)) == Some(r.(pending := Some(Pending(key, PiecesText(next)))))
    ensures DepthAfter(next, 0) == Some(0) ==> StepLine(r, LineText(l)) == Insert(r, key, PiecesText(next))
  {
    hide Trim, Uncommented, Solid, DepthAfter, PiecesText, PiecesOk, Balanced;
    assert [] + LineText(l) == LineText(l) && [] + PiecesText(l.pieces) == PiecesText(l.pieces);
    CommentCut([], l);
    Trimmed(l.pieces);
    var q := TrimPieces(l.pieces);
    next := Joined(ps, q);
    JoinedFacts(ps, q);
    PiecesBalanced(next);
    if q == [] {
      EmptyText();
    } else {
      StartsAs(q);
      assert q[0] in l.pieces;
    }
  }

  lemma EmptyText()
    ensures PiecesText([]) == []
  {}

  /** A text starts with a bracket only if its first piece is one. */
  lemma StartsAs(q: seq<Piece>)
    requires PiecesOk(q) && q != []
    ensures PiecesText(q) != [] && (PiecesText(q)[0] == OPEN ==> q[0] == Open || q[0].Blank?)
    ensures q[0] == Open ==> PiecesText(q)[0] == OPEN
  {
    assert PiecesText(q)[0] == PieceText(q[0])[0];
    assert PieceOk(q[0]);
  }

  function SolidLines(lines: seq<Line>): seq<Piece> {
    if lines == [] then [] else Solid(lines[0].pieces) + SolidLines(lines[1..])
  }

  function Texts(lines: seq<Line>): seq<Text> {
    seq(|lines|, i requires 0 <= i < |lines| => LineText(lines[i]))
  }

  ghost predicate LinesOk(lines: seq<Line>) {
    forall i :: 0 <= i < |lines| ==> PiecesOk(lines[i].pieces)
  }

  /** The lines print `solid` and then a closing bracket, in the last of them. */
  ghost predicate Prints(lines: seq<Line>, solid: seq<Piece>) {
    && lines != [] && LinesOk(lines) && NoBrackets(solid)
    && SolidLines(lines) == solid + [Close]
    && Solid(lines[|lines| - 1].pieces) != []
  }

  lemma {:induction false} LastLinePrints(lines: seq<Line>)
    requires lines != [] && Solid(lines[|lines| - 1].pieces) != []
    ensures SolidLines(lines) != []
  {
    if |lines| > 1 {
      assert lines[1..][|lines| - 2] == lines[|lines| - 1];
      LastLinePrints(lines[1..]);
    }
  }

  /** All but the last line print part of `solid`. */
  lemma FirstLinePrints(lines: seq<Line>, solid: seq<Piece>) returns (rest: seq<Piece>)
    requires Prints(lines, solid) && |lines| > 1
    ensures NoBrackets(lines[0].pieces) && solid == Solid(lines[0].pieces) + rest && Prints(lines[1..], rest)
  {
    hide Solid;
    var first, tail := Solid(lines[0].pieces), SolidLines(lines[1..]);
    assert lines[1..][|lines| - 2] == lines[|lines| - 1];
    LastLinePrints(lines[1..]);
    rest := CutTail(first, tail, solid);
    assert forall i :: 0 <= i < |first| ==> solid[i] == first[i];
    assert forall i :: 0 <= i < |rest| ==> solid[|first| + i] == rest[i];
    SolidHas(lines[0].pieces, Open);
    SolidHas(lines[0].pieces, Close);
  }

  /** The last line ends with the closing bracket. */
  lemma LastLineCloses(lines: seq<Line>, solid: seq<Piece>)
    requires Prints(lines, solid) && |lines| == 1
    ensures Solid(lines[0].pieces) == solid + [Close] && Open !in lines[0].pieces
    ensures var q := TrimPieces(lines[0].pieces); DepthAfter(q, 1) == Some(0) && q != [] && q[|q| - 1] == Close
  {
    hide DepthAfter;
    assert SolidLines(lines) == Solid(lines[0].pieces) + SolidLines([]);
    var q := TrimPieces(lines[0].pieces);
    SolidHas(lines[0].pieces, Open);
    EmptySolid(q);
    ClosesOnce(q, solid);
  }

  lemma EmptySolid(q: seq<Piece>)
    requires Solid(q) != []
    ensures q != []
  {}

  lemma ClosesOnce(q: seq<Piece>, solid: seq<Piece>)
    requires q != [] && !q[|q| - 1].Blank? && Solid(q) == solid + [Close] && NoBrackets(solid)
    ensures q[|q| - 1] == Close && DepthAfter(q, 1) == Some(0)
  {
    hide Solid;
    var init := q[..|q| - 1];
    SolidLast(q);
    assert Solid(q)[|Solid(q)| - 1] == Close && Solid(q)[..|Solid(q)| - 1] == solid;
    SolidHas(init, Open);
    SolidHas(init, Close);
    DepthAppend(init, [Close], 1);
    DepthStays(init, 1);
    DepthStays([], 0);
    assert q == init + [Close] && [Close][1..] == [];
  }

  /** The lines of a value under construction complete it. */
  lemma {:induction false} ContinuedLines(r: Reader, key: Text, ps: seq<Piece>, lines: seq<Line>, solid: seq<Piece>)
    returns (qs: seq<Piece>)
    requires Building(r, key, ps) && key !in r.values && Prints(lines, solid)
    ensures PiecesOk(qs) && |qs| >= 2 && qs[0] == Open && qs[|qs| - 1] == Close
    ensures Solid(qs) == Solid(ps) + solid + [Close]
    ensures ReadLines(r, Texts(lines)) == Some(r.(values := r.values[key := PiecesText(qs)], pending := None))
    decreases |lines|
  {
    hide StepLine, Solid, PiecesText, PiecesOk, DepthAfter, Prints, TrimPieces, Texts, Joined;
    PrintsSomething(lines, solid);
    var texts := Texts(lines);
    TextsStep(lines);
    if |lines| == 1 {
      LastLineCloses(lines, solid);
      qs := ContinuedLine(r, key, ps, lines[0]);
      JoinedFacts(ps, TrimPieces(lines[0].pieces));
      Glue(Solid(ps), solid, [Close]);
    } else {
      var rest := FirstLinePrints(lines, solid);
      var next := ContinuedLine(r, key, ps, lines[0]);
      StillOpen(ps, lines[0].pieces);
      var reader := r.(pending := Some(Pending(key, PiecesText(next))));
      qs := ContinuedLines(reader, key, next, lines[1..], rest);
      Glue(Solid(ps), Solid(lines[0].pieces), rest);
    }
  }

  lemma Glue(a: seq<Piece>, b: seq<Piece>, c: seq<Piece>)
    ensures a + (b + c) == a + b + c
  {}

  lemma TextsStep(lines: seq<Line>)
    requires lines != []
    ensures |Texts(lines)| == |lines| && Texts(lines)[0] == LineText(lines[0]) && Texts(lines)[1..] == Texts(lines[1..])
    ensures |lines| == 1 ==> Texts(lines)[1..] == []
  {}

  lemma PrintsSomething(lines: seq<Line>, solid: seq<Piece>)
    requires Prints(lines, solid)
    ensures lines != [] && PiecesOk(lines[0].pieces)
  {}

  lemma StillOpen(ps: seq<Piece>, pieces: seq<Piece>)
    requires PiecesOk(ps) && ps != [] && DepthAfter(ps, 0) == Some(1) && PiecesOk(pieces) && NoBrackets(pieces)
    ensures DepthAfter(Joined(ps, TrimPieces(pieces)), 0) == Some(1)
  {
    hide DepthAfter, PiecesOk;
    var q := TrimPieces(pieces);
    JoinedFacts(ps, q);
    DepthStays(q, 1);
  }

  /** What stands on the first line before the equals sign: the key, with blanks
      on either side. */
  datatype Heading = Heading(lead: Text, key: Text, gap: Text)

  predicate AllWhite(t: Text) {
    forall i :: 0 <= i < |t| ==> White(t[i])
  }

  predicate HeadingOk(h: Heading) {
    AllWhite(h.lead) && KeyText(h.key) && AllWhite(h.gap)
  }

  /** The heading, an equals sign, and the first line of the array. */
  function FirstText(h: Heading, l: Line): Text {
    h.lead + h.key + h.gap + [EQUALS] + LineText(l)
  }

  /** What is left of the first line: the key and the trimmed pieces. */
  lemma FirstLine(r: Reader, h: Heading, l: Line) returns (ps: seq<Piece>)
    requires r.pending.None? && HeadingOk(h) && PiecesOk(l.pieces)
    requires Solid(l.pieces) != [] && Solid(l.pieces)[0] == Open
    ensures ps == TrimPieces(l.pieces) && PiecesOk(ps) && ps != [] && ps[0] == Open && Solid(ps) == Solid(l.pieces)
    ensures var qualified := Qualified(r.section, h.key);
            && (DepthAfter(ps, 0) == Some(0) ==> StepLine(r, FirstText(h, l)) == Insert(r, qualified, PiecesText(ps)))
            && (DepthAfter(ps, 0) == Some(1) ==>
                  StepLine(r, FirstText(h, l)) == Some(r.(pending := Some(Pending(qualified, PiecesText(ps))))))
  {
    hide Uncommented, Balanced, DepthAfter, PiecesOk, PiecesText, Solid, TrimEnd, TrimStart, IndexOf, KeyChar, White;
    ps := TrimPieces(l.pieces);
    EmptySolid(ps);
    SolidFirst(ps);
    var front, name := h.lead + h.key + h.gap + [EQUALS], h.key + h.gap + [EQUALS];
    FrontFacts(h);
    CommentCut(front, l);
    var chopped := ChopBlanks(l.pieces);
    EndTrimmed(name, l.pieces);
    LeadTrimmed(h.lead, name + PiecesText(l.pieces));
    assert front + PiecesText(l.pieces) == h.lead + (name + PiecesText(l.pieces));
    assert Trim(front + PiecesText(l.pieces)) == name + PiecesText(chopped);
    Assigned(h.key, h.gap, chopped, l.pieces);
    StartsAs(ps);
    PiecesBalanced(ps);
  }

  lemma FrontFacts(h: Heading)
    requires HeadingOk(h)
    ensures !White(h.key[0]) && !White(EQUALS)
    ensures var front := h.lead + h.key + h.gap + [EQUALS];
            forall i :: 0 <= i < |front| ==> front[i] != QUOTE && front[i] != HASH
  {}

  lemma {:induction false} LeadTrimmed(lead: Text, t: Text)
    requires AllWhite(lead) && t != [] && !White(t[0])
    ensures TrimStart(lead + t) == t
  {
    hide White;
    if lead == [] {
      assert lead + t == t;
    } else {
      assert (lead + t)[1..] == lead[1..] + t;
      LeadTrimmed(lead[1..], t);
    }
  }

  lemma {:induction false} GapTrimmed(key: Text, gap: Text)
    requires key != [] && !White(key[|key| - 1]) && AllWhite(gap)
    ensures TrimEnd(key + gap) == key
    decreases |gap|
  {
    hide White;
    if gap == [] {
      assert key + gap == key;
    } else {
      var init := gap[..|gap| - 1];
      assert (key + gap)[..|key + gap| - 1] == key + init;
      GapTrimmed(key, init);
    }
  }

  /** How the reader takes the first line apart. */
  lemma Assigned(key: Text, gap: Text, chopped: seq<Piece>, pieces: seq<Piece>)
    requires KeyText(key) && AllWhite(gap) && PiecesOk(pieces) && chopped == ChopBlanks(pieces)
    ensures var line, at := key + gap + [EQUALS] + PiecesText(chopped), |key| + |gap|;
            && !Header(line) && line != []
            && IndexOf(line, EQUALS) == at
            && Trim(line[..at]) == key
            && Trim(line[at + 1..]) == PiecesText(TrimPieces(pieces))
  {
    hide PiecesText, TrimStart, TrimEnd, PieceOk, IndexOf;
    var text := PiecesText(chopped);
    var name: Text := key + gap;
    var line := name + [EQUALS] + text;
    assert EQUALS !in name && !White(key[0]) && !White(key[|key| - 1]);
    IndexOfFirst(name, EQUALS, text);
    assert line[..|name|] == name && line[|name| + 1..] == text;
    LeadTrimmed([], name);
    assert [] + name == name;
    GapTrimmed(key, gap);
    ChopTwice(pieces);
    Trimmed(chopped);
  }

  lemma {:induction false} ChopTwice(ps: seq<Piece>)
    ensures ChopBlanks(DropBlanks(ChopBlanks(ps))) == ChopBlanks(DropBlanks(ps))
    decreases |ps|
  {
    if ps != [] && ps[|ps| - 1].Blank? {
      var init, last := ps[..|ps| - 1], ps[|ps| - 1];
      assert ps == init + [last];
      ChopTwice(init);
      DropThenChop(init, last);
    }
  }

  /** A blank behind does not matter, wherever the blanks in front end. */
  lemma {:induction false} DropThenChop(ps: seq<Piece>, blank: Piece)
    requires blank.Blank?
    ensures ChopBlanks(DropBlanks(ps + [blank])) == ChopBlanks(DropBlanks(ps))
    decreases |ps|
  {
    if ps == [] {
      assert ps + [blank] == [blank];
      assert DropBlanks([blank]) == DropBlanks([]);
    } else if ps[0].Blank? {
      assert (ps + [blank])[1..] == ps[1..] + [blank];
      DropThenChop(ps[1..], blank);
    } else {
      var all := ps + [blank];
      assert all[|all| - 1] == blank && all[..|all| - 1] == ps;
    }
  }

  // -----------------------------------------------------------------------
  // Main results

  /** The lines print a whole array, from the opening bracket on the first to the
      closing bracket on the last. */
  ghost predicate PrintsArray(lines: seq<Line>, es: seq<Text>, trailing: bool) {
    && lines != [] && LinesOk(lines)
    && SolidLines(lines) == ArraySolid(es, trailing)
    && Solid(lines[0].pieces) != []
    && Solid(lines[|lines| - 1].pieces) != []
  }

  function DocumentTexts(h: Heading, lines: seq<Line>): seq<Text>
    requires lines != []
  {
    [FirstText(h, lines[0])] + Texts(lines[1..])
  }

  /** Wherever it stands in a document, an array printed over any number of lines
      is assigned to its key as a value that reads back as the list. */
  lemma ArrayOverLinesReadsBack(r: Reader, h: Heading, lines: seq<Line>, es: seq<Text>, trailing: bool)
    returns (value: Text)
    requires r.pending.None? && HeadingOk(h) && Qualified(r.section, h.key) !in r.values
    requires PrintsArray(lines, es, trailing)
    ensures ReadLines(r, DocumentTexts(h, lines)) ==
              Some(r.(values := r.values[Qualified(r.section, h.key) := value]))
    ensures ReadStringArray(value) == Some(es)
  {
    hide StepLine, Solid, PiecesText, PiecesOk, DepthAfter, TrimPieces, Listing, ReadStringArray;
    var qualified, texts := Qualified(r.section, h.key), DocumentTexts(h, lines);
    assert texts[0] == FirstText(h, lines[0]) && texts[1..] == Texts(lines[1..]);
    OpensFirst(lines, es, trailing);
    var ps := FirstLine(r, h, lines[0]);
    ListingHasNoBrackets(es);
    var qs: seq<Piece>;
    if |lines| == 1 {
      WholeInOne(lines, es, trailing, ps);
      qs := ps;
      assert Texts(lines[1..]) == [];
    } else {
      var rest := RestPrints(lines, es, trailing);
      FirstIsOpen(ps, lines[0].pieces, es, trailing, rest);
      var reader := r.(pending := Some(Pending(qualified, PiecesText(ps))));
      qs := ContinuedLines(reader, qualified, ps, lines[1..], rest);
    }
    ArrayReadsBack(qs, es, trailing);
    value := PiecesText(qs);
  }

  lemma OpensFirst(lines: seq<Line>, es: seq<Text>, trailing: bool)
    requires PrintsArray(lines, es, trailing)
    ensures PiecesOk(lines[0].pieces) && Solid(lines[0].pieces) != [] && Solid(lines[0].pieces)[0] == Open
  {
    hide Solid, Inside;
    assert SolidLines(lines) == Solid(lines[0].pieces) + SolidLines(lines[1..]);
    assert SolidLines(lines)[0] == Open;
  }

  /** The one-line form. */
  lemma WholeInOne(lines: seq<Line>, es: seq<Text>, trailing: bool, ps: seq<Piece>)
    requires PrintsArray(lines, es, trailing) && |lines| == 1
    requires ps == TrimPieces(lines[0].pieces) && ps != [] && ps[0] == Open
    ensures Solid(ps) == ArraySolid(es, trailing) && |ps| >= 2 && ps[|ps| - 1] == Close && DepthAfter(ps, 0) == Some(0)
  {
    hide Solid, DepthAfter, Listing, TrimPieces;
    assert lines[1..] == [];
    assert SolidLines(lines) == Solid(lines[0].pieces) + SolidLines([]);
    var solid := ArraySolid(es, trailing);
    assert Solid(ps) == solid;
    ListingHasNoBrackets(es);
    var tail := ps[1..];
    SolidFirst(ps);
    assert solid[1..] == Inside(es, trailing) + [Close] && Solid(tail) == solid[1..];
    NoSolidInBlank();
    assert tail != [] && tail[|tail| - 1] == ps[|ps| - 1];
    ClosesOnce(tail, Inside(es, trailing));
    DepthAppend([Open], tail, 0);
    assert ps == [Open] + tail;
    DepthStays([], 1);
    OneOpen();
  }

  lemma OneOpen()
    ensures DepthAfter([Open], 0) == Some(1)
  {
    assert DepthAfter([Open], 0) == DepthAfter([], 1);
  }

  /** What the lines behind the first print. */
  lemma RestPrints(lines: seq<Line>, es: seq<Text>, trailing: bool) returns (rest: seq<Piece>)
    requires PrintsArray(lines, es, trailing) && |lines| > 1
    ensures Prints(lines[1..], rest) && Solid(lines[0].pieces) + rest + [Close] == ArraySolid(es, trailing)
    ensures Solid(lines[0].pieces) + rest == [Open] + Inside(es, trailing)
  {
    hide Solid, Listing, Inside;
    var first, tail := Solid(lines[0].pieces), SolidLines(lines[1..]);
    assert lines[1..][|lines| - 2] == lines[|lines| - 1];
    LastLinePrints(lines[1..]);
    OpensFirst(lines, es, trailing);
    InsideHasNoBrackets(es, trailing);
    rest := CutTail(first, tail, [Open] + Inside(es, trailing));
    assert first == [Open] + first[1..];
    InnerPart(first[1..], rest, Inside(es, trailing));
  }

  lemma InsideHasNoBrackets(es: seq<Text>, trailing: bool)
    ensures NoBrackets(Inside(es, trailing))
  {
    ListingHasNoBrackets(es);
  }

  /** What comes last is cut off the last part. */
  lemma CutTail(first: seq<Piece>, tail: seq<Piece>, solid: seq<Piece>) returns (rest: seq<Piece>)
    requires first + tail == solid + [Close] && tail != []
    ensures tail == rest + [Close] && first + rest == solid
  {
    var all := first + tail;
    rest := tail[..|tail| - 1];
    assert all[|all| - 1] == Close == tail[|tail| - 1];
    assert tail == rest + [Close];
    assert all[..|all| - 1] == solid && all[..|all| - 1] == first + rest;
  }

  lemma InnerPart(t: seq<Piece>, rest: seq<Piece>, inside: seq<Piece>)
    requires [Open] + t + rest == [Open] + inside && NoBrackets(inside)
    ensures NoBrackets(t) && NoBrackets(rest)
  {
    assert inside == ([Open] + t + rest)[1..] == t + rest;
    assert forall i :: 0 <= i < |t| ==> inside[i] == t[i];
    assert forall i :: 0 <= i < |rest| ==> inside[|t| + i] == rest[i];
  }

  lemma FirstIsOpen(ps: seq<Piece>, pieces: seq<Piece>, es: seq<Text>, trailing: bool, rest: seq<Piece>)
    requires ps == TrimPieces(pieces) && ps != [] && ps[0] == Open
    requires Solid(pieces) + rest == [Open] + Inside(es, trailing)
    ensures DepthAfter(ps, 0) == Some(1)
  {
    hide Solid, DepthAfter, Inside;
    InsideHasNoBrackets(es, trailing);
    var tail := ps[1..];
    SolidFirst(ps);
    InnerPart(Solid(tail), rest, Inside(es, trailing));
    SolidHas(tail, Open);
    SolidHas(tail, Close);
    DepthStays(tail, 1);
    DepthAppend([Open], tail, 0);
    assert ps == [Open] + tail;
    OneOpen();
  }

  /** Lines with nothing but blanks and comments change nothing between values. */
  lemma {:induction false} IdleLines(r: Reader, lines: seq<Line>, rest: seq<Text>)
    requires r.pending.None? && LinesOk(lines) && SolidLines(lines) == []
    ensures ReadLines(r, Texts(lines) + rest) == ReadLines(r, rest)
  {
    hide StepLine, Solid, PiecesOk, SolidLines, LineText, Texts;
    if lines == [] {
      NoLines();
      assert Texts(lines) + rest == rest;
    } else {
      TextsStep(lines);
      NothingSolid(lines);
      IdleLine(r, lines[0]);
      IdleLines(r, lines[1..], rest);
      var texts := Texts(lines) + rest;
      assert texts[0] == LineText(lines[0]) && texts[1..] == Texts(lines[1..]) + rest;
    }
  }

  lemma NoLines()
    ensures Texts([]) == []
  {}

  lemma NothingSolid(lines: seq<Line>)
    requires lines != [] && SolidLines(lines) == []
    ensures Solid(lines[0].pieces) == [] && SolidLines(lines[1..]) == []
  {
    hide Solid;
    assert SolidLines(lines) == Solid(lines[0].pieces) + SolidLines(lines[1..]);
  }

  lemma IdleLine(r: Reader, l: Line)
    requires r.pending.None? && PiecesOk(l.pieces) && Solid(l.pieces) == []
    ensures StepLine(r, LineText(l)) == Some(r)
  {
    hide Uncommented, PiecesText, Trim;
    CommentCut([], l);
    assert [] + LineText(l) == LineText(l) && [] + PiecesText(l.pieces) == PiecesText(l.pieces);
    Trimmed(l.pieces);
    assert TrimPieces(l.pieces) == [];
    EmptyText();
  }

  lemma {:induction false} ReadAppend(r: Reader, a: seq<Text>, b: seq<Text>)
    ensures ReadLines(r, a + b) ==
              if ReadLines(r, a).None? then None else ReadLines(ReadLines(r, a).value, b)
    decreases |a|
  {
    hide StepLine;
    if a == [] {
      assert a + b == b;
    } else {
      assert (a + b)[1..] == a[1..] + b;
      var next := StepLine(r, a[0]);
      if next.Some? {
        ReadAppend(next.value, a[1..], b);
      }
    }
  }

  /** What stands behind a line; only the last may have nothing behind it. */
  datatype LineEnd = LineFeed | ReturnAndLineFeed | EndOfText

  function EndText(end: LineEnd): Text {
    match end
    case LineFeed => [LF]
    case ReturnAndLineFeed => [CR, LF]
    case EndOfText => []
  }

  /** The lines, each with what ends it. */
  function Printed(texts: seq<Text>, ends: seq<LineEnd>): Text
    requires |texts| == |ends|
  {
    if texts == [] then [] else texts[0] + EndText(ends[0]) + Printed(texts[1..], ends[1..])
  }

  /** The line is one line of a text when it ends this way. */
  predicate OneLine(t: Text, end: LineEnd, last: bool) {
    && LF !in t && NUL !in t
    && (end.LineFeed? && t != [] ==> t[|t| - 1] != CR)
    && (end.EndOfText? ==> last && t != [])
  }

  predicate OneLines(texts: seq<Text>, ends: seq<LineEnd>) {
    |texts| == |ends| && forall i :: 0 <= i < |texts| ==> OneLine(texts[i], ends[i], i == |texts| - 1)
  }

  lemma {:induction false} PrintedLines(texts: seq<Text>, ends: seq<LineEnd>)
    requires OneLines(texts, ends)
    ensures Lines(Printed(texts, ends)) == texts && NUL !in Printed(texts, ends)
  {
    if texts != [] {
      hide OneLine;
      var rest := Printed(texts[1..], ends[1..]);
      assert OneLine(texts[0], ends[0], |texts| == 1);
      PrintedLines(texts[1..], ends[1..]);
      OneMoreLine(texts[0], ends[0], |texts| == 1, rest);
      assert [texts[0]] + texts[1..] == texts;
    }
  }

  lemma OneMoreLine(t: Text, end: LineEnd, last: bool, rest: Text)
    requires OneLine(t, end, last) && (last ==> rest == []) && NUL !in rest
    ensures Lines(t + EndText(end) + rest) == [t] + Lines(rest) && NUL !in t + EndText(end) + rest
  {
    hide IndexOf;
    var document := t + EndText(end) + rest;
    if end.EndOfText? {
      assert document == t;
      SplitNone(t, LF);
    } else {
      var line: Text := if end.LineFeed? then t else t + [CR];
      assert document == line + [LF] + rest;
      IndexOfFirst(line, LF, rest);
      assert document[..|line|] == line && document[|line| + 1..] == rest;
      assert end.ReturnAndLineFeed? ==> line[..|line| - 1] == t;
    }
  }

  /** The same for a document of its own: every layout of the array, the one-line
      form among them, is read back as the list, with any line ends and any blank
      and comment lines before and behind. */
  lemma ArrayDocumentReadsBack(before: seq<Line>, h: Heading, lines: seq<Line>, after: seq<Line>, ends: seq<LineEnd>,
                               es: seq<Text>, trailing: bool)
    returns (value: Text)
    requires HeadingOk(h) && PrintsArray(lines, es, trailing)
    requires LinesOk(before) && SolidLines(before) == [] && LinesOk(after) && SolidLines(after) == []
    requires OneLines(Texts(before) + DocumentTexts(h, lines) + Texts(after), ends)
    ensures ReadAssignments(Printed(Texts(before) + DocumentTexts(h, lines) + Texts(after), ends)) ==
              Some(map[h.key := value])
    ensures ReadStringArray(value) == Some(es)
  {
    hide StepLine, ReadStringArray, FirstText, OneLines, HeadingOk, Lines, Texts, DocumentTexts;
    var start := Reader(map[], [], None);
    var first, middle, last := Texts(before), DocumentTexts(h, lines), Texts(after);
    value := ArrayOverLinesReadsBack(start, h, lines, es, trailing);
    var done := ReadLines(start, middle).value;
    IdleLines(start, before, middle + last);
    ReadAppend(start, middle, last);
    IdleLines(done, after, []);
    assert last + [] == last && first + middle + last == first + (middle + last);
    PrintedLines(first + middle + last, ends);
  }
}
