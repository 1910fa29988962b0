/** What a command is, said by its parts and not by an automaton: strings, strings with
    escapes, comments and single characters up to a semicolon, or a dot or backslash
    up to the end of its line. The automaton finds exactly these. */
module CommandGrammar {

  import opened Wrappers
  import opened CommandAutomaton

  datatype Piece =
    | Plain(c: char)
    | Str(quote: char, body: string)
    | EscapeStr(letter: char, quote: char, body: string)
    | LineComment(body: string)

  function Text(piece: Piece): (s: string)
    ensures s != ""
  {
    match piece
    case Plain(c) => [c]
    case Str(quote, body) => [quote] + body + [quote]
    case EscapeStr(letter, quote, body) => [letter, quote] + body + [quote]
    case LineComment(body) => "--" + body + "\n"
  }

  function Render(pieces: seq<Piece>): string {
    if pieces == [] then "" else Render(pieces[..|pieces| - 1]) + Text(pieces[|pieces| - 1])
  }

  predicate IsQuote(c: char) {
    c == '\'' || c == '"'
  }

  predicate IsEscapeLetter(c: char) {
    c == 'e' || c == 'E'
  }

  predicate Without(s: string, c: char) {
    forall i | 0 <= i < |s| :: s[i] != c
  }

  /** Each unit is a character other than quote and backslash, or a backslash with
      any character after it. */
  predicate IsEscapedBody(quote: char, body: string) {
    || body == ""
    || (body[0] != quote && body[0] != '\\' && IsEscapedBody(quote, body[1..]))
    || (body[0] == '\\' && |body| >= 2 && IsEscapedBody(quote, body[2..]))
  }

  predicate EndsInDash(s: string) {
    s != "" && s[|s| - 1] == '-'
  }

  /** The text ends in a letter E that begins a word. */
  predicate EndsInEscapeLetter(s: string) {
    s != "" && IsEscapeLetter(s[|s| - 1]) && BoundaryAt(s, |s| - 1)
  }

  /** Whether a piece is read as such after the text before it. */
  predicate MayFollow(before: string, piece: Piece) {
    match piece
    case Plain(c) =>
      && c != ';' && !IsQuote(c)
      && (c == '-' ==> !EndsInDash(before))
      && (c == '.' || c == '\\' ==> !AllBlank(before, |before|))
    case Str(quote, body) => IsQuote(quote) && Without(body, quote) && !EndsInEscapeLetter(before)
    case EscapeStr(letter, quote, body) =>
      IsEscapeLetter(letter) && IsQuote(quote) && IsEscapedBody(quote, body) && BoundaryAt(before, |before|)
    case LineComment(body) => Without(body, '\n') && !EndsInDash(before)
  }

  predicate WellFormed(pieces: seq<Piece>) {
    pieces == []
    || (WellFormed(pieces[..|pieces| - 1]) && MayFollow(Render(pieces[..|pieces| - 1]), pieces[|pieces| - 1]))
  }

  ghost predicate IsSqlCommand(s: string) {
    exists pieces :: WellFormed(pieces) && s == Render(pieces) + ";"
  }

  /** Blanks, then a dot or backslash and the rest of its line. */
  predicate IsDotCommandAt(s: string, f: nat) {
    && f + 1 < |s| && AllBlank(s, f) && (s[f] == '.' || s[f] == '\\')
    && s[|s| - 1] == '\n' && forall i | f <= i < |s| - 1 :: s[i] != '\n'
  }

  ghost predicate IsCommand(s: string) {
    IsSqlCommand(s) || exists f :: IsDotCommandAt(s, f)
  }

  // ---------- The automaton on a text put together ----------

  function Through(q: Scan, s: string): Scan
    decreases |s|
  {
    if s == "" then q else Through(Step(q, s[0]), s[1..])
  }

  lemma ThroughTwo(q: Scan, a: char, b: char)
    ensures Through(q, [a]) == Step(q, a)
    ensures Through(q, [a, b]) == Step(Step(q, a), b)
  {
    assert [a][1..] == "" && [b][1..] == "" && [a, b][1..] == [b];
    assert Through(Step(q, a), [b]) == Step(Step(q, a), b);
  }

  lemma {:induction false} StateOfPrefix(a: string, b: string, p: nat)
    requires p <= |a|
    ensures StateAt(a + b, p) == StateAt(a, p)
  {
    if p > 0 {
      StateOfPrefix(a, b, p - 1);
    }
  }

  lemma OneStep(a: string, c: char)
    ensures StateAt(a + [c], |a| + 1) == Step(StateAt(a, |a|), c)
  {
    StateOfPrefix(a, [c], |a|);
  }

  lemma {:induction false} StateThrough(a: string, b: string)
    ensures StateAt(a + b, |a| + |b|) == Through(StateAt(a, |a|), b)
    decreases |b|
  {
    if b == "" {
      assert a + b == a;
    } else {
      OneStep(a, b[0]);
      StateThrough(a + [b[0]], b[1..]);
      assert a + [b[0]] + b[1..] == a + b;
    }
  }

  lemma {:induction false} ThroughBoth(q: Scan, a: string, b: string)
    ensures Through(q, a + b) == Through(Through(q, a), b)
    decreases |a|
  {
    if a == "" {
      assert a + b == b;
    } else {
      ThroughBoth(Step(q, a[0]), a[1..], b);
      assert (a + b)[1..] == a[1..] + b;
    }
  }

  lemma {:induction false} ThroughBody(quote: char, body: string)
    requires Without(body, quote)
    ensures Through(Quoted(quote, false, false), body) == Quoted(quote, false, false)
  {
    if body != "" {
      ThroughBody(quote, body[1..]);
    }
  }

  lemma {:induction false} ThroughEscapedBody(quote: char, body: string)
    requires IsEscapedBody(quote, body) && quote != '\\'
    ensures Through(Quoted(quote, true, false), body) == Quoted(quote, true, false)
  {
    if body != "" {
      if body[0] == '\\' {
        ThroughEscapedBody(quote, body[2..]);
        assert body[1..][1..] == body[2..];
        assert Through(Quoted(quote, true, true), body[1..]) == Through(Quoted(quote, true, false), body[2..]);
      } else {
        ThroughEscapedBody(quote, body[1..]);
      }
    }
  }

  lemma {:induction false} ThroughLine(q: Scan, body: string)
    requires (q.Comment? || q.Command?) && Without(body, '\n')
    ensures Through(q, body) == q
  {
    if body != "" {
      ThroughLine(q, body[1..]);
    }
  }

  // ---------- Pieces one after another ----------

  function PendingAfter(s: string): Pending {
    if EndsInDash(s) then Dash else if EndsInEscapeLetter(s) then EscapeLetter else Nothing
  }

  /** The automaton between two pieces, as a function of the text before it. */
  function Between(s: string): Scan {
    Sql(AllBlank(s, |s|), BoundaryAt(s, |s|), PendingAfter(s))
  }

  lemma BlankOneMore(s: string, c: char)
    ensures AllBlank(s + [c], |s| + 1) <==> AllBlank(s, |s|) && IsBlank(c)
  {
    var t := s + [c];
    assert t[|s|] == c && forall i | 0 <= i < |s| :: t[i] == s[i];
  }

  lemma PlainPasses(before: string, c: char)
    requires MayFollow(before, Plain(c))
    ensures Step(Between(before), c) == Between(before + [c])
  {
    var s := before + [c];
    BlankOneMore(before, c);
    assert BoundaryAt(s, |s| - 1) == BoundaryAt(before, |before|);
  }

  /** After a piece of several characters nothing is pending. */
  lemma EndsPiece(before: string, piece: Piece)
    requires !piece.Plain? && MayFollow(before, piece)
    ensures Between(before + Text(piece)) == Sql(false, true, Nothing)
  {
    var s := before + Text(piece);
    assert s[|before|] == Text(piece)[0] && !IsBlank(Text(piece)[0]);
    assert s[|s| - 1] == Text(piece)[|Text(piece)| - 1];
  }

  lemma StrPasses(q: Scan, quote: char, body: string)
    requires q.Sql? && !q.pending.EscapeLetter? && IsQuote(quote) && Without(body, quote)
    ensures Through(q, Text(Str(quote, body))) == Sql(false, true, Nothing)
  {
    ThroughBoth(q, [quote] + body, [quote]);
    ThroughBoth(q, [quote], body);
    ThroughBody(quote, body);
  }

  lemma EscapeStrPasses(q: Scan, letter: char, quote: char, body: string)
    requires q.Sql? && q.boundary && !q.pending.EscapeLetter?
    requires IsEscapeLetter(letter) && IsQuote(quote) && IsEscapedBody(quote, body)
    requires q.pending.Dash? ==> !q.blank
    ensures Through(q, Text(EscapeStr(letter, quote, body))) == Sql(false, true, Nothing)
  {
    ThroughBoth(q, [letter, quote] + body, [quote]);
    ThroughBoth(q, [letter, quote], body);
    ThroughTwo(q, letter, quote);
    ThroughEscapedBody(quote, body);
  }

  lemma LineCommentPasses(q: Scan, body: string)
    requires q.Sql? && !q.pending.Dash? && Without(body, '\n')
    ensures Through(q, Text(LineComment(body))) == Sql(false, true, Nothing)
  {
    ThroughBoth(q, "--" + body, "\n");
    ThroughBoth(q, "--", body);
    ThroughTwo(q, '-', '-');
    assert "--" == ['-', '-'];
    ThroughLine(Comment, body);
  }

  lemma PiecePasses(before: string, piece: Piece)
    requires MayFollow(before, piece)
    ensures Through(Between(before), Text(piece)) == Between(before + Text(piece))
  {
    match piece
    case Plain(c) => PlainPasses(before, c);
    case Str(quote, body) =>
      EndsPiece(before, piece);
      StrPasses(Between(before), quote, body);
    case EscapeStr(letter, quote, body) =>
      EndsPiece(before, piece);
      EscapeStrPasses(Between(before), letter, quote, body);
    case LineComment(body) =>
      EndsPiece(before, piece);
      LineCommentPasses(Between(before), body);
  }

  lemma OnePieceMore(before: string, piece: Piece)
    requires MayFollow(before, piece) && StateAt(before, |before|) == Between(before)
    ensures StateAt(before + Text(piece), |before + Text(piece)|) == Between(before + Text(piece))
  {
    PiecePasses(before, piece);
    StateThrough(before, Text(piece));
  }

  lemma {:induction false} PiecesPass(pieces: seq<Piece>)
    requires WellFormed(pieces)
    ensures StateAt(Render(pieces), |Render(pieces)|) == Between(Render(pieces))
  {
    if pieces != [] {
      PiecesPass(pieces[..|pieces| - 1]);
      OnePieceMore(Render(pieces[..|pieces| - 1]), pieces[|pieces| - 1]);
    }
  }

  // ---------- Every command is found ----------

  lemma EndsWhereDone(s: string, c: char, rest: string)
    requires !StateAt(s, |s|).Done() && Step(StateAt(s, |s|), c).Done()
    ensures EndOfCommand(s + [c] + rest) == Some(|s| + 1)
  {
    OneStep(s, c);
    StateOfPrefix(s, [c], |s|);
    StateOfPrefix(s + [c], rest, |s|);
    StateOfPrefix(s + [c], rest, |s| + 1);
    EndIsFirstDone(s + [c] + rest, |s| + 1);
  }

  lemma SqlCommandEnds(pieces: seq<Piece>, rest: string)
    requires WellFormed(pieces)
    ensures EndOfCommand(Render(pieces) + ";" + rest) == Some(|Render(pieces)| + 1)
  {
    var s := Render(pieces);
    PiecesPass(pieces);
    assert Step(Between(s), ';') == SqlDone;
    EndsWhereDone(s, ';', rest);
  }

  lemma DotCommandEnds(s: string, f: nat, rest: string)
    requires IsDotCommandAt(s, f)
    ensures EndOfCommand(s + rest) == Some(|s|)
  {
    var n := |s| - 1;
    SkipSql(s, 0, f);
    assert StateAt(s, f + 1) == Command;
    SkipToNewline(s, f + 1, n);
    assert s == s[..n] + ['\n'];
    StateOfPrefix(s[..n], ['\n'], n);
    EndsWhereDone(s[..n], '\n', rest);
  }

  // ---------- Nothing else is found ----------

  /** What has begun and is not yet complete. */
  datatype Open = InSql | InStr(quote: char, body: string)
    | InEscapeStr(letter: char, quote: char, body: string, escaped: bool) | InLineComment(body: string)

  function OpenText(open: Open): string {
    match open
    case InSql => ""
    case InStr(quote, body) => [quote] + body
    case InEscapeStr(letter, quote, body, escaped) => [letter, quote] + body + if escaped then "\\" else ""
    case InLineComment(body) => "--" + body
  }

  /** What has begun is read as such after the text before it, and the automaton
      knows what it is in. */
  predicate Fits(before: string, open: Open, q: Scan) {
    match open
    case InSql => q == Between(before)
    case InStr(quote, body) => q == Quoted(quote, false, false) && MayFollow(before, Str(quote, body))
    case InEscapeStr(letter, quote, body, escaped) =>
      q == Quoted(quote, true, escaped) && MayFollow(before, EscapeStr(letter, quote, body))
    case InLineComment(body) => q == Comment && MayFollow(before, LineComment(body))
  }

  ghost predicate IsParse(s: string, q: Scan, pieces: seq<Piece>, open: Open) {
    WellFormed(pieces) && s == Render(pieces) + OpenText(open) && Fits(Render(pieces), open, q)
  }

  lemma {:induction false} EscapedBodies(quote: char, a: string, b: string)
    requires IsEscapedBody(quote, a) && IsEscapedBody(quote, b)
    ensures IsEscapedBody(quote, a + b)
  {
    if a == "" {
      assert a + b == b;
    } else if a[0] == '\\' {
      EscapedBodies(quote, a[2..], b);
      assert (a + b)[2..] == a[2..] + b;
    } else {
      EscapedBodies(quote, a[1..], b);
      assert (a + b)[1..] == a[1..] + b;
    }
  }

  lemma AddPiece(pieces: seq<Piece>, piece: Piece)
    requires WellFormed(pieces) && MayFollow(Render(pieces), piece)
    ensures WellFormed(pieces + [piece]) && Render(pieces + [piece]) == Render(pieces) + Text(piece)
  {
    assert (pieces + [piece])[..|pieces|] == pieces;
  }

  /** A text of pieces that ends in a dash or a letter ends in that very piece. */
  lemma LastIsPlain(pieces: seq<Piece>, c: char) returns (before: seq<Piece>)
    requires WellFormed(pieces) && Render(pieces) != ""
    requires c == Render(pieces)[|Render(pieces)| - 1] && !IsQuote(c) && c != '\n'
    ensures WellFormed(before) && MayFollow(Render(before), Plain(c))
    ensures Render(pieces) == Render(before) + [c]
  {
    before := pieces[..|pieces| - 1];
    var last := pieces[|pieces| - 1];
    assert Text(last)[|Text(last)| - 1] == c;
  }

  /** The character belongs to the last piece, which goes on. */
  lemma GoesOn(s: string, pieces: seq<Piece>, opening: string, next: Open, q: Scan, c: char)
    requires WellFormed(pieces) && s == Render(pieces) + opening
    requires OpenText(next) == opening + [c] && Fits(Render(pieces), next, q)
    ensures IsParse(s + [c], q, pieces, next)
  {
    assert s + [c] == Render(pieces) + OpenText(next);
  }

  lemma CommentBegins(pieces: seq<Piece>, s: string) returns (before: seq<Piece>)
    requires WellFormed(pieces) && s == Render(pieces) && EndsInDash(s)
    ensures IsParse(s + ['-'], Comment, before, InLineComment(""))
  {
    before := LastIsPlain(pieces, '-');
    assert "--" + "" == ['-'] + ['-'];
    GoesOn(s, before, ['-'], InLineComment(""), Comment, '-');
  }

  lemma EscapeStrBegins(pieces: seq<Piece>, s: string, quote: char) returns (before: seq<Piece>)
    requires WellFormed(pieces) && s == Render(pieces) && EndsInEscapeLetter(s) && IsQuote(quote)
    ensures IsParse(s + [quote], Quoted(quote, true, false), before, InEscapeStr(s[|s| - 1], quote, "", false))
  {
    var letter := s[|s| - 1];
    before := LastIsPlain(pieces, letter);
    BoundaryBefore(Render(before), letter);
    assert [letter, quote] + "" + "" == [letter] + [quote];
    GoesOn(s, before, [letter], InEscapeStr(letter, quote, "", false), Quoted(quote, true, false), quote);
  }

  lemma BoundaryBefore(s: string, c: char)
    ensures BoundaryAt(s + [c], |s|) == BoundaryAt(s, |s|)
  {
  }

  lemma PlainAdds(pieces: seq<Piece>, s: string, c: char)
    requires WellFormed(pieces) && s == Render(pieces) && MayFollow(s, Plain(c))
    ensures IsParse(s + [c], Step(Between(s), c), pieces + [Plain(c)], InSql)
  {
    PlainPasses(s, c);
    AddPiece(pieces, Plain(c));
    assert s + [c] == Render(pieces + [Plain(c)]) + "";
  }

  /** One character more in the text between pieces. */
  lemma ParseSql(s: string, q: Scan, pieces: seq<Piece>, c: char) returns (more: seq<Piece>, open: Open)
    requires IsParse(s, q, pieces, InSql) && !Step(q, c).Done() && !Step(q, c).Command?
    ensures IsParse(s + [c], Step(q, c), more, open)
  {
    assert s == Render(pieces) && q == Between(s);
    if EndsInDash(s) && c == '-' {
      more := CommentBegins(pieces, s);
      open := InLineComment("");
    } else if EndsInEscapeLetter(s) && IsQuote(c) {
      more := EscapeStrBegins(pieces, s, c);
      open := InEscapeStr(s[|s| - 1], c, "", false);
    } else if IsQuote(c) {
      more, open := pieces, InStr(c, "");
    } else {
      assert MayFollow(s, Plain(c));
      PlainAdds(pieces, s, c);
      more, open := pieces + [Plain(c)], InSql;
    }
  }

  /** The character completes the last piece. */
  lemma ClosesPiece(s: string, pieces: seq<Piece>, piece: Piece, opening: string, c: char)
    requires WellFormed(pieces) && MayFollow(Render(pieces), piece) && !piece.Plain?
    requires s == Render(pieces) + opening && Text(piece) == opening + [c]
    ensures IsParse(s + [c], Sql(false, true, Nothing), pieces + [piece], InSql)
  {
    AddPiece(pieces, piece);
    EndsPiece(Render(pieces), piece);
    assert s + [c] == Render(pieces + [piece]) + "";
  }

  lemma ParseStr(s: string, q: Scan, pieces: seq<Piece>, open: Open, c: char) returns (more: seq<Piece>, next: Open)
    requires open.InStr? && IsParse(s, q, pieces, open)
    ensures IsParse(s + [c], Step(q, c), more, next)
  {
    var quote, body := open.quote, open.body;
    if c == quote {
      ClosesPiece(s, pieces, Str(quote, body), [quote] + body, c);
      more, next := pieces + [Str(quote, body)], InSql;
    } else {
      more, next := pieces, InStr(quote, body + [c]);
      assert [quote] + (body + [c]) == [quote] + body + [c];
      GoesOn(s, pieces, [quote] + body, next, q, c);
    }
  }

  lemma ParseEscapeStr(s: string, q: Scan, pieces: seq<Piece>, open: Open, c: char) returns (more: seq<Piece>, next: Open)
    requires open.InEscapeStr? && IsParse(s, q, pieces, open)
    ensures IsParse(s + [c], Step(q, c), more, next)
  {
    var letter, quote, body, escaped := open.letter, open.quote, open.body, open.escaped;
    if !escaped && c == quote {
      var piece := EscapeStr(letter, quote, body);
      assert OpenText(open) == [letter, quote] + body;
      ClosesPiece(s, pieces, piece, OpenText(open), c);
      more, next := pieces + [piece], InSql;
    } else {
      next := EscapeStrGoesOn(letter, quote, body, escaped, c);
      more := pieces;
      GoesOn(s, pieces, OpenText(open), next, Step(q, c), c);
    }
  }

  lemma EscapeStrGoesOn(letter: char, quote: char, body: string, escaped: bool, c: char) returns (next: Open)
    requires IsEscapedBody(quote, body) && (escaped || c != quote)
    ensures next.InEscapeStr? && next.letter == letter && next.quote == quote && IsEscapedBody(quote, next.body)
    ensures next.escaped <==> !escaped && c == '\\'
    ensures OpenText(next) == OpenText(InEscapeStr(letter, quote, body, escaped)) + [c]
  {
    if !escaped && c == '\\' {
      next := InEscapeStr(letter, quote, body, true);
    } else {
      var unit := if escaped then ['\\', c] else [c];
      assert unit[1..] == if escaped then [c] else "";
      assert escaped ==> unit[2..] == "";
      EscapedBodies(quote, body, unit);
      next := InEscapeStr(letter, quote, body + unit, false);
    }
  }

  lemma ParseLineComment(s: string, q: Scan, pieces: seq<Piece>, open: Open, c: char) returns (more: seq<Piece>, next: Open)
    requires open.InLineComment? && IsParse(s, q, pieces, open)
    ensures IsParse(s + [c], Step(q, c), more, next)
  {
    var body := open.body;
    if c == '\n' {
      ClosesPiece(s, pieces, LineComment(body), "--" + body, c);
      more, next := pieces + [LineComment(body)], InSql;
    } else {
      more, next := pieces, InLineComment(body + [c]);
      assert "--" + (body + [c]) == "--" + body + [c];
      GoesOn(s, pieces, "--" + body, next, q, c);
    }
  }

  lemma StaysDone(q: Scan, c: char)
    ensures q.Done() || q.Command? ==> Step(q, c).Done() || Step(q, c).Command?
  {
  }

  /** Until a command is complete, or a dot or backslash has begun one, the text
      is made of pieces, of which the last may be incomplete. */
  lemma {:induction false} Parse(text: string, p: nat, q: Scan) returns (pieces: seq<Piece>, open: Open)
    requires p <= |text| && q == StateAt(text, p) && !q.Done() && !q.Command?
    ensures IsParse(text[..p], q, pieces, open)
    decreases p
  {
    if p == 0 {
      pieces, open := [], InSql;
      ParseNothing(text[..p]);
    } else {
      var before := StateBefore(text, p, q);
      pieces, open := Parse(text, p - 1, before);
      pieces, open := ParseOneMore(text[..p - 1], before, pieces, open, text[p - 1], text[..p], q);
    }
  }

  lemma StateBefore(text: string, p: nat, q: Scan) returns (before: Scan)
    requires 0 < p <= |text| && q == StateAt(text, p) && !q.Done() && !q.Command?
    ensures before == StateAt(text, p - 1) && q == Step(before, text[p - 1]) && !before.Done() && !before.Command?
    ensures text[..p] == text[..p - 1] + [text[p - 1]]
  {
    before := StateAt(text, p - 1);
    StaysDone(before, text[p - 1]);
  }

  lemma ParseNothing(s: string)
    requires s == ""
    ensures IsParse(s, START, [], InSql)
  {
  }

  lemma ParseOneMore(s: string, q: Scan, pieces: seq<Piece>, open: Open, c: char, longer: string, after: Scan)
    returns (more: seq<Piece>, next: Open)
    requires IsParse(s, q, pieces, open) && longer == s + [c] && after == Step(q, c) && !after.Done() && !after.Command?
    ensures IsParse(longer, after, more, next)
  {
    match open
    case InSql => more, next := ParseSql(s, q, pieces, c);
    case InStr(_, _) => more, next := ParseStr(s, q, pieces, open, c);
    case InEscapeStr(_, _, _, _) => more, next := ParseEscapeStr(s, q, pieces, open, c);
    case InLineComment(_) => more, next := ParseLineComment(s, q, pieces, open, c);
  }

  lemma CommandAfterBlanks(before: string, open: Open, q: Scan, c: char)
    requires Fits(before, open, q) && Step(q, c).Command?
    ensures open.InSql? && AllBlank(before, |before|) && (c == '.' || c == '\\')
  {
  }

  /** A dot or backslash that has begun a command has nothing but blanks before it
      and no newline after it. */
  lemma {:induction false} DotCommandBegins(text: string, p: nat) returns (f: nat)
    requires p <= |text| && StateAt(text, p).Command?
    ensures f < p && AllBlank(text, f) && (text[f] == '.' || text[f] == '\\')
    ensures forall i | f <= i < p :: text[i] != '\n'
  {
    if StateAt(text, p - 1).Command? {
      f := DotCommandBegins(text, p - 1);
    } else {
      f := p - 1;
      var pieces, open := Parse(text, p - 1, StateAt(text, p - 1));
      CommandAfterBlanks(Render(pieces), open, StateAt(text, f), text[f]);
      assert text[..f] == Render(pieces);
      assert forall i | 0 <= i < f :: text[..f][i] == text[i];
    }
  }

  /** The automaton finds the end of a command exactly where the text so far is
      one: pieces up to a semicolon, or a dot or backslash and its line. */
  lemma EndIffCommand(text: string, k: nat)
    ensures EndOfCommand(text) == Some(k) <==> k <= |text| && IsCommand(text[..k])
  {
    if k <= |text| && IsCommand(text[..k]) {
      CommandEnds(text, k);
    }
    if EndOfCommand(text) == Some(k) {
      EndIsCommand(text, k);
    }
  }

  lemma CommandEnds(text: string, k: nat)
    requires k <= |text| && IsCommand(text[..k])
    ensures EndOfCommand(text) == Some(k)
  {
    assert text == text[..k] + text[k..];
    if IsSqlCommand(text[..k]) {
      var pieces :| WellFormed(pieces) && text[..k] == Render(pieces) + ";";
      SqlCommandEnds(pieces, text[k..]);
    } else {
      var f :| IsDotCommandAt(text[..k], f);
      DotCommandEnds(text[..k], f, text[k..]);
    }
  }

  lemma EndIsCommand(text: string, k: nat)
    requires EndOfCommand(text) == Some(k)
    ensures k <= |text| && IsCommand(text[..k])
  {
    NotDoneBefore(text, 0);
    var q, c := StateAt(text, k - 1), text[k - 1];
    assert text[..k] == text[..k - 1] + [c];
    if q.Command? {
      var f := DotCommandBegins(text, k - 1);
      assert IsDotCommandAt(text[..k], f);
    } else {
      var pieces, open := Parse(text, k - 1, q);
      PiecesEnd(text[..k - 1], q, pieces, open, c);
    }
  }

  lemma PiecesEnd(s: string, q: Scan, pieces: seq<Piece>, open: Open, c: char)
    requires IsParse(s, q, pieces, open) && Step(q, c).Done()
    ensures IsSqlCommand(s + [c])
  {
    assert open.InSql? && c == ';';
    assert s + [c] == Render(pieces) + ";";
  }

  // ---------- Strings and comments hide a semicolon ----------

  /** In a string with escapes neither a semicolon nor an escaped quote ends anything. */
  lemma EscapeStringEnds(letter: char, quote: char, body: string)
    requires IsEscapeLetter(letter) && IsQuote(quote) && IsEscapedBody(quote, body)
    ensures EndOfCommand([letter, quote] + body + [quote] + ";") == Some(|body| + 4)
  {
    OnePieceEnds(EscapeStr(letter, quote, body));
  }

  lemma StringEnds(quote: char, body: string)
    requires IsQuote(quote) && Without(body, quote)
    ensures EndOfCommand([quote] + body + [quote] + ";") == Some(|body| + 3)
  {
    OnePieceEnds(Str(quote, body));
  }

  lemma LineCommentEnds(body: string)
    requires Without(body, '\n')
    ensures EndOfCommand("--" + body + "\n;") == Some(|body| + 4)
  {
    OnePieceEnds(LineComment(body));
    assert "--" + body + "\n;" == Text(LineComment(body)) + ";";
  }

  lemma OnePieceEnds(piece: Piece)
    requires MayFollow("", piece)
    ensures EndOfCommand(Text(piece) + ";") == Some(|Text(piece)| + 1)
  {
    AddPiece([], piece);
    assert [] + [piece] == [piece] && Render([]) + Text(piece) == Text(piece);
    SqlCommandEnds([piece], "");
    assert Text(piece) + ";" + "" == Text(piece) + ";";
  }

  /** A string with an escaped quote and a semicolon in it is one command. */
  lemma EscapedQuoteExample()
    ensures EndOfCommand("E'\\';';") == Some(7)
  {
    var body := ['\\', '\'', ';'];
    assert body[2..] == [';'] && [';'][1..] == "";
    EscapeStringEnds('E', '\'', body);
    assert ['E', '\''] + body + ['\''] + ";" == "E'\\';';";
  }
}
