/** The lossless scanner: tokens and trivia with their spans. In every source without NUL characters the
    spans tile the source, and every line number counts the line breaks before it. */
module Scanner {
  import opened Ascii
  import opened Bits
  import opened Excerpts
  import opened Literals
  import Utf8

  datatype Span = Span(off: nat, len: nat, startLine: nat, startCol: nat, endLine: nat, endCol: nat)

  datatype TriviaKind = Whitespace | Newline | LineComment | BlockComment | DocComment
  datatype Trivia = Trivia(kind: TriviaKind, span: Span)

  // Word is an identifier or a keyword; Punctuation stands for the kinds of one character.
  datatype Kind = Word | Number | Text | Bytes | RawBlock | Punctuation(c: byte) | Arrow | Error | EndOfFile

  // leadingOff, leadingCount and trailingOff, trailingCount are slices of the scanner's trivia.
  datatype Token = Token(kind: Kind, span: Span, lexeme: seq<byte>, leadingOff: nat, leadingCount: nat,
                         trailingOff: nat, trailingCount: nat)

  predicate IsWhitespace(c: byte) { c == SPACE || c == TAB }
  predicate IsDigit(c: byte) { 48 <= c <= 57 }
  predicate IsWordStart(c: byte) { 65 <= c <= 90 || 97 <= c <= 122 || c == 95 }
  predicate IsWordChar(c: byte) { IsWordStart(c) || IsDigit(c) }

  // ( ) { } ] < > : ; , . ? / = @ # ! $ \ ` ~ & | and [ and - where they stand for themselves
  predicate IsPunctuation(c: byte) {
    c in {40, 41, 123, 125, 91, 93, 60, 62, 58, 59, 44, 46, 63, 47, 61, 64, 35, 33, 36, 92, 96, 126, 38, 124, 45}
  }

  // ---------- lines and columns ----------

  // Position p stands between the two halves of a carriage return and newline pair.
  predicate InsideBreak(text: seq<byte>, p: nat) {
    0 < p < |text| && text[p - 1] == RETURN && text[p] == NEWLINE
  }

  // 1 plus the line breaks before p: every carriage return, and every newline that does not follow one.
  function LineOf(text: seq<byte>, p: nat): nat
    requires p <= |text|
  {
    if p == 0 then 1
    else
      LineOf(text, p - 1)
      + if text[p - 1] == RETURN || (text[p - 1] == NEWLINE && !InsideBreak(text, p - 1)) then 1 else 0
  }

  // 1 plus the bytes since the last line break
  function ColumnOf(text: seq<byte>, p: nat): nat
    requires p <= |text|
  {
    if p == 0 || IsNewline(text[p - 1]) then 1 else ColumnOf(text, p - 1) + 1
  }

  lemma CharEndPlace(text: seq<byte>, p: nat)
    requires p < |text| && !InsideBreak(text, p)
    ensures var e := CharEnd(text, p);
            && !InsideBreak(text, e)
            && LineOf(text, e) == LineOf(text, p) + (if IsNewline(text[p]) then 1 else 0)
            && ColumnOf(text, e) == if IsNewline(text[p]) then 1 else ColumnOf(text, p) + 1
  {
    hide LineOf, ColumnOf;
    PlaceStep(text, p);
    if CharEnd(text, p) == p + 2 { PlaceStep(text, p + 1); }
  }

  lemma PlaceStep(text: seq<byte>, p: nat)
    requires p < |text|
    ensures LineOf(text, p + 1) ==
            LineOf(text, p) + if text[p] == RETURN || (text[p] == NEWLINE && !InsideBreak(text, p)) then 1 else 0
    ensures ColumnOf(text, p + 1) == if IsNewline(text[p]) then 1 else ColumnOf(text, p) + 1
  {
  }

  // ---------- tiling ----------

  ghost predicate SpanOk(text: seq<byte>, s: Span) {
    && s.off + s.len <= |text|
    && s.startLine == LineOf(text, s.off) && s.startCol == ColumnOf(text, s.off)
    && s.endLine == LineOf(text, s.off + s.len) && s.endCol == ColumnOf(text, s.off + s.len)
  }

  // The spans follow each other without gap or overlap, from one position to another.
  ghost predicate Tiles(text: seq<byte>, spans: seq<Span>, from: nat, to: nat) {
    if spans == [] then from == to
    else
      var last := spans[|spans| - 1];
      && SpanOk(text, last) && last.off + last.len == to
      && Tiles(text, spans[..|spans| - 1], from, last.off)
  }

  function Spans(trivia: seq<Trivia>): seq<Span> {
    seq(|trivia|, i requires 0 <= i < |trivia| => trivia[i].span)
  }

  lemma TilesOne(text: seq<byte>, spans: seq<Span>, from: nat, s: Span)
    requires Tiles(text, spans, from, s.off) && SpanOk(text, s)
    ensures Tiles(text, spans + [s], from, s.off + s.len)
  {
    assert (spans + [s])[..|spans|] == spans;
  }

  lemma {:induction false} TilesJoin(text: seq<byte>, a: seq<Span>, b: seq<Span>, from: nat, mid: nat, to: nat)
    requires Tiles(text, a, from, mid) && Tiles(text, b, mid, to)
    ensures Tiles(text, a + b, from, to)
  {
    if b == [] {
      assert a + b == a;
    } else {
      var front, last := b[..|b| - 1], b[|b| - 1];
      TilesJoin(text, a, front, from, mid, last.off);
      TilesOne(text, a + front, from, last);
      assert a + front + [last] == a + b;
    }
  }

  lemma TilesMore(text: seq<byte>, trivia: seq<Trivia>, from: nat, entry: Trivia)
    requires Tiles(text, Spans(trivia), from, entry.span.off) && SpanOk(text, entry.span)
    ensures Tiles(text, Spans(trivia + [entry]), from, entry.span.off + entry.span.len)
  {
    hide Tiles, SpanOk;
    TilesOne(text, Spans(trivia), from, entry.span);
    assert Spans(trivia + [entry]) == Spans(trivia) + [entry.span];
  }

  function SlicesOf(text: seq<byte>, spans: seq<Span>): seq<byte>
    requires forall i :: 0 <= i < |spans| ==> spans[i].off + spans[i].len <= |text|
  {
    if spans == [] then []
    else
      var last := spans[|spans| - 1];
      SlicesOf(text, spans[..|spans| - 1]) + text[last.off..last.off + last.len]
  }

  lemma {:induction false} TilesInRange(text: seq<byte>, spans: seq<Span>, from: nat, to: nat)
    requires Tiles(text, spans, from, to) && to <= |text|
    ensures from <= to && forall i :: 0 <= i < |spans| ==> spans[i].off + spans[i].len <= |text|
  {
    if spans != [] {
      TilesInRange(text, spans[..|spans| - 1], from, spans[|spans| - 1].off);
      assert forall i :: 0 <= i < |spans| - 1 ==> spans[..|spans| - 1][i] == spans[i];
    }
  }

  lemma Adjoining<T>(text: seq<T>, i: nat, j: nat, k: nat)
    requires i <= j <= k <= |text|
    ensures text[i..j] + text[j..k] == text[i..k]
  {
  }

  // The text of the spans, put together, is the text they tile.
  lemma {:induction false} TilesGiveText(text: seq<byte>, spans: seq<Span>, from: nat, to: nat)
    requires Tiles(text, spans, from, to) && from <= to <= |text|
    requires forall i :: 0 <= i < |spans| ==> spans[i].off + spans[i].len <= |text|
    ensures SlicesOf(text, spans) == text[from..to]
  {
    hide SpanOk;
    if spans != [] {
      var front, last := spans[..|spans| - 1], spans[|spans| - 1];
      assert last.off + last.len == to;
      TilesInRange(text, front, from, last.off);
      TilesGiveText(text, front, from, last.off);
      Adjoining(text, from, last.off, to);
    }
  }

  // All spans of a token stream, in stream order.
  function Pieces(tokens: seq<Token>, trivia: seq<Trivia>): seq<Span> {
    if tokens == [] then []
    else Pieces(tokens[..|tokens| - 1], trivia) + TokenPieces(tokens[|tokens| - 1], trivia)
  }

  function TokenPieces(t: Token, trivia: seq<Trivia>): seq<Span> {
    if !SlicesIn(t, |trivia|) then []
    else
      Spans(trivia[t.leadingOff..t.leadingOff + t.leadingCount]) + [t.span]
      + Spans(trivia[t.trailingOff..t.trailingOff + t.trailingCount])
  }

  predicate SlicesIn(t: Token, n: nat) {
    t.leadingOff + t.leadingCount <= n && t.trailingOff + t.trailingCount <= n
  }

  // Later trivia do not change the pieces of earlier tokens.
  lemma {:induction false} PiecesStay(tokens: seq<Token>, trivia: seq<Trivia>, more: seq<Trivia>)
    requires trivia <= more && forall i :: 0 <= i < |tokens| ==> SlicesIn(tokens[i], |trivia|)
    ensures Pieces(tokens, more) == Pieces(tokens, trivia)
  {
    if tokens != [] {
      var t := tokens[|tokens| - 1];
      PiecesStay(tokens[..|tokens| - 1], trivia, more);
      assert forall a, b :: 0 <= a <= b <= |trivia| ==> trivia[a..b] == more[a..b];
      assert SlicesIn(t, |trivia|);
    }
  }

  // ---------- what trivia and tokens consist of ----------

  predicate PairAt(text: seq<byte>, p: nat, a: byte, b: byte) {
    p + 1 < |text| && text[p] == a && text[p + 1] == b
  }

  // No NUL, and no end of a block comment, starts in this stretch.
  ghost predicate InsideComment(text: seq<byte>, from: nat, to: nat)
    requires to <= |text|
  {
    forall i :: from <= i < to ==> text[i] != 0 && !PairAt(text, i, STAR, SLASH)
  }

  // The text between two positions is one piece of trivia of this kind: all blanks that stand there, one
  // line break, a comment to the end of its line, or a comment to the first end mark or, without one, to
  // the end of the source.
  ghost predicate Proper(text: seq<byte>, kind: TriviaKind, from: nat, to: nat) {
    && from < to <= |text|
    && match kind
       case Whitespace => (forall i :: from <= i < to ==> IsWhitespace(text[i])) && !IsWhitespace(CharAt(text, to))
       case Newline => IsNewline(text[from]) && to == CharEnd(text, from)
       case LineComment => WholeLine(text, from, to) && CharAt(text, from + 2) != SLASH
       case BlockComment => WholeBlock(text, from, to) && !IsDocBlock(text, from)
       case DocComment =>
         || (WholeLine(text, from, to) && CharAt(text, from + 2) == SLASH)
         || (WholeBlock(text, from, to) && IsDocBlock(text, from))
  }

  predicate IsDocBlock(text: seq<byte>, from: nat) {
    CharAt(text, from + 2) == STAR && CharAt(text, from + 3) != SLASH
  }

  ghost predicate WholeLine(text: seq<byte>, from: nat, to: nat)
    requires to <= |text|
  {
    && PairAt(text, from, SLASH, SLASH) && from + 2 <= to
    && (forall i :: from + 2 <= i < to ==> text[i] != 0 && !IsNewline(text[i]))
    && (CharAt(text, to) == 0 || IsNewline(CharAt(text, to)))
  }

  ghost predicate WholeBlock(text: seq<byte>, from: nat, to: nat)
    requires to <= |text|
  {
    && PairAt(text, from, SLASH, STAR) && from + 2 <= to
    && ((from + 4 <= to && PairAt(text, to - 2, STAR, SLASH) && InsideComment(text, from + 2, to - 2))
        || (CharAt(text, to) == 0 && InsideComment(text, from + 2, to)))
  }

  ghost predicate AllProper(text: seq<byte>, trivia: seq<Trivia>, mark: nat) {
    forall i :: mark <= i < |trivia| ==>
      Proper(text, trivia[i].kind, trivia[i].span.off, trivia[i].span.off + trivia[i].span.len)
  }

  // A number goes on with word characters, dots, and a minus sign after an exponent mark.
  predicate NumberChar(text: seq<byte>, p: nat) {
    var c := CharAt(text, p);
    IsWordChar(c) || c == DOT || (c == MINUS && 0 < p <= |text| && (text[p - 1] == 101 || text[p - 1] == 69))
  }

  // ]=...=] with this many equals signs
  predicate ClosesAt(text: seq<byte>, p: nat, level: nat) {
    && p + level + 1 < |text| && text[p] == CLOSE_BRACKET && text[p + level + 1] == CLOSE_BRACKET
    && forall i :: p < i <= p + level ==> text[i] == EQUALS
  }

  // The token that a bracket before pos opens: a raw block up to the first mark that closes it, an error if
  // none does, or the bracket itself.
  ghost predicate BracketToken(text: seq<byte>, pos: nat, kind: Kind, lexeme: seq<byte>, end: nat) {
    exists level: nat :: BracketOf(text, pos, level, kind, lexeme, end)
  }

  ghost predicate BracketOf(text: seq<byte>, pos: nat, level: nat, kind: Kind, lexeme: seq<byte>, end: nat) {
    var content := pos + level + 1;
    && (forall i :: pos <= i < pos + level ==> CharAt(text, i) == EQUALS)
    && if CharAt(text, pos + level) != OPEN_BRACKET then
         CharAt(text, pos + level) != EQUALS && kind == Punctuation(OPEN_BRACKET) && lexeme == [] && end == pos
       else if kind == RawBlock then
         && content + level + 2 <= end <= |text|
         && var close := end - level - 2;
            ClosesAt(text, close, level) && lexeme == text[content..close] && NotClosed(text, content, close, level)
       else kind == Error && content <= end <= |text| && CharAt(text, end) == 0 && NotClosed(text, content, end, level)
  }

  lemma ClosingPlain(text: seq<byte>, p: nat, level: nat)
    requires ClosesAt(text, p, level)
    ensures p + level + 2 <= |text| && forall i :: p <= i < p + level + 2 ==> !IsNewline(text[i])
  {
  }

  ghost predicate NotClosed(text: seq<byte>, from: nat, to: nat, level: nat)
    requires to <= |text|
  {
    forall i :: from <= i < to ==> text[i] != 0 && !ClosesAt(text, i, level)
  }

  // ---------- the scanner ----------

  class Scanner {
    const source: seq<byte>
    var pos: nat
    var line: nat
    var col: nat
    var trivia: seq<Trivia>

    ghost predicate Valid()
      reads this
    {
      && pos <= |source| && !InsideBreak(source, pos)
      && line == LineOf(source, pos) && col == ColumnOf(source, pos)
    }

    constructor (source: seq<byte>)
      ensures Valid() && this.source == source && pos == 0 && trivia == []
    {
      this.source, pos, line, col, trivia := source, 0, 1, 1, [];
    }

    function PeekAt(offset: nat): byte
      reads this
    {
      CharAt(source, pos + offset)
    }

    method Advance()
      requires Valid()
      modifies this`pos, this`line, this`col
      ensures Valid() && pos == if old(pos) < |source| then CharEnd(source, old(pos)) else old(pos)
    {
      if pos >= |source| {
        return;
      }
      CharEndPlace(source, pos);
      var c := source[pos];
      if c == NEWLINE {
        line, col, pos := line + 1, 1, pos + 1;
      } else if c == RETURN {
        line, col, pos := line + 1, 1, pos + 1;
        if pos < |source| && source[pos] == NEWLINE {
          pos := pos + 1;
        }
      } else {
        col, pos := col + 1, pos + 1;
      }
    }

    function SpanFrom(start: nat, startLine: nat, startCol: nat): Span
      reads this
      requires start <= pos
    {
      Span(start, pos - start, startLine, startCol, line, col)
    }

    // From position start the trivia from index mark on cover what was skipped, and are what they say.
    ghost predicate Skipped(mark: nat, start: nat)
      reads this
    {
      mark <= |trivia| && Tiles(source, Spans(trivia[mark..]), start, pos) && AllProper(source, trivia, mark)
    }

    // The one entry that was added covers the text from start to the scanner's position.
    twostate predicate Added(kind: TriviaKind, start: nat)
      reads this
    {
      && |trivia| == |old(trivia)| + 1 && old(trivia) <= trivia
      && var last := trivia[|trivia| - 1];
         last.kind == kind && last.span.off == start && last.span.off + last.span.len == pos
    }

    ghost predicate StartedAt(start: nat, startLine: nat, startCol: nat)
      reads this
    {
      start <= pos && start <= |source| && startLine == LineOf(source, start) && startCol == ColumnOf(source, start)
    }

    method PushTrivia(kind: TriviaKind, start: nat, startLine: nat, startCol: nat, ghost mark: nat, ghost from: nat)
      requires Valid() && StartedAt(start, startLine, startCol)
      requires mark <= |trivia| && Tiles(source, Spans(trivia[mark..]), from, start)
      requires AllProper(source, trivia, mark) && Proper(source, kind, start, pos)
      modifies this`trivia
      ensures trivia == old(trivia) + [Trivia(kind, SpanFrom(start, startLine, startCol))] && Skipped(mark, from)
    {
      hide Tiles, LineOf, ColumnOf, Proper;
      ghost var before := trivia[mark..];
      var entry := Trivia(kind, SpanFrom(start, startLine, startCol));
      TilesMore(source, before, from, entry);
      trivia := trivia + [entry];
      assert trivia[mark..] == before + [entry];
    }

    method SkipWhitespace(ghost mark: nat, ghost from: nat)
      requires Valid() && Skipped(mark, from)
      modifies this
      ensures Valid() && Skipped(mark, from) && old(trivia) <= trivia && old(pos) <= pos
      ensures !IsWhitespace(PeekAt(0))
      ensures if pos > old(pos) then Added(Whitespace, old(pos)) else trivia == old(trivia)
    {
      var start, startLine, startCol := pos, line, col;
      while IsWhitespace(PeekAt(0))
        invariant Valid() && start <= pos && forall i :: start <= i < pos ==> IsWhitespace(source[i])
        modifies this`pos, this`line, this`col
        decreases |source| - pos
      {
        Advance();
      }
      if pos > start {
        PushTrivia(Whitespace, start, startLine, startCol, mark, from);
      }
    }

    method SkipNewline(ghost mark: nat, ghost from: nat) returns (skipped: bool)
      requires Valid() && Skipped(mark, from)
      modifies this
      ensures Valid() && Skipped(mark, from) && old(trivia) <= trivia && old(pos) <= pos
      ensures skipped <==> IsNewline(old(PeekAt(0)))
      ensures if skipped then pos > old(pos) && Added(Newline, old(pos)) else pos == old(pos) && trivia == old(trivia)
    {
      if !IsNewline(PeekAt(0)) {
        return false;
      }
      var start, startLine, startCol := pos, line, col;
      Advance();
      PushTrivia(Newline, start, startLine, startCol, mark, from);
      return true;
    }

    // On to the next line break or the end.
    method ToLineEnd()
      requires Valid()
      modifies this`pos, this`line, this`col
      ensures Valid() && pos >= old(pos) && (PeekAt(0) == 0 || IsNewline(PeekAt(0)))
      ensures forall i :: old(pos) <= i < pos ==> source[i] != 0 && !IsNewline(source[i])
    {
      hide LineOf, ColumnOf;
      while PeekAt(0) != 0 && !IsNewline(PeekAt(0))
        invariant Valid() && old(pos) <= pos
        invariant forall i :: old(pos) <= i < pos ==> source[i] != 0 && !IsNewline(source[i])
        decreases |source| - pos
      {
        Advance();
      }
    }

    // On to the first end mark and over it, or to the end.
    method ToBlockEnd()
      requires Valid()
      modifies this`pos, this`line, this`col
      ensures Valid() && pos >= old(pos)
      ensures (old(pos) + 2 <= pos && PairAt(source, pos - 2, STAR, SLASH) && InsideComment(source, old(pos), pos - 2))
              || (PeekAt(0) == 0 && InsideComment(source, old(pos), pos))
    {
      hide LineOf, ColumnOf;
      while PeekAt(0) != 0
        invariant Valid() && old(pos) <= pos && InsideComment(source, old(pos), pos)
        decreases |source| - pos
      {
        if PeekAt(0) == STAR && PeekAt(1) == SLASH {
          Advance();
          Advance();
          return;
        }
        Advance();
      }
    }

    method SkipLineComment(ghost mark: nat, ghost from: nat) returns (skipped: bool)
      requires Valid() && Skipped(mark, from)
      modifies this
      ensures Valid() && Skipped(mark, from) && old(trivia) <= trivia && old(pos) <= pos
      ensures skipped <==> old(PeekAt(0)) == SLASH == old(PeekAt(1))
      ensures if skipped
              then pos > old(pos) && Added(if old(PeekAt(2)) == SLASH then DocComment else LineComment, old(pos))
              else pos == old(pos) && trivia == old(trivia)
    {
      hide LineOf, ColumnOf, Tiles, AllProper;
      if PeekAt(0) != SLASH || PeekAt(1) != SLASH {
        return false;
      }
      var start, startLine, startCol := pos, line, col;
      var isDoc := PeekAt(2) == SLASH;
      Advance();
      Advance();
      ToLineEnd();
      PushTrivia(if isDoc then DocComment else LineComment, start, startLine, startCol, mark, from);
      return true;
    }

    // An unterminated comment runs to the end; the diagnostic is left out.
    method SkipBlockComment(ghost mark: nat, ghost from: nat) returns (skipped: bool)
      requires Valid() && Skipped(mark, from)
      modifies this
      ensures Valid() && Skipped(mark, from) && old(trivia) <= trivia && old(pos) <= pos
      ensures skipped <==> old(PeekAt(0)) == SLASH && old(PeekAt(1)) == STAR
      ensures if skipped
              then pos > old(pos) && Added(if IsDocBlock(source, old(pos)) then DocComment else BlockComment, old(pos))
              else pos == old(pos) && trivia == old(trivia)
    {
      hide LineOf, ColumnOf, Tiles, AllProper;
      if PeekAt(0) != SLASH || PeekAt(1) != STAR {
        return false;
      }
      var start, startLine, startCol := pos, line, col;
      var isDoc := PeekAt(2) == STAR && PeekAt(3) != SLASH;
      Advance();
      Advance();
      ToBlockEnd();
      PushTrivia(if isDoc then DocComment else BlockComment, start, startLine, startCol, mark, from);
      return true;
    }

    method SkipLeadingTrivia(ghost mark: nat, ghost from: nat)
      requires Valid() && Skipped(mark, from)
      modifies this
      ensures Valid() && Skipped(mark, from) && old(trivia) <= trivia && old(pos) <= pos
      ensures !IsWhitespace(PeekAt(0)) && !IsNewline(PeekAt(0))
      ensures PeekAt(0) == SLASH ==> PeekAt(1) != SLASH && PeekAt(1) != STAR
    {
      hide LineOf, ColumnOf, Skipped, Proper;
      while true
        invariant Valid() && Skipped(mark, from) && old(trivia) <= trivia && old(pos) <= pos
        decreases |source| - pos
      {
        SkipWhitespace(mark, from);
        var skipped := SkipNewline(mark, from);
        if skipped { continue; }
        skipped := SkipLineComment(mark, from);
        if skipped { continue; }
        skipped := SkipBlockComment(mark, from);
        if skipped { continue; }
        break;
      }
    }

    // Trailing trivia end with the first line break.
    method SkipTrailingTrivia(ghost mark: nat, ghost from: nat)
      requires Valid() && Skipped(mark, from) && mark == |trivia|
      modifies this
      ensures Valid() && Skipped(mark, from) && old(trivia) <= trivia && old(pos) <= pos
      ensures forall i :: mark <= i < |trivia| - 1 ==> trivia[i].kind != Newline
      ensures (|trivia| > mark && trivia[|trivia| - 1].kind == Newline)
              || (!IsWhitespace(PeekAt(0)) && !IsNewline(PeekAt(0))
                  && (PeekAt(0) == SLASH ==> PeekAt(1) != SLASH && PeekAt(1) != STAR))
    {
      hide LineOf, ColumnOf, Skipped, Proper;
      while true
        invariant Valid() && Skipped(mark, from) && old(trivia) <= trivia && old(pos) <= pos
        invariant forall i :: mark <= i < |trivia| ==> trivia[i].kind != Newline
        decreases |source| - pos
      {
        SkipWhitespace(mark, from);
        var skipped := SkipLineComment(mark, from);
        if skipped { continue; }
        skipped := SkipBlockComment(mark, from);
        if skipped { continue; }
        skipped := SkipNewline(mark, from);
        break;
      }
    }

    // Reads n characters that are no line breaks.
    method AdvanceBy(n: nat)
      requires Valid() && pos + n <= |source| && forall i :: pos <= i < pos + n ==> !IsNewline(source[i])
      modifies this`pos, this`line, this`col
      ensures Valid() && pos == old(pos) + n
    {
      for i := 0 to n
        invariant Valid() && pos == old(pos) + i
        modifies this`pos, this`line, this`col
      {
        Advance();
      }
    }

    // A finished token: what it says about the text from start to the scanner's position.
    ghost predicate TokenFrom(t: Token, start: nat)
      reads this
    {
      SpanOk(source, t.span) && t.span.off == start && t.span.off + t.span.len == pos
    }

    function MakeToken(kind: Kind, start: nat, startLine: nat, startCol: nat, lexeme: seq<byte>): Token
      reads this
      requires start <= pos
    {
      Token(kind, SpanFrom(start, startLine, startCol), lexeme, 0, 0, 0, 0)
    }

    // The longest run of word characters.
    method ScanWord() returns (t: Token)
      requires Valid() && IsWordStart(PeekAt(0))
      modifies this`pos, this`line, this`col
      ensures Valid() && pos > old(pos) && TokenFrom(t, old(pos)) && t.kind == Word
      ensures t.lexeme == source[old(pos)..pos] && (forall c :: c in t.lexeme ==> IsWordChar(c))
      ensures !IsWordChar(PeekAt(0))
    {
      var start, startLine, startCol := pos, line, col;
      while IsWordChar(PeekAt(0))
        invariant Valid() && start <= pos && (pos == start ==> IsWordChar(PeekAt(0)))
        invariant forall i :: start <= i < pos ==> IsWordChar(source[i])
        decreases |source| - pos
      {
        Advance();
      }
      t := MakeToken(Word, start, startLine, startCol, source[start..pos]);
    }

    method ScanNumber() returns (t: Token)
      requires Valid() && IsDigit(PeekAt(0))
      modifies this`pos, this`line, this`col
      ensures Valid() && pos > old(pos) && TokenFrom(t, old(pos)) && t.kind == Number
      ensures t.lexeme == source[old(pos)..pos]
      ensures (forall i :: old(pos) <= i < pos ==> NumberChar(source, i)) && !NumberChar(source, pos)
    {
      var start, startLine, startCol := pos, line, col;
      while IsWordChar(PeekAt(0)) || PeekAt(0) == DOT || PeekAt(0) == MINUS
        invariant Valid() && start <= pos && (pos == start ==> IsDigit(PeekAt(0)))
        invariant forall i :: start <= i < pos ==> NumberChar(source, i)
        decreases |source| - pos
      {
        if PeekAt(0) == MINUS {
          var prev := if pos > 0 then source[pos - 1] else 0;
          if prev != 101 && prev != 69 { break; }
        }
        Advance();
      }
      t := MakeToken(Number, start, startLine, startCol, source[start..pos]);
    }

    // One character, pair or escape of a literal.
    method QuotedStep(quote: byte, buf: seq<byte>) returns (more: seq<byte>, closed: bool, bad: bool)
      requires Valid() && PeekAt(0) != 0 && (quote == QUOTE || quote == APOSTROPHE)
      modifies this`pos, this`line, this`col
      ensures Valid() && pos > old(pos) && !(bad && closed)
      ensures var body := ReadBody(source, old(pos), quote, buf);
              if bad then body.BadEscape?
              else if closed then body == Contents(more, pos)
              else body == ReadBody(source, pos, quote, more)
    {
      hide Unescape, ReadBody, LineOf, ColumnOf;
      BodyStep(source, pos, quote, buf);
      more, closed, bad := buf, false, false;
      var c := PeekAt(0);
      if c == quote {
        if PeekAt(1) == quote {
          Advance();
          Advance();
          more := buf + [quote];
        } else {
          Advance();
          closed := true;
        }
      } else if c == BACKSLASH {
        var e := UnescapeChar(source, pos + 1);
        if e.Bad? {
          Advance();
          bad := true;
        } else {
          UnescapePlain(source, pos + 1);
          AdvanceBy(1 + e.consumed);
          more := buf + e.out;
        }
      } else if IsNewline(c) {
        more := buf + [NEWLINE];
        Advance();
      } else {
        more := buf + [c];
        Advance();
      }
    }

    // A string or bytes literal: its contents as ReadBody reads them, and an error token when an escape is
    // malformed or a string is not valid UTF-8.
    method ScanQuoted(isBytes: bool) returns (t: Token)
      requires Valid() && (isBytes ==> PeekAt(0) == LETTER_B)
      requires var quote := PeekAt(if isBytes then 1 else 0); quote == QUOTE || quote == APOSTROPHE
      modifies this`pos, this`line, this`col
      ensures Valid() && pos > old(pos) && TokenFrom(t, old(pos))
      ensures var open := old(pos) + if isBytes then 1 else 0;
              open < |source| && LiteralToken(ReadBody(source, open + 1, source[open], []), isBytes, t, pos)
    {
      hide Unescape, ReadBody, LineOf, ColumnOf;
      var start, startLine, startCol := pos, line, col;
      if isBytes { Advance(); }
      var quote := PeekAt(0);
      Advance();
      ghost var open := pos - 1;
      var buf := [];
      var closed, bad := false, false;
      while PeekAt(0) != 0 && !closed && !bad
        invariant Valid() && start < pos && open < pos
        invariant !closed && !bad ==> ReadBody(source, open + 1, quote, []) == ReadBody(source, pos, quote, buf)
        invariant closed ==> ReadBody(source, open + 1, quote, []) == Contents(buf, pos)
        invariant bad ==> ReadBody(source, open + 1, quote, []).BadEscape?
        decreases |source| - pos, !bad
      {
        buf, closed, bad := QuotedStep(quote, buf);
      }
      if bad {
        SkipLiteral(quote);
        return MakeToken(Error, start, startLine, startCol, []);
      }
      BodyStep(source, pos, quote, buf);
      var valid := true;
      if !isBytes {
        valid := Utf8.IsValid(buf);
      }
      t := if valid then MakeToken(if isBytes then Bytes else Text, start, startLine, startCol, buf)
           else MakeToken(Error, start, startLine, startCol, []);
    }

    // After a malformed escape: on to the end of the literal.
    method SkipLiteral(quote: byte)
      requires Valid()
      modifies this`pos, this`line, this`col
      ensures Valid() && pos >= old(pos)
    {
      while PeekAt(0) != 0
        invariant Valid() && pos >= old(pos)
        decreases |source| - pos
      {
        if PeekAt(0) == quote && PeekAt(1) != quote {
          Advance();
          break;
        }
        Advance();
      }
    }

    // After a '[': a raw block if the brackets and equals signs open one, else the bracket itself.
    method ScanBracket(start: nat, startLine: nat, startCol: nat) returns (t: Token)
      requires Valid() && StartedAt(start, startLine, startCol) && start < pos
      modifies this`pos, this`line, this`col
      ensures Valid() && pos >= old(pos) && TokenFrom(t, start)
      ensures BracketToken(source, old(pos), t.kind, t.lexeme, pos) && t.kind != EndOfFile
    {
      hide LineOf, ColumnOf, ClosesAt, NotClosed;
      ghost var after := pos;
      var level := 0;
      while PeekAt(level) == EQUALS
        invariant pos + level <= |source| && forall i :: pos <= i < pos + level ==> source[i] == EQUALS
        decreases |source| - level
      {
        level := level + 1;
      }
      if PeekAt(level) != OPEN_BRACKET {
        t := MakeToken(Punctuation(OPEN_BRACKET), start, startLine, startCol, []);
        assert BracketOf(source, after, level, t.kind, t.lexeme, pos);
        return;
      }
      AdvanceBy(level + 1);
      var contentStart := pos;
      var closed := ToClosing(level);
      if closed {
        var content := source[contentStart..pos];
        ClosingPlain(source, pos, level);
        AdvanceBy(level + 2);
        t := MakeToken(RawBlock, start, startLine, startCol, content);
      } else {
        t := MakeToken(Error, start, startLine, startCol, []);
      }
      assert BracketOf(source, after, level, t.kind, t.lexeme, pos);
    }

    // On to the first mark that closes a raw block of this level, or to the end.
    method ToClosing(level: nat) returns (closed: bool)
      requires Valid()
      modifies this`pos, this`line, this`col
      ensures Valid() && pos >= old(pos) && NotClosed(source, old(pos), pos, level)
      ensures if closed then ClosesAt(source, pos, level) else PeekAt(0) == 0
    {
      hide LineOf, ColumnOf;
      while PeekAt(0) != 0
        invariant Valid() && old(pos) <= pos && NotClosed(source, old(pos), pos, level)
        decreases |source| - pos
      {
        if PeekAt(0) == CLOSE_BRACKET {
          var same := 1;
          while same <= level && PeekAt(same) == EQUALS
            invariant 1 <= same <= level + 1 && pos + same <= |source|
            invariant forall i :: pos < i < pos + same ==> source[i] == EQUALS
            decreases level + 1 - same
          {
            same := same + 1;
          }
          if same == level + 1 && PeekAt(same) == CLOSE_BRACKET {
            return true;
          }
        }
        Advance();
      }
      return false;
    }

    method ScanToken() returns (t: Token)
      requires Valid()
      modifies this`pos, this`line, this`col
      ensures Valid() && TokenFrom(t, old(pos))
      ensures t.kind == EndOfFile <==> old(PeekAt(0)) == 0
      ensures t.kind != EndOfFile ==> pos > old(pos)
      ensures t.kind == EndOfFile ==> pos == old(pos)
      ensures var c, d := old(PeekAt(0)), old(PeekAt(1));
              var bytes := c == LETTER_B && (d == QUOTE || d == APOSTROPHE);
              && (IsWordStart(c) && !bytes ==>
                    t.kind == Word && t.lexeme == source[old(pos)..pos] && !IsWordChar(PeekAt(0)))
              && (IsDigit(c) ==>
                    && t.kind == Number && t.lexeme == source[old(pos)..pos]
                    && (forall i :: old(pos) <= i < pos ==> NumberChar(source, i)) && !NumberChar(source, pos))
              && (bytes || c == QUOTE || c == APOSTROPHE ==>
                    var open := old(pos) + if bytes then 1 else 0;
                    open < |source| && LiteralToken(ReadBody(source, open + 1, source[open], []), bytes, t, pos))
              && (c == OPEN_BRACKET ==> BracketToken(source, old(pos) + 1, t.kind, t.lexeme, pos))
              && (c != 0 && !IsWordStart(c) && !IsDigit(c) && c != QUOTE && c != APOSTROPHE && c != OPEN_BRACKET ==>
                    var next := CharEnd(source, old(pos));
                    if c == MINUS && CharAt(source, next) == GREATER then t.kind == Arrow && pos == next + 1
                    else t.kind == (if IsPunctuation(c) then Punctuation(c) else Error) && pos == next)
    {
      hide LineOf, ColumnOf, ReadBody, BracketToken, NumberChar;
      var start, startLine, startCol := pos, line, col;
      var c := PeekAt(0);
      if c == 0 {
        return MakeToken(EndOfFile, start, startLine, startCol, []);
      }
      if IsWordStart(c) {
        if c == LETTER_B && (PeekAt(1) == QUOTE || PeekAt(1) == APOSTROPHE) {
          t := ScanQuoted(true);
        } else {
          t := ScanWord();
        }
        return;
      }
      if IsDigit(c) {
        t := ScanNumber();
        return;
      }
      if c == QUOTE || c == APOSTROPHE {
        t := ScanQuoted(false);
        return;
      }
      Advance();
      if c == OPEN_BRACKET {
        t := ScanBracket(start, startLine, startCol);
      } else if c == MINUS && PeekAt(0) == GREATER {
        Advance();
        t := MakeToken(Arrow, start, startLine, startCol, []);
      } else if IsPunctuation(c) {
        t := MakeToken(Punctuation(c), start, startLine, startCol, []);
      } else {
        t := MakeToken(Error, start, startLine, startCol, [c]);
      }
    }

    // One token with the trivia around it.
    method ScanNext() returns (t: Token)
      requires Valid()
      modifies this
      ensures Valid() && old(trivia) <= trivia && SlicesIn(t, |trivia|)
      ensures Tiles(source, TokenPieces(t, trivia), old(pos), pos)
      ensures t.kind == EndOfFile ==> PeekAt(0) == 0
      ensures t.kind != EndOfFile ==> pos > old(pos)
      ensures SpanOk(source, t.span) && AllProper(source, trivia, |old(trivia)|)
    {
      hide LineOf, ColumnOf, SpanOk, Tiles, TokenPieces, Proper;
      ghost var from := pos;
      TilesNone(source, from);
      var leadingMark := |trivia|;
      assert trivia[leadingMark..] == [] && Spans([]) == [];
      SkipLeadingTrivia(leadingMark, from);
      ghost var lead, at := trivia[leadingMark..], pos;
      var leadingCount := |trivia| - leadingMark;
      t := ScanToken();
      var trailingMark := |trivia|;
      TilesNone(source, pos);
      assert trivia[trailingMark..] == [];
      if t.kind != EndOfFile {
        SkipTrailingTrivia(trailingMark, pos);
      }
      ghost var trail := trivia[trailingMark..];
      t := t.(leadingOff := leadingMark, leadingCount := leadingCount,
              trailingOff := trailingMark, trailingCount := |trivia| - trailingMark);
      assert trivia[leadingMark..leadingMark + leadingCount] == lead;
      assert trivia[trailingMark..trailingMark + |trail|] == trail;
      TokenTiles(source, t, trivia, from, pos);
    }

    // The whole source. The spans of all tokens and trivia, in stream order, tile it up to the first NUL
    // character, which is its end when it has none.
    method ScanAll() returns (tokens: seq<Token>)
      requires Valid() && pos == 0 && trivia == []
      modifies this
      ensures Valid() && tokens != [] && tokens[|tokens| - 1].kind == EndOfFile
      ensures Tiles(source, Pieces(tokens, trivia), 0, pos)
      ensures pos <= |source| && (pos < |source| ==> source[pos] == 0)
      ensures forall i :: 0 <= i < |tokens| ==> SpanOk(source, tokens[i].span)
      ensures forall i :: 0 <= i < |tokens| - 1 ==> tokens[i].kind != EndOfFile
      ensures AllProper(source, trivia, 0)
    {
      hide SpanOk, LineOf, ColumnOf, Tiles, TokenPieces, Proper;
      tokens := [];
      assert Tiles(source, Pieces(tokens, trivia), 0, 0) by { TilesNone(source, 0); }
      while true
        invariant Valid() && Tiles(source, Pieces(tokens, trivia), 0, pos) && AllProper(source, trivia, 0)
        invariant forall i :: 0 <= i < |tokens| ==> SlicesIn(tokens[i], |trivia|) && SpanOk(source, tokens[i].span)
        invariant forall i :: 0 <= i < |tokens| ==> tokens[i].kind != EndOfFile
        decreases |source| - pos
      {
        ghost var before, from := trivia, pos;
        var t := ScanNext();
        PiecesStay(tokens, before, trivia);
        TilesJoin(source, Pieces(tokens, trivia), TokenPieces(t, trivia), 0, from, pos);
        ghost var all := tokens;
        tokens := tokens + [t];
        assert tokens[..|tokens| - 1] == all;
        if t.kind == EndOfFile {
          return;
        }
      }
    }
  }

  // Leading trivia, token and trailing trivia tile from one position to another.
  lemma TokenTiles(text: seq<byte>, t: Token, trivia: seq<Trivia>, from: nat, to: nat)
    requires SlicesIn(t, |trivia|) && SpanOk(text, t.span)
    requires Tiles(text, Spans(trivia[t.leadingOff..t.leadingOff + t.leadingCount]), from, t.span.off)
    requires Tiles(text, Spans(trivia[t.trailingOff..t.trailingOff + t.trailingCount]), t.span.off + t.span.len, to)
    ensures Tiles(text, TokenPieces(t, trivia), from, to)
  {
    hide Tiles, SpanOk;
    var lead := Spans(trivia[t.leadingOff..t.leadingOff + t.leadingCount]);
    TilesOne(text, lead, from, t.span);
    TilesJoin(text, lead + [t.span], Spans(trivia[t.trailingOff..t.trailingOff + t.trailingCount]), from,
              t.span.off + t.span.len, to);
  }

  lemma TilesNone(text: seq<byte>, p: nat)
    ensures Tiles(text, [], p, p)
  {
  }

  // What a literal that reads like this makes of a token that ends at end.
  ghost predicate LiteralToken(body: Body, isBytes: bool, t: Token, end: nat) {
    match body
    case BadEscape(_) => t.kind == Error
    case Contents(bytes, stop) =>
      && end == stop
      && if isBytes || Utf8.IsUtf8(bytes) then t.kind == (if isBytes then Bytes else Text) && t.lexeme == bytes
         else t.kind == Error
  }

  lemma BodyStep(text: seq<byte>, pos: nat, quote: byte, buf: seq<byte>)
    requires pos <= |text|
    ensures var c := CharAt(text, pos);
            ReadBody(text, pos, quote, buf) ==
              if c == 0 then Contents(buf, pos)
              else if c == quote then
                if CharAt(text, pos + 1) == quote then ReadBody(text, pos + 2, quote, buf + [quote])
                else Contents(buf, pos + 1)
              else if c == BACKSLASH then
                var e := Unescape(text, pos + 1);
                if e.Bad? then BadEscape(pos) else ReadBody(text, pos + 1 + e.consumed, quote, buf + e.out)
              else if IsNewline(c) then ReadBody(text, CharEnd(text, pos), quote, buf + [NEWLINE])
              else ReadBody(text, pos + 1, quote, buf + [c])
  {
    hide Unescape;
  }

  // ---------- the whole source ----------

  // Scanning a source without NUL characters loses nothing: the texts of the spans, put together, are it.
  method ScanSource(source: seq<byte>) returns (scanner: Scanner, tokens: seq<Token>, ghost pieces: seq<Span>)
    requires forall i :: 0 <= i < |source| ==> source[i] != 0
    ensures fresh(scanner) && scanner.source == source && pieces == Pieces(tokens, scanner.trivia)
    ensures (forall i :: 0 <= i < |pieces| ==> pieces[i].off + pieces[i].len <= |source|)
            && SlicesOf(source, pieces) == source
    ensures forall i :: 0 <= i < |tokens| ==>
              tokens[i].span.off <= |source| && tokens[i].span.startLine == LineOf(source, tokens[i].span.off)
    ensures AllProper(source, scanner.trivia, 0)
  {
    hide LineOf, ColumnOf, Tiles, Pieces, Proper;
    scanner := new Scanner(source);
    tokens := scanner.ScanAll();
    pieces := Pieces(tokens, scanner.trivia);
    TilesInRange(source, pieces, 0, |source|);
    TilesGiveText(source, pieces, 0, |source|);
  }

  // A literal the emitter wrote, not followed by another quote, is scanned back to its contents: always
  // for bytes, and for strings exactly when the contents are valid UTF-8. Otherwise the token is an error.
  lemma EmittedLiteralScanned(text: seq<byte>, pos: nat, contents: seq<byte>, isBytes: bool, t: Token, end: nat)
    requires Here(text, pos, LiteralText(contents, isBytes))
    requires CharAt(text, pos + |LiteralText(contents, isBytes)|) != QUOTE
    requires var open := pos + if isBytes then 1 else 0;
             open < |text| && LiteralToken(ReadBody(text, open + 1, text[open], []), isBytes, t, end)
    ensures end == pos + |LiteralText(contents, isBytes)|
    ensures if isBytes || Utf8.IsUtf8(contents)
            then t.kind == (if isBytes then Bytes else Text) && t.lexeme == contents
            else t.kind == Error
  {
    hide Here, Escaped, ReadBody, Utf8.IsUtf8;
    var start := if isBytes then [LETTER_B, QUOTE] else [QUOTE];
    assert LiteralText(contents, isBytes) == start + (Escaped(contents, isBytes) + [QUOTE]);
    HereParts(text, pos, start, Escaped(contents, isBytes) + [QUOTE]);
    HereAt(text, pos, start, |start| - 1);
    ContentsRead(text, pos + |start|, contents, isBytes);
  }
}
