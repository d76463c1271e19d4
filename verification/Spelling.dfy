/** What texts mean to the tokenizer, without its scanning: a text is a list of fields, each written
    character by character in one of three ways, with delimiters in between. */
module Spelling {
  import opened Tokenizer

  /** One character as it is, one behind an escape sign, or a quote that opens or closes. */
  datatype Piece = Plain(x: char) | Escape(sign: char, x: char) | Toggle(mark: char)

  datatype Field = Field(pieces: seq<Piece>, end: char)

  function SpelledPiece(p: Piece): string {
    match p
    case Plain(x) => [x]
    case Escape(sign, x) => [sign, x]
    case Toggle(mark) => [mark]
  }

  function MeansPiece(p: Piece): string {
    match p
    case Plain(x) => [x]
    case Escape(_, x) => [if x == 'n' then '\n' else x]
    case Toggle(_) => ""
  }

  /** A piece that may stand inside (`quoted`) or outside quotes.  Delimiters are plain characters
      inside quotes only; special characters can be escaped anywhere, and so can n. */
  predicate Proper(seps: Separators, p: Piece, quoted: bool) {
    match p
    case Plain(x) => x !in seps.escape && (if x in seps.delimiter then quoted else x !in seps.quote)
    case Escape(sign, x) =>
      sign in seps.escape && (x == 'n' || x in seps.quote || x in seps.delimiter || x in seps.escape)
    case Toggle(mark) => mark in seps.quote && mark !in seps.escape && mark !in seps.delimiter
  }

  predicate QuotedAfter(quoted: bool, p: Piece) {
    if p.Toggle? then !quoted else quoted
  }

  function Spelled(ps: seq<Piece>): string {
    if ps == [] then "" else SpelledPiece(ps[0]) + Spelled(ps[1..])
  }

  function Means(ps: seq<Piece>): string {
    if ps == [] then "" else MeansPiece(ps[0]) + Means(ps[1..])
  }

  predicate AllProper(seps: Separators, ps: seq<Piece>, quoted: bool) {
    ps == [] || (Proper(seps, ps[0], quoted) && AllProper(seps, ps[1..], QuotedAfter(quoted, ps[0])))
  }

  predicate QuotedAtEnd(quoted: bool, ps: seq<Piece>)
    decreases |ps|
  {
    if ps == [] then quoted else QuotedAtEnd(QuotedAfter(quoted, ps[0]), ps[1..])
  }

  lemma {:induction false} ScanPiece(seps: Separators, p: Piece, tail: string, quoted: bool, text: string)
    requires Proper(seps, p, quoted)
    ensures Scan(seps, SpelledPiece(p) + tail, quoted, text)
            == Scan(seps, tail, QuotedAfter(quoted, p), text + MeansPiece(p))
  {
    var s := SpelledPiece(p) + tail;
    match p {
      case Plain(x) => assert s[1..] == tail;
      case Escape(_, x) => assert s[2..] == tail;
      case Toggle(_) =>
        assert s[1..] == tail;
        assert text + "" == text;
    }
  }

  lemma {:induction false} ScanPieces(seps: Separators, ps: seq<Piece>, tail: string, quoted: bool, text: string)
    requires AllProper(seps, ps, quoted)
    ensures Scan(seps, Spelled(ps) + tail, quoted, text)
            == Scan(seps, tail, QuotedAtEnd(quoted, ps), text + Means(ps))
    decreases |ps|
  {
    if ps == [] {
      assert "" + tail == tail && text + "" == text;
    } else {
      var more := Spelled(ps[1..]) + tail;
      assert Spelled(ps) + tail == SpelledPiece(ps[0]) + more;
      ScanPiece(seps, ps[0], more, quoted, text);
      ScanPieces(seps, ps[1..], tail, QuotedAfter(quoted, ps[0]), text + MeansPiece(ps[0]));
      assert text + MeansPiece(ps[0]) + Means(ps[1..]) == text + Means(ps);
    }
  }

  // ---------------------------------------------------------------------------------
  // Lists

  /** Some fields that a delimiter ends, and a last one. */
  function ListText(fields: seq<Field>, last: seq<Piece>): string {
    if fields == [] then Spelled(last) else Spelled(fields[0].pieces) + [fields[0].end] + ListText(fields[1..], last)
  }

  function ListMeans(fields: seq<Field>, last: seq<Piece>): (ms: seq<string>)
    ensures |ms| == |fields| + 1
  {
    if fields == [] then [Means(last)] else [Means(fields[0].pieces)] + ListMeans(fields[1..], last)
  }

  /** Quotes are closed before a delimiter ends a field; at the end of the text they need not be. */
  predicate ProperList(seps: Separators, fields: seq<Field>, last: seq<Piece>, quoted: bool) {
    if fields == [] then AllProper(seps, last, quoted)
    else
      && AllProper(seps, fields[0].pieces, quoted) && !QuotedAtEnd(quoted, fields[0].pieces)
      && fields[0].end in seps.delimiter && fields[0].end !in seps.escape
      && ProperList(seps, fields[1..], last, false)
  }

  lemma {:induction false} RestOfList(seps: Separators, fields: seq<Field>, last: seq<Piece>, after: bool)
    requires ProperList(seps, fields, last, false)
    ensures Rest(seps, ListText(fields, last), after) ==
            Ok(if ListText(fields, last) == "" && !after then [] else ListMeans(fields, last))
    decreases |fields|
  {
    var s := ListText(fields, last);
    if fields == [] {
      if last != [] {
        ScanPieces(seps, last, "", false, "");
        assert s == s + "" && "" + Means(last) == Means(last);
        assert [Means(last)] + [] == [Means(last)];
      }
    } else {
      var tail := [fields[0].end] + ListText(fields[1..], last);
      assert s == Spelled(fields[0].pieces) + tail;
      ScanPieces(seps, fields[0].pieces, tail, false, "");
      assert "" + Means(fields[0].pieces) == Means(fields[0].pieces);
      assert tail[1..] == ListText(fields[1..], last);
      RestOfList(seps, fields[1..], last, true);
    }
  }

  /** For all separators and every properly written list, whatever is quoted, escaped or plain in
      it: the tokens are the meanings of its fields.  An empty text has none. */
  lemma {:induction false} TokensAreMeanings(seps: Separators, fields: seq<Field>, last: seq<Piece>, text: string)
    requires ProperList(seps, fields, last, false) && text == ListText(fields, last)
    ensures Tokens(seps, text) == Ok(if text == "" then [] else ListMeans(fields, last))
  {
    RestOfList(seps, fields, last, false);
  }

  /** Every text the tokenizer accepts is written so. */
  lemma {:induction false} EveryTextIsWritten(seps: Separators, s: string, quoted: bool)
    returns (fields: seq<Field>, last: seq<Piece>)
    requires WellEscaped(seps, s)
    ensures ProperList(seps, fields, last, quoted) && ListText(fields, last) == s
    decreases |s|
  {
    fields, last := [], [];
    if s != "" {
      if s[0] in seps.escape {
        fields, last := EveryTextIsWritten(seps, s[2..], quoted);
        assert s == SpelledPiece(Escape(s[0], s[1])) + s[2..];
        fields, last := WithPiece(seps, Escape(s[0], s[1]), fields, last, quoted, s[2..]);
      } else if s[0] in seps.delimiter && !quoted {
        fields, last := EveryTextIsWritten(seps, s[1..], false);
        var first := Field([], s[0]);
        assert ([first] + fields)[1..] == fields;
        fields := [first] + fields;
        assert s == "" + [s[0]] + s[1..];
      } else {
        var p := if s[0] in seps.delimiter || s[0] !in seps.quote then Plain(s[0]) else Toggle(s[0]);
        fields, last := EveryTextIsWritten(seps, s[1..], QuotedAfter(quoted, p));
        assert s == SpelledPiece(p) + s[1..];
        fields, last := WithPiece(seps, p, fields, last, quoted, s[1..]);
      }
    }
  }

  /** One more piece at the front of a list. */
  lemma {:induction false} WithPiece(seps: Separators, p: Piece, fields: seq<Field>, last: seq<Piece>, quoted: bool,
                                     text: string)
    returns (fields': seq<Field>, last': seq<Piece>)
    requires Proper(seps, p, quoted) && ProperList(seps, fields, last, QuotedAfter(quoted, p))
    requires text == ListText(fields, last)
    ensures ProperList(seps, fields', last', quoted) && ListText(fields', last') == SpelledPiece(p) + text
  {
    if fields == [] {
      fields', last' := [], [p] + last;
      assert last'[1..] == last;
    } else {
      var ps := [p] + fields[0].pieces;
      assert ps[1..] == fields[0].pieces;
      fields', last' := [Field(ps, fields[0].end)] + fields[1..], last;
      assert fields'[1..] == fields[1..];
      assert Spelled(ps) == SpelledPiece(p) + Spelled(fields[0].pieces);
    }
  }

  /** So the tokens of every accepted text are the meanings of some way it is written. */
  lemma {:induction false} AcceptedTextsHaveMeaning(seps: Separators, s: string)
    returns (fields: seq<Field>, last: seq<Piece>)
    requires WellEscaped(seps, s)
    ensures ProperList(seps, fields, last, false) && ListText(fields, last) == s
    ensures Tokens(seps, s) == Ok(if s == "" then [] else ListMeans(fields, last))
  {
    fields, last := EveryTextIsWritten(seps, s, false);
    TokensAreMeanings(seps, fields, last, s);
  }
}
