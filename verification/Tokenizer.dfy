/** The escaped-list tokenizer and the iterator that drives it: fields separated by delimiters,
    with quoted stretches and escaped characters. */
module Tokenizer {

  /** The three sets of special characters, each given as a string. */
  datatype Separators = Separators(escape: string, delimiter: string, quote: string)

  datatype Error = CannotEndWithEscape | UnknownEscapeSequence

  datatype Result<T> = Ok(value: T) | Err(error: Error)

  /** A token, what follows it, and whether it was ended by a delimiter. */
  datatype Token = Token(text: string, rest: string, last: bool)

  // ---------------------------------------------------------------------------------
  // What the text means

  /** The character an escape stands for; `n` is looked at before the special characters. */
  function Unescape(seps: Separators, x: char): Result<char> {
    if x == 'n' then Ok('\n')
    else if x in seps.quote || x in seps.delimiter || x in seps.escape then Ok(x)
    else Err(UnknownEscapeSequence)
  }

  /** Reads on from inside a token that so far is `text`. */
  function Scan(seps: Separators, s: string, inQuote: bool, text: string): (r: Result<Token>)
    ensures r.Ok? && s != "" ==> |r.value.rest| < |s|
    ensures r.Ok? && !r.value.last ==> r.value.rest == ""
    decreases |s|
  {
    if s == "" then Ok(Token(text, "", false))
    else if s[0] in seps.escape then
      if |s| == 1 then Err(CannotEndWithEscape)
      else
        match Unescape(seps, s[1])
        case Ok(x) => Scan(seps, s[2..], inQuote, text + [x])
        case Err(e) => Err(e)
    else if s[0] in seps.delimiter then
      if inQuote then Scan(seps, s[1..], inQuote, text + [s[0]]) else Ok(Token(text, s[1..], true))
    else if s[0] in seps.quote then Scan(seps, s[1..], !inQuote, text)
    else Scan(seps, s[1..], inQuote, text + [s[0]])
  }

  /** The tokens of what is left; a text that ends with a delimiter has one more, empty, token. */
  function Rest(seps: Separators, s: string, last: bool): Result<seq<string>>
    decreases |s|, last
  {
    if s == "" then Ok(if last then [""] else [])
    else
      match Scan(seps, s, false, "")
      case Err(e) => Err(e)
      case Ok(t) =>
        match Rest(seps, t.rest, t.last)
        case Err(e) => Err(e)
        case Ok(more) => Ok([t.text] + more)
  }

  function Tokens(seps: Separators, s: string): Result<seq<string>> {
    Rest(seps, s, false)
  }

  // ---------------------------------------------------------------------------------
  // The program

  class EscapedListSeparator {
    const seps: Separators
    var last: bool

    constructor (escape: string, delimiter: string, quote: string)
      ensures seps == Separators(escape, delimiter, quote) && !last
    {
      seps := Separators(escape, delimiter, quote);
      last := false;
    }

    method Reset()
      modifies this
      ensures !last
    {
      last := false;
    }

    method DoEscape(input: string, at: nat, tok: string) returns (r: Result<string>, next: nat)
      requires at < |input|
      ensures at + 1 == |input| ==> r == Err(CannotEndWithEscape)
      ensures at + 1 < |input| ==>
                && next == at + 1
                && (Unescape(seps, input[next]).Err? ==> r == Err(UnknownEscapeSequence))
                && (Unescape(seps, input[next]).Ok? ==> r == Ok(tok + [Unescape(seps, input[next]).value]))
    {
      next := at + 1;
      if next == |input| {
        return Err(CannotEndWithEscape), next;
      }
      if input[next] == 'n' {
        return Ok(tok + ['\n']), next;
      } else if input[next] in seps.quote {
        return Ok(tok + [input[next]]), next;
      } else if input[next] in seps.delimiter {
        return Ok(tok + [input[next]]), next;
      } else if input[next] in seps.escape {
        return Ok(tok + [input[next]]), next;
      } else {
        return Err(UnknownEscapeSequence), next;
      }
    }

    /** One token from `start` on: whether there was one, where to go on, and its text. */
    method Call(input: string, start: nat) returns (r: Result<bool>, next: nat, tok: string)
      requires start <= |input|
      modifies this
      ensures start == |input| ==> r == Ok(old(last)) && next == start && tok == "" && !last
      ensures start < |input| ==>
                match Scan(seps, input[start..], false, "")
                case Err(e) => r == Err(e)
                case Ok(t) =>
                  r == Ok(true) && tok == t.text && last == t.last && next <= |input| && input[next..] == t.rest
    {
      var inQuote := false;
      tok, next := "", start;
      if next == |input| {
        if last {
          last := false;
          return Ok(true), next, tok;
        } else {
          return Ok(false), next, tok;
        }
      }
      last := false;
      while next != |input|
        invariant start <= next <= |input| && !last
        invariant Scan(seps, input[start..], false, "") == Scan(seps, input[next..], inQuote, tok)
        decreases |input| - next
      {
        var x := input[next];
        assert input[next..][1..] == input[next + 1..];
        if x in seps.escape {
          var escaped, at := DoEscape(input, next, tok);
          if escaped.Err? {
            return Err(escaped.error), at, tok;
          }
          assert input[next..][2..] == input[at + 1..];
          next, tok := at, escaped.value;
        } else if x in seps.delimiter {
          if !inQuote {
            next := next + 1;
            last := true;
            return Ok(true), next, tok;
          } else {
            tok := tok + [x];
          }
        } else if x in seps.quote {
          inQuote := !inQuote;
        } else {
          tok := tok + [x];
        }
        next := next + 1;
      }
      return Ok(true), next, tok;
    }
  }

  class TokenIterator {
    const input: string
    const f: EscapedListSeparator
    var begin: nat
    var valid: bool
    var tok: string

    ghost predicate Valid()
      reads this, f
    {
      begin <= |input| && (!valid ==> begin == |input| || begin == 0)
    }

    /** The tokens that are still to be fetched. */
    ghost function Ahead(): Result<seq<string>>
      requires Valid()
      reads this, f
    {
      Rest(f.seps, input[begin..], f.last)
    }

    constructor (f: EscapedListSeparator, input: string)
      ensures Valid() && this.f == f && this.input == input && begin == 0 && !valid
    {
      this.f, this.input := f, input;
      begin, valid, tok := 0, false, "";
    }

    /** Moves to the first token; an empty text has none. */
    method Initialize() returns (r: Result<bool>)
      requires Valid() && begin == 0 && !valid
      modifies this, f
      ensures Valid() && (r.Ok? ==> r.value == valid)
      ensures r.Err? ==> Tokens(f.seps, input) == Err(r.error)
      ensures r == Ok(false) ==> Tokens(f.seps, input) == Ok([])
      ensures r == Ok(true) ==> Tokens(f.seps, input) == Prepend(tok, Ahead())
    {
      assert input[0..] == input;
      f.Reset();
      if begin != |input| {
        r := Fetch();
      } else {
        valid := false;
        r := Ok(false);
      }
    }

    method Increment() returns (r: Result<bool>)
      requires Valid() && valid
      modifies this, f
      ensures Valid() && (r.Ok? ==> r.value == valid)
      ensures r.Err? ==> old(Ahead()) == Err(r.error)
      ensures r == Ok(false) ==> old(Ahead()) == Ok([])
      ensures r == Ok(true) ==>
                && old(Ahead()) == Prepend(tok, Ahead())
                && (begin > old(begin) || (begin == old(begin) && old(f.last) && !f.last))
    {
      r := Fetch();
    }

    /** What both of the above do: one call of the tokenizing function. */
    method Fetch() returns (r: Result<bool>)
      requires Valid()
      modifies this, f
      ensures r.Ok? ==> Valid() && r.value == valid
      ensures r.Err? ==> Valid() && old(Ahead()) == Err(r.error)
      ensures r == Ok(false) ==> old(Ahead()) == Ok([])
      ensures r == Ok(true) ==>
                && old(Ahead()) == Prepend(tok, Ahead())
                && (begin > old(begin) || (begin == old(begin) && old(f.last) && !f.last))
    {
      var next, text;
      r, next, text := f.Call(input, begin);
      if r.Ok? {
        begin, valid, tok := next, r.value, text;
        assert [text] + [] == [text];
      }
    }
  }

  function Prepend(x: string, more: Result<seq<string>>): Result<seq<string>> {
    match more
    case Err(e) => Err(e)
    case Ok(xs) => Ok([x] + xs)
  }

  lemma {:induction false} PrependOneMore(xs: seq<string>, x: string, more: Result<seq<string>>)
    ensures PrependAll(xs, Prepend(x, more)) == PrependAll(xs + [x], more)
    ensures PrependAll([], more) == more && PrependAll(xs, Ok([])) == Ok(xs)
  {
    if more.Ok? {
      assert xs + ([x] + more.value) == xs + [x] + more.value;
      assert [] + more.value == more.value;
    }
    assert xs + [] == xs;
  }

  /** The loop of a caller: every token the iterator gives, in order, or its error. */
  method Collect(f: EscapedListSeparator, input: string) returns (r: Result<seq<string>>)
    modifies f
    ensures r == Tokens(f.seps, input)
  {
    var it := new TokenIterator(f, input);
    var status := it.Initialize();
    var tokens: seq<string> := [];
    ghost var rest := if status == Ok(true) then Prepend(it.tok, it.Ahead()) else Ok([]);
    PrependOneMore(tokens, it.tok, rest);
    while status == Ok(true)
      invariant it.Valid() && it.f == f && it.input == input && fresh(it)
      invariant status.Ok? ==>
                  && status.value == it.valid && Tokens(f.seps, input) == PrependAll(tokens, rest)
                  && rest == (if it.valid then Prepend(it.tok, it.Ahead()) else Ok([]))
      invariant status.Err? ==> Tokens(f.seps, input) == Err(status.error)
      decreases status == Ok(true), |input| - it.begin, f.last
    {
      ghost var ahead := it.Ahead();
      PrependOneMore(tokens, it.tok, ahead);
      tokens := tokens + [it.tok];
      status := it.Increment();
      rest := ahead;
    }
    PrependOneMore(tokens, "", rest);
    return if status.Err? then Err(status.error) else Ok(tokens);
  }

  function PrependAll(xs: seq<string>, more: Result<seq<string>>): Result<seq<string>> {
    match more
    case Err(e) => Err(e)
    case Ok(ys) => Ok(xs + ys)
  }

  // ---------------------------------------------------------------------------------
  // A printer, and the round trip

  /** Any set of special characters with which a list can be written at all: the quote is seen
      as a quote and the delimiter as a delimiter. */
  predicate Usable(seps: Separators) {
    && seps.escape != "" && seps.delimiter != "" && seps.quote != ""
    && seps.quote[0] !in seps.escape && seps.quote[0] !in seps.delimiter
    && seps.delimiter[0] !in seps.escape
  }

  predicate NeedsEscape(seps: Separators, x: char) {
    x in seps.escape || x in seps.quote
  }

  function EscapedChar(seps: Separators, x: char): string
    requires seps.escape != ""
  {
    if NeedsEscape(seps, x) then [seps.escape[0], x] else [x]
  }

  function ReadBackChar(seps: Separators, x: char): char {
    if x == 'n' && NeedsEscape(seps, 'n') then '\n' else x
  }

  function Escaped(seps: Separators, field: string): string
    requires seps.escape != ""
  {
    if field == "" then ""
    else EscapedChar(seps, field[0]) + Escaped(seps, field[1..])
  }

  function Quoted(seps: Separators, field: string): string
    requires Usable(seps)
  {
    [seps.quote[0]] + Escaped(seps, field) + [seps.quote[0]]
  }

  /** The fields in quotes, joined by the delimiter. */
  function Printed(seps: Separators, fields: seq<string>): (s: string)
    requires Usable(seps) && fields != []
    ensures s != ""
  {
    Quoted(seps, fields[0]) + (if |fields| == 1 then "" else [seps.delimiter[0]] + Printed(seps, fields[1..]))
  }

  /** What a field is read back as: an `n` that had to be escaped comes back as a line feed. */
  function ReadBack(seps: Separators, field: string): string {
    if field == "" then ""
    else [ReadBackChar(seps, field[0])] + ReadBack(seps, field[1..])
  }

  function AllReadBack(seps: Separators, fields: seq<string>): seq<string> {
    if fields == [] then [] else [ReadBack(seps, fields[0])] + AllReadBack(seps, fields[1..])
  }

  lemma {:induction false} ScanChar(seps: Separators, x: char, after: string, text: string)
    requires Usable(seps)
    ensures Scan(seps, EscapedChar(seps, x) + after, true, text)
            == Scan(seps, after, true, text + [ReadBackChar(seps, x)])
  {
    var s := EscapedChar(seps, x) + after;
    if NeedsEscape(seps, x) {
      assert s[2..] == after;
    } else {
      assert s[1..] == after;
    }
  }

  lemma {:induction false} ScanEscaped(seps: Separators, field: string, tail: string, text: string)
    requires Usable(seps)
    ensures Scan(seps, Escaped(seps, field) + [seps.quote[0]] + tail, true, text)
            == Scan(seps, tail, false, text + ReadBack(seps, field))
    decreases |field|
  {
    if field == "" {
      assert ("" + [seps.quote[0]] + tail)[1..] == tail;
      assert text + "" == text;
    } else {
      var x, rest := field[0], field[1..];
      var after := Escaped(seps, rest) + [seps.quote[0]] + tail;
      assert Escaped(seps, field) + [seps.quote[0]] + tail == EscapedChar(seps, x) + after;
      ScanChar(seps, x, after, text);
      ScanEscaped(seps, rest, tail, text + [ReadBackChar(seps, x)]);
      assert text + [ReadBackChar(seps, x)] + ReadBack(seps, rest) == text + ReadBack(seps, field);
    }
  }

  lemma {:induction false} ScanQuoted(seps: Separators, field: string, tail: string)
    requires Usable(seps)
    ensures Scan(seps, Quoted(seps, field) + tail, false, "") == Scan(seps, tail, false, ReadBack(seps, field))
  {
    var s := Quoted(seps, field) + tail;
    assert s[1..] == Escaped(seps, field) + [seps.quote[0]] + tail;
    ScanEscaped(seps, field, tail, "");
    assert "" + ReadBack(seps, field) == ReadBack(seps, field);
  }

  /** What the tokenizer reads from a printed list, for every non-empty list of fields. */
  lemma {:induction false} TokensOfPrinted(seps: Separators, fields: seq<string>, last: bool)
    requires Usable(seps) && fields != []
    ensures Rest(seps, Printed(seps, fields), last) == Ok(AllReadBack(seps, fields))
    decreases |fields|
  {
    var tail := if |fields| == 1 then "" else [seps.delimiter[0]] + Printed(seps, fields[1..]);
    ScanQuoted(seps, fields[0], tail);
    if |fields| == 1 {
      assert AllReadBack(seps, fields[1..]) == [];
    } else {
      assert tail[1..] == Printed(seps, fields[1..]);
      TokensOfPrinted(seps, fields[1..], true);
    }
  }

  lemma {:induction false} ReadBackIsSame(seps: Separators, field: string)
    ensures ReadBack(seps, field) == field <==> !(NeedsEscape(seps, 'n') && 'n' in field)
  {
    if field != "" {
      ReadBackIsSame(seps, field[1..]);
      assert field == [field[0]] + field[1..];
      assert ReadBack(seps, field)[1..] == ReadBack(seps, field[1..]);
    }
  }

  lemma {:induction false} AllReadBackIsSame(seps: Separators, fields: seq<string>)
    ensures AllReadBack(seps, fields) == fields <==>
            !(NeedsEscape(seps, 'n') && exists i :: 0 <= i < |fields| && 'n' in fields[i])
  {
    if fields != [] {
      ReadBackIsSame(seps, fields[0]);
      AllReadBackIsSame(seps, fields[1..]);
      assert fields == [fields[0]] + fields[1..];
      assert AllReadBack(seps, fields)[1..] == AllReadBack(seps, fields[1..]);
      if i :| 0 <= i < |fields| && 'n' in fields[i] {
        assert i == 0 || fields[1..][i - 1] == fields[i];
      }
      if i :| 0 <= i < |fields[1..]| && 'n' in fields[1..][i] {
        assert fields[i + 1] == fields[1..][i];
      }
    }
  }

  /** A printed list is read back as itself, except exactly when `n` is one of the escape or
      quote characters and some field contains an `n`. */
  lemma {:induction false} RoundTrip(seps: Separators, fields: seq<string>)
    requires Usable(seps) && fields != []
    ensures Tokens(seps, Printed(seps, fields)) == Ok(fields) <==>
            !(NeedsEscape(seps, 'n') && exists i :: 0 <= i < |fields| && 'n' in fields[i])
  {
    TokensOfPrinted(seps, fields, false);
    AllReadBackIsSame(seps, fields);
  }

  /** A list that is not read back as itself. */
  lemma {:induction false} QuotedByLetterN()
    ensures var seps := Separators("\\", ",", "n");
            Usable(seps) && Tokens(seps, Printed(seps, ["n"])) == Ok(["\n"])
  {
    var seps := Separators("\\", ",", "n");
    TokensOfPrinted(seps, ["n"], false);
    assert ReadBack(seps, "n") == "\n";
    assert AllReadBack(seps, ["n"]) == ["\n"];
  }

  // ---------------------------------------------------------------------------------
  // How many tokens, and when there are none to be had

  /** The delimiters that end a token: neither quoted nor escaped. */
  function Delimiters(seps: Separators, s: string, inQuote: bool): nat
    decreases |s|
  {
    if s == "" then 0
    else if s[0] in seps.escape then (if |s| == 1 then 0 else Delimiters(seps, s[2..], inQuote))
    else if s[0] in seps.delimiter then (if inQuote then 0 else 1) + Delimiters(seps, s[1..], inQuote)
    else if s[0] in seps.quote then Delimiters(seps, s[1..], !inQuote)
    else Delimiters(seps, s[1..], inQuote)
  }

  /** Every escape character that is not itself escaped is followed by something it may escape. */
  predicate WellEscaped(seps: Separators, s: string)
    decreases |s|
  {
    if s == "" then true
    else if s[0] in seps.escape then |s| > 1 && Unescape(seps, s[1]).Ok? && WellEscaped(seps, s[2..])
    else WellEscaped(seps, s[1..])
  }

  lemma {:induction false} ScanToDelimiter(seps: Separators, s: string, inQuote: bool, text: string, r: Result<Token>)
    requires r == Scan(seps, s, inQuote, text)
    ensures r.Err? ==> !WellEscaped(seps, s)
    ensures r.Ok? ==> (WellEscaped(seps, s) <==> WellEscaped(seps, r.value.rest))
    ensures r.Ok? ==> Delimiters(seps, s, inQuote) ==
                      if r.value.last then 1 + Delimiters(seps, r.value.rest, false) else 0
    decreases |s|
  {
    if s != "" {
      if s[0] in seps.escape {
        if |s| > 1 && Unescape(seps, s[1]).Ok? {
          ScanToDelimiter(seps, s[2..], inQuote, text + [Unescape(seps, s[1]).value], r);
        }
      } else if s[0] in seps.delimiter {
        if inQuote {
          ScanToDelimiter(seps, s[1..], inQuote, text + [s[0]], r);
        }
      } else if s[0] in seps.quote {
        ScanToDelimiter(seps, s[1..], !inQuote, text, r);
      } else {
        ScanToDelimiter(seps, s[1..], inQuote, text + [s[0]], r);
      }
    }
  }

  lemma {:induction false} RestIsCounted(seps: Separators, s: string, last: bool, r: Result<seq<string>>)
    requires r == Rest(seps, s, last)
    ensures r.Ok? <==> WellEscaped(seps, s)
    ensures r.Ok? ==> |r.value| == if s == "" && !last then 0 else Delimiters(seps, s, false) + 1
    decreases |s|
  {
    if s != "" {
      var scan := Scan(seps, s, false, "");
      ScanToDelimiter(seps, s, false, "", scan);
      if scan.Ok? {
        RestIsCounted(seps, scan.value.rest, scan.value.last, Rest(seps, scan.value.rest, scan.value.last));
      }
    }
  }

  /** The tokenizer accepts exactly the texts whose escapes are complete and known, and then gives
      one token more than there are free delimiters; an empty text has none. */
  lemma {:induction false} TokensAreCounted(seps: Separators, s: string, r: Result<seq<string>>)
    requires r == Tokens(seps, s)
    ensures r.Ok? <==> WellEscaped(seps, s)
    ensures r.Ok? ==> |r.value| == if s == "" then 0 else Delimiters(seps, s, false) + 1
  {
    RestIsCounted(seps, s, false, r);
  }

  /** Printing what was read from any text gives a text with the same tokens, with the same
      exception and no other. */
  lemma {:induction false} CanonicalText(seps: Separators, s: string, tokens: seq<string>)
    requires Usable(seps) && s != "" && Tokens(seps, s) == Ok(tokens)
    ensures tokens != []
    ensures Tokens(seps, Printed(seps, tokens)) == Ok(tokens) <==>
            !(NeedsEscape(seps, 'n') && exists i :: 0 <= i < |tokens| && 'n' in tokens[i])
  {
    TokensAreCounted(seps, s, Ok(tokens));
    RoundTrip(seps, tokens);
  }
}
