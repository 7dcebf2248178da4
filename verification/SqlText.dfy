// Identifiers and literals printed into SQL text, and the lexer rules of
// PostgreSQL that read them back (PostgreSQL documentation, sections 4.1.1 and
// 4.1.2.1, with standard-conforming strings).
module SqlText {
  import opened Wrappers

  // strings.ReplaceAll of one quote character by two.
  function Doubled(s: string, quote: char): string {
    if s == "" then "" else if s[0] == quote then [quote, quote] + Doubled(s[1..], quote) else [s[0]] + Doubled(s[1..], quote)
  }

  function QuoteIdent(s: string): string { "\"" + Doubled(s, '"') + "\"" }

  function QuoteQualified(schema: string, table: string): string {
    QuoteIdent(schema) + "." + QuoteIdent(table)
  }

  function EscapeLiteral(s: string): string { Doubled(s, '\'') }

  function Joined(cols: seq<string>): string {
    if cols == [] then ""
    else if |cols| == 1 then QuoteIdent(cols[0])
    else Joined(cols[..|cols| - 1]) + ", " + QuoteIdent(cols[|cols| - 1])
  }

  // The loop of JoinIdents: quote every column, then join.
  method JoinIdents(cols: seq<string>) returns (r: string)
    ensures r == Joined(cols)
  {
    r := "";
    for i := 0 to |cols|
      invariant r == Joined(cols[..i])
    {
      assert cols[..i + 1][..i] == cols[..i];
      r := if i == 0 then QuoteIdent(cols[i]) else r + ", " + QuoteIdent(cols[i]);
    }
    assert cols[..|cols|] == cols;
  }

  // The body of a quoted token, after its opening quote: two quotes stand for
  // one, a single one closes. The value and what follows the token.
  function LexBody(s: string, quote: char): (r: Option<(string, string)>)
    ensures r.Some? ==> |r.value.1| < |s|
  {
    if s == "" then None
    else if s[0] == quote then
      if |s| > 1 && s[1] == quote then
        match LexBody(s[2..], quote)
        case None => None
        case Some((v, rest)) => Some(([quote] + v, rest))
      else Some(("", s[1..]))
    else
      match LexBody(s[1..], quote)
      case None => None
      case Some((v, rest)) => Some(([s[0]] + v, rest))
  }

  function LexQuoted(s: string, quote: char): Option<(string, string)> {
    if s != "" && s[0] == quote then LexBody(s[1..], quote) else None
  }

  // A comma-separated list of quoted identifiers, to the end of the text.
  function LexIdents(s: string): Option<seq<string>>
    decreases |s|
  {
    if s == "" then Some([])
    else
      match LexQuoted(s, '"')
      case None => None
      case Some((v, rest)) =>
        if rest == "" then Some([v])
        else if |rest| >= 2 && rest[..2] == ", " && rest[2..] != "" then
          match LexIdents(rest[2..])
          case None => None
          case Some(vs) => Some([v] + vs)
        else None
  }

  // A doubled body closes at its own quote, whatever comes after, unless that is
  // another quote.
  lemma {:induction false} BodyLexes(s: string, quote: char, after: string)
    requires after == "" || after[0] != quote
    ensures LexBody(Doubled(s, quote) + [quote] + after, quote) == Some((s, after))
    decreases |s|
  {
    var t := Doubled(s, quote) + [quote] + after;
    if s == "" {
      assert t[1..] == after;
    } else {
      BodyLexes(s[1..], quote, after);
      var rest := Doubled(s[1..], quote) + [quote] + after;
      if s[0] == quote {
        assert t == [quote, quote] + rest;
        assert t[2..] == rest;
      } else {
        assert t == [s[0]] + rest;
        assert t[1..] == rest;
      }
      assert [s[0]] + s[1..] == s;
    }
  }

  // A quoted identifier reads back as the name, with whatever follows left over.
  lemma IdentLexes(s: string, after: string)
    requires after == "" || after[0] != '"'
    ensures LexQuoted(QuoteIdent(s) + after, '"') == Some((s, after))
  {
    BodyLexes(s, '"', after);
    assert (QuoteIdent(s) + after)[1..] == Doubled(s, '"') + "\"" + after;
  }

  // A qualified name reads back as its two parts around the dot.
  lemma QualifiedLexes(schema: string, table: string)
    ensures LexQuoted(QuoteQualified(schema, table), '"') == Some((schema, "." + QuoteIdent(table)))
    ensures LexQuoted(QuoteIdent(table), '"') == Some((table, ""))
  {
    IdentLexes(schema, "." + QuoteIdent(table));
    assert QuoteQualified(schema, table) == QuoteIdent(schema) + ("." + QuoteIdent(table));
    IdentLexes(table, "");
    assert QuoteIdent(table) + "" == QuoteIdent(table);
  }

  // An escaped literal between quotes reads back as the string.
  lemma LiteralLexes(s: string, after: string)
    requires after == "" || after[0] != '\''
    ensures LexQuoted("'" + EscapeLiteral(s) + "'" + after, '\'') == Some((s, after))
  {
    BodyLexes(s, '\'', after);
    assert ("'" + EscapeLiteral(s) + "'" + after)[1..] == EscapeLiteral(s) + "'" + after;
  }

  lemma {:induction false} JoinedFromFront(cols: seq<string>)
    requires |cols| > 1
    ensures Joined(cols) == QuoteIdent(cols[0]) + (", " + Joined(cols[1..]))
    decreases |cols|
  {
    var n := |cols| - 1;
    if n > 1 {
      JoinedFromFront(cols[..n]);
      assert cols[..n][1..] == cols[1..][..n - 1];
    }
  }

  // Every list of column names, whatever characters they contain, reads back
  // from its printed form.
  lemma {:induction false} JoinIdentsLexes(cols: seq<string>)
    ensures LexIdents(Joined(cols)) == Some(cols)
    decreases |cols|
  {
    if |cols| == 1 {
      IdentLexes(cols[0], "");
      assert QuoteIdent(cols[0]) + "" == QuoteIdent(cols[0]) && [cols[0]] == cols;
    } else if |cols| > 1 {
      JoinedFromFront(cols);
      var after := ", " + Joined(cols[1..]);
      IdentLexes(cols[0], after);
      assert after[2..] == Joined(cols[1..]) && after[..2] == ", ";
      JoinedNonEmpty(cols[1..]);
      JoinIdentsLexes(cols[1..]);
      assert [cols[0]] + cols[1..] == cols;
    }
  }

  lemma JoinedNonEmpty(cols: seq<string>)
    requires cols != []
    ensures Joined(cols) != ""
  {
  }
}
