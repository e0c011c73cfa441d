/**
 Rust token trees, and the cursor over them that the macro's parsers share. A `::` counts as
 one token; a word that the identifier parser refuses, being a Rust keyword or the underscore, is
 a keyword token. Spans and spacing are not modelled.
 */
module Tokens {
  import opened Wrappers

  datatype Delimiter = Paren | Brace | Bracket

  datatype Token =
    | Ident(name: string)
    | Keyword(name: string)
    | Punct(c: char)
    | PathSep
    | Literal(text: string)
    | Group(delimiter: Delimiter, inner: seq<Token>)

  /**
   What stands at the front of tokens where a type or a generic argument is due: a path the model
   reads itself, n tokens of a path type with parenthesised arguments, or n tokens of something that
   is no path type, such as a reference, a lifetime, a constant or an associated type.
   */
  datatype Reading = PlainPath | SpecialPath(n: nat) | NoPath(n: nat)

  /** What the macro leaves to Rust's own grammar: which tokens are an expression, and such readings. */
  datatype Grammar = Grammar(
    isExpression: seq<Token> -> bool, readType: seq<Token> -> Reading, readArgument: seq<Token> -> Reading)

  /** How a parser ends: with a value, with an error it returns, or by panicking. */
  datatype Outcome<+T> = Parsed(value: T) | Rejected | Panicked

  const COMMA := Punct(',')
  const COLON := Punct(':')
  const SEMICOLON := Punct(';')

  /** Words allowed in a path: identifiers and the path keywords. */
  predicate IsPathWord(t: Token) {
    t.Ident? || t == Keyword("super") || t == Keyword("self") || t == Keyword("Self") || t == Keyword("crate")
  }

  predicate PeekIdent(ts: seq<Token>) { ts != [] && ts[0].Ident? }

  predicate Peek(ts: seq<Token>, t: Token) { ts != [] && ts[0] == t }

  /** A parse buffer: the tokens not yet consumed. */
  class ParseBuffer {
    var rest: seq<Token>

    constructor (tokens: seq<Token>)
      ensures rest == tokens
    {
      rest := tokens;
    }

    method ParseIdent() returns (name: Option<string>)
      modifies this
      ensures name == (if PeekIdent(old(rest)) then Some(old(rest)[0].name) else None)
      ensures rest == if name.Some? then old(rest)[1..] else old(rest)
    {
      if PeekIdent(rest) {
        name, rest := Some(rest[0].name), rest[1..];
      } else {
        name := None;
      }
    }

    method ParseToken(t: Token) returns (ok: bool)
      modifies this
      ensures ok == Peek(old(rest), t)
      ensures rest == if ok then old(rest)[1..] else old(rest)
    {
      ok := Peek(rest, t);
      if ok { rest := rest[1..]; }
    }

    method ParseGroup(delimiter: Delimiter) returns (content: Option<seq<Token>>)
      modifies this
      ensures content == (if old(rest) != [] && old(rest)[0].Group? && old(rest)[0].delimiter == delimiter
        then Some(old(rest)[0].inner) else None)
      ensures rest == if content.Some? then old(rest)[1..] else old(rest)
    {
      if rest != [] && rest[0].Group? && rest[0].delimiter == delimiter {
        content, rest := Some(rest[0].inner), rest[1..];
      } else {
        content := None;
      }
    }
  }
}
