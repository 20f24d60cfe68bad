/** A subset of Go's `strconv.Unquote`, which turns the source text of a Go
    string literal into the string it denotes ("String literals" in The Go
    Programming Language Specification).

    Covered: raw literals between back quotes (carriage returns dropped) and
    interpreted literals between double quotes with the one-character escapes
    `\a \b \f \n \r \t \v \\ \"`.  Escapes by code (`\x`, `\u`, `\U`, octal)
    and rune literals in single quotes are reported as failures here. */
module Strconv {
  import opened Wrappers

  /** The character a one-character escape inside double quotes stands for. */
  function SimpleEscape(c: char): Option<char>
  {
    match c
    case 'a' => Some('\U{0007}')
    case 'b' => Some('\U{0008}')
    case 'f' => Some('\U{000C}')
    case 'n' => Some('\n')
    case 'r' => Some('\r')
    case 't' => Some('\t')
    case 'v' => Some('\U{000B}')
    case '\\' => Some('\\')
    case '"' => Some('"')
    case _ => None
  }

  /** Decodes the text after an opening double quote; the literal must end
      exactly at the first unescaped double quote. */
  function UnquoteInterpreted(s: string): Option<string>
    decreases |s|
  {
    if s == [] then None
    else if s[0] == '"' then (if |s| == 1 then Some("") else None)
    else if s[0] == '\n' then None
    else if s[0] == '\\' then
      if |s| < 2 then None
      else match SimpleEscape(s[1])
        case None => None
        case Some(c) =>
          match UnquoteInterpreted(s[2..])
          case None => None
          case Some(r) => Some([c] + r)
    else
      match UnquoteInterpreted(s[1..])
      case None => None
      case Some(r) => Some([s[0]] + r)
  }

  function DropCarriageReturns(s: string): (r: string)
    ensures '\r' !in r
  {
    if s == [] then ""
    else (if s[0] == '\r' then "" else [s[0]]) + DropCarriageReturns(s[1..])
  }

  /** `strconv.Unquote(q)`: `None` stands for Go's `ErrSyntax`. */
  function Unquote(q: string): Option<string>
  {
    if |q| < 2 then None
    else if q[0] == '`' then
      if q[|q| - 1] == '`' && '`' !in q[1..|q| - 1] then Some(DropCarriageReturns(q[1..|q| - 1]))
      else None
    else if q[0] == '"' then UnquoteInterpreted(q[1..])
    else None
  }

  lemma {:induction false} UnquoteInterpretedPlain(s: string)
    requires forall i :: 0 <= i < |s| ==> s[i] != '"' && s[i] != '\\' && s[i] != '\n'
    ensures UnquoteInterpreted(s + "\"") == Some(s)
    decreases |s|
  {
    var q := s + "\"";
    if s != [] {
      assert q[0] == s[0] && q[1..] == s[1..] + "\"";
      UnquoteInterpretedPlain(s[1..]);
      assert s == [s[0]] + s[1..];
    } else {
      assert q == "\"";
    }
  }

  /** A double-quoted literal without escapes, quotes or newlines denotes
      its own text. */
  lemma QuotedRoundTrip(s: string)
    requires forall i :: 0 <= i < |s| ==> s[i] != '"' && s[i] != '\\' && s[i] != '\n'
    ensures Unquote("\"" + s + "\"") == Some(s)
  {
    assert ("\"" + s + "\"")[1..] == s + "\"";
    UnquoteInterpretedPlain(s);
  }

  lemma {:induction false} DropCarriageReturnsFree(s: string)
    requires '\r' !in s
    ensures DropCarriageReturns(s) == s
  {
    if s != [] {
      assert s == [s[0]] + s[1..];
      DropCarriageReturnsFree(s[1..]);
    }
  }

  /** A back-quoted literal without back quotes or carriage returns denotes
      its own text. */
  lemma RawRoundTrip(s: string)
    requires '`' !in s && '\r' !in s
    ensures Unquote("`" + s + "`") == Some(s)
  {
    var q := "`" + s + "`";
    assert q[1..|q| - 1] == s;
    DropCarriageReturnsFree(s);
  }

  /** An escaped character stands for itself after the backslash when it is
      a backslash or a double quote. */
  lemma EscapedQuote(rest: string)
    requires UnquoteInterpreted(rest).Some?
    ensures UnquoteInterpreted("\\\"" + rest) == Some("\"" + UnquoteInterpreted(rest).value)
  {
    assert ("\\\"" + rest)[2..] == rest;
  }
}
