/** Printed objects: the scan for a closing brace ends where an object's text ends. */
module ObjectText {
  import opened Wrappers
  import opened TruncatedRecovery

  datatype StringChar = Raw(c: char) | Escaped(c: char)

  /** The pieces of an object text: single characters, strings and nested objects. */
  datatype Piece = Plain(c: char) | Quoted(chars: seq<StringChar>) | Nested(pieces: seq<Piece>)

  predicate IsStringChar(x: StringChar) {
    x.Raw? ==> x.c != '"' && x.c != '\\'
  }

  /** Outside strings braces only open and close objects; inside, quotes and backslashes are escaped. */
  predicate IsPiece(x: Piece) {
    match x
    case Plain(c) => c != '"' && c != '{' && c != '}'
    case Quoted(chars) => forall i :: 0 <= i < |chars| ==> IsStringChar(chars[i])
    case Nested(pieces) => forall i :: 0 <= i < |pieces| ==> IsPiece(pieces[i])
  }

  function StringText(chars: seq<StringChar>): string {
    if chars == [] then ""
    else (if chars[0].Raw? then [chars[0].c] else ['\\', chars[0].c]) + StringText(chars[1..])
  }

  function Text(x: Piece): string
    decreases x
  {
    match x
    case Plain(c) => [c]
    case Quoted(chars) => "\"" + StringText(chars) + "\""
    case Nested(pieces) => "{" + Texts(pieces) + "}"
  }

  function Texts(pieces: seq<Piece>): string
    decreases pieces
  {
    if pieces == [] then "" else Text(pieces[0]) + Texts(pieces[1..])
  }

  predicate HasFrom(s: string, i: nat, text: string) {
    i + |text| <= |s| && s[i..i + |text|] == text
  }

  lemma HasParts(s: string, i: nat, a: string, b: string)
    requires HasFrom(s, i, a + b)
    ensures HasFrom(s, i, a) && HasFrom(s, i + |a|, b)
  {
    assert s[i..i + |a|] == (a + b)[..|a|];
    assert s[i + |a|..i + |a| + |b|] == (a + b)[|a|..];
  }

  lemma {:induction false} StringIsSkipped(s: string, i: nat, chars: seq<StringChar>, d: nat)
    requires (forall k :: 0 <= k < |chars| ==> IsStringChar(chars[k])) && HasFrom(s, i, StringText(chars))
    ensures ObjectEnd(s, i, Scan(d, true, false)) == ObjectEnd(s, i + |StringText(chars)|, Scan(d, true, false))
    decreases chars
  {
    if chars != [] {
      var first := if chars[0].Raw? then [chars[0].c] else ['\\', chars[0].c];
      HasParts(s, i, first, StringText(chars[1..]));
      CharIsSkipped(s, i, chars[0], first, d);
      StringIsSkipped(s, i + |first|, chars[1..], d);
    }
  }

  lemma CharIsSkipped(s: string, i: nat, x: StringChar, text: string, d: nat)
    requires IsStringChar(x) && text == (if x.Raw? then [x.c] else ['\\', x.c]) && HasFrom(s, i, text)
    ensures ObjectEnd(s, i, Scan(d, true, false)) == ObjectEnd(s, i + |text|, Scan(d, true, false))
  {
    assert s[i] == s[i..i + |text|][0];
    if x.Escaped? {
      assert s[i + 1] == s[i..i + |text|][1];
      assert ObjectEnd(s, i, Scan(d, true, false)) == ObjectEnd(s, i + 1, Scan(d, true, true));
    }
  }

  /** Inside an object, a piece leaves the scan where it was. */
  lemma {:induction false} PieceIsSkipped(s: string, i: nat, x: Piece, d: nat)
    requires IsPiece(x) && d >= 1 && HasFrom(s, i, Text(x))
    ensures ObjectEnd(s, i, Scan(d, false, false)) == ObjectEnd(s, i + |Text(x)|, Scan(d, false, false))
    decreases x, 0
  {
    match x
    case Plain(c) => assert s[i] == s[i..i + 1][0];
    case Quoted(chars) => QuotedIsSkipped(s, i, chars, d);
    case Nested(pieces) =>
      NestedParts(s, i, pieces);
      PiecesAreSkipped(s, i + 1, pieces, d + 1);
      NestedIsSkipped(s, i, |Texts(pieces)|, d);
  }

  lemma QuotedIsSkipped(s: string, i: nat, chars: seq<StringChar>, d: nat)
    requires IsPiece(Quoted(chars)) && d >= 1 && HasFrom(s, i, Text(Quoted(chars)))
    ensures ObjectEnd(s, i, Scan(d, false, false)) == ObjectEnd(s, i + |Text(Quoted(chars))|, Scan(d, false, false))
  {
    var n := |StringText(chars)|;
    assert "\"" + (StringText(chars) + "\"") == Text(Quoted(chars));
    HasParts(s, i, "\"", StringText(chars) + "\"");
    HasParts(s, i + 1, StringText(chars), "\"");
    assert s[i] == s[i..i + 1][0] && s[i + 1 + n] == s[i + 1 + n..i + 1 + n + 1][0];
    StringIsSkipped(s, i + 1, chars, d);
    QuotesAreSkipped(s, i, n, d);
  }

  lemma QuotesAreSkipped(s: string, i: nat, n: nat, d: nat)
    requires d >= 1 && i + 1 + n < |s| && s[i] == '"' && s[i + 1 + n] == '"'
    requires ObjectEnd(s, i + 1, Scan(d, true, false)) == ObjectEnd(s, i + 1 + n, Scan(d, true, false))
    ensures ObjectEnd(s, i, Scan(d, false, false)) == ObjectEnd(s, i + 1 + n + 1, Scan(d, false, false))
  {
  }

  lemma NestedIsSkipped(s: string, i: nat, n: nat, d: nat)
    requires d >= 1 && i + 1 + n < |s| && s[i] == '{' && s[i + 1 + n] == '}'
    requires ObjectEnd(s, i + 1, Scan(d + 1, false, false)) == ObjectEnd(s, i + 1 + n, Scan(d + 1, false, false))
    ensures ObjectEnd(s, i, Scan(d, false, false)) == ObjectEnd(s, i + 1 + n + 1, Scan(d, false, false))
  {
  }

  lemma NestedParts(s: string, i: nat, pieces: seq<Piece>)
    requires HasFrom(s, i, Text(Nested(pieces)))
    ensures s[i] == '{' && HasFrom(s, i + 1, Texts(pieces)) && s[i + 1 + |Texts(pieces)|] == '}'
    ensures |Text(Nested(pieces))| == |Texts(pieces)| + 2
  {
    var text := Text(Nested(pieces));
    assert text == "{" + (Texts(pieces) + "}");
    HasParts(s, i, "{", Texts(pieces) + "}");
    HasParts(s, i + 1, Texts(pieces), "}");
    var close := i + 1 + |Texts(pieces)|;
    assert s[i] == s[i..i + 1][0] && s[close] == s[close..close + 1][0];
  }

  lemma {:induction false} PiecesAreSkipped(s: string, i: nat, pieces: seq<Piece>, d: nat)
    requires (forall k :: 0 <= k < |pieces| ==> IsPiece(pieces[k])) && d >= 1 && HasFrom(s, i, Texts(pieces))
    ensures ObjectEnd(s, i, Scan(d, false, false)) == ObjectEnd(s, i + |Texts(pieces)|, Scan(d, false, false))
    decreases pieces, 1
  {
    if pieces != [] {
      HasParts(s, i, Text(pieces[0]), Texts(pieces[1..]));
      PieceIsSkipped(s, i, pieces[0], d);
      PiecesAreSkipped(s, i + |Text(pieces[0])|, pieces[1..], d);
    }
  }

  /** The scan of a printed object ends exactly at its closing brace, whatever the object nests or quotes. */
  lemma PrintedObjectsAreClosed(p: string, pieces: seq<Piece>, more: string)
    requires IsPiece(Nested(pieces))
    ensures var text := Text(Nested(pieces));
      ObjectEnd(p + text + more, |p|, OUTSIDE) == Some(|p + text|)
  {
    var text := Text(Nested(pieces));
    var s := p + text + more;
    assert s[|p|..|p| + |text|] == text;
    NestedParts(s, |p|, pieces);
    PiecesAreSkipped(s, |p| + 1, pieces, 1);
  }
}
