/**
 The placeholder language of SQL texts, read in one pass: what
 `sybase_query::init` (src/sybase_query.cpp) is meant to do, stated without its
 buffer and cursor.
 */
module Tokens {
  import opened Wrappers

  /** A piece of the text. The last three end a text that cannot be rewritten;
      `OpenQuote` is a quote that is never closed, on which the C++ scan reads
      past the end of its buffer. */
  datatype Token =
    | Plain(c: char)
    | Quoted(text: string)
    | Marker(kind: char)
    | Name(name: string)
    | BadMarker(text: string)
    | NoName(text: string)
    | OpenQuote(text: string)

  predicate IsQuote(c: char) {
    c == '"' || c == '\''
  }

  predicate IsMarkerKind(c: char) {
    c == 'v' || c == 'd' || c == 's'
  }

  /** `isalnum(c) || c == '_'`, in the C locale. */
  predicate IsWordChar(c: char) {
    'a' <= c <= 'z' || 'A' <= c <= 'Z' || '0' <= c <= '9' || c == '_'
  }

  /** Position just after the quote `q` that closes a span whose scan has
      reached `i`; a backslash hides the character after it. */
  function CloseAt(t: string, i: nat, q: char): (k: Option<nat>)
    ensures k.Some? ==> i < k.value <= |t|
    decreases |t| - i
  {
    if i >= |t| then None
    else if t[i] == '\\' then CloseAt(t, i + 2, q)
    else if t[i] == q then Some(i + 1)
    else CloseAt(t, i + 1, q)
  }

  /** Length of the longest prefix of word characters. */
  function WordLength(t: string): (k: nat)
    ensures k <= |t|
    ensures forall i | 0 <= i < k :: IsWordChar(t[i])
    ensures k < |t| ==> !IsWordChar(t[k])
  {
    if t != "" && IsWordChar(t[0]) then 1 + WordLength(t[1..]) else 0
  }

  /** The characters a token was read from. */
  function Source(tok: Token): string {
    match tok
    case Plain(c) => [c]
    case Quoted(text) => text
    case Marker(kind) => ['%', kind]
    case Name(name) => [':'] + name
    case BadMarker(text) => text
    case NoName(text) => text
    case OpenQuote(text) => text
  }

  function FirstToken(t: string): (tok: Token)
    requires t != ""
    ensures Source(tok) != "" && Source(tok) <= t
  {
    if IsQuote(t[0]) then
      match CloseAt(t, 1, t[0])
      case None => OpenQuote(t)
      case Some(k) => Quoted(t[..k])
    else if t[0] == '%' then
      if |t| > 1 && IsMarkerKind(t[1]) then Marker(t[1]) else BadMarker(t)
    else if t[0] == ':' then
      var k := WordLength(t[1..]);
      if k == 0 then NoName(t) else Name(t[1..][..k])
    else Plain(t[0])
  }

  function Lex(t: string): seq<Token>
    decreases |t|
  {
    if t == "" then []
    else
      var tok := FirstToken(t);
      [tok] + Lex(t[|Source(tok)|..])
  }

  // --------------------------------------------------- lexing is segmentation

  function Sources(ts: seq<Token>): string {
    if ts == [] then "" else Source(ts[0]) + Sources(ts[1..])
  }

  /** A token is what it claims to be, given the source text that follows. */
  predicate WellFormed(tok: Token, rest: string) {
    match tok
    case Plain(c) => !IsQuote(c) && c != '%' && c != ':'
    case Quoted(text) => text != "" && IsQuote(text[0]) && CloseAt(text, 1, text[0]) == Some(|text|)
    case Marker(kind) => IsMarkerKind(kind)
    case Name(name) => name != "" && WordLength(name) == |name| && (rest != "" ==> !IsWordChar(rest[0]))
    case BadMarker(text) => rest == "" && text != "" && text[0] == '%' && (|text| > 1 ==> !IsMarkerKind(text[1]))
    case NoName(text) => rest == "" && text != "" && text[0] == ':' && WordLength(text[1..]) == 0
    case OpenQuote(text) => rest == "" && text != "" && IsQuote(text[0]) && CloseAt(text, 1, text[0]) == None
  }

  predicate AllWellFormed(ts: seq<Token>) {
    ts == [] || (WellFormed(ts[0], Sources(ts[1..])) && AllWellFormed(ts[1..]))
  }

  lemma {:induction false} CloseAtPrefix(t: string, rest: string, i: nat, q: char)
    requires CloseAt(t, i, q).Some?
    ensures CloseAt(t + rest, i, q) == CloseAt(t, i, q)
    decreases |t| - i
  {
    if t[i] == '\\' {
      CloseAtPrefix(t, rest, i + 2, q);
    } else if t[i] != q {
      CloseAtPrefix(t, rest, i + 1, q);
    }
  }

  /** The converse: the position found lies where the prefix ends. */
  lemma {:induction false} CloseAtCut(t: string, i: nat, q: char)
    requires CloseAt(t, i, q).Some?
    ensures CloseAt(t[..CloseAt(t, i, q).value], i, q) == CloseAt(t, i, q)
    decreases |t| - i
  {
    if t[i] == '\\' {
      CloseAtCut(t, i + 2, q);
    } else if t[i] != q {
      CloseAtCut(t, i + 1, q);
    }
  }

  lemma {:induction false} WordLengthOf(name: string, rest: string)
    requires WordLength(name) == |name| && (rest != "" ==> !IsWordChar(rest[0]))
    ensures WordLength(name + rest) == |name|
  {
    if name == "" {
      assert name + rest == rest;
    } else {
      assert (name + rest)[1..] == name[1..] + rest;
      WordLengthOf(name[1..], rest);
    }
  }

  lemma {:induction false} WordOfLetters(name: string)
    requires forall c | c in name :: IsWordChar(c)
    ensures WordLength(name) == |name|
  {
    if name != "" {
      assert name[0] in name;
      WordOfLetters(name[1..]);
    }
  }

  lemma {:induction false} WordLengthCut(t: string)
    ensures WordLength(t[..WordLength(t)]) == WordLength(t)
  {
    var k := WordLength(t);
    if k > 0 {
      WordLengthCut(t[1..]);
      assert t[..k][1..] == t[1..][..k - 1];
    }
  }

  lemma FirstTokenWellFormed(t: string)
    requires t != ""
    ensures WellFormed(FirstToken(t), t[|Source(FirstToken(t))|..])
  {
    if IsQuote(t[0]) && CloseAt(t, 1, t[0]).Some? {
      CloseAtCut(t, 1, t[0]);
    } else if t[0] == ':' {
      WordLengthCut(t[1..]);
    }
  }

  lemma FirstTokenIs(tok: Token, rest: string)
    requires WellFormed(tok, rest)
    ensures Source(tok) + rest != "" && FirstToken(Source(tok) + rest) == tok
  {
    match tok {
      case Plain(_) =>
      case Marker(_) =>
      case Quoted(text) =>
        CloseAtPrefix(text, rest, 1, text[0]);
        assert (text + rest)[..|text|] == text;
      case Name(name) =>
        assert ([':'] + name + rest)[1..] == name + rest;
        WordLengthOf(name, rest);
        assert (name + rest)[..|name|] == name;
      case BadMarker(text) =>
        assert text + rest == text;
      case NoName(text) =>
        assert text + rest == text;
      case OpenQuote(text) =>
        assert text + rest == text;
    }
  }

  /** Lexing cuts the text into well-formed tokens without losing or adding a
      character ... */
  lemma {:induction false} LexCutsText(t: string)
    ensures Sources(Lex(t)) == t
    ensures AllWellFormed(Lex(t))
    decreases |t|
  {
    if t != "" {
      var tok := FirstToken(t);
      var rest := t[|Source(tok)|..];
      FirstTokenWellFormed(t);
      LexCutsText(rest);
      assert Lex(t)[1..] == Lex(rest);
    }
  }

  /** ... and it is the only way to cut the text so. */
  lemma {:induction false} LexIsUnique(ts: seq<Token>)
    requires AllWellFormed(ts)
    ensures Lex(Sources(ts)) == ts
  {
    if ts != [] {
      var rest := Sources(ts[1..]);
      LexIsUnique(ts[1..]);
      FirstTokenIs(ts[0], rest);
      assert (Source(ts[0]) + rest)[|Source(ts[0])|..] == rest;
    }
  }
}
