/**
 How the pieces of a text are read, in terms of their characters alone. Together
 these cases say what every text is read as: one of them applies to the front of
 any text that is not empty.
 */
module TokenLaws {
  import opened Wrappers
  import opened Tokens

  lemma ReadsFirst(tok: Token, rest: string)
    requires WellFormed(tok, rest)
    ensures Lex(Source(tok) + rest) == [tok] + Lex(rest)
  {
    FirstTokenIs(tok, rest);
    assert (Source(tok) + rest)[|Source(tok)|..] == rest;
  }

  /** Any character is itself, but for quotes, percent signs and colons. */
  lemma ReadsPlain(c: char, rest: string)
    requires c != '"' && c != '\'' && c != '%' && c != ':'
    ensures Lex([c] + rest) == [Plain(c)] + Lex(rest)
  {
    ReadsFirst(Plain(c), rest);
  }

  /** A percent sign and one of three letters is a marker ... */
  lemma ReadsMarker(c: char, rest: string)
    requires c == 'v' || c == 'd' || c == 's'
    ensures Lex(['%', c] + rest) == [Marker(c)] + Lex(rest)
  {
    ReadsFirst(Marker(c), rest);
  }

  /** ... and anything else behind it, or nothing, is an error. */
  lemma ReadsBadMarker(rest: string)
    requires rest == "" || (rest[0] != 'v' && rest[0] != 'd' && rest[0] != 's')
    ensures Lex(['%'] + rest) == [BadMarker(['%'] + rest)]
  {
    ReadsFirst(BadMarker(['%'] + rest), "");
    assert ['%'] + rest + "" == ['%'] + rest;
    assert Lex("") == [];
  }

  /** A colon and all letters, digits and underscores behind it are a name ... */
  lemma ReadsName(name: string, rest: string)
    requires name != ""
    requires forall c | c in name :: 'a' <= c <= 'z' || 'A' <= c <= 'Z' || '0' <= c <= '9' || c == '_'
    requires rest != "" ==>
               !('a' <= rest[0] <= 'z') && !('A' <= rest[0] <= 'Z') && !('0' <= rest[0] <= '9') && rest[0] != '_'
    ensures Lex(([':'] + name) + rest) == [Name(name)] + Lex(rest)
  {
    WordOfLetters(name);
    ReadsFirst(Name(name), rest);
  }

  /** ... and without any it is an error. */
  lemma ReadsNoName(rest: string)
    requires rest != "" ==>
               !('a' <= rest[0] <= 'z') && !('A' <= rest[0] <= 'Z') && !('0' <= rest[0] <= '9') && rest[0] != '_'
    ensures Lex([':'] + rest) == [NoName([':'] + rest)]
  {
    assert ([':'] + rest)[1..] == rest;
    ReadsFirst(NoName([':'] + rest), "");
    assert [':'] + rest + "" == [':'] + rest;
    assert Lex("") == [];
  }

  /** The inside of a quoted string: characters other than the quote and the
      backslash, and backslashes with a character of any kind behind them. */
  predicate Inside(t: string, q: char) {
    t == ""
    || (t[0] == '\\' && |t| >= 2 && Inside(t[2..], q))
    || (t[0] != '\\' && t[0] != q && Inside(t[1..], q))
  }

  /** A quote is closed by the same quote behind such an inside. */
  lemma {:induction false} ClosesIff(t: string, i: nat, q: char, k: nat)
    requires i <= |t| && q != '\\'
    ensures CloseAt(t, i, q) == Some(k) <==> i < k <= |t| && t[k - 1] == q && Inside(t[i..k - 1], q)
    decreases |t| - i
  {
    if i < |t| {
      if t[i] == '\\' {
        if i + 2 <= |t| {
          ClosesIff(t, i + 2, q, k);
          assert i + 2 < k <= |t| ==> t[i..k - 1][2..] == t[i + 2..k - 1];
        }
      } else if t[i] != q {
        ClosesIff(t, i + 1, q, k);
        assert i + 1 < k <= |t| ==> t[i..k - 1][1..] == t[i + 1..k - 1];
      }
    }
  }

  lemma ReadsQuoted(q: char, inside: string, rest: string)
    requires (q == '"' || q == '\'') && Inside(inside, q)
    ensures Lex(([q] + inside + [q]) + rest) == [Quoted([q] + inside + [q])] + Lex(rest)
  {
    var text := [q] + inside + [q];
    ClosesIff(text, 1, q, |text|);
    assert text[1..|text| - 1] == inside;
    ReadsFirst(Quoted(text), rest);
  }

  /** And without one it is never closed. */
  lemma ReadsOpenQuote(q: char, rest: string)
    requires q == '"' || q == '\''
    requires forall k | 0 <= k < |rest| && rest[k] == q :: !Inside(rest[..k], q)
    ensures Lex([q] + rest) == [OpenQuote([q] + rest)]
  {
    var text := [q] + rest;
    forall k: nat | 1 < k <= |text| ensures CloseAt(text, 1, q) != Some(k) {
      assert text[1..k - 1] == rest[..k - 2] && text[k - 1] == rest[k - 2];
      ClosesIff(text, 1, q, k);
    }
    ReadsFirst(OpenQuote(text), "");
    assert text + "" == text && Lex("") == [];
  }
}
