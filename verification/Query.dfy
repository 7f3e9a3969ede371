/**
 The placeholder rewriter (`sybase_query::init`, src/sybase_query.cpp) and the
 binding loop that must agree with it (`command::set_params`, src/command.cpp).
 */
module Query {
  import opened Wrappers
  import opened Decimal
  import opened Tokens

  const NUL: char := '\0'

  /** How `set_params` treats a value bound for `%v`: most values are bound and
      the loop goes on; a hash with an explicit "date" type is bound and ends
      the loop; a value of an unknown type raises an error. */
  datatype Bind = Bound | BoundThenStop | Rejected

  /** An argument: its rendering for `%d`, its rendering for `%s` (which can
      fail), both C strings, and its treatment for `%v`. */
  datatype Arg = Arg(numeric: string, text: Option<string>, bind: Bind)

  /** The argument list, if any, and how an absent entry is treated. */
  datatype Args = Args(items: Option<seq<Arg>>, absent: Arg) {
    /** `args ? args->retrieveEntry(i) : QoreValue()` */
    function Entry(i: nat): Arg {
      if items.Some? && i < |items.value| then items.value[i] else absent
    }
  }

  datatype QueryError = MarkerExpected | NameMissing | NotRendered | Overrun

  /** The state `init` builds: the text so far and the two lists. */
  datatype Rewritten = Rewritten(text: string, params: seq<char>, placeholders: seq<string>)

  // ---------------------------------------------------- the one-pass meaning

  function ParName(i: nat): string {
    "@par" + Digits(i + 1)
  }

  /** What a token turns into when `n` markers precede it. */
  function Image(tok: Token, n: nat, args: Args): Result<string, QueryError> {
    match tok
    case Plain(c) => Ok([c])
    case Quoted(text) => Ok(text)
    case Marker(kind) =>
      if kind == 'v' then Ok(ParName(n))
      else if kind == 'd' then Ok(args.Entry(n).numeric)
      else if args.Entry(n).text.Some? then Ok(args.Entry(n).text.value)
      else Err(NotRendered)
    case Name(name) => Ok("@" + name)
    case BadMarker(_) => Err(MarkerExpected)
    case NoName(_) => Err(NameMissing)
    case OpenQuote(_) => Err(Overrun)
  }

  /** A marker is recorded as 'v' when a value is to be bound for it, and as
      'd' when its text was substituted. */
  function Recorded(tok: Token): seq<char> {
    if tok.Marker? then (if tok.kind == 'v' then ['v'] else ['d']) else []
  }

  function Named(tok: Token): seq<string> {
    if tok.Name? then [tok.name] else []
  }

  /** One token's effect on what has been built. */
  function Step(q: Rewritten, tok: Token, args: Args): Result<Rewritten, QueryError> {
    match Image(tok, |q.params|, args)
    case Err(e) => Err(e)
    case Ok(image) => Ok(Rewritten(q.text + image, q.params + Recorded(tok), q.placeholders + Named(tok)))
  }

  function RenderFrom(q: Rewritten, ts: seq<Token>, args: Args): Result<Rewritten, QueryError>
    decreases |ts|
  {
    if ts == [] then Ok(q)
    else
      var r := Step(q, ts[0], args);
      if r.Err? then r else RenderFrom(r.value, ts[1..], args)
  }

  /** The rewriting of a text: the concatenated images of its tokens. */
  function Rewrite(text: string, args: Args): Result<Rewritten, QueryError> {
    RenderFrom(Rewritten("", [], []), Lex(text), args)
  }

  lemma RenderStep(q: Rewritten, t: string, args: Args)
    requires t != ""
    ensures var r := Step(q, FirstToken(t), args);
            RenderFrom(q, Lex(t), args) ==
            if r.Err? then r else RenderFrom(r.value, Lex(t[|Source(FirstToken(t))|..]), args)
  {
    var tok := FirstToken(t);
    assert Lex(t)[1..] == Lex(t[|Source(tok)|..]);
  }

  lemma {:induction false} CloseAtShift(t: string, o: nat, i: nat, q: char)
    requires o <= |t|
    ensures CloseAt(t, o + i, q).Some? <==> CloseAt(t[o..], i, q).Some?
    ensures CloseAt(t[o..], i, q).Some? ==> CloseAt(t, o + i, q).value == o + CloseAt(t[o..], i, q).value
    decreases |t| - i
  {
    if o + i < |t| {
      if t[o + i] == '\\' {
        CloseAtShift(t, o, i + 2, q);
      } else if t[o + i] != q {
        CloseAtShift(t, o, i + 1, q);
      }
    }
  }

  // ----------------------------------------------------- the in-place scanner

  /** The character at the cursor; the buffer is NUL-terminated. */
  function At(cmd: string, s: nat): char
    requires s <= |cmd|
  {
    if s < |cmd| then cmd[s] else NUL
  }

  /** The loop that skips a quoted string (the same for both quotes). */
  method SkipQuoted(cmd: string, start: nat, quote: char) returns (s: nat)
    requires CloseAt(cmd, start, quote).Some?
    ensures CloseAt(cmd, start, quote) == Some(s)
  {
    s := start;
    while true
      invariant CloseAt(cmd, s, quote) == CloseAt(cmd, start, quote)
      decreases |cmd| - s
    {
      var ch := At(cmd, s);
      s := s + 1;
      if ch == '\\' {
        s := s + 1;
        continue;
      }
      if ch == quote {
        return;
      }
    }
  }

  /** The loop that reads a placeholder name. */
  method SkipWord(cmd: string, start: nat) returns (s: nat)
    requires start <= |cmd|
    ensures s == start + WordLength(cmd[start..])
  {
    s := start;
    while s < |cmd| && IsWordChar(At(cmd, s))
      invariant start <= s <= |cmd|
      invariant (s - start) + WordLength(cmd[s..]) == WordLength(cmd[start..])
    {
      assert cmd[s..][1..] == cmd[s + 1..];
      s := s + 1;
    }
  }

  class SybaseQuery {
    var cmd: string
    var paramList: seq<char>
    var placeholders: seq<string>

    constructor ()
      ensures State() == Rewritten("", [], [])
    {
      cmd, paramList, placeholders := "", [], [];
    }

    function State(): Rewritten
      reads this
    {
      Rewritten(cmd, paramList, placeholders)
    }

    /** Scans the text once, replacing markers in the buffer as it goes. The
        scan is defined for texts on which it does not run off the end of an
        unclosed quote. The buffer can grow, but what is unread of the original
        text shrinks with every token. */
    method Init(text: string, args: Args) returns (r: Result<(), QueryError>)
      requires NUL !in text
      requires paramList == [] && placeholders == []
      requires Rewrite(text, args) != Err(Overrun)
      modifies this
      ensures r.Ok? ==> Rewrite(text, args) == Ok(State())
      ensures r.Err? ==> Rewrite(text, args) == Err(r.error)
    {
      cmd := text;
      var s: nat := 0;
      assert cmd[0..] == text;
      while At(cmd, s) != NUL
        invariant OnTrack(State(), s, text, args)
        decreases |cmd| - s
      {
        var ch := At(cmd, s);
        if ch == '"' || ch == '\'' {
          s := ScanQuoted(s, ch, text, args);
        } else if ch == '%' {
          var scanned := ScanMarker(s, text, args);
          if scanned.Err? {
            return Err(scanned.error);
          }
          s := scanned.value;
        } else if ch == ':' {
          var scanned := ScanName(s, text, args);
          if scanned.Err? {
            return Err(scanned.error);
          }
          s := scanned.value;
        } else {
          KeptSpan(State(), s, s + 1, args);
          Advance(State(), s, State(), s + 1, text, args);
          s := s + 1;
        }
      }
      assert cmd[..s] == cmd;
      r := Ok(());
    }

    /** The loops over a quoted string, which is left as it is. */
    method ScanQuoted(offset: nat, quote: char, ghost text: string, args: Args) returns (s: nat)
      requires OnTrack(State(), offset, text, args) && offset < |cmd|
      requires Rewrite(text, args) != Err(Overrun)
      requires cmd[offset] == quote && IsQuote(quote)
      ensures OnTrack(State(), s, text, args) && offset < s
    {
      if CloseAt(cmd[offset..], 1, quote).None? {
        Rejects(State(), offset, text, args);
        assert false;
      }
      CloseAtShift(cmd, offset, 1, quote);
      s := SkipQuoted(cmd, offset + 1, quote);
      KeptSpan(State(), offset, s, args);
      Advance(State(), offset, State(), s, text, args);
    }

    /** The branch that replaces `%v`, `%d` or `%s` in the buffer and moves the
        cursor past the replacement. */
    method ScanMarker(offset: nat, ghost text: string, args: Args) returns (r: Result<nat, QueryError>)
      requires OnTrack(State(), offset, text, args) && offset < |cmd| && cmd[offset] == '%'
      modifies this
      ensures r.Ok? ==> OnTrack(State(), r.value, text, args) && |cmd| - r.value < old(|cmd|) - offset
      ensures r.Err? ==> Rewrite(text, args) == Err(r.error)
    {
      ghost var q := State();
      ghost var tok := FirstToken(cmd[offset..]);
      if Step(Consumed(q, offset), tok, args).Err? {
        Rejects(q, offset, text, args);
      }
      var ch := At(cmd, offset + 1);
      var tmp;
      if ch == 'v' {
        paramList := paramList + ['v'];
        tmp := "@par" + Digits(|paramList|);
      } else if ch == 'd' {
        tmp := args.Entry(|paramList|).numeric;
        paramList := paramList + ['d'];
      } else if ch == 's' {
        if args.Entry(|paramList|).text.None? {
          return Err(NotRendered);
        }
        tmp := args.Entry(|paramList|).text.value;
        paramList := paramList + ['d'];
      } else {
        return Err(MarkerExpected);
      }
      MarkerSpan(q, offset, tmp, args);
      cmd := cmd[..offset] + tmp + cmd[offset + 2..];
      Advance(q, offset, State(), offset + |tmp|, text, args);
      return Ok(offset + |tmp|);
    }

    /** The branch that reads a placeholder name and turns its ':' into '@'. */
    method ScanName(offset: nat, ghost text: string, args: Args) returns (r: Result<nat, QueryError>)
      requires OnTrack(State(), offset, text, args) && offset < |cmd| && cmd[offset] == ':'
      modifies this
      ensures r.Ok? ==> OnTrack(State(), r.value, text, args) && |cmd| - r.value < old(|cmd|) - offset
      ensures r.Err? ==> Rewrite(text, args) == Err(r.error)
    {
      ghost var q := State();
      var start := offset + 1;
      var s := SkipWord(cmd, start);
      if s == start {
        Rejects(q, offset, text, args);
        return Err(NameMissing);
      }
      NameSpan(q, offset, s, args);
      placeholders := placeholders + [cmd[start..s]];
      cmd := cmd[..offset] + "@" + cmd[start..];
      Advance(q, offset, State(), s, text, args);
      return Ok(s);
    }
  }

  /** The part of the buffer before the cursor. */
  ghost function Consumed(q: Rewritten, s: nat): Rewritten
    requires s <= |q.text|
  {
    q.(text := q.text[..s])
  }

  /** The loop invariant: rendering the unread original suffix after what has
      been produced gives the whole result. */
  ghost predicate OnTrack(q: Rewritten, s: nat, text: string, args: Args) {
    && s <= |q.text|
    && NUL !in q.text[s..]
    && RenderFrom(Consumed(q, s), Lex(q.text[s..]), args) == Rewrite(text, args)
  }

  lemma Rejects(q: Rewritten, s: nat, text: string, args: Args)
    requires OnTrack(q, s, text, args) && s < |q.text|
    requires Step(Consumed(q, s), FirstToken(q.text[s..]), args).Err?
    ensures Rewrite(text, args) == Step(Consumed(q, s), FirstToken(q.text[s..]), args)
  {
    RenderStep(Consumed(q, s), q.text[s..], args);
  }

  lemma Advance(q: Rewritten, s: nat, q': Rewritten, s': nat, text: string, args: Args)
    requires OnTrack(q, s, text, args) && s < |q.text| && s' <= |q'.text|
    requires Step(Consumed(q, s), FirstToken(q.text[s..]), args) == Ok(Consumed(q', s'))
    requires q'.text[s'..] == q.text[s..][|Source(FirstToken(q.text[s..]))|..]
    ensures OnTrack(q', s', text, args)
    ensures |q'.text| - s' < |q.text| - s
  {
    var tok := FirstToken(q.text[s..]);
    RenderStep(Consumed(q, s), q.text[s..], args);
    assert q'.text[s'..] == q.text[s + |Source(tok)|..];
    assert |q'.text[s'..]| == |q.text| - s - |Source(tok)|;
  }

  /** A plain character or a quoted string is passed over. */
  lemma KeptSpan(q: Rewritten, s: nat, s': nat, args: Args)
    requires s < s' <= |q.text|
    requires var tok := FirstToken(q.text[s..]); (tok.Plain? || tok.Quoted?) && |Source(tok)| == s' - s
    ensures Step(Consumed(q, s), FirstToken(q.text[s..]), args) == Ok(Consumed(q, s'))
    ensures q.text[s'..] == q.text[s..][s' - s..]
  {
    var tok := FirstToken(q.text[s..]);
    assert Source(tok) == q.text[s..s'];
    assert q.text[..s] + q.text[s..s'] == q.text[..s'];
    assert q.params + [] == q.params && q.placeholders + [] == q.placeholders;
  }

  /** A marker is replaced by its image. */
  lemma MarkerSpan(q: Rewritten, s: nat, image: string, args: Args)
    requires s + 2 <= |q.text|
    requires var tok := FirstToken(q.text[s..]);
             tok.Marker? && Image(tok, |q.params|, args) == Ok(image)
    ensures var tok := FirstToken(q.text[s..]);
            var q' := Rewritten(q.text[..s] + image + q.text[s + 2..], q.params + Recorded(tok), q.placeholders);
            && Step(Consumed(q, s), tok, args) == Ok(Consumed(q', s + |image|))
            && q'.text[s + |image|..] == q.text[s..][2..]
  {
    assert q.placeholders + [] == q.placeholders;
  }

  /** Overwriting the ':' alone replaces the whole placeholder by its image. */
  lemma NameSpan(q: Rewritten, s: nat, s': nat, args: Args)
    requires s + 1 < s' <= |q.text| && q.text[s] == ':'
    requires s' - (s + 1) == WordLength(q.text[s + 1..])
    ensures var tok := FirstToken(q.text[s..]);
            var name := q.text[s + 1..s'];
            var q' := Rewritten(q.text[..s] + "@" + q.text[s + 1..], q.params, q.placeholders + [name]);
            && tok == Name(name)
            && Step(Consumed(q, s), tok, args) == Ok(Consumed(q', s'))
            && q'.text[s'..] == q.text[s..][s' - s..]
  {
    var name := q.text[s + 1..s'];
    assert q.text[s..][1..] == q.text[s + 1..];
    assert q.text[s + 1..][..s' - (s + 1)] == name;
    assert q.params + [] == q.params;
    assert (q.text[..s] + "@" + q.text[s + 1..])[..s'] == q.text[..s] + ("@" + name);
  }

  // ------------------------------------------------------------- set_params

  datatype Binding = Binding(name: string, value: Arg)

  /** One binding for every marker recorded as 'v', in order, each named after
      its own position and given the argument at that position. */
  function AllBindings(params: seq<char>, args: Args, i: nat): seq<Binding>
    requires i <= |params|
    decreases |params| - i
  {
    if i == |params| then []
    else if params[i] == 'd' then AllBindings(params, args, i + 1)
    else [Binding(ParName(i), args.Entry(i))] + AllBindings(params, args, i + 1)
  }

  /** What the loop binds from position `i` on, early exits included. */
  function LoopBindings(params: seq<char>, args: Args, i: nat): Result<seq<Binding>, ()>
    requires i <= |params|
    decreases |params| - i
  {
    if i == |params| then Ok([])
    else if params[i] == 'd' then LoopBindings(params, args, i + 1)
    else
      match args.Entry(i).bind
      case Rejected => Err(())
      case BoundThenStop => Ok([Binding(ParName(i), args.Entry(i))])
      case Bound => Prepended([Binding(ParName(i), args.Entry(i))], LoopBindings(params, args, i + 1))
  }

  function Prepended(bs: seq<Binding>, r: Result<seq<Binding>, ()>): Result<seq<Binding>, ()> {
    if r.Err? then r else Ok(bs + r.value)
  }

  lemma PrependedTwice(bs: seq<Binding>, cs: seq<Binding>, r: Result<seq<Binding>, ()>)
    ensures Prepended(bs, Prepended(cs, r)) == Prepended(bs + cs, r)
    ensures Prepended([], r) == r
  {
    if r.Ok? {
      assert bs + (cs + r.value) == bs + cs + r.value;
      assert [] + r.value == r.value;
    }
  }

  method SetParams(params: seq<char>, args: Args) returns (r: Result<seq<Binding>, ()>)
    ensures r == LoopBindings(params, args, 0)
  {
    var bound: seq<Binding> := [];
    PrependedTwice([], [], LoopBindings(params, args, 0));
    for i := 0 to |params|
      invariant LoopBindings(params, args, 0) == Prepended(bound, LoopBindings(params, args, i))
    {
      if params[i] == 'd' {
        continue;
      }
      var val := args.Entry(i);
      if val.bind == Rejected {
        return Err(());
      }
      PrependedTwice(bound, [Binding(ParName(i), val)], LoopBindings(params, args, i + 1));
      bound := bound + [Binding("@par" + Digits(i + 1), val)];
      if val.bind == BoundThenStop {
        return Ok(bound);
      }
    }
    assert bound + [] == bound;
    return Ok(bound);
  }

  /** What `bind_query` binds: without an argument list the loop never runs,
      whatever names the text holds. */
  function BoundBy(params: seq<char>, args: Args): Result<seq<Binding>, ()> {
    if args.items.None? then Ok([]) else LoopBindings(params, args, 0)
  }

  /** The binding part of `bind_query`. */
  method BindQuery(params: seq<char>, args: Args) returns (r: Result<seq<Binding>, ()>)
    ensures r == BoundBy(params, args)
  {
    r := Ok([]);
    if args.items.Some? {
      r := SetParams(params, args);
    }
  }
}
