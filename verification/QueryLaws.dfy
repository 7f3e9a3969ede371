/** What the rewriting promises: which texts it accepts, what it outputs, and
    that the names it writes are the names later bound. */
module QueryLaws {
  import opened Wrappers
  import opened Decimal
  import opened Tokens
  import opened Query

  /** Number of markers among the tokens. */
  function Markers(ts: seq<Token>): nat {
    if ts == [] then 0 else Markers(ts[..|ts| - 1]) + (if ts[|ts| - 1].Marker? then 1 else 0)
  }

  /** Whether token `i` can be rendered; it sees only the number of markers
      before it, never the text substituted for them. */
  predicate Renders(ts: seq<Token>, i: nat, args: Args)
    requires i < |ts|
  {
    Image(ts[i], Markers(ts[..i]), args).Ok?
  }

  predicate AllRender(ts: seq<Token>, args: Args) {
    forall j | 0 <= j < |ts| :: Renders(ts, j, args)
  }

  /** The images of all tokens, side by side. */
  function Images(ts: seq<Token>, args: Args): string
    requires AllRender(ts, args)
  {
    if ts == [] then ""
    else
      var last := |ts| - 1;
      RendersPrefix(ts, last, args);
      assert Renders(ts, last, args);
      Images(ts[..last], args) + Image(ts[last], Markers(ts[..last]), args).value
  }

  lemma RendersPrefix(ts: seq<Token>, n: nat, args: Args)
    requires n <= |ts|
    ensures forall i | 0 <= i < n :: Renders(ts[..n], i, args) == Renders(ts, i, args)
  {
    forall i | 0 <= i < n ensures Renders(ts[..n], i, args) == Renders(ts, i, args) {
      assert ts[..n][..i] == ts[..i];
    }
  }

  function RecordedAll(ts: seq<Token>): seq<char> {
    if ts == [] then [] else RecordedAll(ts[..|ts| - 1]) + Recorded(ts[|ts| - 1])
  }

  function NamedAll(ts: seq<Token>): seq<string> {
    if ts == [] then [] else NamedAll(ts[..|ts| - 1]) + Named(ts[|ts| - 1])
  }

  lemma {:induction false} RecordedCount(ts: seq<Token>)
    ensures |RecordedAll(ts)| == Markers(ts)
  {
    if ts != [] {
      RecordedCount(ts[..|ts| - 1]);
    }
  }

  /** The scan's state after the tokens of `ts`. */
  function StateAfter(ts: seq<Token>, args: Args): Rewritten
    requires AllRender(ts, args)
  {
    Rewritten(Images(ts, args), RecordedAll(ts), NamedAll(ts))
  }

  /** One token more. */
  lemma RenderNext(ts: seq<Token>, tok: Token, args: Args)
    requires AllRender(ts, args)
    ensures AllRender(ts + [tok], args) <==> Step(StateAfter(ts, args), tok, args).Ok?
    ensures AllRender(ts + [tok], args) ==> Step(StateAfter(ts, args), tok, args) == Ok(StateAfter(ts + [tok], args))
  {
    var more, n := ts + [tok], |ts|;
    RecordedCount(ts);
    RendersPrefix(more, n, args);
    assert more[..n] == ts && more[n] == tok;
    assert Renders(more, n, args) <==> Step(StateAfter(ts, args), tok, args).Ok?;
    forall i | 0 <= i < n ensures Renders(more, i, args) {
      assert Renders(ts, i, args);
    }
  }

  lemma RenderPrefix(ts: seq<Token>, n: nat, args: Args)
    requires n <= |ts| && AllRender(ts, args)
    ensures AllRender(ts[..n], args)
  {
    RendersPrefix(ts, n, args);
    forall i | 0 <= i < n ensures Renders(ts[..n], i, args) {
      assert Renders(ts, i, args);
    }
  }

  /** The scan's state after the tokens of `done` is the one-shot rendering of
      `done`, and it fails from there exactly on a token that cannot render. */
  lemma {:induction false} RenderMeans(done: seq<Token>, rest: seq<Token>, args: Args)
    requires AllRender(done, args)
    ensures var r := RenderFrom(StateAfter(done, args), rest, args);
            && (r.Ok? <==> AllRender(done + rest, args))
            && (r.Ok? ==> r.value == StateAfter(done + rest, args))
    decreases |rest|
  {
    if rest == [] {
      assert done + rest == done;
    } else {
      var more := done + [rest[0]];
      assert more + rest[1..] == done + rest;
      assert (done + rest)[..|more|] == more;
      RenderNext(done, rest[0], args);
      if AllRender(done + rest, args) {
        RenderPrefix(done + rest, |more|, args);
      }
      if AllRender(more, args) {
        RenderMeans(more, rest[1..], args);
      }
    }
  }

  /** A text is accepted exactly when every one of its tokens renders, and then
      the output is the tokens' images in order. */
  lemma RewriteMeans(text: string, args: Args)
    ensures var ts := Lex(text);
            && (Rewrite(text, args).Ok? <==> AllRender(ts, args))
            && (Rewrite(text, args).Ok? ==>
                  Rewrite(text, args).value == Rewritten(Images(ts, args), RecordedAll(ts), NamedAll(ts)))
  {
    RenderMeans([], Lex(text), args);
    assert [] + Lex(text) == Lex(text);
  }

  /** The images of the tokens from `i` on, side by side. */
  function ImagesFrom(ts: seq<Token>, i: nat, args: Args): string
    requires i <= |ts| && AllRender(ts, args)
    decreases |ts| - i
  {
    if i == |ts| then ""
    else
      assert Renders(ts, i, args);
      Image(ts[i], Markers(ts[..i]), args).value + ImagesFrom(ts, i + 1, args)
  }

  lemma {:induction false} ImagesSplit(ts: seq<Token>, i: nat, args: Args)
    requires i <= |ts| && AllRender(ts, args)
    ensures AllRender(ts[..i], args)
    ensures Images(ts, args) == Images(ts[..i], args) + ImagesFrom(ts, i, args)
    decreases |ts| - i
  {
    RenderPrefix(ts, i, args);
    if i == |ts| {
      assert ts[..i] == ts;
    } else {
      ImagesSplit(ts, i + 1, args);
      var more := ts[..i + 1];
      assert more[..i] == ts[..i] && more[i] == ts[i];
      assert Renders(ts, i, args);
      assert Images(more, args) == Images(ts[..i], args) + Image(ts[i], Markers(ts[..i]), args).value;
    }
  }

  /** The characters of a Transact-SQL identifier, ASCII only. */
  predicate IsIdChar(c: char) {
    IsWordChar(c) || c == '@' || c == '#' || c == '$'
  }

  /** Length of the longest prefix, and of the longest suffix, of such. */
  function RunLength(t: string): (k: nat)
    ensures k <= |t| && (k == 0 <==> t == "" || !IsIdChar(t[0]))
  {
    if t != "" && IsIdChar(t[0]) then 1 + RunLength(t[1..]) else 0
  }

  function RunBack(t: string): (k: nat)
    ensures k <= |t| && (k == 0 <==> t == "" || !IsIdChar(t[|t| - 1]))
  {
    if t != "" && IsIdChar(t[|t| - 1]) then 1 + RunBack(t[..|t| - 1]) else 0
  }

  /** The identifier a reader of the text finds at position `p`. */
  function IdentifierAt(out: string, p: nat): string
    requires p <= |out|
  {
    out[p - RunBack(out[..p])..p + RunLength(out[p..])]
  }

  lemma {:induction false} RunLengthThen(name: string, rest: string)
    requires forall c | c in name :: IsIdChar(c)
    ensures RunLength(name + rest) == |name| + RunLength(rest)
  {
    if name == "" {
      assert name + rest == rest;
    } else {
      assert (name + rest)[1..] == name[1..] + rest;
      assert name[0] in name;
      RunLengthThen(name[1..], rest);
    }
  }

  /** Between `before` and `rest`, the name is an identifier of its own. */
  predicate StandsWhole(before: string, name: string, rest: string) {
    IdentifierAt(before + (name + rest), |before|) == name
  }

  /** The text has an identifier character at the end, or at the start. */
  predicate EndsInId(t: string) {
    t != "" && IsIdChar(t[|t| - 1])
  }

  predicate StartsWithId(t: string) {
    t != "" && IsIdChar(t[0])
  }

  /** In the output, the name written for a `%v` marker is an identifier of its
      own exactly if no identifier character stands next to it there: from the
      text around the marker, or from what is substituted for a marker next to
      it. Two markers side by side are such a case. */
  lemma NameIsWholeWordIff(text: string, args: Args, i: nat)
    requires Rewrite(text, args).Ok? && i < |Lex(text)| && Lex(text)[i] == Marker('v')
    ensures AllRender(Lex(text), args) && AllRender(Lex(text)[..i], args)
    ensures var ts := Lex(text);
            var before, rest := Images(ts[..i], args), ImagesFrom(ts, i + 1, args);
            var name := ParName(Markers(ts[..i]));
            && Rewrite(text, args).value.text == before + (name + rest)
            && (StandsWhole(before, name, rest) <==> !EndsInId(before) && !StartsWithId(rest))
  {
    RewriteMeans(text, args);
    var ts := Lex(text);
    ImagesSplit(ts, i, args);
    assert Renders(ts, i, args);
    ParNameIsId(Markers(ts[..i]));
    NameBetween(Images(ts[..i], args), ParName(Markers(ts[..i])), ImagesFrom(ts, i + 1, args));
  }

  lemma ParNameIsId(n: nat)
    ensures ParName(n) != "" && ParName(n)[0] == '@' && forall c | c in ParName(n) :: IsIdChar(c)
  {
    var name := ParName(n);
    assert name == "@par" + Digits(n + 1);
    forall i | 0 <= i < |name| ensures IsIdChar(name[i]) {
      if i >= 4 {
        assert name[i] == Digits(n + 1)[i - 4];
      }
    }
  }

  lemma NameBetween(before: string, name: string, rest: string)
    requires name != "" && forall c | c in name :: IsIdChar(c)
    ensures StandsWhole(before, name, rest) <==> !EndsInId(before) && !StartsWithId(rest)
  {
    var out, p := before + (name + rest), |before|;
    assert out[..p] == before && out[p..] == name + rest;
    RunLengthThen(name, rest);
    assert |IdentifierAt(out, p)| == RunBack(before) + |name| + RunLength(rest);
    assert out[p..p + |name|] == out[p..][..|name|] == name;
  }

  /** A text without markers and placeholders outside quotes is left alone. */
  lemma PlainTextUnchanged(text: string, args: Args)
    requires forall tok | tok in Lex(text) :: tok.Plain? || tok.Quoted?
    ensures Rewrite(text, args) == Ok(Rewritten(text, [], []))
  {
    LexCutsText(text);
    AllKept(Rewritten("", [], []), Lex(text), args);
    assert "" + text == text;
  }

  lemma {:induction false} AllKept(q: Rewritten, ts: seq<Token>, args: Args)
    requires forall tok | tok in ts :: tok.Plain? || tok.Quoted?
    ensures RenderFrom(q, ts, args) == Ok(q.(text := q.text + Sources(ts)))
    decreases |ts|
  {
    if ts == [] {
      assert q.text + "" == q.text;
    } else {
      assert ts[0] in ts;
      assert q.params + [] == q.params && q.placeholders + [] == q.placeholders;
      AllKept(q.(text := q.text + Source(ts[0])), ts[1..], args);
      assert q.text + Source(ts[0]) + Sources(ts[1..]) == q.text + (Source(ts[0]) + Sources(ts[1..]));
    }
  }

  // ------------------------------------------------- names written and bound

  /** The names the rewriting writes for `%v` markers, in order. */
  function EmittedNames(ts: seq<Token>): seq<string> {
    if ts == [] then []
    else
      var before := ts[..|ts| - 1];
      EmittedNames(before) + (if ts[|ts| - 1] == Marker('v') then [ParName(Markers(before))] else [])
  }

  function Names(bs: seq<Binding>): seq<string> {
    seq(|bs|, i requires 0 <= i < |bs| => bs[i].name)
  }

  lemma {:induction false} BindingsAppend(ps: seq<char>, c: char, args: Args, i: nat)
    requires i <= |ps|
    ensures AllBindings(ps + [c], args, i)
         == AllBindings(ps, args, i) + (if c == 'd' then [] else [Binding(ParName(|ps|), args.Entry(|ps|))])
    decreases |ps| - i
  {
    if i < |ps| {
      BindingsAppend(ps, c, args, i + 1);
    } else {
      assert AllBindings(ps + [c], args, |ps| + 1) == [];
    }
  }

  lemma {:induction false} EmittedAreBound(ts: seq<Token>, args: Args)
    ensures Names(AllBindings(RecordedAll(ts), args, 0)) == EmittedNames(ts)
  {
    if ts != [] {
      var before, tok := ts[..|ts| - 1], ts[|ts| - 1];
      EmittedAreBound(before, args);
      RecordedCount(before);
      if tok.Marker? {
        BindingsAppend(RecordedAll(before), if tok.kind == 'v' then 'v' else 'd', args, 0);
      } else {
        assert RecordedAll(before) + [] == RecordedAll(before);
      }
    }
  }

  /** The parameter names written into the text are, in order, exactly the
      names of the bindings due to it. */
  lemma NamesAgree(text: string, args: Args)
    requires Rewrite(text, args).Ok?
    ensures Names(AllBindings(Rewrite(text, args).value.params, args, 0)) == EmittedNames(Lex(text))
  {
    RewriteMeans(text, args);
    EmittedAreBound(Lex(text), args);
  }

  /** Every binding carries the argument at the position its name states. */
  lemma {:induction false} BoundAtOwnPosition(ps: seq<char>, args: Args, i: nat)
    requires i <= |ps|
    ensures forall b | b in AllBindings(ps, args, i) ::
              exists k | i <= k < |ps| && ps[k] != 'd' :: b == Binding(ParName(k), args.Entry(k))
    ensures forall k | i <= k < |ps| && ps[k] != 'd' :: Binding(ParName(k), args.Entry(k)) in AllBindings(ps, args, i)
    decreases |ps| - i
  {
    if i < |ps| {
      BoundAtOwnPosition(ps, args, i + 1);
    }
  }

  lemma ParNamesDistinct(i: nat, j: nat)
    requires ParName(i) == ParName(j)
    ensures i == j
  {
    assert ParName(i)[4..] == Digits(i + 1) && ParName(j)[4..] == Digits(j + 1);
    DigitsInjective(i + 1, j + 1);
  }

  /** The position of the first argument that ends the binding loop early. */
  predicate StopsEarly(ps: seq<char>, args: Args, i: nat) {
    exists k, l | i <= k < l < |ps| :: ps[k] != 'd' && ps[l] != 'd' && args.Entry(k).bind == BoundThenStop
  }

  /** An argument to be bound has a type that cannot be. */
  predicate Refused(ps: seq<char>, args: Args, i: nat) {
    exists k | i <= k < |ps| :: ps[k] != 'd' && args.Entry(k).bind == Rejected
  }

  /** The loop binds every name exactly if no value is refused and no value of
      explicit type "date" precedes another bound value: that branch returns at
      once and leaves the later names unbound. */
  lemma {:induction false} LoopBindsAllIff(ps: seq<char>, args: Args, i: nat)
    requires i <= |ps|
    ensures LoopBindings(ps, args, i).Ok? ==> LoopBindings(ps, args, i).value <= AllBindings(ps, args, i)
    ensures LoopBindings(ps, args, i) == Ok(AllBindings(ps, args, i))
       <==> !StopsEarly(ps, args, i) && !Refused(ps, args, i)
    decreases |ps| - i
  {
    if i < |ps| {
      LoopBindsAllIff(ps, args, i + 1);
      var head := [Binding(ParName(i), args.Entry(i))];
      if ps[i] == 'd' {
        assert StopsEarly(ps, args, i) <==> StopsEarly(ps, args, i + 1);
        assert Refused(ps, args, i) <==> Refused(ps, args, i + 1);
      } else if args.Entry(i).bind == Rejected {
        assert Refused(ps, args, i);
      } else if args.Entry(i).bind == BoundThenStop {
        StopsAt(ps, args, i);
      } else {
        assert StopsEarly(ps, args, i) <==> StopsEarly(ps, args, i + 1);
        assert Refused(ps, args, i) <==> Refused(ps, args, i + 1);
        var rest := LoopBindings(ps, args, i + 1);
        assert rest.Ok? ==> (head + rest.value)[1..] == rest.value;
        assert (head + AllBindings(ps, args, i + 1))[1..] == AllBindings(ps, args, i + 1);
      }
    }
  }

  /** No explicit date is bound from position `i` on before position `k`. */
  predicate NoStop(ps: seq<char>, args: Args, i: nat, k: nat)
    requires k <= |ps|
  {
    forall j | i <= j < k && ps[j] != 'd' :: args.Entry(j).bind != BoundThenStop
  }

  /** The loop fails exactly if a refused value comes before any explicit date. */
  lemma {:induction false} LoopFailsIff(ps: seq<char>, args: Args, i: nat)
    requires i <= |ps|
    ensures LoopBindings(ps, args, i).Err?
       <==> exists k | i <= k < |ps| && ps[k] != 'd' && args.Entry(k).bind == Rejected :: NoStop(ps, args, i, k)
    decreases |ps| - i
  {
    if i < |ps| {
      LoopFailsIff(ps, args, i + 1);
      if ps[i] != 'd' && args.Entry(i).bind == Rejected {
        assert NoStop(ps, args, i, i);
      } else if ps[i] == 'd' || args.Entry(i).bind == Bound {
        forall k | i < k <= |ps| ensures NoStop(ps, args, i, k) <==> NoStop(ps, args, i + 1, k) {
        }
      }
    }
  }

  /** Otherwise it binds every marker recorded as 'v' up to the first explicit
      date, that one included. */
  lemma {:induction false} LoopBindsUpToStop(ps: seq<char>, args: Args, i: nat, k: nat)
    requires i <= k < |ps| && ps[k] != 'd' && LoopBindings(ps, args, i).Ok?
    ensures Binding(ParName(k), args.Entry(k)) in LoopBindings(ps, args, i).value <==> NoStop(ps, args, i, k)
    decreases |ps| - i
  {
    hide ParName;
    if ps[i] != 'd' && i < k && ParName(i) == ParName(k) {
      ParNamesDistinct(i, k);
      assert false;
    }
    if i < k && (ps[i] == 'd' || args.Entry(i).bind == Bound) {
      LoopBindsUpToStop(ps, args, i + 1, k);
      assert NoStop(ps, args, i, k) <==> NoStop(ps, args, i + 1, k);
    }
  }

  /** The loop ends at an explicit date; that is right only at the last name. */
  lemma StopsAt(ps: seq<char>, args: Args, i: nat)
    requires i < |ps| && ps[i] != 'd' && args.Entry(i).bind == BoundThenStop
    ensures AllBindings(ps, args, i) == [Binding(ParName(i), args.Entry(i))]
       <==> !StopsEarly(ps, args, i) && !Refused(ps, args, i)
  {
    NoneLeftIff(ps, args, i + 1);
    if AllBindings(ps, args, i + 1) == [] {
      assert forall l | i + 1 <= l < |ps| :: ps[l] == 'd';
    } else {
      var l :| i + 1 <= l < |ps| && ps[l] != 'd';
      assert StopsEarly(ps, args, i);
    }
  }

  lemma {:induction false} NoneLeftIff(ps: seq<char>, args: Args, i: nat)
    requires i <= |ps|
    ensures AllBindings(ps, args, i) == [] <==> forall l | i <= l < |ps| :: ps[l] == 'd'
    decreases |ps| - i
  {
    if i < |ps| {
      NoneLeftIff(ps, args, i + 1);
    }
  }

  /** A marker and a plain character behind it. */
  lemma LexMarkerThenPlain(c: char)
    requires WellFormed(Plain(c), "")
    ensures Lex(['%', 'v', c]) == [Marker('v'), Plain(c)]
  {
    var ts := [Marker('v'), Plain(c)];
    assert ts[1..] == [Plain(c)] && [Plain(c)][1..] == [];
    assert Sources([Plain(c)]) == [c] + "" && Sources(ts) == ['%', 'v'] + Sources([Plain(c)]);
    assert AllWellFormed([Plain(c)]);
    LexIsUnique(ts);
    assert Sources(ts) == ['%', 'v', c];
  }

  /** An identifier character right behind a marker runs into its name. */
  lemma CharRunsIntoName(c: char, args: Args)
    requires IsIdChar(c)
    ensures var text := ['%', 'v', c];
            && EmittedNames(Lex(text)) == [ParName(0)]
            && Rewrite(text, args).Ok? && Rewrite(text, args).value.text == "" + (ParName(0) + [c])
            && !StandsWhole("", ParName(0), [c])
  {
    LexMarkerThenPlain(c);
    var v := Marker('v');
    var ts := [v, Plain(c)];
    assert ts[..1] == [v] && ts[..0] == [] && [v][..0] == [];
    assert EmittedNames([v]) == [] + [ParName(0)] && EmittedNames(ts) == EmittedNames([v]) + [];
    assert Renders(ts, 0, args) && Renders(ts, 1, args);
    RewriteMeans(['%', 'v', c], args);
    ParNameIsId(0);
    NameBetween("", ParName(0), [c]);
    assert Images([v], args) == "" + ParName(0);
    assert Images(ts, args) == Images([v], args) + [c];
  }

  /** And the name written for a marker runs into the one before it. */
  lemma NamesRunTogether(args: Args)
    ensures var text := ['%', 'v', '%', 'v'];
            && EmittedNames(Lex(text)) == [ParName(0), ParName(1)]
            && Rewrite(text, args).Ok? && Rewrite(text, args).value.text == ParName(0) + (ParName(1) + "")
            && !StandsWhole(ParName(0), ParName(1), "")
  {
    hide Lex, Rewrite, RenderFrom, Digits, ParName, IdentifierAt;
    LexMarkers();
    var v := Marker('v');
    var ts := [v, v];
    assert ts[..1] == [v] && ts[..0] == [] && [v][..0] == [];
    assert Markers([v]) == 1;
    assert EmittedNames([v]) == [] + [ParName(0)] && EmittedNames(ts) == EmittedNames([v]) + [ParName(1)];
    assert Renders(ts, 0, args) && Renders(ts, 1, args);
    RewriteMeans(['%', 'v', '%', 'v'], args);
    ParNameIsId(0);
    ParNameIsId(1);
    NameBetween(ParName(0), ParName(1), "");
    assert Images([v], args) == "" + ParName(0) == ParName(0);
    assert Images(ts, args) == Images([v], args) + ParName(1);
    assert ParName(1) + "" == ParName(1);
  }

  lemma LexMarkers()
    ensures Lex(['%', 'v', '%', 'v']) == [Marker('v'), Marker('v')]
  {
    var v := Marker('v');
    var ts := [v, v];
    assert ts[1..] == [v] && [v][1..] == [];
    assert Sources([v]) == ['%', 'v'] + "" && Sources(ts) == ['%', 'v'] + Sources([v]);
    assert AllWellFormed([v]);
    LexIsUnique(ts);
    assert Sources(ts) == ['%', 'v', '%', 'v'];
  }

  lemma NamesNone(bs: seq<Binding>)
    ensures Names(bs) == [] <==> bs == []
  {
  }

  /** From the text to the bindings: what is bound is the front of what the
      text names, in order, and every name written is bound exactly if there is
      none, or there is an argument list, no explicit date precedes another
      bound value, and no value is refused. */
  lemma AllNamesBoundIff(text: string, args: Args)
    requires Rewrite(text, args).Ok?
    ensures var ps := Rewrite(text, args).value.params;
            var bound := BoundBy(ps, args);
            && (bound.Ok? ==> bound.value <= AllBindings(ps, args, 0))
            && (bound.Ok? && Names(bound.value) == EmittedNames(Lex(text))
                <==> EmittedNames(Lex(text)) == []
                     || (args.items.Some? && !StopsEarly(ps, args, 0) && !Refused(ps, args, 0)))
  {
    var ps := Rewrite(text, args).value.params;
    var bound := BoundBy(ps, args);
    NamesAgree(text, args);
    LoopBindsAllIff(ps, args, 0);
    NoneLeftIff(ps, args, 0);
    NamesNone(AllBindings(ps, args, 0));
    if bound.Ok? {
      NamesNone(bound.value);
      SameNames(bound.value, AllBindings(ps, args, 0));
    }
  }

  lemma SameNames(bs: seq<Binding>, all: seq<Binding>)
    requires bs <= all
    ensures Names(bs) == Names(all) <==> bs == all
  {
    assert |Names(bs)| == |bs| && |Names(all)| == |all|;
  }

  /** Without an argument list, a marker's name is written and never bound. */
  lemma NullListLeavesNameUnbound(absent: Arg)
    ensures var args := Args(None, absent);
            && EmittedNames(Lex("%v")) == [ParName(0)]
            && Rewrite("%v", args).Ok?
            && BoundBy(Rewrite("%v", args).value.params, args) == Ok([])
  {
    var args := Args(None, absent);
    var ts := [Marker('v')];
    assert Sources(ts[1..]) == "" && Sources(ts) == "%v";
    assert AllWellFormed(ts[1..]);
    LexIsUnique(ts);
    assert ts[..0] == [];
    assert Renders(ts, 0, args);
    RewriteMeans("%v", args);
  }

  /** Two `%v` markers of which the first gets an explicitly typed date: the
      second name is written into the text but never bound. */
  lemma ExplicitDateLeavesNameUnbound()
    ensures var date := Arg("", None, BoundThenStop);
            var args := Args(Some([date, date]), date);
            var text := ['%', 'v', ',', '%', 'v'];
            && EmittedNames(Lex(text)) == [ParName(0), ParName(1)]
            && Rewrite(text, args).Ok?
            && BoundBy(Rewrite(text, args).value.params, args) == Ok([Binding(ParName(0), date)])
  {
    hide Lex, Rewrite, RenderFrom, Digits, ParName;
    var date := Arg("", None, BoundThenStop);
    var args := Args(Some([date, date]), date);
    var v, comma := Marker('v'), Plain(',');
    var ts := [v, comma, v];
    LexMarkersAndComma();
    assert ts[..2] == [v, comma] && [v, comma][..1] == [v] && [v][..0] == [] && ts[..1] == [v];
    assert Markers([v]) == 1 && Markers([v, comma]) == 1;
    assert EmittedNames([v]) == [] + [ParName(0)] && EmittedNames([v, comma]) == EmittedNames([v]) + [];
    assert Recorded(v) == ['v'] && Recorded(comma) == [];
    assert RecordedAll([v]) == [] + Recorded(v) && RecordedAll([v, comma]) == RecordedAll([v]) + Recorded(comma);
    assert RecordedAll(ts) == RecordedAll([v, comma]) + Recorded(v) == ['v', 'v'];
    forall i | 0 <= i < |ts| ensures Renders(ts, i, args) {
    }
    RewriteMeans(['%', 'v', ',', '%', 'v'], args);
  }

  lemma LexMarkersAndComma()
    ensures Lex(['%', 'v', ',', '%', 'v']) == [Marker('v'), Plain(','), Marker('v')]
  {
    var v, comma := Marker('v'), Plain(',');
    var ts := [v, comma, v];
    assert ts[1..] == [comma, v] && [comma, v][1..] == [v] && [v][1..] == [];
    assert Sources([v]) == ['%', 'v'] + "" && Sources([comma, v]) == [','] + Sources([v]);
    assert Sources(ts) == ['%', 'v'] + Sources([comma, v]);
    assert AllWellFormed([v]) && AllWellFormed([comma, v]);
    LexIsUnique(ts);
    assert Sources(ts) == ['%', 'v', ',', '%', 'v'];
  }

  // --------------------------------------- names written for placeholders, too

  /** What is written for the placeholders. */
  function PlaceholderNames(ph: seq<string>): seq<string> {
    seq(|ph|, i requires 0 <= i < |ph| => "@" + ph[i])
  }

  /** Which names are written for markers. */
  lemma EmittedNamesAre(text: string, args: Args, name: string)
    requires Rewrite(text, args).Ok?
    ensures var ps := Rewrite(text, args).value.params;
            name in EmittedNames(Lex(text)) <==> exists k | 0 <= k < |ps| && ps[k] != 'd' :: name == ParName(k)
  {
    hide Lex, Rewrite, RenderFrom, Digits, ParName;
    NamesAgree(text, args);
    BoundNamesAre(Rewrite(text, args).value.params, args, name);
  }

  lemma BoundNamesAre(ps: seq<char>, args: Args, name: string)
    ensures name in Names(AllBindings(ps, args, 0)) <==> exists k | 0 <= k < |ps| && ps[k] != 'd' :: name == ParName(k)
  {
    hide Digits, ParName;
    var all := AllBindings(ps, args, 0);
    BoundAtOwnPosition(ps, args, 0);
    if name in Names(all) {
      var j :| 0 <= j < |all| && Names(all)[j] == name;
      assert all[j] in all;
    }
    if k :| 0 <= k < |ps| && ps[k] != 'd' && name == ParName(k) {
      var j :| 0 <= j < |all| && all[j] == Binding(ParName(k), args.Entry(k));
      assert Names(all)[j] == name;
    }
  }

  lemma PlaceholderNamesAre(ph: seq<string>, word: string)
    ensures "@" + word in PlaceholderNames(ph) <==> word in ph
  {
    if "@" + word in PlaceholderNames(ph) {
      var i :| 0 <= i < |ph| && PlaceholderNames(ph)[i] == "@" + word;
      assert ("@" + ph[i])[1..] == ph[i] && ("@" + word)[1..] == word;
    }
    if i :| 0 <= i < |ph| && ph[i] == word {
      assert PlaceholderNames(ph)[i] == "@" + word;
    }
  }

  /** The name of a marker is written for a placeholder, too, exactly if that
      placeholder is called "par" and the marker's number. */
  lemma NameClashesIff(text: string, args: Args, k: nat)
    requires Rewrite(text, args).Ok?
    requires k < |Rewrite(text, args).value.params| && Rewrite(text, args).value.params[k] != 'd'
    ensures ParName(k) in EmittedNames(Lex(text))
    ensures ParName(k) in PlaceholderNames(Rewrite(text, args).value.placeholders)
       <==> "par" + Digits(k + 1) in Rewrite(text, args).value.placeholders
  {
    EmittedNamesAre(text, args, ParName(k));
    ParNameParts(k);
    PlaceholderNamesAre(Rewrite(text, args).value.placeholders, "par" + Digits(k + 1));
  }

  /** So no name is written twice for different things exactly if no placeholder
      is called "par" and the number of a `%v` marker. */
  lemma NamesDisjointIff(text: string, args: Args)
    requires Rewrite(text, args).Ok?
    ensures var q := Rewrite(text, args).value;
            (forall name | name in EmittedNames(Lex(text)) :: name !in PlaceholderNames(q.placeholders))
            <==> forall k | 0 <= k < |q.params| && q.params[k] != 'd' :: "par" + Digits(k + 1) !in q.placeholders
  {
    hide Lex, Rewrite, RenderFrom, Digits, ParName;
    var q := Rewrite(text, args).value;
    var apart := forall name | name in EmittedNames(Lex(text)) :: name !in PlaceholderNames(q.placeholders);
    if apart {
      forall k | 0 <= k < |q.params| && q.params[k] != 'd' ensures "par" + Digits(k + 1) !in q.placeholders {
        NameClashesIff(text, args, k);
      }
    } else {
      var name :| name in EmittedNames(Lex(text)) && name in PlaceholderNames(q.placeholders);
      EmittedNamesAre(text, args, name);
      var k :| 0 <= k < |q.params| && q.params[k] != 'd' && name == ParName(k);
      NameClashesIff(text, args, k);
    }
  }

  /** A placeholder and a marker with a comma between them. */
  lemma LexNameThenMarker(word: string)
    requires word != "" && forall c | c in word :: IsWordChar(c)
    ensures Lex([':'] + word + [',', '%', 'v']) == [Name(word), Plain(','), Marker('v')]
  {
    var name, comma, v := Name(word), Plain(','), Marker('v');
    var ts := [name, comma, v];
    assert ts[1..] == [comma, v] && [comma, v][1..] == [v] && [v][1..] == [];
    assert Sources([v]) == ['%', 'v'] + "" && Sources([comma, v]) == [','] + Sources([v]);
    assert Sources(ts) == ([':'] + word) + Sources([comma, v]);
    assert AllWellFormed([v]) && AllWellFormed([comma, v]);
    WordOfLetters(word);
    assert AllWellFormed(ts);
    LexIsUnique(ts);
    assert Sources(ts) == [':'] + word + [',', '%', 'v'];
  }

  lemma NameThenMarker(word: string, args: Args)
    requires word != "" && forall c | c in word :: IsWordChar(c)
    ensures var text := [':'] + word + [',', '%', 'v'];
            && Rewrite(text, args) == Ok(Rewritten("@" + word + "," + ParName(0), ['v'], [word]))
            && EmittedNames(Lex(text)) == [ParName(0)]
  {
    hide Lex, Rewrite, RenderFrom, Digits, ParName;
    var name, comma, v := Name(word), Plain(','), Marker('v');
    var ts := [name, comma, v];
    LexNameThenMarker(word);
    assert ts[..2] == [name, comma] && [name, comma][..1] == [name] && ts[..1] == [name] && [name][..0] == [];
    var two := [name, comma];
    assert Markers([name]) == Markers([]) + 0 && Markers(two) == Markers([name]) + 0;
    forall i | 0 <= i < |ts| ensures Renders(ts, i, args) {
    }
    RewriteMeans([':'] + word + [',', '%', 'v'], args);
    assert Images([name], args) == "" + ("@" + word) == "@" + word;
    assert Images([name, comma], args) == Images([name], args) + ",";
    assert Recorded(name) == [] == Recorded(comma) && Named(comma) == [] == Named(v);
    assert RecordedAll([name]) == RecordedAll([]) + Recorded(name);
    assert RecordedAll(two) == RecordedAll([name]) + Recorded(comma);
    assert NamedAll([name]) == NamedAll([]) + Named(name) && NamedAll(two) == NamedAll([name]) + Named(comma);
    assert RecordedAll(ts) == RecordedAll(two) + Recorded(v) && NamedAll(ts) == NamedAll(two) + Named(v);
    assert Images(ts, args) == Images(two, args) + ParName(0);
    assert RecordedAll(ts) == ['v'] && NamedAll(ts) == [word];
    assert EmittedNames([name]) == [] + [] && EmittedNames([name, comma]) == [] + [];
    assert EmittedNames(ts) == [] + [ParName(0)];
  }

  /** A placeholder called "par1" before a marker: the same name is written for
      both. */
  lemma PlaceholderNameClashes(args: Args)
    ensures var word := "par" + Digits(1);
            var text := [':'] + word + [',', '%', 'v'];
            && Rewrite(text, args) == Ok(Rewritten(ParName(0) + "," + ParName(0), ['v'], [word]))
            && EmittedNames(Lex(text)) == PlaceholderNames([word]) == [ParName(0)]
  {
    hide Lex, Rewrite, RenderFrom, Digits;
    var word := "par" + Digits(1);
    ParNameParts(0);
    ParNameIsId(0);
    forall c | c in word ensures IsWordChar(c) {
      assert AllDigits(Digits(1));
    }
    NameThenMarker(word, args);
  }

  lemma ParNameParts(k: nat)
    ensures ParName(k) == "@" + ("par" + Digits(k + 1)) && ParName(k)[1..] == "par" + Digits(k + 1)
  {
  }
}
