/**
 The rewriting of a text token by token, in terms of the argument list alone:
 what every token turns into, which texts are rejected and with which error, and
 what is recorded for the binding loop.
 */
module RewriteLaws {
  import opened Wrappers
  import opened Decimal
  import opened Tokens
  import opened Query
  import opened QueryLaws

  lemma {:induction false} KindsKnown(t: string)
    ensures forall tok | tok in Lex(t) && tok.Marker? :: tok.kind == 'v' || tok.kind == 'd' || tok.kind == 's'
    decreases |t|
  {
    if t != "" {
      KindsKnown(t[|Source(FirstToken(t))|..]);
    }
  }

  /** What `TokenOutput` says, with the token's image as it is defined. */
  lemma ImageStands(text: string, args: Args, i: nat)
    requires Rewrite(text, args).Ok? && i < |Lex(text)|
    ensures AllRender(Lex(text), args) && AllRender(Lex(text)[..i], args) && AllRender(Lex(text)[..i + 1], args)
    ensures var ts := Lex(text);
            var image := Image(ts[i], Markers(ts[..i]), args);
            && image.Ok? && Images(ts[..i + 1], args) == Images(ts[..i], args) + image.value
            && Rewrite(text, args).value.text == Images(ts[..i + 1], args) + ImagesFrom(ts, i + 1, args)
            && (i == 0 ==> Images(ts[..i], args) == "") && (i + 1 == |ts| ==> ImagesFrom(ts, i + 1, args) == "")
  {
    hide Lex, Rewrite, Digits, Image;
    var ts := Lex(text);
    RewriteMeans(text, args);
    ImagesSplit(ts, i, args);
    ImagesSplit(ts, i + 1, args);
    assert ts[..i + 1][..i] == ts[..i];
    assert Renders(ts, i, args);
  }

  /** The output grows by what stands here for token `i`, and by nothing else.
      The number of a marker is that of the markers up to it; its argument is
      the one with that number, or the absent one beyond the list or without a
      list. What was substituted before has no influence. */
  lemma TokenOutput(text: string, args: Args, i: nat)
    requires Rewrite(text, args).Ok? && i < |Lex(text)|
    ensures AllRender(Lex(text), args) && AllRender(Lex(text)[..i], args) && AllRender(Lex(text)[..i + 1], args)
    ensures var ts := Lex(text);
            var n := Markers(ts[..i]);
            var arg := if args.items.Some? && n < |args.items.value| then args.items.value[n] else args.absent;
            var before, upto, rest := Images(ts[..i], args), Images(ts[..i + 1], args), ImagesFrom(ts, i + 1, args);
            && Rewrite(text, args).value.text == upto + rest
            && (i == 0 ==> before == "") && (i + 1 == |ts| ==> rest == "")
            && (ts[i].Plain? ==> upto == before + [ts[i].c])
            && (ts[i].Quoted? ==> upto == before + ts[i].text)
            && (ts[i].Name? ==> upto == before + ("@" + ts[i].name))
            && (ts[i] == Marker('v') ==> upto == before + ("@par" + Digits(n + 1)))
            && (ts[i] == Marker('d') ==> upto == before + arg.numeric)
            && (ts[i] == Marker('s') ==> arg.text.Some? && upto == before + arg.text.value)
            && (ts[i].Plain? || ts[i].Quoted? || ts[i].Name?
                || ts[i] == Marker('v') || ts[i] == Marker('d') || ts[i] == Marker('s'))
  {
    hide Lex, Rewrite, Digits, Images, ImagesFrom, AllRender, Markers;
    ImageStands(text, args, i);
    KindsKnown(text);
    assert Lex(text)[i] in Lex(text);
  }

  /** For every marker 'v' or 'd' is recorded, at its number, and for every
      placeholder its name. */
  lemma {:induction false} MarkersRecorded(ts: seq<Token>, i: nat)
    requires i < |ts| && ts[i].Marker?
    ensures |RecordedAll(ts)| == Markers(ts)
    ensures Markers(ts[..i]) < Markers(ts)
    ensures RecordedAll(ts)[Markers(ts[..i])] == if ts[i].kind == 'v' then 'v' else 'd'
  {
    var front := ts[..|ts| - 1];
    RecordedCount(ts);
    RecordedCount(front);
    if i < |front| {
      MarkersRecorded(front, i);
      assert front[..i] == ts[..i];
    }
  }

  /** Number of placeholders among the tokens. */
  function Placeholders(ts: seq<Token>): nat {
    if ts == [] then 0 else Placeholders(ts[..|ts| - 1]) + (if ts[|ts| - 1].Name? then 1 else 0)
  }

  lemma {:induction false} NamedCount(ts: seq<Token>)
    ensures |NamedAll(ts)| == Placeholders(ts)
  {
    if ts != [] {
      NamedCount(ts[..|ts| - 1]);
    }
  }

  lemma {:induction false} NamesRecorded(ts: seq<Token>, i: nat)
    requires i < |ts| && ts[i].Name?
    ensures |NamedAll(ts)| == Placeholders(ts)
    ensures Placeholders(ts[..i]) < Placeholders(ts)
    ensures NamedAll(ts)[Placeholders(ts[..i])] == ts[i].name
  {
    var front := ts[..|ts| - 1];
    NamedCount(ts);
    NamedCount(front);
    if i < |front| {
      NamesRecorded(front, i);
      assert front[..i] == ts[..i];
    }
  }

  /** The same of a text. */
  lemma TokensRecorded(text: string, args: Args, i: nat)
    requires Rewrite(text, args).Ok? && i < |Lex(text)|
    ensures var ts, q := Lex(text), Rewrite(text, args).value;
            && |q.params| == Markers(ts) && |q.placeholders| == Placeholders(ts)
            && (ts[i].Marker? ==>
                  && Markers(ts[..i]) < |q.params|
                  && q.params[Markers(ts[..i])] == if ts[i].kind == 'v' then 'v' else 'd')
            && (ts[i].Name? ==>
                  && Placeholders(ts[..i]) < |q.placeholders|
                  && q.placeholders[Placeholders(ts[..i])] == ts[i].name)
  {
    hide Lex, Rewrite;
    var ts := Lex(text);
    RewriteMeans(text, args);
    RecordedCount(ts);
    NamedCount(ts);
    if ts[i].Marker? {
      MarkersRecorded(ts, i);
    } else if ts[i].Name? {
      NamesRecorded(ts, i);
    }
  }

  // ------------------------------------------------------------------ rejection

  /** The first token that cannot be rendered gives the error. */
  lemma {:induction false} RenderFails(done: seq<Token>, rest: seq<Token>, args: Args)
    requires AllRender(done, args)
    ensures var r, ts := RenderFrom(StateAfter(done, args), rest, args), done + rest;
            r.Err? ==> exists i | |done| <= i < |ts| ::
              AllRender(ts[..i], args) && Image(ts[i], Markers(ts[..i]), args) == Err(r.error)
    decreases |rest|
  {
    if rest != [] {
      var ts, more, n := done + rest, done + [rest[0]], |done|;
      assert ts[..n] == done && ts[n] == rest[0] && more + rest[1..] == ts;
      RecordedCount(done);
      RenderNext(done, rest[0], args);
      if AllRender(more, args) {
        RenderFails(more, rest[1..], args);
      }
    }
  }

  /** A text is accepted exactly if it has no '%' without a marker's letter, no
      ':' without a name, no quote that is never closed, and every `%s` has an
      argument with a text. */
  lemma AcceptedIff(text: string, args: Args)
    ensures var ts := Lex(text);
            Rewrite(text, args).Ok?
            <==> forall i | 0 <= i < |ts| ::
                   && !ts[i].BadMarker? && !ts[i].NoName? && !ts[i].OpenQuote?
                   && (ts[i] == Marker('s') ==>
                         var n := Markers(ts[..i]);
                         (if args.items.Some? && n < |args.items.value| then args.items.value[n] else args.absent).text.Some?)
  {
    hide Lex, Rewrite, Digits, Markers;
    var ts := Lex(text);
    RewriteMeans(text, args);
    KindsKnown(text);
    forall i | 0 <= i < |ts|
      ensures Renders(ts, i, args)
         <==> (&& !ts[i].BadMarker? && !ts[i].NoName? && !ts[i].OpenQuote?
               && (ts[i] == Marker('s') ==> args.Entry(Markers(ts[..i])).text.Some?))
    {
      assert ts[i] in ts;
    }
  }

  lemma Unfolded(text: string, args: Args)
    ensures Rewrite(text, args) == RenderFrom(Rewritten("", [], []), Lex(text), args)
  {
  }

  lemma FromTheStart(ts: seq<Token>, args: Args)
    ensures var r := RenderFrom(Rewritten("", [], []), ts, args);
            r.Err? ==> exists i | 0 <= i < |ts| ::
              AllRender(ts[..i], args) && Image(ts[i], Markers(ts[..i]), args) == Err(r.error)
  {
    hide Step, Image, RenderFrom, Markers, Renders;
    RenderFails([], ts, args);
    assert [] + ts == ts;
    assert StateAfter([], args) == Rewritten("", [], []);
  }

  /** The error is that of the first token at fault; `NotRendered` can only come
      from a `%s` whose argument has no text. */
  lemma RejectedWith(text: string, args: Args)
    requires Rewrite(text, args).Err?
    ensures var ts, e := Lex(text), Rewrite(text, args).error;
            exists i | 0 <= i < |ts| && AllRender(ts[..i], args) ::
              var n := Markers(ts[..i]);
              if ts[i].BadMarker? then e == MarkerExpected
              else if ts[i].NoName? then e == NameMissing
              else if ts[i].OpenQuote? then e == Overrun
              else
                && ts[i] == Marker('s') && e == NotRendered
                && (if args.items.Some? && n < |args.items.value| then args.items.value[n] else args.absent).text.None?
  {
    hide Lex, Digits, Markers, RenderFrom, AllRender, Rewrite;
    var ts, e := Lex(text), Rewrite(text, args).error;
    Unfolded(text, args);
    FromTheStart(ts, args);
    var i :| 0 <= i < |ts| && AllRender(ts[..i], args) && Image(ts[i], Markers(ts[..i]), args) == Err(e);
    KindsKnown(text);
    assert ts[i] in ts;
  }
}
