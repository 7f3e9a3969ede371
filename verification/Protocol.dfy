/**
 One active query at a time: the life of the statements on a connection, as a
 transition system over any interleaving of operations (src/connection.h,
 src/connection.cpp, src/statement.cpp, src/dbmodulewrap.h).

 Statements and commands are named by values of arbitrary types, so that the
 same definitions serve objects and concrete examples.
 */
module Protocol {
  import opened Wrappers

  /** A statement wrapper: whether it may still be used, and its command. */
  datatype StatementState<C> = StatementState(valid: bool, context: Option<C>)

  /** `registered` is the statement the connection points to; `unread` are the
      commands with results left at the server; `clean` says that no command
      was ever sent while another one had unread results. */
  datatype World<!S(==), !C(==)> = World(
    registered: Option<S>,
    statements: map<S, StatementState<C>>,
    unread: set<C>,
    clean: bool)

  function EmptyWorld<S, C>(): World<S, C> {
    World(None, map[], {}, true)
  }

  /** The operations, with what happens in them: whether a cancel of an earlier
      command succeeds (`cancelOld`), whether a cancel of the new command does
      (`cancelNew`), whether the send succeeds in the end (`sent`), and whether
      results are left unread (`left`). If the connection is lost with the first
      send, `lost` says whether the registered statement's command, cancelled on
      that occasion, was. Reject is an execution that ends before a command is
      made, because the text is not accepted. `c` names the new command. */
  datatype Op<S, C> =
    | Create(s: S, cancelOld: bool)
    | Execute(s: S, c: C, cancelOld: bool, lost: Option<bool>, sent: bool, left: bool)
    | Reject(s: S, cancelOld: bool)
    | Read(s: S, left: bool)
    | Direct(c: C, cancelOld: bool, sent: bool, left: bool, cancelNew: bool)
    | Close(s: S, cancelOld: bool)

  /** Cancelling a command leaves nothing of it to read if it succeeds. */
  function Cancelled<C>(unread: set<C>, c: Option<C>, ok: bool): set<C> {
    if ok && c.Some? then unread - {c.value} else unread
  }

  /** `ct_send` of command `c`. */
  function Sent<S, C>(w: World<S, C>, c: C, ok: bool): World<S, C> {
    w.(clean := w.clean && w.unread - {c} == {}, unread := if ok then w.unread + {c} else w.unread)
  }

  /** The statement has a command: it has been executed, and its text was
      accepted the last time. */
  predicate Executed<S, C>(w: World<S, C>, s: S) {
    s in w.statements && w.statements[s].context.Some?
  }

  /** `invalidate` on the registered statement throws when that statement has no
      command; otherwise its command is cancelled and it is marked. */
  predicate DisplacementThrows<S, C>(w: World<S, C>) {
    w.registered.Some? && !Executed(w, w.registered.value)
  }

  function Displaced<S, C>(w: World<S, C>, cancelOld: bool): World<S, C> {
    if w.registered.None? || DisplacementThrows(w) then w
    else
      var s := w.registered.value;
      w.(unread := Cancelled(w.unread, w.statements[s].context, cancelOld),
         statements := w.statements[s := w.statements[s].(valid := false)])
  }

  /** A send that failed. */
  function NotSent<S, C>(w: World<S, C>): World<S, C> {
    w.(clean := w.clean && w.unread == {})
  }

  /** The registered statement, if any, is displaced by none. */
  function Dropped<S, C>(w: World<S, C>, cancelOld: bool): World<S, C> {
    if DisplacementThrows(w) then w else Displaced(w, cancelOld).(registered := None)
  }

  /** When the connection is lost with a send, the registered statement is
      displaced; the loss ends the operation if that throws. */
  function AfterLoss<S, C>(w: World<S, C>, lost: Option<bool>): World<S, C> {
    if lost.None? then w else Dropped(NotSent(w), lost.value)
  }

  /** The command sent becomes the statement's; its results are read or left. */
  function Adopted<S, C>(w: World<S, C>, s: S, c: C, sent: bool, left: bool): World<S, C> {
    if !sent || s !in w.statements then w
    else w.(statements := w.statements[s := w.statements[s].(context := Some(c))],
            unread := if left then w.unread else w.unread - {c})
  }

  /** Whether the operation applies to statements that exist (or, for Create,
      to one that does not). */
  predicate Applies<S, C>(w: World<S, C>, op: Op<S, C>) {
    match op
    case Create(s, _) => s !in w.statements
    case Execute(s, _, _, _, _, _) => s in w.statements
    case Reject(s, _) => s in w.statements
    case Read(s, _) => s in w.statements
    case Direct(_, _, _, _, _) => true
    case Close(s, _) => s in w.statements
  }

  function Step<S, C>(w: World<S, C>, op: Op<S, C>): World<S, C> {
    if !Applies(w, op) then w
    else match op
      case Create(s, cancelOld) =>
        // the wrapper exists before it is registered
        var w1 := w.(statements := w.statements[s := StatementState(true, None)]);
        if DisplacementThrows(w1) then w1 else Displaced(w1, cancelOld).(registered := Some(s))
      case Execute(s, c, cancelOld, lost, sent, left) =>
        var st := w.statements[s];
        if !st.valid then w
        else
          var w1 := AfterLoss(w.(unread := Cancelled(w.unread, st.context, cancelOld)), lost);
          if lost.Some? && DisplacementThrows(w) then w1 else Adopted(Sent(w1, c, sent), s, c, sent, left)
      case Reject(s, cancelOld) =>
        var st := w.statements[s];
        if !st.valid then w
        else w.(unread := Cancelled(w.unread, st.context, cancelOld), statements := w.statements[s := st.(context := None)])
      case Read(s, left) =>
        var st := w.statements[s];
        if st.valid && st.context.Some? && !left then w.(unread := w.unread - {st.context.value}) else w
      case Direct(c, cancelOld, sent, left, cancelNew) =>
        if DisplacementThrows(w) then w
        else
          var w1 := Sent(Displaced(w, cancelOld).(registered := None), c, sent);
          w1.(unread := if !left || cancelNew then w1.unread - {c} else w1.unread)
      case Close(s, cancelOld) =>
        var st := w.statements[s];
        World(if st.valid then None else w.registered, w.statements - {s},
              Cancelled(w.unread, st.context, cancelOld), w.clean)
  }

  function Run<S, C>(w: World<S, C>, ops: seq<Op<S, C>>): World<S, C>
    decreases |ops|
  {
    if ops == [] then w else Run(Step(w, ops[0]), ops[1..])
  }

  // --------------------------------------------------------------- invariant

  /** A statement may be used exactly if it is the registered one, and only
      the command of the registered statement has unread results. */
  ghost predicate Inv<S, C>(w: World<S, C>) {
    && w.clean
    && (w.registered.Some? ==> w.registered.value in w.statements)
    && (forall s | s in w.statements :: w.statements[s].valid <==> w.registered == Some(s))
    && (forall c | c in w.unread :: w.registered.Some? && w.statements[w.registered.value].context == Some(c))
  }

  /** Cancels succeed where there is something to cancel, a new statement
      displaces none without a command, and no statement whose connection
      is lost and made anew in its own execution is left with unread results. */
  predicate Good<S, C>(w: World<S, C>, op: Op<S, C>) {
    match op
    case Create(s, cancelOld) => s !in w.statements ==> !DisplacementThrows(w) && (cancelOld || w.unread == {})
    case Execute(s, _, cancelOld, lost, sent, left) =>
      w.registered == Some(s) ==>
        (cancelOld || w.unread == {}) && (lost.Some? && Executed(w, s) && sent ==> !left)
    case Reject(s, cancelOld) => w.registered == Some(s) ==> cancelOld || w.unread == {}
    case Read(_, _) => true
    case Direct(c, cancelOld, sent, left, cancelNew) =>
      !DisplacementThrows(w) ==> (cancelOld || w.unread == {}) && (cancelNew || !left || !sent)
    case Close(s, cancelOld) => w.registered == Some(s) ==> cancelOld || w.unread == {}
  }

  predicate Fresh<S, C>(w: World<S, C>, op: Op<S, C>) {
    match op
    case Execute(_, c, _, _, _, _) => c !in w.unread
    case Direct(c, _, _, _, _) => c !in w.unread
    case Create(_, _) => true
    case Reject(_, _) => true
    case Read(_, _) => true
    case Close(_, _) => true
  }

  /** From a state with the invariant, an operation keeps the invariant exactly
      if it is good: nothing weaker would do. */
  lemma StepKeepsInvIff<S, C>(w: World<S, C>, op: Op<S, C>)
    requires Inv(w) && Fresh(w, op)
    ensures Inv(Step(w, op)) <==> Good(w, op)
  {
    if Applies(w, op) {
      match op {
        case Create(s, cancelOld) => CreateIff(w, s, cancelOld);
        case Execute(s, c, cancelOld, lost, sent, left) => ExecuteIff(w, s, c, cancelOld, lost, sent, left);
        case Reject(s, cancelOld) => RejectIff(w, s, cancelOld);
        case Read(s, left) =>
        case Direct(c, cancelOld, sent, left, cancelNew) => DirectIff(w, c, cancelOld, sent, left, cancelNew);
        case Close(s, cancelOld) => CloseIff(w, s, cancelOld);
      }
    }
  }

  lemma OnlyRegisteredUnread<S, C>(w: World<S, C>)
    requires Inv(w)
    ensures w.unread == {} || (w.registered.Some? && Executed(w, w.registered.value)
                               && w.unread == {w.statements[w.registered.value].context.value})
  {
    if c :| c in w.unread {
      assert w.unread == {c};
    }
  }

  lemma CreateIff<S, C>(w: World<S, C>, s: S, cancelOld: bool)
    requires Inv(w) && s !in w.statements
    ensures Inv(Step(w, Create(s, cancelOld))) <==> Good(w, Create(s, cancelOld))
  {
    OnlyRegisteredUnread(w);
    var w' := Step(w, Create(s, cancelOld));
    assert s in w'.statements && w'.statements[s] == StatementState(true, None);
    if w.registered.Some? {
      assert w.registered.value in w'.statements;
    }
  }

  lemma ExecuteIff<S, C>(w: World<S, C>, s: S, c: C, cancelOld: bool, lost: Option<bool>, sent: bool, left: bool)
    requires Inv(w) && s in w.statements && c !in w.unread
    ensures Inv(Step(w, Execute(s, c, cancelOld, lost, sent, left)))
       <==> Good(w, Execute(s, c, cancelOld, lost, sent, left))
  {
    OnlyRegisteredUnread(w);
    var before := Cancelled(w.unread, w.statements[s].context, cancelOld);
    assert before - {c} == before;
    if w.registered == Some(s) && lost.Some? {
      LostIff(w, s, c, cancelOld, lost.value, sent, left);
    }
  }

  /** The same for an execution that loses the connection: it unregisters the
      statement being executed. */
  lemma LostIff<S, C>(w: World<S, C>, s: S, c: C, cancelOld: bool, cancelReg: bool, sent: bool, left: bool)
    requires Inv(w) && w.registered == Some(s) && c !in w.unread
    ensures Inv(Step(w, Execute(s, c, cancelOld, Some(cancelReg), sent, left)))
       <==> Good(w, Execute(s, c, cancelOld, Some(cancelReg), sent, left))
  {
    OnlyRegisteredUnread(w);
    var w0 := w.(unread := Cancelled(w.unread, w.statements[s].context, cancelOld));
    if !DisplacementThrows(w) {
      var w1 := AfterLoss(w0, Some(cancelReg));
      assert w1.registered == None && !w1.statements[s].valid;
      assert w1.unread - {c} == w1.unread;
    }
  }

  lemma DirectIff<S, C>(w: World<S, C>, c: C, cancelOld: bool, sent: bool, left: bool, cancelNew: bool)
    requires Inv(w) && c !in w.unread
    ensures Inv(Step(w, Direct(c, cancelOld, sent, left, cancelNew))) <==> Good(w, Direct(c, cancelOld, sent, left, cancelNew))
  {
    OnlyRegisteredUnread(w);
    if !DisplacementThrows(w) {
      var before := Displaced(w, cancelOld).unread;
      assert before - {c} == before;
    }
  }

  lemma RejectIff<S, C>(w: World<S, C>, s: S, cancelOld: bool)
    requires Inv(w) && s in w.statements
    ensures Inv(Step(w, Reject(s, cancelOld))) <==> Good(w, Reject(s, cancelOld))
  {
    OnlyRegisteredUnread(w);
    var w' := Step(w, Reject(s, cancelOld));
    if w.registered == Some(s) {
      assert w'.registered == Some(s) && w'.statements[s].context == None;
    }
  }

  lemma CloseIff<S, C>(w: World<S, C>, s: S, cancelOld: bool)
    requires Inv(w) && s in w.statements
    ensures Inv(Step(w, Close(s, cancelOld))) <==> Good(w, Close(s, cancelOld))
  {
    OnlyRegisteredUnread(w);
  }

  // -------------------------------------------------------------------- runs

  ghost predicate GoodRun<S, C>(w: World<S, C>, ops: seq<Op<S, C>>)
    decreases |ops|
  {
    ops == [] || (Good(w, ops[0]) && Fresh(w, ops[0]) && GoodRun(Step(w, ops[0]), ops[1..]))
  }

  /** In every good run, over any number of statements and in any interleaving,
      no command is sent while another has unread results. */
  lemma {:induction false} GoodRunsAreClean<S, C>(w: World<S, C>, ops: seq<Op<S, C>>)
    requires Inv(w) && GoodRun(w, ops)
    ensures Inv(Run(w, ops)) && Run(w, ops).clean
    decreases |ops|
  {
    if ops != [] {
      StepKeepsInvIff(w, ops[0]);
      GoodRunsAreClean(Step(w, ops[0]), ops[1..]);
    }
  }

  lemma {:induction false} UncleanStays<S, C>(w: World<S, C>, ops: seq<Op<S, C>>)
    requires !w.clean
    ensures !Run(w, ops).clean
    decreases |ops|
  {
    if ops != [] {
      UncleanStays(Step(w, ops[0]), ops[1..]);
    }
  }

  // ------------------------------------------- what a step that is not good does

  /** An operation in which nothing goes wrong: it creates no statement, all
      cancels succeed, and the connection stays up. */
  predicate Smooth<S, C>(op: Op<S, C>) {
    match op
    case Create(_, _) => false
    case Execute(_, _, cancelOld, lost, _, _) => cancelOld && lost.None?
    case Reject(_, cancelOld) => cancelOld
    case Read(_, _) => true
    case Direct(_, cancelOld, _, _, cancelNew) => cancelOld && cancelNew
    case Close(_, cancelOld) => cancelOld
  }

  /** A run of such operations, every command sent being a new one. */
  ghost predicate SmoothRun<S, C>(w: World<S, C>, ops: seq<Op<S, C>>)
    decreases |ops|
  {
    ops == [] || (Smooth(ops[0]) && Fresh(w, ops[0]) && SmoothRun(Step(w, ops[0]), ops[1..]))
  }

  /** However the statements on the connection are executed, read and closed
      from here on without anything going wrong, no command is sent while
      another has unread results. */
  ghost predicate SafeFromHere<S(!new), C(!new)>(w: World<S, C>) {
    forall ops: seq<Op<S, C>> | SmoothRun(w, ops) :: Run(w, ops).clean
  }

  lemma {:induction false} SmoothIsGood<S, C>(w: World<S, C>, ops: seq<Op<S, C>>)
    requires Inv(w) && SmoothRun(w, ops)
    ensures GoodRun(w, ops)
    decreases |ops|
  {
    if ops != [] {
      StepKeepsInvIff(w, ops[0]);
      SmoothIsGood(Step(w, ops[0]), ops[1..]);
    }
  }

  lemma RunOfOne<S, C>(w: World<S, C>, op: Op<S, C>)
    requires Smooth(op) && Fresh(w, op) && !Step(w, op).clean
    ensures SmoothRun(w, [op]) && !Run(w, [op]).clean
  {
    assert [op][1..] == [];
  }

  lemma RunOfTwo<S, C>(w: World<S, C>, op: Op<S, C>, op': Op<S, C>)
    requires Smooth(op) && Fresh(w, op) && Smooth(op') && Fresh(Step(w, op), op') && !Step(Step(w, op), op').clean
    ensures SmoothRun(w, [op, op']) && !Run(w, [op, op']).clean
  {
    RunOfOne(Step(w, op), op');
    assert [op, op'][1..] == [op'];
  }

  /** Unread results with nothing registered: the next direct execution sends
      over them. */
  lemma DirectSendsOver<S(!new), C(!new)>(w: World<S, C>, c: C)
    requires w.registered.None? && c !in w.unread && w.unread != {}
    ensures !SafeFromHere(w)
  {
    var u :| u in w.unread;
    assert u in w.unread - {c};
    RunOfOne(w, Direct(c, true, true, true, true));
  }

  /** A statement displacing one without a command leaves both usable, and
      executing the one and then the other sends over unread results. */
  lemma UnexecutedDisplacementUnsafe<S(!new), C(!new)>(w: World<S, C>, s: S, cancelOld: bool, c: C, d: C)
    requires Inv(w) && s !in w.statements && DisplacementThrows(w) && c != d
    ensures !SafeFromHere(Step(w, Create(s, cancelOld)))
  {
    OnlyRegisteredUnread(w);
    var w1 := Step(w, Create(s, cancelOld));
    var r := w.registered.value;
    assert w1.unread == {} && w1.statements[s] == StatementState(true, None);
    assert w1.statements[r] == StatementState(true, None);
    var w2 := Step(w1, Execute(s, c, true, None, true, true));
    assert w2.unread == {c} && w2.statements[r] == StatementState(true, None);
    assert c in w2.unread - {d};
    RunOfTwo(w1, Execute(s, c, true, None, true, true), Execute(r, d, true, None, true, true));
  }

  lemma UncancelledCreateUnsafe<S(!new), C(!new)>(w: World<S, C>, s: S, c: C)
    requires Inv(w) && s !in w.statements && !DisplacementThrows(w) && w.unread != {} && c !in w.unread
    ensures !SafeFromHere(Step(w, Create(s, false)))
  {
    OnlyRegisteredUnread(w);
    var w1 := Step(w, Create(s, false));
    assert w1.unread == w.unread && w1.statements[s] == StatementState(true, None);
    var u :| u in w.unread;
    assert u in w1.unread - {c};
    RunOfOne(w1, Execute(s, c, true, None, true, true));
  }

  lemma UncleanUnsafe<S(!new), C(!new)>(w: World<S, C>)
    requires !w.clean
    ensures !SafeFromHere(w)
  {
    assert SmoothRun(w, []) && Run(w, []) == w;
  }

  /** The safety of everything that may follow hangs on the step being good: as
      long as there are two further commands to send, a step leaves the
      connection safe exactly if it is good. */
  lemma StepSafeIff<S(!new), C(!new)>(w: World<S, C>, op: Op<S, C>, c: C, d: C)
    requires Inv(w) && Fresh(w, op) && c != d
    requires c !in w.unread + Step(w, op).unread
    ensures SafeFromHere(Step(w, op)) <==> Good(w, op)
  {
    StepKeepsInvIff(w, op);
    var w' := Step(w, op);
    if Good(w, op) {
      forall ops: seq<Op<S, C>> | SmoothRun(w', ops) ensures Run(w', ops).clean {
        SmoothIsGood(w', ops);
        GoodRunsAreClean(w', ops);
      }
    } else {
      NotGoodUnsafe(w, op, c, d);
    }
  }

  lemma NotGoodUnsafe<S(!new), C(!new)>(w: World<S, C>, op: Op<S, C>, c: C, d: C)
    requires Inv(w) && Fresh(w, op) && c != d && !Good(w, op)
    requires c !in w.unread + Step(w, op).unread
    ensures !SafeFromHere(Step(w, op))
  {
    OnlyRegisteredUnread(w);
    match op {
      case Create(s, cancelOld) =>
        if DisplacementThrows(w) {
          UnexecutedDisplacementUnsafe(w, s, cancelOld, c, d);
        } else {
          UncancelledCreateUnsafe(w, s, c);
        }
      case Execute(s, e, cancelOld, lost, sent, left) => ExecuteUnsafe(w, s, e, cancelOld, lost, sent, left, c);
      case Reject(s, cancelOld) => RejectUnsafe(w, s, cancelOld, c);
      case Read(_, _) =>
      case Direct(e, cancelOld, sent, left, cancelNew) => DirectUnsafe(w, e, cancelOld, sent, left, cancelNew, c);
      case Close(s, cancelOld) =>
        DirectSendsOver(Step(w, op), c);
    }
  }

  lemma ExecuteUnsafe<S(!new), C(!new)>(w: World<S, C>, s: S, e: C, cancelOld: bool, lost: Option<bool>,
                                        sent: bool, left: bool, c: C)
    requires var op := Execute(s, e, cancelOld, lost, sent, left);
             Inv(w) && Fresh(w, op) && !Good(w, op) && c !in Step(w, op).unread
    ensures !SafeFromHere(Step(w, Execute(s, e, cancelOld, lost, sent, left)))
  {
    OnlyRegisteredUnread(w);
    var w' := Step(w, Execute(s, e, cancelOld, lost, sent, left));
    if cancelOld || w.unread == {} {
      assert e in w'.unread && w'.registered == None;
      DirectSendsOver(w', c);
    } else {
      assert w.unread - {e} == w.unread;
      assert !w'.clean;
      UncleanUnsafe(w');
    }
  }

  /** A rejected execution whose cancel fails: executing again sends over what
      was left. */
  lemma RejectUnsafe<S(!new), C(!new)>(w: World<S, C>, s: S, cancelOld: bool, c: C)
    requires Inv(w) && !Good(w, Reject(s, cancelOld)) && c !in w.unread
    ensures !SafeFromHere(Step(w, Reject(s, cancelOld)))
  {
    OnlyRegisteredUnread(w);
    var w' := Step(w, Reject(s, cancelOld));
    assert w'.unread == w.unread && w'.statements[s] == StatementState(true, None);
    var u :| u in w.unread;
    assert u in w'.unread - {c};
    RunOfOne(w', Execute(s, c, true, None, true, true));
  }

  lemma DirectUnsafe<S(!new), C(!new)>(w: World<S, C>, e: C, cancelOld: bool, sent: bool, left: bool, cancelNew: bool, c: C)
    requires var op := Direct(e, cancelOld, sent, left, cancelNew);
             Inv(w) && Fresh(w, op) && !Good(w, op) && c !in Step(w, op).unread
    ensures !SafeFromHere(Step(w, Direct(e, cancelOld, sent, left, cancelNew)))
  {
    OnlyRegisteredUnread(w);
    var w' := Step(w, Direct(e, cancelOld, sent, left, cancelNew));
    if cancelOld || w.unread == {} {
      assert e in w'.unread && w'.registered == None;
      DirectSendsOver(w', c);
    } else {
      assert w.unread - {e} == w.unread;
      assert !w'.clean;
      UncleanUnsafe(w');
    }
  }

  /** The shortest such run from an empty connection. The error of the second
      preparation escapes the driver uncaught; the run assumes that the caller
      survives it. */
  lemma UnexecutedStatementBreaksProtocol()
    ensures var ops: seq<Op<nat, nat>> := [Create(1, true), Create(2, true),
                                           Execute(2, 20, true, None, true, true), Execute(1, 10, true, None, true, true)];
            !Run(EmptyWorld(), ops).clean
  {
    var w0: World<nat, nat> := EmptyWorld();
    var ops: seq<Op<nat, nat>> := [Create(1, true), Create(2, true),
                                   Execute(2, 20, true, None, true, true), Execute(1, 10, true, None, true, true)];
    var idle: StatementState<nat> := StatementState(true, None);
    var w1 := Step(w0, ops[0]);
    assert w1 == World(Some(1), map[1 := idle], {}, true);
    var w2 := Step(w1, ops[1]);
    assert w2 == World(Some(1), map[1 := idle, 2 := idle], {}, true);
    var w3 := Step(w2, ops[2]);
    assert w3.unread == {20} && w3.clean && w3.statements[1] == idle;
    var w4 := Step(w3, ops[3]);
    assert 20 in {20} - {10};
    assert !w4.clean;
    assert ops[1..][1..] == ops[2..] && ops[2..][1..] == ops[3..] && ops[3..][1..] == [];
    assert Run(w0, ops) == Run(w1, ops[1..]);
    assert Run(w1, ops[1..]) == Run(w2, ops[2..]);
    assert Run(w2, ops[2..]) == Run(w3, ops[3..]);
  }

  /** The same with a first statement that was executed and read to its end,
      and whose next text was rejected. */
  lemma RejectedStatementBreaksProtocol()
    ensures var ops: seq<Op<nat, nat>> := [Create(1, true), Execute(1, 9, true, None, true, false), Reject(1, true)]
                                          + [Create(2, true), Execute(2, 20, true, None, true, true),
                                             Execute(1, 10, true, None, true, true)];
            !Run(EmptyWorld(), ops).clean
  {
    var w0: World<nat, nat> := EmptyWorld();
    var first: seq<Op<nat, nat>> := [Create(1, true), Execute(1, 9, true, None, true, false), Reject(1, true)];
    var last: seq<Op<nat, nat>> := [Create(2, true), Execute(2, 20, true, None, true, true),
                                    Execute(1, 10, true, None, true, true)];
    var idle: StatementState<nat> := StatementState(true, None);
    var w1 := Step(w0, first[0]);
    assert w1 == World(Some(1), map[1 := idle], {}, true);
    var w2 := Step(w1, first[1]);
    assert w2.unread == {} && w2.statements[1] == StatementState(true, Some(9));
    var w3 := Step(w2, first[2]);
    assert w3.registered == Some(1) && w3.statements[1] == idle && w3.unread == {};
    var w4 := Step(w3, last[0]);
    assert w4.statements[1] == idle && w4.statements[2] == idle && w4.unread == {};
    var w5 := Step(w4, last[1]);
    assert w5.unread == {20} && w5.statements[1] == idle;
    assert 20 in {20} - {10};
    assert first[1..][1..] == first[2..] && first[2..][1..] == [];
    assert Run(w0, first) == Run(w1, first[1..]) == Run(w2, first[2..]) == Run(w3, []) == w3;
    assert last[1..][1..] == last[2..] && last[2..][1..] == [];
    assert Run(w3, last) == Run(w4, last[1..]) == Run(w5, last[2..]);
    RunSplits(w0, first, last);
  }

  lemma {:induction false} RunSplits<S, C>(w: World<S, C>, a: seq<Op<S, C>>, b: seq<Op<S, C>>)
    ensures Run(w, a + b) == Run(Run(w, a), b)
    decreases |a|
  {
    if a == [] {
      assert a + b == b;
    } else {
      assert (a + b)[1..] == a[1..] + b;
      RunSplits(Step(w, a[0]), a[1..], b);
    }
  }

  /** A statement executed again, its connection lost and made anew with the
      send: its results are unread, yet it is not registered any longer, and the
      next direct execution sends over them. */
  lemma LostConnectionBreaksProtocol()
    ensures var ops: seq<Op<nat, nat>> := [Create(1, true), Execute(1, 10, true, None, true, false),
                                           Execute(1, 11, true, Some(true), true, true), Direct(12, true, true, true, true)];
            !Run(EmptyWorld(), ops).clean
  {
    var w0: World<nat, nat> := EmptyWorld();
    var ops: seq<Op<nat, nat>> := [Create(1, true), Execute(1, 10, true, None, true, false),
                                   Execute(1, 11, true, Some(true), true, true), Direct(12, true, true, true, true)];
    var w1 := Step(w0, ops[0]);
    assert w1 == World(Some(1), map[1 := StatementState(true, None)], {}, true);
    var w2 := Step(w1, ops[1]);
    assert w2.registered == Some(1) && w2.unread == {} && w2.statements[1] == StatementState(true, Some(10));
    var w3 := Step(w2, ops[2]);
    assert w3.registered == None && w3.unread == {11};
    var w4 := Step(w3, ops[3]);
    assert 11 in {11} - {12};
    assert !w4.clean;
    assert ops[1..][1..] == ops[2..] && ops[2..][1..] == ops[3..] && ops[3..][1..] == [];
    assert Run(w0, ops) == Run(w1, ops[1..]);
    assert Run(w1, ops[1..]) == Run(w2, ops[2..]);
    assert Run(w2, ops[2..]) == Run(w3, ops[3..]);
  }
}
