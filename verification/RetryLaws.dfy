/**
 The retrying of a lost command (`setupCommand` with its error handler,
 src/connection.cpp), in terms of what the attempts meet: which of them are made,
 what is observed of them and how the last one ends.
 */
module RetryLaws {
  import opened Wrappers
  import opened Replies
  import opened Connections

  /** The connection is lost and made anew, with no transaction open, in every
      attempt before number `i`. */
  predicate RemadeBefore(env: seq<Attempt>, i: nat)
    requires i <= |env|
  {
    forall j | 0 <= j < i ::
      env[j].sendRet != Success && !env[j].up && !env[j].inTransaction && env[j].init == InitOk
  }

  /** One attempt more at the front. */
  lemma RemadeFirst(env: seq<Attempt>, i: nat)
    requires 0 < i <= |env| && RemadeBefore(env, i)
    ensures RemadeBefore(env[1..], i - 1) && Retries(env[0])
  {
  }

  /** Sending, losing and remaking the connection `i` times in a row. */
  function Rounds(i: nat): seq<Event> {
    if i == 0 then [] else [SendTried(false), Reconnected(false, true)] + Rounds(i - 1)
  }

  lemma {:induction false} RoundsAre(i: nat)
    ensures |Rounds(i)| == 2 * i
    ensures forall j | 0 <= j < i ::
              Rounds(i)[2 * j] == SendTried(false) && Rounds(i)[2 * j + 1] == Reconnected(false, true)
  {
    if i > 0 {
      RoundsAre(i - 1);
      forall j | 0 <= j < i
        ensures Rounds(i)[2 * j] == SendTried(false) && Rounds(i)[2 * j + 1] == Reconnected(false, true)
      {
        if j > 0 {
          assert Rounds(i)[2 * j] == Rounds(i - 1)[2 * (j - 1)];
          assert Rounds(i)[2 * j + 1] == Rounds(i - 1)[2 * (j - 1) + 1];
        }
      }
    }
  }

  lemma FirstRound(env: seq<Attempt>)
    requires env != [] && Retries(env[0])
    ensures SetupLog(env) == [SendTried(false), Reconnected(false, true)] + SetupLog(env[1..])
    ensures Outcome(env) == Outcome(env[1..]) && Aborts(env) == Aborts(env[1..])
  {
  }

  lemma Joined(a: seq<Event>, b: seq<Event>, c: seq<Event>)
    ensures a + (b + c) == (a + b) + c
  {
  }

  lemma {:induction false} AfterRounds(env: seq<Attempt>, i: nat)
    requires i <= |env| && RemadeBefore(env, i)
    ensures SetupLog(env) == Rounds(i) + SetupLog(env[i..])
    ensures Outcome(env) == Outcome(env[i..]) && Aborts(env) == Aborts(env[i..])
  {
    hide SetupLog, Outcome, Aborts, RemadeBefore, Retries;
    if i == 0 {
      assert env[0..] == env;
      assert Rounds(0) + SetupLog(env) == SetupLog(env);
    } else {
      RemadeFirst(env, i);
      FirstRound(env);
      AfterRounds(env[1..], i - 1);
      assert env[1..][i - 1..] == env[i..];
      Joined([SendTried(false), Reconnected(false, true)], Rounds(i - 1), SetupLog(env[i..]));
    }
  }

  /** The command is sent again as long as the connection is lost and made anew
      outside a transaction; the first attempt for which this is not so is the
      last, and says how the whole ends. */
  lemma LastAttempt(env: seq<Attempt>, i: nat)
    requires i < |env| && RemadeBefore(env, i)
    requires env[i].sendRet == Success || env[i].up || env[i].inTransaction || env[i].init != InitOk
    ensures Outcome(env)
         == if env[i].sendRet == Success then Ok(env[i])
            else if !env[i].up && env[i].init == InitThrows then Err(ReconnectThrew)
            else Err(SendFailed)
    ensures Aborts(env)
       <==> env[i].sendRet != Success && !env[i].up
            && (env[i].init == InitFails || (env[i].init == InitOk && env[i].inTransaction))
    ensures var last := if env[i].sendRet == Success then [SendTried(true)]
                        else if env[i].up then [SendTried(false)]
                        else [SendTried(false), Reconnected(env[i].inTransaction, env[i].init == InitOk)];
            && |SetupLog(env)| == 2 * i + |last| && SetupLog(env)[2 * i..] == last
            && forall j | 0 <= j < i ::
                 SetupLog(env)[2 * j] == SendTried(false) && SetupLog(env)[2 * j + 1] == Reconnected(false, true)
  {
    AfterRounds(env, i);
    RoundsAre(i);
    assert SetupLog(env[i..]) == AttemptLog(env[i]) + [];
    assert SetupLog(env)[2 * i..] == AttemptLog(env[i]);
    forall j | 0 <= j < i
      ensures SetupLog(env)[2 * j] == SendTried(false) && SetupLog(env)[2 * j + 1] == Reconnected(false, true)
    {
      assert SetupLog(env)[2 * j] == Rounds(i)[2 * j] && SetupLog(env)[2 * j + 1] == Rounds(i)[2 * j + 1];
    }
  }

  /** If it is so for all of them, all are made, and retrying goes on. */
  lemma AllTried(env: seq<Attempt>)
    requires RemadeBefore(env, |env|)
    ensures Outcome(env) == Err(StillRetrying) && !Aborts(env)
    ensures |SetupLog(env)| == 2 * |env|
    ensures forall j | 0 <= j < |env| ::
              SetupLog(env)[2 * j] == SendTried(false) && SetupLog(env)[2 * j + 1] == Reconnected(false, true)
  {
    AfterRounds(env, |env|);
    RoundsAre(|env|);
    assert SetupLog(env) == Rounds(|env|) + [];
    assert Rounds(|env|) + [] == Rounds(|env|);
  }

  lemma {:induction false} SomeLast(env: seq<Attempt>, i: nat)
    requires i <= |env| && RemadeBefore(env, i)
    ensures RemadeBefore(env, |env|)
         || exists k | 0 <= k < |env| && RemadeBefore(env, k) ::
              env[k].sendRet == Success || env[k].up || env[k].inTransaction || env[k].init != InitOk
    decreases |env| - i
  {
    if i < |env| && env[i].sendRet != Success && !env[i].up && !env[i].inTransaction && env[i].init == InitOk {
      SomeLast(env, i + 1);
    }
  }

  /** The command gets through exactly if some send succeeds and the connection
      was lost and made anew, outside a transaction, in every attempt before it;
      it is that attempt's command. */
  lemma SentIff(env: seq<Attempt>)
    ensures Outcome(env).Ok? <==> exists i | 0 <= i < |env| :: env[i].sendRet == Success && RemadeBefore(env, i)
    ensures forall i | 0 <= i < |env| && env[i].sendRet == Success && RemadeBefore(env, i) :: Outcome(env) == Ok(env[i])
  {
    forall i | 0 <= i < |env| && env[i].sendRet == Success && RemadeBefore(env, i) ensures Outcome(env) == Ok(env[i]) {
      LastAttempt(env, i);
    }
    SomeLast(env, 0);
    if RemadeBefore(env, |env|) {
      AllTried(env);
    } else {
      var k :| 0 <= k < |env| && RemadeBefore(env, k)
               && (env[k].sendRet == Success || env[k].up || env[k].inTransaction || env[k].init != InitOk);
      LastAttempt(env, k);
    }
  }

  /** After a successful reconnection outside a transaction the command is sent
      again, unless no attempt is left: the counterpart of
      `ResentOnlyAfterReconnection`. */
  lemma {:induction false} ResentAfterReconnection(env: seq<Attempt>, k: nat)
    requires k < |SetupLog(env)| && SetupLog(env)[k] == Reconnected(false, true)
    ensures if k + 1 < |SetupLog(env)| then SetupLog(env)[k + 1].SendTried? else Outcome(env) == Err(StillRetrying)
    decreases |env|
  {
    if env != [] && Retries(env[0]) {
      var rest := SetupLog(env[1..]);
      assert SetupLog(env) == [SendTried(false), Reconnected(false, true)] + rest;
      if k >= 2 {
        ResentAfterReconnection(env[1..], k - 2);
      } else if env[1..] != [] {
        assert rest[0].SendTried?;
      }
    }
  }
}
