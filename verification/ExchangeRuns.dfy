/** Whole runs of the dispatch exchange protocol: what is counted, what stays apart, which ids are given. */
module ExchangeRuns {
  import opened Wrappers
  import opened ExchangeManager

  datatype Call =
    | Submit(pair: Pair, form: Form, direction: Direction, train: string)
    | Close(pair: Pair)

  function After(m: Manager, call: Call): Manager
  {
    match call
    case Submit(pair, form, direction, train) => Submitted(m, pair, form, direction, train).0
    case Close(pair) => ClosedPair(m, pair)
  }

  function Run(m: Manager, calls: seq<Call>): Manager
    decreases calls
  {
    if calls == [] then m else Run(After(m, calls[0]), calls[1..])
  }

  function AnswerTo(m: Manager, call: Call): Outcome
    requires call.Submit?
  {
    Submitted(m, call.pair, call.form, call.direction, call.train).1
  }

  predicate IsAccepted(m: Manager, call: Call)
  {
    call.Submit? && AnswerTo(m, call).result == Accepted
  }

  lemma {:induction false} RunSplits(m: Manager, xs: seq<Call>, ys: seq<Call>)
    ensures Run(m, xs + ys) == Run(Run(m, xs), ys)
    decreases xs
  {
    if xs == [] {
      assert xs + ys == ys;
    } else {
      assert (xs + ys)[1..] == xs[1..] + ys;
      RunSplits(After(m, xs[0]), xs[1..], ys);
    }
  }

  /** One call: only the exchange of its pair changes, and how. */
  lemma AfterStep(m: Manager, call: Call)
    ensures forall p :: p != call.pair ==> ExchangeOf(After(m, call), p) == ExchangeOf(m, p)
    ensures call.Close? ==> After(m, call).nextId == m.nextId
    ensures call.Close? ==> var ex := ExchangeOf(m, call.pair);
                            ExchangeOf(After(m, call), call.pair)
                            == if ex.status == S26Received then ex.(status := Closed) else ex
    ensures call.Submit? ==> var ex := ExchangeOf(m, call.pair);
                             ExchangeOf(After(m, call), call.pair)
                             == ExchangeAfter(ex, m.nextId, Decide(ex.status, call.form, call.direction), call.train)
  {
    hide Decide, ExchangeAfter;
  }

  // ---- Counting -------------------------------------------------------------------------------------

  datatype Milestone = Opening | Clearance | Departure | Arrival | Cancellation | Closing

  function MilestoneOf(form: Form): Option<Milestone>
  {
    match form
    case S2 | S55 => Some(Opening)
    case S24 | S56 => Some(Clearance)
    case S25 => Some(Departure)
    case S26 => Some(Arrival)
    case S35 => Some(Cancellation)
    case S51 | S52 | S76 => None
  }

  /** What a call achieves on a pair, as seen from outside: a telegram that is accepted, or a close
      that changes the status. */
  function Reached(m: Manager, call: Call, pair: Pair): Option<Milestone>
  {
    if call.pair != pair then None
    else if call.Submit? then (if IsAccepted(m, call) then MilestoneOf(call.form) else None)
    else if StatusOf(After(m, call), pair) != StatusOf(m, pair) then Some(Closing)
    else None
  }

  function One(b: bool): nat { if b then 1 else 0 }

  /** How often a run reaches a milestone on a pair. */
  function Count(m: Manager, calls: seq<Call>, pair: Pair, milestone: Milestone): nat
    decreases calls
  {
    if calls == [] then 0
    else One(Reached(m, calls[0], pair) == Some(milestone)) + Count(After(m, calls[0]), calls[1..], pair, milestone)
  }

  lemma StepFlow(m: Manager, call: Call, pair: Pair)
    ensures var (r, s, t) := (Reached(m, call, pair), StatusOf(m, pair), StatusOf(After(m, call), pair));
            && One(r == Some(Opening)) + One(s == S2Sent)
               == One(r == Some(Clearance)) + One(r == Some(Cancellation)) + One(t == S2Sent)
            && One(r == Some(Clearance)) + One(s == S24Received) == One(r == Some(Departure)) + One(t == S24Received)
            && One(r == Some(Departure)) + One(s == S25Sent) == One(r == Some(Arrival)) + One(t == S25Sent)
            && One(r == Some(Arrival)) + One(s == S26Received) == One(r == Some(Closing)) + One(t == S26Received)
  {
    AfterStep(m, call);
    hide ExchangeId, Put, After, ClosedPair;
    var ex := ExchangeOf(m, pair);
    if call.pair == pair && call.Submit? {
      var decision := Decide(ex.status, call.form, call.direction);
      assert IsAccepted(m, call) <==> !decision.Refuse?;
    }
  }

  /** In every run, from any state, the telegrams accepted on a pair balance: each step of the exchange
      has been taken exactly as often as the next one, give or take the exchange now between the two. */
  lemma {:induction false} ExchangesBalance(m: Manager, calls: seq<Call>, pair: Pair)
    ensures var (s, t) := (StatusOf(m, pair), StatusOf(Run(m, calls), pair));
            && Count(m, calls, pair, Opening) + One(s == S2Sent)
               == Count(m, calls, pair, Clearance) + Count(m, calls, pair, Cancellation) + One(t == S2Sent)
            && Count(m, calls, pair, Clearance) + One(s == S24Received)
               == Count(m, calls, pair, Departure) + One(t == S24Received)
            && Count(m, calls, pair, Departure) + One(s == S25Sent)
               == Count(m, calls, pair, Arrival) + One(t == S25Sent)
            && Count(m, calls, pair, Arrival) + One(s == S26Received)
               == Count(m, calls, pair, Closing) + One(t == S26Received)
    decreases calls
  {
    if calls != [] {
      StepFlow(m, calls[0], pair);
      ExchangesBalance(After(m, calls[0]), calls[1..], pair);
    }
  }

  /** From the start: at most one exchange of a pair is under way at any time. */
  lemma OneExchangeAtATime(calls: seq<Call>, pair: Pair)
    ensures Count(FRESH, calls, pair, Opening)
            == Count(FRESH, calls, pair, Cancellation) + Count(FRESH, calls, pair, Closing)
               + One(!Inactive(StatusOf(Run(FRESH, calls), pair)))
  {
    ExchangesBalance(FRESH, calls, pair);
  }

  // ---- Pairs do not interfere -----------------------------------------------------------------------

  function Only(calls: seq<Call>, pair: Pair): seq<Call>
  {
    if calls == [] then []
    else (if calls[0].pair == pair then [calls[0]] else []) + Only(calls[1..], pair)
  }

  /** An exchange, or an answer, whose id is only told to be there or not. */
  function Nameless(ex: Exchange): Exchange
  {
    ex.(id := if ex.id == "" then "" else "-")
  }

  function NamelessAnswer(outcome: Outcome): Outcome
  {
    outcome.(exchangeId := if outcome.exchangeId == "" then "" else "-")
  }

  /** The answers to the telegrams of a pair during a run. */
  function Answers(m: Manager, calls: seq<Call>, pair: Pair): seq<Outcome>
    decreases calls
  {
    if calls == [] then []
    else
      (if calls[0].Submit? && calls[0].pair == pair then [NamelessAnswer(AnswerTo(m, calls[0]))] else [])
      + Answers(After(m, calls[0]), calls[1..], pair)
  }

  lemma StepAlone(m: Manager, n: Manager, call: Call)
    requires Nameless(ExchangeOf(m, call.pair)) == Nameless(ExchangeOf(n, call.pair))
    ensures Nameless(ExchangeOf(After(m, call), call.pair)) == Nameless(ExchangeOf(After(n, call), call.pair))
    ensures call.Submit? ==> NamelessAnswer(AnswerTo(m, call)) == NamelessAnswer(AnswerTo(n, call))
  {
    AfterStep(m, call);
    AfterStep(n, call);
    assert ExchangeId(m.nextId) != "" && ExchangeId(n.nextId) != "";
    hide ExchangeId, Put, After, ClosedPair, Decide;
  }

  lemma {:induction false} RunAlone(m: Manager, n: Manager, calls: seq<Call>, pair: Pair)
    requires Nameless(ExchangeOf(m, pair)) == Nameless(ExchangeOf(n, pair))
    ensures Answers(m, calls, pair) == Answers(n, Only(calls, pair), pair)
    ensures Nameless(ExchangeOf(Run(m, calls), pair)) == Nameless(ExchangeOf(Run(n, Only(calls, pair)), pair))
    decreases calls
  {
    if calls != [] {
      var (call, rest) := (calls[0], calls[1..]);
      AfterStep(m, call);
      if call.pair == pair {
        StepAlone(m, n, call);
        RunAlone(After(m, call), After(n, call), rest, pair);
        assert Only(calls, pair)[1..] == Only(rest, pair);
      } else {
        RunAlone(After(m, call), n, rest, pair);
        assert Only(calls, pair) == Only(rest, pair);
        assert Answers(m, calls, pair) == Answers(After(m, call), rest, pair);
      }
    }
  }

  /** However the calls of other pairs are interleaved, a pair is answered as if it were alone. */
  lemma PairsDoNotInterfere(calls: seq<Call>, pair: Pair)
    ensures Answers(FRESH, calls, pair) == Answers(FRESH, Only(calls, pair), pair)
    ensures StatusOf(Run(FRESH, calls), pair) == StatusOf(Run(FRESH, Only(calls, pair)), pair)
  {
    RunAlone(FRESH, FRESH, calls, pair);
  }

  // ---- Ids ------------------------------------------------------------------------------------------

  function Before(calls: seq<Call>, i: nat): Manager
    requires i <= |calls|
  {
    Run(FRESH, calls[..i])
  }

  predicate BeginsExchange(m: Manager, call: Call)
  {
    IsAccepted(m, call) && IsRequest(call.form)
  }

  /** Call i of a run from the start opens an exchange. */
  predicate Opens(calls: seq<Call>, i: nat)
    requires i < |calls|
  {
    BeginsExchange(Before(calls, i), calls[i])
  }

  /** How many exchanges, of all pairs, the first i calls open. */
  function Opened(calls: seq<Call>, i: nat): nat
    requires i <= |calls|
  {
    if i == 0 then 0 else Opened(calls, i - 1) + One(Opens(calls, i - 1))
  }

  /** The latest of the first i calls that opened an exchange of the pair. */
  function Opener(calls: seq<Call>, i: nat, pair: Pair): (opener: Option<nat>)
    requires i <= |calls|
    ensures opener.Some? ==> opener.value < i && Opens(calls, opener.value) && calls[opener.value].pair == pair
  {
    if i == 0 then None
    else if calls[i - 1].pair == pair && Opens(calls, i - 1) then Some(i - 1)
    else Opener(calls, i - 1, pair)
  }

  /** The id given to the exchange that call k opened: its number among all openings, modulo 2^64. */
  function IdGivenAt(calls: seq<Call>, k: nat): string
    requires k < |calls|
  {
    ExchangeId(Wrapped(Opened(calls, k + 1)))
  }

  function IdOf(calls: seq<Call>, opener: Option<nat>): string
    requires opener.Some? ==> opener.value < |calls|
  {
    if opener.None? then "" else IdGivenAt(calls, opener.value)
  }

  lemma BeforeNext(calls: seq<Call>, i: nat)
    requires i < |calls|
    ensures Before(calls, i + 1) == After(Before(calls, i), calls[i])
  {
    assert calls[..i + 1] == calls[..i] + [calls[i]];
    RunSplits(FRESH, calls[..i], [calls[i]]);
    assert Run(Before(calls, i), [calls[i]]) == After(Before(calls, i), calls[i]);
  }

  lemma NextIdAfter(m: Manager, call: Call)
    ensures After(m, call).nextId
            == if BeginsExchange(m, call) then Wrapped(m.nextId + 1) else m.nextId
    ensures BeginsExchange(m, call) ==>
              ExchangeOf(After(m, call), call.pair).id == ExchangeId(m.nextId)
    ensures !BeginsExchange(m, call) ==>
              ExchangeOf(After(m, call), call.pair).id == ExchangeOf(m, call.pair).id
  {
    AfterStep(m, call);
    hide ExchangeId, Put, Wrapped;
    if call.Submit? {
      var decision := Decide(StatusOf(m, call.pair), call.form, call.direction);
      assert IsAccepted(m, call) <==> !decision.Refuse?;
      assert decision.Open? <==> !decision.Refuse? && IsRequest(call.form);
      hide Decide;
    }
  }

  lemma OpenedNext(calls: seq<Call>, i: nat)
    requires i < |calls|
    ensures Opened(calls, 0) == 0
    ensures Opened(calls, i + 1) == Opened(calls, i) + One(BeginsExchange(Before(calls, i), calls[i]))
    ensures Opens(calls, i) ==> Opened(calls, i + 1) == Opened(calls, i) + 1
  {
    hide BeginsExchange, Before;
  }

  lemma NextIdAtFirst(calls: seq<Call>)
    ensures Before(calls, 0).nextId == Wrapped(Opened(calls, 0) + 1)
  {
    hide BeginsExchange, Opens;
    assert calls[..0] == [];
  }

  lemma {:induction false} NextIds(calls: seq<Call>, i: nat)
    requires i <= |calls|
    ensures Before(calls, i).nextId == Wrapped(Opened(calls, i) + 1)
  {
    hide After, Before, BeginsExchange, Wrapped, Opened;
    if i == 0 {
      NextIdAtFirst(calls);
    } else {
      NextIds(calls, i - 1);
      var (m, call, n) := (Before(calls, i - 1), calls[i - 1], Opened(calls, i - 1));
      BeforeNext(calls, i - 1);
      NextIdAfter(m, call);
      WrappedNext(n + 1);
      OpenedNext(calls, i - 1);
    }
  }

  lemma IdsAtFirst(calls: seq<Call>, pair: Pair)
    ensures ExchangeOf(Before(calls, 0), pair) == NO_EXCHANGE
    ensures Opener(calls, 0, pair) == None
  {
    assert calls[..0] == [];
  }

  lemma NotIdleNeedsOpening(m: Manager, call: Call)
    ensures StatusOf(m, call.pair) == Idle && StatusOf(After(m, call), call.pair) != Idle ==>
              BeginsExchange(m, call)
  {
    AfterStep(m, call);
    hide ExchangeId, Put;
  }

  /** At any point of a run, the id on a pair is that of its latest opening. */
  lemma {:induction false} IdsGiven(calls: seq<Call>, i: nat, pair: Pair)
    requires i <= |calls|
    ensures ExchangeOf(Before(calls, i), pair).id == IdOf(calls, Opener(calls, i, pair))
    ensures StatusOf(Before(calls, i), pair) != Idle ==> Opener(calls, i, pair).Some?
  {
    hide ExchangeId, After, Before, BeginsExchange, ExchangeOf, ExchangeAfter, Decide, Opened, Wrapped;
    if i == 0 {
      IdsAtFirst(calls, pair);
    } else {
      IdsGiven(calls, i - 1, pair);
      NextIds(calls, i - 1);
      OpenedNext(calls, i - 1);
      BeforeNext(calls, i - 1);
      var (m, call) := (Before(calls, i - 1), calls[i - 1]);
      AfterStep(m, call);
      NextIdAfter(m, call);
      NotIdleNeedsOpening(m, call);
    }
  }

  lemma AcceptedFromIdle(m: Manager, call: Call)
    requires IsAccepted(m, call)
    ensures AnswerTo(m, call).exchangeId == ExchangeOf(After(m, call), call.pair).id
    ensures call.form == S76 || StatusOf(After(m, call), call.pair) != Idle
  {
    AfterStep(m, call);
    hide ExchangeId, Put, After;
  }

  /** The answer to an accepted telegram carries the id of the latest opening on its pair, itself included;
      it carries none only for an S76 sent before any exchange of its pair. */
  lemma AcceptedCarryTheirOpening(calls: seq<Call>, i: nat)
    requires i < |calls| && IsAccepted(Before(calls, i), calls[i])
    ensures var (opener, answer) := (Opener(calls, i + 1, calls[i].pair), AnswerTo(Before(calls, i), calls[i]));
            && answer.exchangeId == IdOf(calls, opener)
            && (opener.None? <==> answer.exchangeId == "")
            && (opener.None? ==> calls[i].form == S76)
  {
    var (m, call) := (Before(calls, i), calls[i]);
    IdsGiven(calls, i, call.pair);
    IdsGiven(calls, i + 1, call.pair);
    BeforeNext(calls, i);
    AfterStep(m, call);
    AcceptedFromIdle(m, call);
    var opener := Opener(calls, i + 1, call.pair);
    assert opener.Some? ==> IdGivenAt(calls, opener.value) != "";
    hide ExchangeId, Put, ExchangeOf, Decide, BeginsExchange, Opened, Before, After;
  }

  lemma {:induction false} OpenedGrows(calls: seq<Call>, i: nat, j: nat)
    requires i <= j <= |calls|
    ensures Opened(calls, i) <= Opened(calls, j) <= Opened(calls, i) + (j - i)
    decreases j
  {
    if i < j {
      OpenedGrows(calls, i, j - 1);
    }
  }

  /** No two exchanges of a run share an id, until the counter has gone round. */
  lemma OpeningsDistinct(calls: seq<Call>, k: nat, l: nat)
    requires k < |calls| < ID_LIMIT && l < |calls| && Opens(calls, k) && Opens(calls, l)
    requires IdGivenAt(calls, k) == IdGivenAt(calls, l)
    ensures k == l
  {
    hide Opened, Opens, BeginsExchange, Before, ExchangeId;
    var (x, y) := (Opened(calls, k + 1), Opened(calls, l + 1));
    ExchangeIdInjective(Wrapped(x), Wrapped(y));
    hide IdGivenAt, Wrapped;
    OpenedNext(calls, k);
    OpenedNext(calls, l);
    OpenedGrows(calls, 0, k + 1);
    OpenedGrows(calls, 0, l + 1);
    WrappedSmall(x);
    WrappedSmall(y);
    if k < l {
      OpenedGrows(calls, k + 1, l);
    } else if l < k {
      OpenedGrows(calls, l + 1, k);
    }
  }

  /** Two accepted telegrams, of whatever pairs, carry the same id exactly when the same call opened their
      exchange; so in particular their pairs are then the same. */
  lemma SameIdIff(calls: seq<Call>, i: nat, j: nat)
    requires i < |calls| < ID_LIMIT && j < |calls|
    requires IsAccepted(Before(calls, i), calls[i]) && IsAccepted(Before(calls, j), calls[j])
    ensures AnswerTo(Before(calls, i), calls[i]).exchangeId == AnswerTo(Before(calls, j), calls[j]).exchangeId
            <==> Opener(calls, i + 1, calls[i].pair) == Opener(calls, j + 1, calls[j].pair)
  {
    AcceptedCarryTheirOpening(calls, i);
    AcceptedCarryTheirOpening(calls, j);
    var (o, p) := (Opener(calls, i + 1, calls[i].pair), Opener(calls, j + 1, calls[j].pair));
    hide ExchangeId, Put, ExchangeOf, Decide, Opened, Before, After, AnswerTo, Opener, IdGivenAt;
    if o.Some? && p.Some? && IdOf(calls, o) == IdOf(calls, p) {
      OpeningsDistinct(calls, o.value, p.value);
    }
  }

  /** As the first call of a pair, an S76 is accepted without an id, and an S51 or S52 is refused. */
  lemma FirstCalls(m: Manager, pair: Pair, form: Form, direction: Direction, train: string)
    requires StatusOf(m, pair) == Idle && ExchangeOf(m, pair).id == ""
    ensures var answer := AnswerTo(m, Submit(pair, form, direction, train));
            && (form == S76 ==> answer == Outcome(Accepted, Idle, Confirmed, ""))
            && (form == S51 || form == S52 ==> answer == Outcome(RejectedWrongState, Idle, Rejected, ""))
  {
    hide ExchangeId, Put;
  }

  lemma FirstCallsOfARun(pair: Pair)
    ensures AnswerTo(FRESH, Submit(pair, S76, Sent, "")) == Outcome(Accepted, Idle, Confirmed, "")
    ensures AnswerTo(FRESH, Submit(pair, S51, Sent, "")) == Outcome(RejectedWrongState, Idle, Rejected, "")
  {
    FirstCalls(FRESH, pair, S76, Sent, "");
    FirstCalls(FRESH, pair, S51, Sent, "");
  }

  // ---- Progress -------------------------------------------------------------------------------------

  /** Every telegram of the calls is accepted, and every close takes effect. */
  predicate AllTakeEffect(m: Manager, calls: seq<Call>)
    decreases calls
  {
    calls == []
    || ((if calls[0].Submit? then IsAccepted(m, calls[0])
         else StatusOf(After(m, calls[0]), calls[0].pair) != StatusOf(m, calls[0].pair))
        && AllTakeEffect(After(m, calls[0]), calls[1..]))
  }

  /** A train is asked for, let through, sent and reported, and the exchange is closed. */
  function Passage(pair: Pair, request: Form, reply: Form, train: string): seq<Call>
  {
    [Submit(pair, request, Sent, train), Submit(pair, reply, Received, train), Submit(pair, S25, Sent, train),
     Submit(pair, S26, Received, train), Close(pair)]
  }

  function Withdrawal(pair: Pair, request: Form, train: string): seq<Call>
  {
    [Submit(pair, request, Sent, train), Submit(pair, S35, Sent, train)]
  }

  /** One telegram, from the status of its pair alone. */
  lemma Moves(m: Manager, pair: Pair, form: Form, direction: Direction, train: string)
    ensures var (s, call) := (StatusOf(m, pair), Submit(pair, form, direction, train));
            var t := StatusOf(After(m, call), pair);
            && ((form == S2 || form == S55) && direction == Sent && (s == Idle || s == Closed || s == Cancelled) ==>
                  IsAccepted(m, call) && t == S2Sent && AnswerTo(m, call).exchangeId == ExchangeId(m.nextId))
            && ((form == S24 || form == S56) && direction == Received && s == S2Sent ==> IsAccepted(m, call) && t == S24Received)
            && (form == S25 && direction == Sent && s == S24Received ==> IsAccepted(m, call) && t == S25Sent)
            && (form == S26 && direction == Received && s == S25Sent ==> IsAccepted(m, call) && t == S26Received)
            && (form == S35 && direction == Sent && s == S2Sent ==> IsAccepted(m, call) && t == Cancelled)
  {
    hide ExchangeId, ClosedPair;
  }

  lemma Closes(m: Manager, pair: Pair)
    requires StatusOf(m, pair) == S26Received
    ensures StatusOf(After(m, Close(pair)), pair) == Closed
  {
  }

  /** The first call takes effect, and then the others do. */
  lemma FirstTakesEffect(m: Manager, calls: seq<Call>, pair: Pair, milestone: Milestone)
    requires calls != [] && calls[0].pair == pair
    requires if calls[0].Submit? then IsAccepted(m, calls[0])
             else StatusOf(After(m, calls[0]), pair) != StatusOf(m, pair)
    ensures Run(m, calls) == Run(After(m, calls[0]), calls[1..])
    ensures AllTakeEffect(m, calls) == AllTakeEffect(After(m, calls[0]), calls[1..])
    ensures var reached := if calls[0].Submit? then MilestoneOf(calls[0].form) else Some(Closing);
            Count(m, calls, pair, milestone)
            == One(reached == Some(milestone)) + Count(After(m, calls[0]), calls[1..], pair, milestone)
  {
    hide After, StatusOf, IsAccepted;
  }

  lemma NothingLeft(m: Manager, pair: Pair, milestone: Milestone)
    ensures Run(m, []) == m && AllTakeEffect(m, []) && Count(m, [], pair, milestone) == 0
  {
  }

  /** The part of a passage after the reply. */
  lemma CrossingSucceeds(m: Manager, pair: Pair, train: string, milestone: Milestone)
    requires StatusOf(m, pair) == S24Received
    ensures var calls := [Submit(pair, S25, Sent, train), Submit(pair, S26, Received, train), Close(pair)];
            && AllTakeEffect(m, calls) && StatusOf(Run(m, calls), pair) == Closed
            && Count(m, calls, pair, milestone)
               == One(milestone == Departure) + One(milestone == Arrival) + One(milestone == Closing)
  {
    hide After, StatusOf, IsAccepted, Run, Count, AllTakeEffect;
    var calls := [Submit(pair, S25, Sent, train), Submit(pair, S26, Received, train), Close(pair)];
    var m1 := After(m, calls[0]);
    var m2 := After(m1, calls[1]);
    Moves(m, pair, S25, Sent, train);
    Moves(m1, pair, S26, Received, train);
    Closes(m2, pair);
    assert calls[1..][1..] == calls[2..] && calls[2..][1..] == [];
    FirstTakesEffect(m, calls, pair, milestone);
    FirstTakesEffect(m1, calls[1..], pair, milestone);
    FirstTakesEffect(m2, calls[2..], pair, milestone);
    NothingLeft(After(m2, calls[2]), pair, milestone);
  }

  /** From every state in which no exchange of the pair is active, whether none was ever opened or the last
      one was closed or cancelled, a passage takes effect call by call, and so does a withdrawal. */
  lemma PassageSucceeds(m: Manager, pair: Pair, request: Form, reply: Form, train: string, milestone: Milestone)
    requires request == S2 || request == S55
    requires reply == S24 || reply == S56
    requires StatusOf(m, pair) == Idle || StatusOf(m, pair) == Closed || StatusOf(m, pair) == Cancelled
    ensures AllTakeEffect(m, Passage(pair, request, reply, train))
    ensures StatusOf(Run(m, Passage(pair, request, reply, train)), pair) == Closed
    ensures Count(m, Passage(pair, request, reply, train), pair, milestone) == if milestone == Cancellation then 0 else 1
  {
    hide After, StatusOf, IsAccepted, Run, Count, AllTakeEffect;
    var calls := Passage(pair, request, reply, train);
    var m1 := After(m, calls[0]);
    Moves(m, pair, request, Sent, train);
    Moves(m1, pair, reply, Received, train);
    CrossingSucceeds(After(m1, calls[1]), pair, train, milestone);
    assert calls[1..][1..] == [Submit(pair, S25, Sent, train), Submit(pair, S26, Received, train), Close(pair)];
    FirstTakesEffect(m, calls, pair, milestone);
    FirstTakesEffect(m1, calls[1..], pair, milestone);
  }

  lemma WithdrawalSucceeds(m: Manager, pair: Pair, request: Form, train: string)
    requires request == S2 || request == S55
    requires StatusOf(m, pair) == Idle || StatusOf(m, pair) == Closed || StatusOf(m, pair) == Cancelled
    ensures AllTakeEffect(m, Withdrawal(pair, request, train))
    ensures StatusOf(Run(m, Withdrawal(pair, request, train)), pair) == Cancelled
  {
    hide After, StatusOf, IsAccepted, Run, AllTakeEffect;
    var calls := Withdrawal(pair, request, train);
    var m1 := After(m, calls[0]);
    Moves(m, pair, request, Sent, train);
    Moves(m1, pair, S35, Sent, train);
    assert calls[1..][1..] == [];
    FirstTakesEffect(m, calls, pair, Cancellation);
    FirstTakesEffect(m1, calls[1..], pair, Cancellation);
    NothingLeft(After(m1, calls[1]), pair, Cancellation);
  }

  /** Some passages of one pair, one after the other. */
  function Passages(pair: Pair, n: nat): seq<Call>
  {
    if n == 0 then [] else Passage(pair, S2, S24, "") + Passages(pair, n - 1)
  }

  lemma {:induction false} CountSplits(m: Manager, xs: seq<Call>, ys: seq<Call>, pair: Pair, milestone: Milestone)
    ensures Count(m, xs + ys, pair, milestone) == Count(m, xs, pair, milestone) + Count(Run(m, xs), ys, pair, milestone)
    decreases xs
  {
    hide After, Reached;
    if xs == [] {
      assert xs + ys == ys;
    } else {
      assert (xs + ys)[1..] == xs[1..] + ys;
      CountSplits(After(m, xs[0]), xs[1..], ys, pair, milestone);
    }
  }

  /** So a pair can be used again and again: n passages make n openings, clearances, departures, arrivals and
      closings, whatever other pairs have done before. */
  lemma {:induction false} PassagesSucceed(m: Manager, pair: Pair, n: nat, milestone: Milestone)
    requires StatusOf(m, pair) == Idle || StatusOf(m, pair) == Closed || StatusOf(m, pair) == Cancelled
    ensures Count(m, Passages(pair, n), pair, milestone) == if milestone == Cancellation then 0 else n
    ensures n > 0 ==> StatusOf(Run(m, Passages(pair, n)), pair) == Closed
    decreases n
  {
    hide StatusOf, Count, Passage, Run;
    NothingLeft(m, pair, milestone);
    if n > 0 {
      var (first, rest) := (Passage(pair, S2, S24, ""), Passages(pair, n - 1));
      PassageSucceeds(m, pair, S2, S24, "", milestone);
      PassagesSucceed(Run(m, first), pair, n - 1, milestone);
      RunSplits(m, first, rest);
      NothingLeft(Run(m, first), pair, milestone);
      CountSplits(m, first, rest, pair, milestone);
    }
  }

  /** A refusal is one for a duplicate exactly if the request was sent already and not answered yet, or was
      answered already and the train has not left; it tells the status and gives no id. */
  lemma RefusedAsDuplicateIff(m: Manager, pair: Pair, form: Form, direction: Direction, train: string)
    ensures var (s, answer) := (StatusOf(m, pair), AnswerTo(m, Submit(pair, form, direction, train)));
            && (answer.result == RejectedDuplicate <==>
                  || ((form == S2 || form == S55) && direction == Sent && s == S2Sent)
                  || ((form == S24 || form == S56) && direction == Received && s == S24Received))
            && (answer.result != Accepted ==> answer == Outcome(answer.result, s, Rejected, ""))
  {
    hide ExchangeId, Put;
  }

  /** S51 and S52 are accepted exactly while an exchange is active, S76 exactly unless the last one is closed or
      cancelled; they leave the status as it is. */
  lemma NotedIff(m: Manager, pair: Pair, form: Form, direction: Direction, train: string)
    requires form == S51 || form == S52 || form == S76
    ensures var (s, call) := (StatusOf(m, pair), Submit(pair, form, direction, train));
            && StatusOf(After(m, call), pair) == s
            && (IsAccepted(m, call) <==> s != Closed && s != Cancelled && (form == S76 || s != Idle))
  {
    hide ExchangeId, ClosedPair;
  }

  /** An accepted telegram is answered as confirmed, with the status and the id its exchange then has. */
  lemma AcceptedAnswer(m: Manager, call: Call)
    requires IsAccepted(m, call)
    ensures var ex := ExchangeOf(After(m, call), call.pair);
            && AnswerTo(m, call) == Outcome(Accepted, ex.status, Confirmed, ex.id)
            && (call.form == S51 || call.form == S52 || call.form == S76 || ex.train == call.train)
  {
    AfterStep(m, call);
    hide ExchangeId, Put, After;
  }
}
