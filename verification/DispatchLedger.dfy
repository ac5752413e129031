/** What the dispatch coordinator writes down: telegram rows, and times of the electronic dispatch
    register (EDR). The reading of an area name as a number is a parameter: None where it throws. */
module DispatchLedger {
  import opened Wrappers
  import opened ExchangeManager
  import opened ExchangeRuns

  type Reading = string -> Option<nat>

  datatype TelegramRow = TelegramRow(formType: string, exchangeId: string, train: string, fromUid: nat,
                                     toUid: nat, direction: string, status: string, track: Option<string>,
                                     kmMarkers: seq<string>, body: string, timestamp: nat)

  datatype EdrUpdate = EdrUpdate(train: string, station: nat, timestamp: nat)

  datatype Ledger = Ledger(telegrams: seq<TelegramRow>, clears: seq<EdrUpdate>,
                           departures: seq<EdrUpdate>, arrivals: seq<EdrUpdate>)

  const BLANK := Ledger([], [], [], [])

  /** What the coordinator is given: a dispatch form, or free text; or an exchange is closed beside it. */
  datatype Message =
    | DispatchForm(pair: Pair, form: Form, direction: Direction, train: string, track: Option<string>,
                   kmMarkers: seq<string>, timestamp: nat)
    | FreeText(pair: Pair, body: string, timestamp: nat)
    | CloseExchange(pair: Pair)

  datatype DispatchOutcome = DispatchOutcome(exchangeId: string, newStatus: Status)

  /** A call throws if an area is no number; otherwise it returns, empty-handed on a refusal. */
  datatype Handled = Threw | Returned(outcome: Option<DispatchOutcome>)

  predicate Readable(number: Reading, pair: Pair)
  {
    number(pair.src).Some? && number(pair.dst).Some?
  }

  function FormName(form: Form): string
  {
    match form
    case S2 => "S2" case S24 => "S24" case S25 => "S25" case S26 => "S26" case S35 => "S35"
    case S51 => "S51" case S52 => "S52" case S55 => "S55" case S56 => "S56" case S76 => "S76"
  }

  function FormRow(number: Reading, msg: Message, outcome: Outcome): TelegramRow
    requires msg.DispatchForm? && Readable(number, msg.pair)
  {
    TelegramRow(FormName(msg.form), outcome.exchangeId, msg.train,
                number(msg.pair.src).value, number(msg.pair.dst).value,
                if msg.direction == Sent then "SENT" else "RECEIVED",
                if outcome.result != Accepted then "REJECTED_STRICT_POLICY" else "ACCEPTED",
                msg.track, msg.kmMarkers, "", msg.timestamp)
  }

  function TextRow(number: Reading, msg: Message): TelegramRow
    requires msg.FreeText? && Readable(number, msg.pair)
  {
    TelegramRow("FREE_TEXT", "", "", number(msg.pair.src).value, number(msg.pair.dst).value,
                "SENT", "ACCEPTED", None, [], msg.body, msg.timestamp)
  }

  /** The times an accepted telegram adds to the register. */
  function Registered(ledger: Ledger, form: Form, direction: Direction, train: string, src: nat, dst: nat,
                      timestamp: nat): Ledger
  {
    var affected := if direction == Sent then src else dst;
    match form
    case S24 | S56 => ledger.(clears := ledger.clears + [EdrUpdate(train, dst, timestamp)])
    case S25 => ledger.(departures := ledger.departures + [EdrUpdate(train, affected, timestamp)])
    case S26 => ledger.(arrivals := ledger.arrivals + [EdrUpdate(train, affected, timestamp)])
    case _ => ledger
  }

  datatype State = State(manager: Manager, ledger: Ledger)

  const START := State(FRESH, BLANK)

  function CallOf(msg: Message): Call
    requires !msg.FreeText?
  {
    if msg.DispatchForm? then Submit(msg.pair, msg.form, msg.direction, msg.train) else Close(msg.pair)
  }

  /** The ledger after a message. */
  function Written(number: Reading, m: Manager, ledger: Ledger, msg: Message): Ledger
  {
    if msg.CloseExchange? || !Readable(number, msg.pair) then ledger
    else if msg.FreeText? then ledger.(telegrams := ledger.telegrams + [TextRow(number, msg)])
    else
      var outcome := AnswerTo(m, CallOf(msg));
      var noted := ledger.(telegrams := ledger.telegrams + [FormRow(number, msg, outcome)]);
      if outcome.result != Accepted then noted
      else Registered(noted, msg.form, msg.direction, msg.train, number(msg.pair.src).value,
                      number(msg.pair.dst).value, msg.timestamp)
  }

  function Next(number: Reading, s: State, msg: Message): State
  {
    State(if msg.FreeText? then s.manager else After(s.manager, CallOf(msg)),
          Written(number, s.manager, s.ledger, msg))
  }

  function RunOf(number: Reading, s: State, msgs: seq<Message>): State
    decreases msgs
  {
    if msgs == [] then s else RunOf(number, Next(number, s, msgs[0]), msgs[1..])
  }

  // ---- The register and the telegram rows agree -----------------------------------------------------

  predicate Tells(formType: string, milestone: Milestone)
  {
    match milestone
    case Clearance => formType == "S24" || formType == "S56"
    case Departure => formType == "S25"
    case Arrival => formType == "S26"
    case _ => false
  }

  /** The register times that can be read off the telegram rows. */
  function ReadOff(rows: seq<TelegramRow>, milestone: Milestone): seq<EdrUpdate>
  {
    if rows == [] then []
    else
      var row := rows[|rows| - 1];
      ReadOff(rows[..|rows| - 1], milestone)
      + if row.status == "ACCEPTED" && Tells(row.formType, milestone)
        then [EdrUpdate(row.train, if milestone == Departure then row.fromUid else row.toUid, row.timestamp)]
        else []
  }

  ghost predicate Consistent(ledger: Ledger)
  {
    && ledger.clears == ReadOff(ledger.telegrams, Clearance)
    && ledger.departures == ReadOff(ledger.telegrams, Departure)
    && ledger.arrivals == ReadOff(ledger.telegrams, Arrival)
  }

  lemma TellsByName(form: Form)
    ensures forall milestone :: Tells(FormName(form), milestone) <==>
                                  milestone in {Clearance, Departure, Arrival} && MilestoneOf(form) == Some(milestone)
    ensures forall milestone :: !Tells("FREE_TEXT", milestone)
  {
    assert |FormName(form)| <= 3 && FormName(form)[0] == 'S';
  }

  lemma ReadOffNext(rows: seq<TelegramRow>, row: TelegramRow, milestone: Milestone)
    ensures ReadOff(rows + [row], milestone)
            == ReadOff(rows, milestone)
               + if row.status == "ACCEPTED" && Tells(row.formType, milestone)
                 then [EdrUpdate(row.train, if milestone == Departure then row.fromUid else row.toUid, row.timestamp)]
                 else []
  {
    assert (rows + [row])[..|rows|] == rows;
  }

  /** Only a departure that is sent, or a clearance or an arrival that is received, is ever accepted. */
  lemma AcceptedDirection(m: Manager, call: Call)
    requires IsAccepted(m, call)
    ensures MilestoneOf(call.form) == Some(Departure) ==> call.direction == Sent
    ensures MilestoneOf(call.form) in {Some(Clearance), Some(Arrival)} ==> call.direction == Received
  {
    hide ExchangeId, Put;
  }

  lemma RegisteredAdds(l: Ledger, call: Call, src: nat, dst: nat, timestamp: nat)
    requires call.Submit?
    requires MilestoneOf(call.form) == Some(Departure) ==> call.direction == Sent
    requires MilestoneOf(call.form) == Some(Arrival) ==> call.direction == Received
    ensures var l' := Registered(l, call.form, call.direction, call.train, src, dst, timestamp);
            var (to, from) := ([EdrUpdate(call.train, dst, timestamp)], [EdrUpdate(call.train, src, timestamp)]);
            && l'.telegrams == l.telegrams
            && l'.clears == l.clears + (if MilestoneOf(call.form) == Some(Clearance) then to else [])
            && l'.departures == l.departures + (if MilestoneOf(call.form) == Some(Departure) then from else [])
            && l'.arrivals == l.arrivals + (if MilestoneOf(call.form) == Some(Arrival) then to else [])
  {
    assert l.clears + [] == l.clears && l.departures + [] == l.departures && l.arrivals + [] == l.arrivals;
  }

  lemma StepConsistentText(number: Reading, s: State, msg: Message)
    requires Consistent(s.ledger) && msg.FreeText? && Readable(number, msg.pair)
    ensures Consistent(Next(number, s, msg).ledger)
  {
    TellsByName(S2);
    hide ReadOff, Tells, After;
    forall milestone {
      ReadOffNext(s.ledger.telegrams, TextRow(number, msg), milestone);
    }
  }

  lemma StepConsistentForm(number: Reading, s: State, msg: Message)
    requires Consistent(s.ledger) && msg.DispatchForm? && Readable(number, msg.pair)
    ensures Consistent(Next(number, s, msg).ledger)
  {
    var (l, call) := (s.ledger, CallOf(msg));
    var row := FormRow(number, msg, AnswerTo(s.manager, call));
    var noted := l.(telegrams := l.telegrams + [row]);
    TellsByName(msg.form);
    if IsAccepted(s.manager, call) {
      AcceptedDirection(s.manager, call);
      RegisteredAdds(noted, call, number(msg.pair.src).value, number(msg.pair.dst).value, msg.timestamp);
    }
    hide ReadOff, Tells, FormName, After, AnswerTo, Registered, MilestoneOf;
    forall milestone {
      ReadOffNext(l.telegrams, row, milestone);
    }
  }

  lemma StepConsistent(number: Reading, s: State, msg: Message)
    requires Consistent(s.ledger)
    ensures Consistent(Next(number, s, msg).ledger)
  {
    if !msg.CloseExchange? && Readable(number, msg.pair) {
      if msg.FreeText? {
        StepConsistentText(number, s, msg);
      } else {
        StepConsistentForm(number, s, msg);
      }
    }
  }

  /** In every run, the times in the register are exactly those of the accepted rows of S24 and S56, of S25
      and of S26, in order: clearances and arrivals against the area the telegram came from, departures
      against the area that sent it. */
  lemma {:induction false} RegisterFollowsTelegrams(number: Reading, s: State, msgs: seq<Message>)
    requires Consistent(s.ledger)
    ensures Consistent(RunOf(number, s, msgs).ledger)
    decreases msgs
  {
    if msgs != [] {
      StepConsistent(number, s, msgs[0]);
      RegisterFollowsTelegrams(number, Next(number, s, msgs[0]), msgs[1..]);
    }
  }

  // ---- Conservation ---------------------------------------------------------------------------------

  /** The pairs, with areas that can be read, whose exchange has a given status. */
  function Waiting(number: Reading, m: Manager, status: Status): set<Pair>
  {
    set p | p in m.exchanges && Readable(number, p) && m.exchanges[p].status == status
  }

  lemma StatusKept(m: Manager, call: Call, p: Pair)
    requires p != call.pair
    ensures StatusOf(After(m, call), p) == StatusOf(m, p)
  {
    AfterStep(m, call);
    hide After, ExchangeOf, ExchangeAfter, Decide;
  }

  lemma IsWaiting(number: Reading, m: Manager, status: Status, p: Pair)
    requires status != Idle
    ensures p in Waiting(number, m, status) <==> Readable(number, p) && StatusOf(m, p) == status
  {
  }

  lemma CountBut(s: set<Pair>, p: Pair)
    ensures |s| == |s - {p}| + One(p in s)
  {
  }

  lemma WaitingStep(number: Reading, m: Manager, call: Call, status: Status)
    requires status != Idle
    ensures var p := call.pair;
            |Waiting(number, After(m, call), status)| + One(Readable(number, p) && StatusOf(m, p) == status)
            == |Waiting(number, m, status)| + One(Readable(number, p) && StatusOf(After(m, call), p) == status)
  {
    hide Waiting, After, StatusOf, Readable;
    var (before, after) := (Waiting(number, m, status), Waiting(number, After(m, call), status));
    forall p | p != call.pair
      ensures p in before <==> p in after
    {
      IsWaiting(number, m, status, p);
      IsWaiting(number, After(m, call), status, p);
      StatusKept(m, call, p);
    }
    assert before - {call.pair} == after - {call.pair};
    IsWaiting(number, m, status, call.pair);
    IsWaiting(number, After(m, call), status, call.pair);
    CountBut(before, call.pair);
    CountBut(after, call.pair);
  }

  /** What a message adds to the register, counted. */
  lemma WrittenCounts(number: Reading, s: State, msg: Message)
    ensures var (m, l, l') := (s.manager, s.ledger, Next(number, s, msg).ledger);
            && (msg.FreeText? || !Readable(number, msg.pair) ==>
                  |l'.clears| == |l.clears| && |l'.departures| == |l.departures| && |l'.arrivals| == |l.arrivals|)
            && (!msg.FreeText? && Readable(number, msg.pair) ==>
                  var r := Reached(m, CallOf(msg), msg.pair);
                  && |l'.clears| == |l.clears| + One(r == Some(Clearance))
                  && |l'.departures| == |l.departures| + One(r == Some(Departure))
                  && |l'.arrivals| == |l.arrivals| + One(r == Some(Arrival)))
  {
    hide Submitted, ClosedPair, FormName;
  }

  /** Trains announced but not yet gone, and trains on their way, over all pairs together. */
  ghost predicate Conserved(number: Reading, s: State)
  {
    && |s.ledger.clears| == |s.ledger.departures| + |Waiting(number, s.manager, S24Received)|
    && |s.ledger.departures| == |s.ledger.arrivals| + |Waiting(number, s.manager, S25Sent)|
  }

  lemma StepConserved(number: Reading, s: State, msg: Message)
    requires Conserved(number, s)
    ensures Conserved(number, Next(number, s, msg))
  {
    WrittenCounts(number, s, msg);
    if !msg.FreeText? {
      var call := CallOf(msg);
      StepFlow(s.manager, call, call.pair);
      WaitingStep(number, s.manager, call, S24Received);
      WaitingStep(number, s.manager, call, S25Sent);
    }
    hide Waiting, Written, After, StatusOf, Reached, Readable;
  }

  /** In every run from the start, clearances in the register exceed departures by the pairs now cleared,
      and departures exceed arrivals by the pairs with a train now under way. */
  lemma {:induction false} RegisterConserved(number: Reading, s: State, msgs: seq<Message>)
    requires Conserved(number, s)
    ensures Conserved(number, RunOf(number, s, msgs))
    decreases msgs
  {
    if msgs != [] {
      StepConserved(number, s, msgs[0]);
      RegisterConserved(number, Next(number, s, msgs[0]), msgs[1..]);
    }
  }

  /** Both invariants hold at the start, so in every run. */
  lemma EveryRun(number: Reading, msgs: seq<Message>)
    ensures Consistent(RunOf(number, START, msgs).ledger)
    ensures Conserved(number, RunOf(number, START, msgs))
  {
    assert Waiting(number, FRESH, S24Received) == {} && Waiting(number, FRESH, S25Sent) == {};
    RegisterFollowsTelegrams(number, START, msgs);
    RegisterConserved(number, START, msgs);
  }

  /** A refused telegram whose areas can be read adds one row, and nothing to the register. */
  lemma RefusedIsRecorded(number: Reading, s: State, msg: Message)
    requires msg.DispatchForm? && Readable(number, msg.pair) && !IsAccepted(s.manager, CallOf(msg))
    ensures var (l, l') := (s.ledger, Next(number, s, msg).ledger);
            && |l'.telegrams| == |l.telegrams| + 1 && l'.telegrams[..|l.telegrams|] == l.telegrams
            && l'.telegrams[|l.telegrams|].status == "REJECTED_STRICT_POLICY"
            && l' == l.(telegrams := l'.telegrams)
  {
    hide Submitted, FormName;
  }

  /** A departure that is sent before anything else is refused, and recorded. */
  lemma FirstDepartureIsRecorded(number: Reading, pair: Pair, train: string, timestamp: nat)
    requires Readable(number, pair)
    ensures var l := RunOf(number, START, [DispatchForm(pair, S25, Sent, train, None, [], timestamp)]).ledger;
            |l.telegrams| == 1 && l.telegrams[0].status == "REJECTED_STRICT_POLICY" && l.departures == []
  {
    var msg := DispatchForm(pair, S25, Sent, train, None, [], timestamp);
    assert [msg][1..] == [];
    assert RunOf(number, START, [msg]) == Next(number, START, msg);
    assert !IsAccepted(FRESH, CallOf(msg)) by { hide ExchangeId, Put; }
    hide Next, IsAccepted, Readable, RunOf;
    RefusedIsRecorded(number, START, msg);
  }

  /** A request between areas that are no numbers is accepted, and leaves no trace in the ledger. */
  lemma UnreadableIsNotRecorded(number: Reading, pair: Pair, train: string, timestamp: nat)
    requires !Readable(number, pair)
    ensures var s := RunOf(number, START, [DispatchForm(pair, S2, Sent, train, None, [], timestamp)]);
            StatusOf(s.manager, pair) == S2Sent && s.ledger == BLANK
  {
    var msg := DispatchForm(pair, S2, Sent, train, None, [], timestamp);
    assert [msg][1..] == [];
    assert RunOf(number, START, [msg]) == Next(number, START, msg);
    AfterStep(FRESH, CallOf(msg));
    hide ExchangeId, Put, After, Readable, RunOf;
  }

  // ---- What each row tells --------------------------------------------------------------------------

  /** The row of a message that is handled in this state. */
  ghost predicate RowTells(number: Reading, m: Manager, msg: Message, row: TelegramRow)
  {
    && number(msg.pair.src) == Some(row.fromUid) && number(msg.pair.dst) == Some(row.toUid)
    && match msg
       case FreeText(_, body, timestamp) =>
         row.formType == "FREE_TEXT" && row.body == body && row.timestamp == timestamp
         && row.status == "ACCEPTED" && row.direction == "SENT" && row.exchangeId == "" && row.train == ""
         && row.track == None && row.kmMarkers == []
       case DispatchForm(pair, form, direction, train, track, kmMarkers, timestamp) =>
         var accepted := IsAccepted(m, Submit(pair, form, direction, train));
         && row.formType == FormName(form) && row.train == train && row.track == track && row.kmMarkers == kmMarkers
         && row.timestamp == timestamp && row.body == ""
         && (row.direction == "SENT" <==> direction == Sent) && (row.direction == "RECEIVED" <==> direction == Received)
         && (row.status == "ACCEPTED" <==> accepted) && (row.status == "REJECTED_STRICT_POLICY" <==> !accepted)
         && row.exchangeId == (if accepted then ExchangeOf(After(m, Submit(pair, form, direction, train)), pair).id else "")
       case CloseExchange(_) => false
  }

  /** An accepted telegram is answered with the id its exchange then has, a refused one with none. */
  lemma AnswerToRefused(m: Manager, call: Call)
    requires call.Submit?
    ensures AnswerTo(m, call).exchangeId
            == if IsAccepted(m, call) then ExchangeOf(After(m, call), call.pair).id else ""
  {
    if IsAccepted(m, call) {
      AcceptedFromIdle(m, call);
    }
    hide ExchangeId, Put, After;
  }

  lemma FormTells(number: Reading, m: Manager, msg: Message)
    requires msg.DispatchForm? && Readable(number, msg.pair)
    ensures RowTells(number, m, msg, FormRow(number, msg, AnswerTo(m, CallOf(msg))))
  {
    AnswerToRefused(m, CallOf(msg));
    hide FormName, AnswerTo, After, ExchangeOf;
    assert "SENT" != "RECEIVED" && "REJECTED_STRICT_POLICY" != "ACCEPTED";
  }

  lemma FormAdds(number: Reading, s: State, msg: Message)
    requires msg.DispatchForm? && Readable(number, msg.pair)
    ensures Next(number, s, msg).ledger.telegrams
            == s.ledger.telegrams + [FormRow(number, msg, AnswerTo(s.manager, CallOf(msg)))]
  {
    hide FormRow, AnswerTo, After;
  }

  lemma StepTells(number: Reading, s: State, msg: Message)
    ensures var (before, after) := (s.ledger.telegrams, Next(number, s, msg).ledger.telegrams);
            if msg.CloseExchange? || !Readable(number, msg.pair) then after == before
            else |after| == |before| + 1 && after[..|before|] == before && RowTells(number, s.manager, msg, after[|before|])
  {
    hide FormName, AnswerTo, FormRow, After;
    if msg.DispatchForm? && Readable(number, msg.pair) {
      FormTells(number, s.manager, msg);
      FormAdds(number, s, msg);
      hide RowTells, Next;
    }
  }

  lemma {:induction false} RunOfSplits(number: Reading, s: State, xs: seq<Message>, ys: seq<Message>)
    ensures RunOf(number, s, xs + ys) == RunOf(number, RunOf(number, s, xs), ys)
    decreases xs
  {
    hide Next;
    if xs == [] {
      assert xs + ys == ys;
    } else {
      assert (xs + ys)[1..] == xs[1..] + ys;
      RunOfSplits(number, Next(number, s, xs[0]), xs[1..], ys);
    }
  }

  /** How many messages leave a row. */
  function Recorded(number: Reading, msgs: seq<Message>): nat
  {
    if msgs == [] then 0
    else One(!msgs[0].CloseExchange? && Readable(number, msgs[0].pair)) + Recorded(number, msgs[1..])
  }

  /** Rows are never changed, and there is one for each message that can be read. */
  lemma {:induction false} RowsStay(number: Reading, s: State, msgs: seq<Message>)
    ensures var (before, after) := (s.ledger.telegrams, RunOf(number, s, msgs).ledger.telegrams);
            |after| == |before| + Recorded(number, msgs) && after[..|before|] == before
    decreases msgs
  {
    hide Next, Readable, RowTells;
    if msgs != [] {
      StepTells(number, s, msgs[0]);
      var next := Next(number, s, msgs[0]);
      RowsStay(number, next, msgs[1..]);
      var (before, mid, after) := (s.ledger.telegrams, next.ledger.telegrams, RunOf(number, next, msgs[1..]).ledger.telegrams);
      assert after[..|mid|][..|before|] == after[..|before|];
    }
  }

  lemma FirstOfRun(number: Reading, s: State, msgs: seq<Message>)
    requires msgs != []
    ensures RunOf(number, s, msgs) == RunOf(number, Next(number, s, msgs[0]), msgs[1..])
  {
    hide Next;
  }

  /** In every run, message i leaves its row at its place, and it is still there at the end: with the areas as
      numbers, the direction of the telegram, whether it was accepted, and the id of its exchange. */
  lemma RowOfMessage(number: Reading, msgs: seq<Message>, i: nat)
    requires i < |msgs| && !msgs[i].CloseExchange? && Readable(number, msgs[i].pair)
    ensures var (rows, at) := (RunOf(number, START, msgs).ledger.telegrams, Recorded(number, msgs[..i]));
            && |rows| == Recorded(number, msgs) && at < |rows|
            && RowTells(number, RunOf(number, START, msgs[..i]).manager, msgs[i], rows[at])
  {
    hide Next, Readable, RowTells, RunOf, Recorded;
    var s := RunOf(number, START, msgs[..i]);
    var next := Next(number, s, msgs[i]);
    RowsStay(number, START, msgs);
    RowsStay(number, START, msgs[..i]);
    StepTells(number, s, msgs[i]);
    RowsStay(number, next, msgs[i + 1..]);
    RunOfSplits(number, START, msgs[..i], msgs[i..]);
    assert msgs == msgs[..i] + msgs[i..];
    FirstOfRun(number, s, msgs[i..]);
    assert msgs[i..][1..] == msgs[i + 1..];
    var (rows, mid) := (RunOf(number, START, msgs).ledger.telegrams, next.ledger.telegrams);
    assert rows[..|mid|] == mid;
    assert rows[|mid| - 1] == rows[..|mid|][|mid| - 1];
  }

  /** The calls that reach the exchange manager. */
  function CallsOf(msgs: seq<Message>): seq<Call>
  {
    if msgs == [] then [] else (if msgs[0].FreeText? then [] else [CallOf(msgs[0])]) + CallsOf(msgs[1..])
  }

  lemma {:induction false} ManagerRuns(number: Reading, s: State, msgs: seq<Message>)
    ensures RunOf(number, s, msgs).manager == Run(s.manager, CallsOf(msgs))
    decreases msgs
  {
    hide After, Written;
    if msgs != [] {
      ManagerRuns(number, Next(number, s, msgs[0]), msgs[1..]);
      if msgs[0].FreeText? {
        assert CallsOf(msgs) == CallsOf(msgs[1..]);
      } else {
        assert CallsOf(msgs)[1..] == CallsOf(msgs[1..]);
      }
    }
  }

  lemma {:induction false} CallsSplit(xs: seq<Message>, ys: seq<Message>)
    ensures CallsOf(xs + ys) == CallsOf(xs) + CallsOf(ys)
  {
    if xs == [] {
      assert xs + ys == ys;
    } else {
      assert (xs + ys)[1..] == xs[1..] + ys;
      CallsSplit(xs[1..], ys);
    }
  }

  /** The place of a message among the calls. */
  lemma CallOfMessage(msgs: seq<Message>, i: nat)
    requires i < |msgs| && !msgs[i].FreeText?
    ensures var (calls, j) := (CallsOf(msgs), |CallsOf(msgs[..i])|);
            j < |calls| && calls[..j] == CallsOf(msgs[..i]) && calls[j] == CallOf(msgs[i])
  {
    var (before, msg) := (msgs[..i], msgs[i]);
    assert msgs == before + [msg] + msgs[i + 1..];
    CallsSplit(before + [msg], msgs[i + 1..]);
    CallsSplit(before, [msg]);
    assert [msg][1..] == [];
    assert CallsOf([msg]) == [CallOf(msg)];
    hide CallsOf, CallOf;
  }

  /** The row of an accepted telegram carries the id of the latest opening on its pair. */
  lemma AcceptedRowCarriesOpening(number: Reading, msgs: seq<Message>, i: nat)
    requires i < |msgs| && msgs[i].DispatchForm? && Readable(number, msgs[i].pair)
    requires IsAccepted(RunOf(number, START, msgs[..i]).manager, CallOf(msgs[i]))
    ensures var (rows, at) := (RunOf(number, START, msgs).ledger.telegrams, Recorded(number, msgs[..i]));
            var (calls, j) := (CallsOf(msgs), |CallsOf(msgs[..i])|);
            && at < |rows| && j < |calls| && rows[at].status == "ACCEPTED"
            && rows[at].exchangeId == IdOf(calls, Opener(calls, j + 1, msgs[i].pair))
  {
    hide CallsOf, RunOf, IsAccepted, Opener, IdOf, Run, After, Recorded, Readable, ExchangeOf;
    var (calls, j) := (CallsOf(msgs), |CallsOf(msgs[..i])|);
    RowOfMessage(number, msgs, i);
    CallOfMessage(msgs, i);
    ManagerRuns(number, START, msgs[..i]);
    assert RunOf(number, START, msgs[..i]).manager == Before(calls, j);
    AcceptedCarryTheirOpening(calls, j);
    AcceptedFromIdle(Before(calls, j), calls[j]);
  }

  /** No two forms have one name. */
  lemma FormNamesDiffer(f: Form, g: Form)
    requires FormName(f) == FormName(g)
    ensures f == g
  {
    var (n, m) := (FormName(f), FormName(g));
    assert |n| == |m| && n[1] == m[1] && (|n| == 3 ==> n[2] == m[2]);
  }

  // ---- The code -------------------------------------------------------------------------------------

  class NullDbWriter {
    var writtenTelegrams: seq<TelegramRow>
    var edrUpdates: seq<EdrUpdate>
    var edrDepartures: seq<EdrUpdate>
    var edrArrivals: seq<EdrUpdate>

    function View(): Ledger
      reads this
    {
      Ledger(writtenTelegrams, edrUpdates, edrDepartures, edrArrivals)
    }

    constructor ()
      ensures View() == BLANK
    {
      writtenTelegrams, edrUpdates, edrDepartures, edrArrivals := [], [], [], [];
    }

    method WriteDispatchTelegram(row: TelegramRow)
      modifies this
      ensures View() == old(View()).(telegrams := old(writtenTelegrams) + [row])
    {
      writtenTelegrams := writtenTelegrams + [row];
    }

    method UpdateEdrTrackClearTime(train: string, station: nat, timestamp: nat)
      modifies this
      ensures View() == old(View()).(clears := old(edrUpdates) + [EdrUpdate(train, station, timestamp)])
    {
      edrUpdates := edrUpdates + [EdrUpdate(train, station, timestamp)];
    }

    method UpdateEdrDeparture(train: string, station: nat, timestamp: nat)
      modifies this
      ensures View() == old(View()).(departures := old(edrDepartures) + [EdrUpdate(train, station, timestamp)])
    {
      edrDepartures := edrDepartures + [EdrUpdate(train, station, timestamp)];
    }

    method UpdateEdrArrival(train: string, station: nat, timestamp: nat)
      modifies this
      ensures View() == old(View()).(arrivals := old(edrArrivals) + [EdrUpdate(train, station, timestamp)])
    {
      edrArrivals := edrArrivals + [EdrUpdate(train, station, timestamp)];
    }
  }

  class EdrCoordinator {
    const db: NullDbWriter
    const number: Reading

    constructor (db: NullDbWriter, number: Reading)
      ensures this.db == db && this.number == number
    {
      this.db := db;
      this.number := number;
    }

    /** The station is the area the form was sent from; the call throws if that area is no number. */
    method OnTelegramAccepted(form: Form, direction: Direction, src: string, dst: string, train: string,
                              timestamp: nat) returns (threw: bool)
      modifies db
      ensures var station := number(if direction == Sent then src else dst);
              && threw == station.None?
              && db.View() == if station.None? then old(db.View())
                              else if form == S25 then
                                old(db.View()).(departures := old(db.edrDepartures) + [EdrUpdate(train, station.value, timestamp)])
                              else if form == S26 then
                                old(db.View()).(arrivals := old(db.edrArrivals) + [EdrUpdate(train, station.value, timestamp)])
                              else old(db.View())
    {
      var station := number(if direction == Sent then src else dst);
      if station.None? {
        return true;
      }
      match form {
        case S25 => db.UpdateEdrDeparture(train, station.value, timestamp);
        case S26 => db.UpdateEdrArrival(train, station.value, timestamp);
        case _ =>
      }
      threw := false;
    }
  }

  class DispatchCoordinator {
    const exchanges: DispatchExchangeManager
    const db: NullDbWriter
    const edr: EdrCoordinator
    const number: Reading

    ghost predicate Valid()
    {
      edr.db == db && edr.number == number
    }

    constructor (exchanges: DispatchExchangeManager, db: NullDbWriter, edr: EdrCoordinator, number: Reading)
      requires edr.db == db && edr.number == number
      ensures Valid() && this.exchanges == exchanges && this.db == db && this.number == number
    {
      this.exchanges := exchanges;
      this.db := db;
      this.edr := edr;
      this.number := number;
    }

    function View(): State
      reads exchanges, db
    {
      State(exchanges.View(), db.View())
    }

    /** A message that cannot be read still moves the exchange, though it leaves no trace in the ledger. */
    method HandleDispatchForm(form: Form, direction: Direction, src: string, dst: string, train: string,
                              track: Option<string>, kmMarkers: seq<string>, timestamp: nat)
      returns (handled: Handled)
      requires Valid()
      modifies exchanges, db
      ensures var msg := DispatchForm(Pair(src, dst), form, direction, train, track, kmMarkers, timestamp);
              var answer := AnswerTo(old(exchanges.View()), CallOf(msg));
              && View() == Next(number, old(View()), msg)
              && handled == if !Readable(number, Pair(src, dst)) then Threw
                            else if answer.result != Accepted then Returned(None)
                            else Returned(Some(DispatchOutcome(answer.exchangeId, answer.newStatus)))
    {
      hide Submitted;
      ghost var msg := DispatchForm(Pair(src, dst), form, direction, train, track, kmMarkers, timestamp);
      var outcome := exchanges.SubmitTelegram(src, dst, form, direction, train);
      assert exchanges.View() == After(old(exchanges.View()), CallOf(msg));
      assert outcome == AnswerTo(old(exchanges.View()), CallOf(msg));
      hide After, AnswerTo;
      var fromUid := number(src);
      if fromUid.None? {
        return Threw;
      }
      var toUid := number(dst);
      if toUid.None? {
        return Threw;
      }
      var row := TelegramRow(FormName(form), outcome.exchangeId, train, fromUid.value, toUid.value,
                             if direction == Sent then "SENT" else "RECEIVED",
                             if outcome.result != Accepted then "REJECTED_STRICT_POLICY" else "ACCEPTED",
                             track, kmMarkers, "", timestamp);
      db.WriteDispatchTelegram(row);
      if outcome.result != Accepted {
        return Returned(None);
      }
      if form == S24 || form == S56 {
        db.UpdateEdrTrackClearTime(train, toUid.value, timestamp);
      }
      var threw := edr.OnTelegramAccepted(form, direction, src, dst, train, timestamp);
      handled := if threw then Threw else Returned(Some(DispatchOutcome(outcome.exchangeId, outcome.newStatus)));
    }

    method HandleFreeText(src: string, dst: string, body: string, timestamp: nat) returns (threw: bool)
      requires Valid()
      modifies db
      ensures View() == Next(number, old(View()), FreeText(Pair(src, dst), body, timestamp))
      ensures threw == !Readable(number, Pair(src, dst))
    {
      var fromUid := number(src);
      if fromUid.None? {
        return true;
      }
      var toUid := number(dst);
      if toUid.None? {
        return true;
      }
      db.WriteDispatchTelegram(TelegramRow("FREE_TEXT", "", "", fromUid.value, toUid.value, "SENT", "ACCEPTED",
                                           None, [], body, timestamp));
      threw := false;
    }
  }
}
