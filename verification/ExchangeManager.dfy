/** The dispatch exchange of each directed pair of areas, as a state machine over S-form telegrams. */
module ExchangeManager {

  datatype Status = Idle | S2Sent | S24Received | S25Sent | S26Received | Closed | Cancelled

  datatype Form = S2 | S24 | S25 | S26 | S35 | S51 | S52 | S55 | S56 | S76

  datatype Direction = Sent | Received

  datatype Result = Accepted | RejectedWrongState | RejectedDuplicate

  datatype TelegramStatus = Pending | Confirmed | Rejected | Superseded

  datatype Outcome = Outcome(result: Result, newStatus: Status, telegramStatus: TelegramStatus, exchangeId: string)

  datatype Exchange = Exchange(id: string, status: Status, train: string)

  datatype Pair = Pair(src: string, dst: string)

  const NO_EXCHANGE := Exchange("", Idle, "")
  const ID_LIMIT := 0x1_0000_0000_0000_0000

  /** The counter of exchange ids has 64 bits. */
  function Wrapped(n: nat): nat { n % ID_LIMIT }

  lemma WrappedNext(n: nat)
    ensures Wrapped(Wrapped(n) + 1) == Wrapped(n + 1)
  {
    assert n + 1 == n / ID_LIMIT * ID_LIMIT + (n % ID_LIMIT + 1);
  }

  lemma WrappedSmall(n: nat)
    requires n < ID_LIMIT
    ensures Wrapped(n) == n
  {
  }

  // ---- Exchange ids ---------------------------------------------------------------------------------

  function DigitChar(d: nat): char
    requires d < 10
  {
    ['0', '1', '2', '3', '4', '5', '6', '7', '8', '9'][d]
  }

  function Decimal(n: nat): string
  {
    if n < 10 then [DigitChar(n)] else Decimal(n / 10) + [DigitChar(n % 10)]
  }

  function Padding(n: nat): (s: string)
    ensures |s| == n && forall i :: 0 <= i < n ==> s[i] == '0'
  {
    seq(n, i => '0')
  }

  /** A number in at least seven digits, padded with zeros. */
  function SevenDigits(n: nat): string
  {
    var d := Decimal(n);
    if |d| < 7 then Padding(7 - |d|) + d else d
  }

  function ExchangeId(n: nat): string
  {
    "exch-" + SevenDigits(n)
  }

  function CharValue(c: char): nat
  {
    if '0' <= c <= '9' then (c - '0') as nat else 0
  }

  function NumberOf(s: string): nat
  {
    if s == [] then 0 else 10 * NumberOf(s[..|s| - 1]) + CharValue(s[|s| - 1])
  }

  lemma {:induction false} NumberOfDecimal(n: nat)
    ensures NumberOf(Decimal(n)) == n
  {
    var d := n % 10;
    assert CharValue(DigitChar(d)) == d;
    if n < 10 {
      assert Decimal(n)[..0] == [];
    } else {
      NumberOfDecimal(n / 10);
      assert Decimal(n)[..|Decimal(n)| - 1] == Decimal(n / 10);
    }
  }

  lemma {:induction false} NumberOfPadded(n: nat, s: string)
    ensures NumberOf(Padding(n) + s) == NumberOf(s)
    decreases n + |s|
  {
    var t := Padding(n) + s;
    if s != [] {
      assert t[..|t| - 1] == Padding(n) + s[..|s| - 1];
      NumberOfPadded(n, s[..|s| - 1]);
    } else if n > 0 {
      assert t[..|t| - 1] == Padding(n - 1) + s;
      NumberOfPadded(n - 1, s);
    } else {
      assert t == s;
    }
  }

  lemma {:induction false} DecimalDigits(n: nat)
    ensures |Decimal(n)| >= 1 && forall i :: 0 <= i < |Decimal(n)| ==> '0' <= Decimal(n)[i] <= '9'
    ensures |Decimal(n)| > 1 ==> Decimal(n)[0] != '0'
    ensures n > 0 ==> Decimal(n)[0] != '0'
  {
    if n >= 10 {
      DecimalDigits(n / 10);
    }
  }

  /** An exchange id is "exch-" and the digits of its number, of which there are at least seven; more than
      seven do not begin with a zero. */
  lemma ExchangeIdShape(n: nat)
    ensures var (id, digits) := (ExchangeId(n), ExchangeId(n)[5..]);
            && id[..5] == "exch-" && |digits| >= 7 && NumberOf(digits) == n
            && (forall i :: 0 <= i < |digits| ==> '0' <= digits[i] <= '9')
            && (|digits| > 7 ==> digits[0] != '0')
  {
    hide Decimal, NumberOf;
    assert ExchangeId(n)[5..] == SevenDigits(n);
    NumberOfDecimal(n);
    DecimalDigits(n);
    if |Decimal(n)| < 7 {
      NumberOfPadded(7 - |Decimal(n)|, Decimal(n));
    }
  }

  /** Different numbers give different exchange ids, and no id is empty. */
  lemma ExchangeIdInjective(m: nat, n: nat)
    requires ExchangeId(m) == ExchangeId(n)
    ensures m == n
  {
    ExchangeIdShape(m);
    ExchangeIdShape(n);
    hide ExchangeId, NumberOf;
  }

  // ---- The protocol ---------------------------------------------------------------------------------

  /** What a telegram does to an exchange: open a new one, advance it, be noted, or be refused. */
  datatype Decision = Open | Advance(status: Status) | Note | Refuse(reason: Result)

  predicate Inactive(status: Status) { status == Idle || status == Closed || status == Cancelled }
  predicate IsRequest(form: Form) { form == S2 || form == S55 }
  predicate IsReply(form: Form) { form == S24 || form == S56 }

  /** The protocol as a table of the moves it allows; everything else is refused. */
  function Decide(status: Status, form: Form, direction: Direction): Decision
  {
    if IsRequest(form) && direction == Sent && Inactive(status) then Open
    else if IsReply(form) && direction == Received && status == S2Sent then Advance(S24Received)
    else if form == S25 && direction == Sent && status == S24Received then Advance(S25Sent)
    else if form == S26 && direction == Received && status == S25Sent then Advance(S26Received)
    else if form == S35 && direction == Sent && status == S2Sent then Advance(Cancelled)
    else if (form == S51 || form == S52) && !Inactive(status) then Note
    else if form == S76 && status != Closed && status != Cancelled then Note
    else if (IsRequest(form) && direction == Sent && status == S2Sent)
         || (IsReply(form) && direction == Received && status == S24Received) then Refuse(RejectedDuplicate)
    else Refuse(RejectedWrongState)
  }

  function Supplement(status: Status, form: Form): Decision
  {
    if ((form == S51 || form == S52) && !Inactive(status)) || (form == S76 && status != Closed && status != Cancelled)
    then Note else Refuse(RejectedWrongState)
  }

  /** Requests are alike, and so are replies; and which forms can be noted. */
  lemma DecideByKind(status: Status, form: Form, direction: Direction)
    ensures IsRequest(form) && direction == Sent ==> Decide(status, form, direction) == Decide(status, S2, Sent)
    ensures IsReply(form) && direction == Received ==> Decide(status, form, direction) == Decide(status, S24, Received)
    ensures (IsRequest(form) && direction == Received) || (IsReply(form) && direction == Sent)
            || form == S51 || form == S52 || form == S76 ==>
      Decide(status, form, direction) == Supplement(status, form)
  {
  }

  datatype Manager = Manager(exchanges: map<Pair, Exchange>, nextId: nat)

  const FRESH := Manager(map[], 1)

  function ExchangeOf(m: Manager, pair: Pair): Exchange
  {
    if pair in m.exchanges then m.exchanges[pair] else NO_EXCHANGE
  }

  function StatusOf(m: Manager, pair: Pair): Status
  {
    ExchangeOf(m, pair).status
  }

  /** The exchange of the pair after a telegram, which is also recorded if it is refused. */
  function ExchangeAfter(ex: Exchange, nextId: nat, decision: Decision, train: string): Exchange
  {
    match decision
    case Open => Exchange(ExchangeId(nextId), S2Sent, train)
    case Advance(status) => Exchange(ex.id, status, train)
    case _ => ex
  }

  function Put(exchanges: map<Pair, Exchange>, pair: Pair, ex: Exchange): map<Pair, Exchange>
  {
    exchanges[pair := ex]
  }

  /** The answer to a telegram, given the exchange it leaves. */
  function OutcomeOf(ex: Exchange, decision: Decision): Outcome
  {
    if decision.Refuse? then Outcome(decision.reason, ex.status, Rejected, "")
    else Outcome(Accepted, ex.status, Confirmed, ex.id)
  }

  /** Carrying out a decision about an exchange of the pair. */
  function Decided(m: Manager, pair: Pair, ex: Exchange, decision: Decision, train: string): (Manager, Outcome)
  {
    var ex' := ExchangeAfter(ex, m.nextId, decision, train);
    (Manager(Put(m.exchanges, pair, ex'), if decision.Open? then Wrapped(m.nextId + 1) else m.nextId),
     OutcomeOf(ex', decision))
  }

  function Submitted(m: Manager, pair: Pair, form: Form, direction: Direction, train: string): (Manager, Outcome)
  {
    var ex := ExchangeOf(m, pair);
    Decided(m, pair, ex, Decide(ex.status, form, direction), train)
  }

  /** It makes no difference whether the entry of the pair was already there. */
  lemma DecidedAfterPut(m: Manager, pair: Pair, before: Exchange, ex: Exchange, decision: Decision, train: string)
    ensures Decided(Manager(Put(m.exchanges, pair, before), m.nextId), pair, ex, decision, train)
            == Decided(m, pair, ex, decision, train)
  {
    hide ExchangeId;
    var ex' := ExchangeAfter(ex, m.nextId, decision, train);
    assert Put(Put(m.exchanges, pair, before), pair, ex') == Put(m.exchanges, pair, ex');
  }

  function ClosedPair(m: Manager, pair: Pair): Manager
  {
    if StatusOf(m, pair) == S26Received
    then m.(exchanges := m.exchanges[pair := m.exchanges[pair].(status := Closed)])
    else m
  }

  // ---- The code ---------------------------------------------------------------------------------------

  class DispatchExchangeManager {
    var exchanges: map<Pair, Exchange>
    var nextId: nat

    function View(): Manager
      reads this
    {
      Manager(exchanges, nextId)
    }

    constructor ()
      ensures View() == FRESH
    {
      exchanges := map[];
      nextId := 1;
    }

    method GenerateExchangeId() returns (id: string)
      modifies this`nextId
      ensures id == ExchangeId(old(nextId)) && nextId == Wrapped(old(nextId) + 1)
    {
      id := ExchangeId(nextId);
      nextId := (nextId + 1) % ID_LIMIT;
    }

    method GetOrCreate(pair: Pair) returns (ex: Exchange)
      modifies this`exchanges
      ensures ex == ExchangeOf(old(View()), pair) && exchanges == old(exchanges)[pair := ex]
    {
      if pair !in exchanges {
        exchanges := exchanges[pair := NO_EXCHANGE];
      }
      ex := exchanges[pair];
    }

    method Status(src: string, dst: string) returns (status: Status)
      ensures status == StatusOf(View(), Pair(src, dst))
    {
      var pair := Pair(src, dst);
      if pair !in exchanges {
        return Idle;
      }
      return exchanges[pair].status;
    }

    /** Recording a move of the exchange; the train number is that of the latest telegram. */
    method Accept(pair: Pair, id: string, status: Status, train: string) returns (outcome: Outcome)
      modifies this`exchanges
      ensures exchanges == Put(old(exchanges), pair, Exchange(id, status, train))
      ensures outcome == Outcome(Accepted, status, Confirmed, id)
    {
      exchanges := exchanges[pair := Exchange(id, status, train)];
      outcome := Outcome(Accepted, status, Confirmed, id);
    }

    /** A request to send a train, S2 or S55. */
    method SubmitRequest(pair: Pair, ex: Exchange, train: string) returns (outcome: Outcome)
      requires pair in exchanges && exchanges[pair] == ex
      modifies this
      ensures (View(), outcome) == Decided(old(View()), pair, ex, Decide(ex.status, S2, Sent), train)
    {
      assert exchanges == Put(exchanges, pair, ex);
      hide Put, ExchangeId;
      match ex.status {
        case Idle | Closed | Cancelled =>
          var id := GenerateExchangeId();
          outcome := Accept(pair, id, S2Sent, train);
        case S2Sent =>
          outcome := Outcome(RejectedDuplicate, ex.status, Rejected, "");
        case _ =>
          outcome := Outcome(RejectedWrongState, ex.status, Rejected, "");
      }
    }

    /** A line-clear reply, S24 or S56. */
    method SubmitReply(pair: Pair, ex: Exchange, train: string) returns (outcome: Outcome)
      requires pair in exchanges && exchanges[pair] == ex
      modifies this`exchanges
      ensures (View(), outcome) == Decided(old(View()), pair, ex, Decide(ex.status, S24, Received), train)
    {
      assert exchanges == Put(exchanges, pair, ex);
      hide Put, ExchangeId;
      match ex.status {
        case S2Sent =>
          outcome := Accept(pair, ex.id, S24Received, train);
        case S24Received =>
          outcome := Outcome(RejectedDuplicate, ex.status, Rejected, "");
        case _ =>
          outcome := Outcome(RejectedWrongState, ex.status, Rejected, "");
      }
    }

    /** Departure, arrival and cancellation. */
    method SubmitMove(pair: Pair, ex: Exchange, form: Form, direction: Direction, train: string)
      returns (outcome: Outcome)
      requires pair in exchanges && exchanges[pair] == ex && (form == S25 || form == S26 || form == S35)
      modifies this`exchanges
      ensures (View(), outcome) == Decided(old(View()), pair, ex, Decide(ex.status, form, direction), train)
    {
      outcome := Outcome(RejectedWrongState, ex.status, Rejected, "");
      assert exchanges == Put(exchanges, pair, ex);
      hide Put, ExchangeId;
      if form == S25 && direction == Sent {
        if ex.status == S24Received {
          outcome := Accept(pair, ex.id, S25Sent, train);
        }
      } else if form == S26 && direction == Received {
        if ex.status == S25Sent {
          outcome := Accept(pair, ex.id, S26Received, train);
        }
      } else if form == S35 && direction == Sent {
        if ex.status == S2Sent {
          outcome := Accept(pair, ex.id, Cancelled, train);
        }
      }
    }

    /** Forms that never move an exchange: S51 and S52 while one is active, S76 unless the last one
        is closed or cancelled; any other form in the wrong direction. */
    method Supplementary(pair: Pair, ex: Exchange, form: Form) returns (outcome: Outcome)
      requires pair in exchanges && exchanges[pair] == ex
      ensures forall train ::
                (View(), outcome) == Decided(View(), pair, ex, Supplement(ex.status, form), train)
    {
      assert exchanges == Put(exchanges, pair, ex);
      var wrongState := Outcome(RejectedWrongState, ex.status, Rejected, "");
      if form == S51 || form == S52 {
        var active := ex.status != Idle && ex.status != Closed && ex.status != Cancelled;
        if !active {
          return wrongState;
        }
        return Outcome(Accepted, ex.status, Confirmed, ex.id);
      }
      if form == S76 {
        var active := ex.status != Closed && ex.status != Cancelled;
        if !active && ex.status != Idle {
          return wrongState;
        }
        return Outcome(Accepted, ex.status, Confirmed, ex.id);
      }
      return wrongState;
    }

    method SubmitTelegram(src: string, dst: string, form: Form, direction: Direction, train: string)
      returns (outcome: Outcome)
      modifies this
      ensures (View(), outcome) == Submitted(old(View()), Pair(src, dst), form, direction, train)
    {
      var pair := Pair(src, dst);
      var ex := GetOrCreate(pair);
      var decision := Decide(ex.status, form, direction);
      assert View() == Manager(Put(old(exchanges), pair, ex), old(nextId));
      DecidedAfterPut(old(View()), pair, ex, ex, decision, train);
      DecideByKind(ex.status, form, direction);
      hide Decided, Put, ExchangeId, Decide;
      if IsRequest(form) && direction == Sent {
        outcome := SubmitRequest(pair, ex, train);
      } else if IsReply(form) && direction == Received {
        outcome := SubmitReply(pair, ex, train);
      } else if form == S25 || form == S26 || form == S35 {
        outcome := SubmitMove(pair, ex, form, direction, train);
      } else {
        outcome := Supplementary(pair, ex, form);
      }
    }

    method Close(src: string, dst: string)
      modifies this`exchanges
      ensures View() == ClosedPair(old(View()), Pair(src, dst))
    {
      var pair := Pair(src, dst);
      if pair !in exchanges {
        return;
      }
      if exchanges[pair].status == S26Received {
        exchanges := exchanges[pair := exchanges[pair].(status := Closed)];
      }
    }
  }
}
