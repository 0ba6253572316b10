/** One conversation turn and the typewriter reveal of its reply: the shared page state,
    the events that change it, and the invariant that the text on screen is always a
    prefix of the formatted reply. */
module Turn {
  import opened Text
  import opened Wrappers
  import Ledger
  import Formatter

  /** The page state. `echo` is the submitted query shown above the reply; `pending`
      counts requests whose reply has not arrived; `store` is the browser's key-value
      store. */
  datatype State = State(
    input: string,
    loading: bool,
    showResult: bool,
    resultData: string,
    displayed: string,
    charIndex: nat,
    recent: seq<string>,
    echo: string,
    pending: nat,
    store: map<string, string>)

  /** What can happen: typing, the send button, a recent-query card on the start page,
      a recent entry in the side bar, a reply arriving, a reveal timer firing, the
      new-chat button, and a delete icon. */
  datatype Event =
    | Type(text: string)
    | Send
    | Card(text: string)
    | Select(query: string)
    | Reply(response: string)
    | Tick
    | NewChat
    | Remove(query: string)

  /** The page's collaborators: the reply formatter the reveal effect applies, and the
      serialiser the persistence effect writes with. */
  datatype Env = Env(format: string -> string, serialize: seq<string> -> string)

  /** The page as built: the formatter is `formatAsBulletPoints`. */
  function Page(serialize: seq<string> -> string): Env
  {
    Env(Formatter.FormatAsBulletPoints, serialize)
  }

  /** The text the reveal works through. */
  function Formatted(env: Env, t: State): string
  {
    env.format(t.resultData)
  }

  /** The synchronous start of a request: the reply is cleared, the loading flag and the
      result view are switched on, and, when loading was off, the reset effect empties the
      screen text and rewinds the reveal. */
  function Begin(t: State): (r: State)
    ensures r.resultData == "" && r.loading && r.showResult
    ensures r.pending == t.pending + 1
    ensures !t.loading ==> r.displayed == "" && r.charIndex == 0
    ensures t.loading ==> r.displayed == t.displayed && r.charIndex == t.charIndex
    ensures r.input == t.input && r.recent == t.recent && r.echo == t.echo && r.store == t.store
  {
    var r := t.(resultData := "", loading := true, showResult := true, pending := t.pending + 1);
    if t.loading then r else r.(displayed := "", charIndex := 0)
  }

  /** The end of a request as the code does it: the reply is stored, loading is switched
      off and the input cleared. The reset effect is keyed on the loading flag alone, so
      when loading was already off the reveal position and the screen text stay as they
      were. */
  function CompleteAsWritten(t: State, response: string): (r: State)
    requires t.pending > 0
    ensures r.resultData == response && !r.loading && r.input == ""
    ensures r.displayed == t.displayed && r.charIndex == t.charIndex
    ensures r.recent == t.recent && r.pending == t.pending - 1
    ensures r.showResult == t.showResult && r.echo == t.echo && r.store == t.store
  {
    t.(resultData := response, loading := false, input := "", pending := t.pending - 1)
  }

  /** The end of a request with every arriving reply restarting the reveal. */
  function Complete(t: State, response: string): (r: State)
    requires t.pending > 0
    ensures r.resultData == response && !r.loading && r.input == ""
    ensures r.displayed == "" && r.charIndex == 0
    ensures r.recent == t.recent && r.pending == t.pending - 1 && r.showResult == t.showResult
    ensures r.echo == t.echo && r.store == t.store
  {
    t.(resultData := response, loading := false, input := "", pending := t.pending - 1,
       displayed := "", charIndex := 0)
  }

  /** On a consistent page the corrected reply step differs from the code's only when part
      of an earlier reply is already on screen; in particular never while loading is on. */
  lemma CompleteAgrees(env: Env, t: State, response: string)
    requires Consistent(env, t) && t.pending > 0
    ensures Complete(t, response) == CompleteAsWritten(t, response) <==> t.charIndex == 0
    ensures t.loading ==> Complete(t, response) == CompleteAsWritten(t, response)
  {
  }

  /** The reveal effect schedules a tick exactly when a reply is present and shown, no
      request is loading, and characters remain. */
  predicate TickEnabled(env: Env, t: State)
  {
    !t.loading && t.resultData != "" && t.showResult && t.charIndex < |Formatted(env, t)|
  }

  /** One reveal tick: the next character of the formatted reply is appended. */
  function TickStep(env: Env, t: State): (r: State)
    requires TickEnabled(env, t)
    ensures r.charIndex == t.charIndex + 1
    ensures |r.displayed| == |t.displayed| + 1 && r.displayed[..|t.displayed|] == t.displayed
    ensures r.displayed[|t.displayed|] == Formatted(env, t)[t.charIndex]
    ensures r.resultData == t.resultData && r.loading == t.loading && r.showResult == t.showResult
    ensures r.input == t.input && r.recent == t.recent && r.echo == t.echo
    ensures r.pending == t.pending && r.store == t.store
  {
    t.(displayed := t.displayed + [Formatted(env, t)[t.charIndex]], charIndex := t.charIndex + 1)
  }

  /** The start page shows the first four ledger entries as cards. */
  function Cards(recent: seq<string>): (r: seq<string>)
    ensures |r| == if |recent| < 4 then |recent| else 4
    ensures forall k :: 0 <= k < |r| ==> r[k] == recent[k]
  {
    if |recent| < 4 then recent else recent[..4]
  }

  /** What the page lets happen: cards exist only on the start page and carry one of its
      first four entries; side-bar entries and delete icons carry a ledger entry; a reply
      arrives only for an outstanding request, and a tick only while the reveal effect has
      a timer running. */
  predicate Enabled(env: Env, t: State, e: Event)
  {
    match e
    case Card(text) => !t.showResult && text in Cards(t.recent)
    case Select(query) => query in t.recent
    case Remove(query) => query in t.recent
    case Reply(_) => t.pending > 0
    case Tick => TickEnabled(env, t)
    case _ => true
  }

  /** A ledger change followed by the write the persistence effect makes. */
  function WithLedger(env: Env, t: State, l: seq<string>): State
  {
    t.(recent := l, store := Ledger.Persist(t.store, l, env.serialize))
  }

  /** The page's reaction to one event. */
  function Step(env: Env, t: State, e: Event): State
    requires Enabled(env, t, e)
  {
    match e
    case Type(text) => t.(input := text)
    case Send =>
      if Trim(t.input) != "" then
        Begin(WithLedger(env, t, Ledger.Record(t.recent, t.input)).(echo := t.input))
      else t
    case Card(text) => Begin(t.(input := text))
    case Select(query) => Begin(t.(input := query))
    case Reply(response) => Complete(t, response)
    case Tick => TickStep(env, t)
    case NewChat => t.(showResult := false, input := "")
    case Remove(query) => WithLedger(env, t, Ledger.Delete(t.recent, query))
  }

  /** The page invariant: the screen shows the first `charIndex` characters of the
      formatted reply; nothing is shown and no reply is held while loading; the ledger is
      well formed and the store holds its latest serialisation. */
  predicate Consistent(env: Env, t: State)
  {
    && t.charIndex <= |Formatted(env, t)|
    && t.displayed == Formatted(env, t)[..t.charIndex]
    && (t.loading ==> t.resultData == "" && t.charIndex == 0)
    && Ledger.WellFormed(t.recent)
    && Ledger.StorageKey in t.store && t.store[Ledger.StorageKey] == env.serialize(t.recent)
  }

  /** The page after mounting: nothing typed or shown, the ledger loaded from the store
      (a parse failure propagates) and written straight back by the persistence effect. */
  function Init(env: Env, store: map<string, string>, parse: string -> Result<seq<string>, string>)
    : Result<State, string>
  {
    match Ledger.Load(store, parse)
    case Failure(err) => Failure(err)
    case Success(l) => Success(State("", false, false, "", "", 0, l, "", 0, Ledger.Persist(store, l, env.serialize)))
  }

  /** A freshly mounted page satisfies the invariant when the loaded ledger does; on an
      empty store it always does, with the seed list as the ledger. */
  lemma InitConsistent(env: Env, store: map<string, string>, parse: string -> Result<seq<string>, string>)
    requires Init(env, store, parse).Success?
    requires Ledger.WellFormed(Init(env, store, parse).value.recent)
    ensures Consistent(env, Init(env, store, parse).value)
  {
  }

  lemma FreshInitConsistent(env: Env, store: map<string, string>, parse: string -> Result<seq<string>, string>)
    requires Ledger.StorageKey !in store || store[Ledger.StorageKey] == ""
    ensures Init(env, store, parse).Success?
    ensures Init(env, store, parse).value.recent == Ledger.Seed
    ensures Consistent(env, Init(env, store, parse).value)
  {
    Ledger.SeedWellFormed();
  }

  /** Starting a request keeps the invariant. */
  lemma BeginConsistent(env: Env, t: State)
    requires Consistent(env, t)
    ensures Consistent(env, Begin(t))
  {
  }

  /** Every enabled event keeps the invariant. */
  lemma StepPreservesConsistent(env: Env, t: State, e: Event)
    requires Consistent(env, t)
    requires Enabled(env, t, e)
    ensures Consistent(env, Step(env, t, e))
  {
    match e
    case Type(text) =>
    case Send => SendConsistent(env, t);
    case Card(text) => BeginConsistent(env, t.(input := text));
    case Select(query) => BeginConsistent(env, t.(input := query));
    case Reply(response) => CompleteRestartsReveal(env, t, response);
    case Tick => TickConsistent(env, t);
    case NewChat =>
    case Remove(query) =>
      Ledger.DeletePreservesWellFormed(t.recent, query);
      LedgerWriteConsistent(env, t, Ledger.Delete(t.recent, query), t.echo);
  }

  lemma SendConsistent(env: Env, t: State)
    requires Consistent(env, t)
    ensures Consistent(env, Step(env, t, Send))
  {
    if Trim(t.input) != "" {
      var l := Ledger.Record(t.recent, t.input);
      Ledger.RecordPreservesWellFormed(t.recent, t.input);
      var u := WithLedger(env, t, l).(echo := t.input);
      LedgerWriteConsistent(env, t, l, t.input);
      BeginConsistent(env, u);
      assert Step(env, t, Send) == Begin(u);
    } else {
      assert Step(env, t, Send) == t;
    }
  }

  /** Replacing the ledger by a well-formed one, with its write, keeps the invariant. */
  lemma LedgerWriteConsistent(env: Env, t: State, l: seq<string>, echo: string)
    requires Consistent(env, t) && Ledger.WellFormed(l)
    ensures Consistent(env, WithLedger(env, t, l).(echo := echo))
  {
  }

  /** A tick extends the screen text by the character at the reveal position, so the
      screen keeps showing a prefix of the formatted reply. */
  lemma TickConsistent(env: Env, t: State)
    requires Consistent(env, t) && TickEnabled(env, t)
    ensures Consistent(env, TickStep(env, t))
  {
    var f := Formatted(env, t);
    assert f[..t.charIndex + 1] == f[..t.charIndex] + [f[t.charIndex]];
  }

  /** With every reply restarting the reveal, a reply keeps the invariant whether or not
      loading was still on when it arrived, and the reveal of the new reply is scheduled
      exactly when there is something to show. */
  lemma CompleteRestartsReveal(env: Env, t: State, response: string)
    requires Consistent(env, t) && t.pending > 0
    ensures Consistent(env, Complete(t, response))
    ensures TickEnabled(env, Complete(t, response)) <==>
              response != "" && t.showResult && env.format(response) != ""
  {
  }

  /** Ticking until no timer is scheduled. */
  function Reveal(env: Env, t: State): (r: State)
    requires Consistent(env, t)
    ensures Consistent(env, r) && !TickEnabled(env, r)
    ensures r.resultData == t.resultData && r.loading == t.loading && r.showResult == t.showResult
    ensures r.recent == t.recent && r.charIndex >= t.charIndex
    decreases |Formatted(env, t)| - t.charIndex
  {
    if TickEnabled(env, t) then
      TickConsistent(env, t);
      Reveal(env, TickStep(env, t))
    else t
  }

  /** Once a reply is in and shown, the reveal ends with the whole formatted reply on
      screen. */
  lemma RevealCompletes(env: Env, t: State)
    requires Consistent(env, t)
    requires !t.loading && t.showResult && t.resultData != ""
    ensures Reveal(env, t).displayed == Formatted(env, t)
  {
    var r := Reveal(env, t);
    var f := Formatted(env, r);
    assert r.charIndex == |f|;
    assert f[..|f|] == f;
  }

  /** A blank send changes nothing; a send with content records the query, shows it, and
      starts a request. */
  lemma SendRecords(env: Env, t: State)
    ensures !HasContent(t.input) ==> Step(env, t, Send) == t
    ensures HasContent(t.input) ==>
      var r := Step(env, t, Send);
      && r.recent == Ledger.Submit(t.recent, t.input)
      && r.store == Ledger.Persist(t.store, r.recent, env.serialize)
      && r.echo == t.input && r.loading && r.showResult && r.resultData == ""
  {
  }

  /** Choosing a recent query starts a request with it as the input and shows the result
      view; the ledger is neither extended nor reordered. */
  lemma SelectKeepsLedger(env: Env, t: State, query: string)
    requires query in t.recent
    ensures var r := Step(env, t, Select(query));
      && r.recent == t.recent && r.store == t.store
      && r.input == query && r.loading && r.showResult && r.resultData == ""
  {
  }

  /** Clicking a card starts a request with the card's text as the input; the ledger is
      left alone. */
  lemma CardKeepsLedger(env: Env, t: State, text: string)
    requires !t.showResult && text in Cards(t.recent)
    ensures var r := Step(env, t, Card(text));
      && r.recent == t.recent && r.store == t.store
      && r.input == text && r.loading && r.showResult && r.resultData == ""
  {
  }

  /** A new chat hides the result view and clears the input; nothing else changes, so the
      reply, the reveal, the loading flag, the pending count and the ledger are left alone. */
  lemma NewChatKeepsTurn(env: Env, t: State)
    ensures var r := Step(env, t, NewChat);
      && !r.showResult && r.input == ""
      && r.resultData == t.resultData && r.displayed == t.displayed && r.charIndex == t.charIndex
      && r.loading == t.loading && r.recent == t.recent && r.store == t.store
    ensures Step(env, t, NewChat) == t.(showResult := false, input := "")
  {
  }

  /** A reply leaves the ledger alone: only the send button records queries. */
  lemma ReplyKeepsLedger(env: Env, t: State, response: string)
    requires t.pending > 0
    ensures Step(env, t, Reply(response)).recent == t.recent
    ensures Step(env, t, Reply(response)).store == t.store
  {
  }

  /** Two requests in flight: the user types and sends `q1`, then types and sends `q2`
      before the first reply is in (the send button stays enabled while loading). The
      reply `r1` arrives and one tick reveals its first character; then the reply `r2`
      arrives while loading is already off. As written, the screen keeps the first reply's
      character and the reveal position stays at 1, so what is on screen is not a prefix of
      the new formatted reply. */
  predicate StaleTrace(env: Env, q1: string, q2: string, r1: string, r2: string)
  {
    var t0 := State("", false, false, "", "", 0, [], "", 0, map[Ledger.StorageKey := env.serialize([])]);
    && Consistent(env, t0)
    && var t2 := Step(env, Step(env, Step(env, Step(env, t0, Type(q1)), Send), Type(q2)), Send);
    && t2.pending == 2 && t2.loading
    && StaleAfter(env, t2, r1, r2)
  }

  /** From two requests in flight: `r1` arrives, one tick, then `r2` arrives as written,
      and the screen is left out of step with the reply. */
  predicate StaleAfter(env: Env, t2: State, r1: string, r2: string)
    requires t2.pending == 2
  {
    var t3 := CompleteAsWritten(t2, r1);
    && Consistent(env, t3) && TickEnabled(env, t3)
    && var t5 := CompleteAsWritten(TickStep(env, t3), r2);
    && t5.displayed == env.format(r1)[..1] && t5.charIndex == 1
    && !Consistent(env, t5)
  }

  /** The stale reveal happens with any formatter whose outputs for the two replies differ
      in their first character. */
  lemma StaleRevealFor(env: Env, q1: string, q2: string, r1: string, r2: string)
    requires HasContent(q1) && HasContent(q2)
    requires r1 != "" && r2 != ""
    requires |env.format(r1)| > 0 && |env.format(r2)| > 0 && env.format(r1)[0] != env.format(r2)[0]
    ensures StaleTrace(env, q1, q2, r1, r2)
  {
    var t0 := State("", false, false, "", "", 0, [], "", 0, map[Ledger.StorageKey := env.serialize([])]);
    var t2 := TwoSends(env, t0, q1, q2);
    StaleAfterSends(env, t2, r1, r2);
  }

  lemma StaleAfterSends(env: Env, t2: State, r1: string, r2: string)
    requires t2.pending == 2 && t2.loading && t2.showResult
    requires t2.displayed == "" && t2.charIndex == 0 && Consistent(env, t2)
    requires r1 != "" && r2 != ""
    requires |env.format(r1)| > 0 && |env.format(r2)| > 0 && env.format(r1)[0] != env.format(r2)[0]
    ensures StaleAfter(env, t2, r1, r2)
  {
    var f := env.format(r2);
    assert f[..1] == [f[0]];
  }

  /** Two sends in a row from a page that is neither loading nor showing anything leave
      two requests in flight and an empty screen. */
  lemma TwoSends(env: Env, t0: State, q1: string, q2: string) returns (t2: State)
    requires Consistent(env, t0) && !t0.loading && t0.pending == 0
    requires HasContent(q1) && HasContent(q2)
    ensures t2 == Step(env, Step(env, Step(env, Step(env, t0, Type(q1)), Send), Type(q2)), Send)
    ensures t2.pending == 2 && t2.loading && t2.showResult
    ensures t2.displayed == "" && t2.charIndex == 0 && Consistent(env, t2)
  {
    SendConsistent(env, t0.(input := q1));
    var t1 := Step(env, Step(env, t0, Type(q1)), Send);
    SendConsistent(env, t1.(input := q2));
    t2 := Step(env, Step(env, t1, Type(q2)), Send);
  }
}
