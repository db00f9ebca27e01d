/**
 * The chat page of the front end: the history of turns, the text in the input
 * box and the "waiting for a reply" flag, the submit handler that moves them
 * from idle to awaiting and back, and the few expressions of that state that
 * decide what the page shows (send button, Enter key, welcome screen).
 *
 * The request itself is not sent here: `Submit` hands back the body it would
 * post, and the reply arrives later as one of three outcomes.
 */
module ChatSession {
  import opened Wrappers
  import opened Whitespace

  datatype Role = User | Assistant

  /** One entry of the history; only answered replies carry sources. */
  datatype Message = Message(role: Role, content: string, sources: Option<seq<string>>)

  /** The body posted to the analysis endpoint. */
  datatype Request = Request(query: string, profile: string)

  const Profile: string := "a retail investor"
  const ErrorLabel: string := "Error: "
  const StatusLabel: string := "HTTP error! status: "
  const FetchFallback: string := "Failed to fetch. Is the backend server running?"

  /**
   * How a posted request settles: a response with an ok status and its
   * `answer` and `sources`; a response with another status, and the `error`
   * field of its body (`None` when absent or null); or an exception thrown on
   * the way (network failure, unreadable body) with its message.
   */
  datatype Outcome =
    | Answered(answer: string, sources: seq<string>)
    | Rejected(status: nat, error: Option<string>)
    | Failed(message: string)

  /** The three pieces of page state, as a value. */
  datatype View = View(history: seq<Message>, query: string, loading: bool)

  // ---------------------------------------------------------------------------
  // Decimal rendering of a status code, as template interpolation does it.

  function Digit(d: nat): (c: char)
    requires d < 10
    ensures '0' <= c <= '9' && (c as int) - ('0' as int) == d
  {
    (('0' as int) + d) as char
  }

  predicate IsDigits(s: string) {
    forall i :: 0 <= i < |s| ==> '0' <= s[i] <= '9'
  }

  /** The number a string of decimal digits denotes. */
  function DecimalValue(s: string): nat
    requires IsDigits(s)
  {
    if s == [] then 0 else DecimalValue(s[..|s| - 1]) * 10 + ((s[|s| - 1] as int) - ('0' as int))
  }

  /** `${n}` for a non-negative integer: its shortest decimal digits. */
  function Decimal(n: nat): (r: string)
    ensures r != [] && IsDigits(r)
    ensures |r| > 1 ==> r[0] != '0'
  {
    if n < 10 then [Digit(n)] else Decimal(n / 10) + [Digit(n % 10)]
  }

  /** Reading the digits back gives the number that was rendered. */
  lemma {:induction false} DecimalRoundTrip(n: nat)
    ensures DecimalValue(Decimal(n)) == n
  {
    if n >= 10 {
      var prefix := Decimal(n / 10);
      assert Decimal(n)[..|Decimal(n)| - 1] == prefix;
      DecimalRoundTrip(n / 10);
    }
  }

  /** Two different status codes never render alike. */
  lemma DecimalInjective(m: nat, n: nat)
    requires Decimal(m) == Decimal(n)
    ensures m == n
  {
    DecimalRoundTrip(m);
    DecimalRoundTrip(n);
  }

  // ---------------------------------------------------------------------------
  // Error texts.

  /** JavaScript truthiness of a string field: present and non-empty. */
  predicate Truthy(field: Option<string>) {
    field.Some? && field.value != []
  }

  /** The message of the error thrown for a non-ok response: the body's `error` when truthy, else the status line. */
  function HttpErrorText(status: nat, error: Option<string>): (r: string)
    ensures r != []
    ensures Truthy(error) ==> r == error.value
    ensures !Truthy(error) ==> StatusLabel <= r && IsDigits(r[|StatusLabel|..])
                               && DecimalValue(r[|StatusLabel|..]) == status
  {
    if Truthy(error) then error.value
    else
      var r := StatusLabel + Decimal(status);
      assert r[|StatusLabel|..] == Decimal(status);
      DecimalRoundTrip(status);
      r
  }

  /** The text shown for a caught error: its message when non-empty, else the hint about the server. */
  function ThrownText(message: string): (r: string)
    ensures r != []
    ensures message != [] ==> r == message
    ensures message == [] ==> r == FetchFallback
  {
    if message != [] then message else FetchFallback
  }

  /** The assistant turn a settled request appends. A non-ok response is thrown and caught, like any other error. */
  function Reply(o: Outcome): Message {
    match o
    case Answered(answer, sources) => Message(Assistant, answer, Some(sources))
    case Rejected(status, error) => Message(Assistant, ErrorLabel + ThrownText(HttpErrorText(status, error)), None)
    case Failed(message) => Message(Assistant, ErrorLabel + ThrownText(message), None)
  }

  /**
   * What each outcome shows: an answer verbatim with its sources, the body's
   * error or the status line for a non-ok response, the exception's message
   * or the server hint for a thrown error.
   */
  lemma ReplyText(o: Outcome)
    ensures Reply(o).role == Assistant
    ensures o.Answered? ==> Reply(o) == Message(Assistant, o.answer, Some(o.sources))
    ensures o.Rejected? && Truthy(o.error) ==> Reply(o).content == ErrorLabel + o.error.value
    ensures o.Rejected? && !Truthy(o.error) ==>
              Reply(o).content == ErrorLabel + StatusLabel + Decimal(o.status)
    ensures o.Failed? && o.message != [] ==> Reply(o).content == ErrorLabel + o.message
    ensures o.Failed? && o.message == [] ==> Reply(o).content == ErrorLabel + FetchFallback
    ensures !o.Answered? ==> Reply(o).sources == None && ErrorLabel <= Reply(o).content
  {
    if o.Rejected? && !Truthy(o.error) {
      assert ErrorLabel + (StatusLabel + Decimal(o.status)) == ErrorLabel + StatusLabel + Decimal(o.status);
    }
  }

  // ---------------------------------------------------------------------------
  // Expressions of the page state.

  /** The submit handler goes ahead: the trimmed query is non-empty and no reply is awaited. */
  predicate Accepts(query: string, loading: bool) {
    Strip(JavaScript, query) != [] && !loading
  }

  /** The send button's `disabled` attribute. */
  function SendDisabled(query: string, loading: bool): (r: bool)
    ensures r <==> !Accepts(query, loading)
  {
    loading || Strip(JavaScript, query) == []
  }

  /** The key handler submits on Enter without Shift; any other key types into the box. */
  predicate SubmitsOnKey(key: string, shift: bool) {
    key == "Enter" && !shift
  }

  /** The welcome screen, rather than the conversation, is on the page. */
  predicate ShowsWelcome(history: seq<Message>) {
    |history| == 0
  }

  // ---------------------------------------------------------------------------
  // Transitions.

  /** A user turn as the handler records it: the trimmed query, no sources. */
  function UserTurn(query: string): Message {
    Message(User, Strip(JavaScript, query), None)
  }

  /**
   * The synchronous part of the submit handler: rejected, nothing changes and
   * nothing is sent; accepted, the trimmed query becomes a user turn, the
   * input is cleared, the flag is raised and the trimmed query is posted.
   */
  function Submitted(v: View): (r: (View, Option<Request>))
    ensures !Accepts(v.query, v.loading) ==> r == (v, None)
    ensures Accepts(v.query, v.loading) ==>
              r.0 == View(v.history + [UserTurn(v.query)], "", true)
              && r.1 == Some(Request(Strip(JavaScript, v.query), Profile))
  {
    if !Accepts(v.query, v.loading) then (v, None)
    else
      var current := Strip(JavaScript, v.query);
      (View(v.history + [Message(User, current, None)], "", true), Some(Request(current, Profile)))
  }

  /** The settling part of the handler: one assistant turn, and the flag cleared. */
  function Settled(v: View, o: Outcome): (w: View)
    requires v.loading
    ensures w == View(v.history + [Reply(o)], v.query, false)
  {
    View(v.history + [Reply(o)], v.query, false)
  }

  /** The input box's change handler; the box is disabled while a reply is awaited. */
  function Typed(v: View, text: string): (w: View)
    requires !v.loading
    ensures w == View(v.history, text, false)
  {
    View(v.history, text, false)
  }

  // ---------------------------------------------------------------------------
  // The invariant of the page state.

  /** A recorded user turn: trimmed, non-empty, without sources. */
  predicate IsUserTurn(m: Message) {
    m.role == User && m.content != [] && NoEdgeWs(JavaScript, m.content) && m.sources == None
  }

  /**
   * Turns alternate, starting with the user; a reply is awaited exactly when
   * the last turn is the user's; and while it is awaited the input is empty.
   */
  predicate Consistent(v: View) {
    && (v.loading <==> |v.history| % 2 == 1)
    && (v.loading ==> v.query == [])
    && (forall i :: 0 <= i < |v.history| ==> (v.history[i].role == User <==> i % 2 == 0))
    && (forall i :: 0 <= i < |v.history| && i % 2 == 0 ==> IsUserTurn(v.history[i]))
  }

  lemma InitialConsistent()
    ensures Consistent(View([], "", false))
  {
  }

  lemma {:induction false} SubmittedConsistent(v: View)
    requires Consistent(v)
    ensures Consistent(Submitted(v).0)
  {
    if Accepts(v.query, v.loading) {
      var n := |v.history|;
      var h := Submitted(v).0.history;
      assert n % 2 == 0 && |h| % 2 == 1;
      forall i | 0 <= i < |h|
        ensures (h[i].role == User <==> i % 2 == 0) && (i % 2 == 0 ==> IsUserTurn(h[i]))
      {
        if i < n { assert h[i] == v.history[i]; } else { assert h[i] == UserTurn(v.query); }
      }
    }
  }

  lemma {:induction false} SettledConsistent(v: View, o: Outcome)
    requires Consistent(v) && v.loading
    ensures Consistent(Settled(v, o))
  {
    var n := |v.history|;
    var h := Settled(v, o).history;
    assert n % 2 == 1 && |h| % 2 == 0;
    forall i | 0 <= i < |h|
      ensures (h[i].role == User <==> i % 2 == 0) && (i % 2 == 0 ==> IsUserTurn(h[i]))
    {
      if i < n { assert h[i] == v.history[i]; } else { assert h[i] == Reply(o); }
    }
  }

  lemma TypedConsistent(v: View, text: string)
    requires Consistent(v) && !v.loading
    ensures Consistent(Typed(v, text))
  {
  }

  /** The send button is enabled exactly when pressing it would post a request. */
  lemma SendEnabledIffSubmits(v: View)
    ensures !SendDisabled(v.query, v.loading) <==> Submitted(v).1.Some?
  {
  }

  /** While the welcome screen shows, no reply is awaited: the loading indicator only appears in the conversation. */
  lemma WelcomeMeansIdle(v: View)
    requires Consistent(v) && ShowsWelcome(v.history)
    ensures !v.loading
  {
  }

  /**
   * An accepted submission followed by its settlement: the history keeps
   * what it had and gains exactly the user turn and the reply, the page is
   * idle again with an empty input, and the conversation view stays.
   */
  lemma {:induction false} ExchangeAppendsTwo(v: View, o: Outcome)
    requires Consistent(v) && Accepts(v.query, v.loading)
    ensures Submitted(v).0.loading
    ensures var w := Settled(Submitted(v).0, o);
      && w.history == v.history + [UserTurn(v.query), Reply(o)]
      && !w.loading && w.query == []
      && !ShowsWelcome(w.history)
      && Consistent(w)
  {
    var u := Submitted(v).0;
    SubmittedConsistent(v);
    SettledConsistent(u, o);
    assert v.history + [UserTurn(v.query)] + [Reply(o)] == v.history + [UserTurn(v.query), Reply(o)];
  }

  /** A rejected submission leaves the page exactly as it was. */
  lemma RejectedSubmitIsIdle(v: View)
    requires !Accepts(v.query, v.loading)
    ensures Submitted(v) == (v, None)
  {
  }

  // ---------------------------------------------------------------------------
  // The page component's state.

  class Session {
    var chatHistory: seq<Message>
    var userQuery: string
    var isLoading: bool

    function State(): View
      reads this
    {
      View(chatHistory, userQuery, isLoading)
    }

    ghost predicate Valid()
      reads this
    {
      Consistent(State())
    }

    /** The initial state: no history, an empty input, not loading. */
    constructor ()
      ensures Valid()
      ensures chatHistory == [] && userQuery == [] && !isLoading
    {
      chatHistory := [];
      userQuery := [];
      isLoading := false;
    }

    /** The input box's change handler. */
    method Edit(text: string)
      requires Valid() && !isLoading
      modifies this
      ensures Valid()
      ensures State() == Typed(old(State()), text)
    {
      TypedConsistent(State(), text);
      userQuery := text;
    }

    /** The submit handler up to the request; it returns the body it posts, if any. */
    method Submit() returns (request: Option<Request>)
      requires Valid()
      modifies this
      ensures Valid()
      ensures (State(), request) == Submitted(old(State()))
    {
      SubmittedConsistent(State());
      if Strip(JavaScript, userQuery) == [] || isLoading {
        return None;
      }
      var currentQuery := Strip(JavaScript, userQuery);
      chatHistory := chatHistory + [Message(User, currentQuery, None)];
      userQuery := [];
      isLoading := true;
      request := Some(Request(currentQuery, Profile));
    }

    /** The key handler of the input box. */
    method KeyDown(key: string, shift: bool) returns (request: Option<Request>)
      requires Valid()
      modifies this
      ensures Valid()
      ensures SubmitsOnKey(key, shift) ==> (State(), request) == Submitted(old(State()))
      ensures !SubmitsOnKey(key, shift) ==> State() == old(State()) && request == None
    {
      request := None;
      if key == "Enter" && !shift {
        request := Submit();
      }
    }

    /** The reply arrived with an ok status. */
    method SettleOk(answer: string, sources: seq<string>)
      requires Valid() && isLoading
      modifies this
      ensures Valid()
      ensures State() == Settled(old(State()), Answered(answer, sources))
    {
      SettledConsistent(State(), Answered(answer, sources));
      chatHistory := chatHistory + [Message(Assistant, answer, Some(sources))];
      isLoading := false;
    }

    /** The reply arrived with another status; its body's `error` field, if any. */
    method SettleHttpError(status: nat, error: Option<string>)
      requires Valid() && isLoading
      modifies this
      ensures Valid()
      ensures State() == Settled(old(State()), Rejected(status, error))
    {
      SettledConsistent(State(), Rejected(status, error));
      var thrown := if error.Some? && error.value != [] then error.value else StatusLabel + Decimal(status);
      SettleThrow(thrown);
    }

    /** The request threw; the caught error's message. */
    method SettleThrow(message: string)
      requires Valid() && isLoading
      modifies this
      ensures Valid()
      ensures State() == Settled(old(State()), Failed(message))
    {
      SettledConsistent(State(), Failed(message));
      var errorMessage := if message != [] then message else FetchFallback;
      chatHistory := chatHistory + [Message(Assistant, ErrorLabel + errorMessage, None)];
      isLoading := false;
    }
  }
}
