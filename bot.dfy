/**
  The message-relay path of the question-answering chat bot: a chat message
  `Context | Question` is parsed, sent as a `{context, question}` payload to
  the answering service's `/answer` endpoint, and whatever comes back (or
  fails) is turned into exactly one reply text. The `/start` command answers
  with a fixed greeting.

  The HTTP call is not modelled: its outcome is an input (`Outcome`), given
  to `HandleMessage` as the function `post` from requests to outcomes.
 */
module Bot {
  import opened Wrappers
  import opened PyStr

  /** The delimiter between context and question. */
  const Bar: char := '|'

  const ExampleContext: string := "The Transformers library provides NLP tools."
  const ExampleQuestion: string := "What does it provide?"

  /** The worked example both canned replies end with. */
  const ExampleLine: string := FormatQuery(ExampleContext, ExampleQuestion)

  const UsageIntro: string := "Please provide input in the format: 'Context | Question'\nExample:\n"

  /** The reply to a message that has no delimiter. */
  const UsageText: string := UsageIntro + ExampleLine

  const GreetingIntro: string :=
    "Hello! I'm a Question Answering Bot. Send me a message in the format:\n\n"
    + "Context | Question\n\nExample:\n"

  /** The reply to `/start`. */
  const GreetingText: string := GreetingIntro + ExampleLine

  const AnswerPrefix: string := "Answer: "
  const ErrorPrefix: string := "Error: "
  const UnexpectedText: string := "Unexpected response from the API."
  const ContactPrefix: string := "Error contacting the API: "
  const FailurePrefix: string := "An unexpected error occurred: "

  /** The result of reading one chat message. */
  datatype ParseResult = Usage | Query(context: string, question: string)

  /** The message text a user types for a query, as the usage text shows it. */
  function FormatQuery(context: string, question: string): string
  {
    context + " | " + question
  }

  /**
    Strip the message; without a delimiter ask for the usage format,
    otherwise split at the first delimiter and strip both halves.
   */
  function Parse(raw: string): (r: ParseResult)
    ensures r.Usage? <==> Bar !in raw
    ensures r.Query? ==> Bar !in r.context && Trimmed(r.context) && Trimmed(r.question)
  {
    var text := Strip(raw);
    StripKeepsNonWhitespace(raw, Bar);
    if Bar !in text then Usage
    else
      var parts := SplitOnce(text, Bar);
      StripKeepsNonWhitespace(parts[0], Bar);
      StripTrimmed(parts[0]);
      StripTrimmed(parts[1]);
      Query(Strip(parts[0]), Strip(parts[1]))
  }

  /** A delimiter lies inside any whitespace-bounded span, at the same distance from the span's start. */
  lemma BarInSpan(raw: string, i: nat, a: nat, b: nat)
    requires a <= b <= |raw| && AllWhitespace(raw[..a]) && AllWhitespace(raw[b..])
    requires i < |raw| && raw[i] == Bar && Bar !in raw[..i]
    ensures a <= i < b
    ensures raw[a..b][i - a] == Bar && Bar !in raw[a..b][..i - a]
    ensures raw[a..b][..i - a] == raw[a..i] && raw[a..b][i - a + 1..] == raw[i + 1..b]
  {
  }

  /**
    The first delimiter of a message is the first delimiter of the stripped
    message, and stripping the halves around it gives the same either way.
   */
  lemma FirstBarAfterStrip(raw: string, i: nat) returns (k: nat)
    requires i < |raw| && raw[i] == Bar && Bar !in raw[..i]
    ensures k < |Strip(raw)| && Strip(raw)[k] == Bar && Bar !in Strip(raw)[..k]
    ensures Strip(Strip(raw)[..k]) == Strip(raw[..i])
    ensures Strip(Strip(raw)[k + 1..]) == Strip(raw[i + 1..])
  {
    var a, b := StripSpan(raw);
    BarInSpan(raw, i, a, b);
    k := i - a;
    StripAfterLeading(raw, a, i);
    StripBeforeTrailing(raw, i + 1, b);
  }

  /**
    The reference definition of parsing: with the first delimiter at index
    `i`, the context is the stripped text before it and the question the
    stripped text after it. Stripping the whole message first changes nothing.
   */
  lemma ParseAtFirstBar(raw: string, i: nat)
    requires i < |raw| && raw[i] == Bar && Bar !in raw[..i]
    ensures Parse(raw) == Query(Strip(raw[..i]), Strip(raw[i + 1..]))
  {
    var k := FirstBarAfterStrip(raw, i);
    SplitOnceAt(Strip(raw), Bar, k);
  }

  /** Where the delimiter sits in a formatted query, and what lies on either side of it. */
  lemma FormatQueryHalves(context: string, question: string)
    requires Bar !in context
    ensures var raw := FormatQuery(context, question);
      && |context| + 1 < |raw| && raw[|context| + 1] == Bar
      && raw[..|context| + 1] == context + " " && Bar !in raw[..|context| + 1]
      && raw[|context| + 2..] == " " + question
  {
  }

  /** Parsing inverts formatting: a query typed as `context | question` reads back as itself. */
  lemma ParseFormatQuery(context: string, question: string)
    requires Bar !in context && Trimmed(context) && Trimmed(question)
    ensures Parse(FormatQuery(context, question)) == Query(context, question)
  {
    FormatQueryHalves(context, question);
    ParseAtFirstBar(FormatQuery(context, question), |context| + 1);
    StripOneSpace(context);
    StripOneSpace(question);
  }

  /** Whitespace padding holds no delimiter. */
  lemma NoBarInPadding(w: string, s: string, w': string)
    requires AllWhitespace(w) && AllWhitespace(w')
    ensures Bar in w + s + w' <==> Bar in s
  {
  }

  /** The first delimiter of `s` is the first delimiter of `s` padded, and the halves strip alike. */
  lemma PaddedHalves(w: string, s: string, w': string, i: nat)
    requires AllWhitespace(w) && AllWhitespace(w')
    requires i < |s| && s[i] == Bar && Bar !in s[..i]
    ensures var p, k := w + s + w', |w| + i;
      && k < |p| && p[k] == Bar && Bar !in p[..k]
      && Strip(p[..k]) == Strip(s[..i]) && Strip(p[k + 1..]) == Strip(s[i + 1..])
  {
    var p, k := w + s + w', |w| + i;
    assert p[..k] == w + s[..i] + [];
    NoBarInPadding(w, s[..i], []);
    StripPadded(w, s[..i], []);
    assert w + s[..i] + [] == w + s[..i];
    assert p[k + 1..] == [] + s[i + 1..] + w';
    StripPadded([], s[i + 1..], w');
  }

  /** Padding a message whose first delimiter is at `i` keeps that delimiter first and the parse unchanged. */
  lemma ParsePaddedAt(w: string, s: string, w': string, i: nat)
    requires AllWhitespace(w) && AllWhitespace(w')
    requires i < |s| && s[i] == Bar && Bar !in s[..i]
    ensures Parse(w + s + w') == Parse(s)
  {
    var p, k := w + s + w', |w| + i;
    PaddedHalves(w, s, w', i);
    var c, q := Strip(s[..i]), Strip(s[i + 1..]);
    assert Strip(p[..k]) == c && Strip(p[k + 1..]) == q;
    assert k < |p| && p[k] == Bar && Bar !in p[..k];
    ParseAtFirstBar(s, i);
    ParseAtFirstBar(p, k);
  }

  /** Whitespace around the whole message does not change how it parses. */
  lemma ParsePadded(w: string, s: string, w': string)
    requires AllWhitespace(w) && AllWhitespace(w')
    ensures Parse(w + s + w') == Parse(s)
  {
    NoBarInPadding(w, s, w');
    match FindChar(s, Bar)
    case None =>
    case Some(i) => ParsePaddedAt(w, s, w', i);
  }

  /** A request to the answering service: the URL and the JSON object sent. */
  datatype Request = Request(url: string, payload: map<string, string>)

  /** The POST request for one parsed query. */
  function BuildRequest(apiUrl: string, context: string, question: string): (r: Request)
    ensures r.payload.Keys == {"context", "question"}
    ensures r.payload["context"] == context && r.payload["question"] == question
    ensures |r.url| == |apiUrl| + 7 && r.url[..|apiUrl|] == apiUrl && r.url[|apiUrl|..] == "/answer"
  {
    Request(apiUrl + "/answer", map["context" := context, "question" := question])
  }

  /**
    What the call to the answering service ended in: a decoded JSON object
    (its values as the text they format to), a `requests` exception
    (connection failure, or a 4xx or 5xx status raised by `raise_for_status`),
    or any other exception.
   */
  datatype Outcome =
    | Decoded(body: map<string, string>)
    | RequestError(msg: string)
    | OtherError(msg: string)

  /** Which reply an outcome earns, with the text the reply carries. */
  datatype Verdict =
    | Answered(answer: string)
    | ApiError(error: string)
    | UnexpectedResponse
    | ContactFailure(detail: string)
    | InternalFailure(detail: string)

  /** The case analysis of the handler: an `answer` key wins over an `error` key. */
  function Classify(o: Outcome): Verdict
  {
    match o
    case Decoded(body) =>
      if "answer" in body then Answered(body["answer"])
      else if "error" in body then ApiError(body["error"])
      else UnexpectedResponse
    case RequestError(msg) => ContactFailure(msg)
    case OtherError(msg) => InternalFailure(msg)
  }

  /** The reply text for each verdict. */
  function Render(v: Verdict): string
  {
    match v
    case Answered(a) => AnswerPrefix + a
    case ApiError(e) => ErrorPrefix + e
    case UnexpectedResponse => UnexpectedText
    case ContactFailure(d) => ContactPrefix + d
    case InternalFailure(d) => FailurePrefix + d
  }

  /** The reply to an outcome of the answering service. */
  function Normalise(o: Outcome): string
  {
    Render(Classify(o))
  }

  /** The reply for every kind of outcome, as the handler's branches produce it. */
  lemma NormaliseReplies(o: Outcome)
    ensures o.Decoded? && "answer" in o.body ==> Normalise(o) == "Answer: " + o.body["answer"]
    ensures o.Decoded? && "answer" !in o.body && "error" in o.body ==> Normalise(o) == "Error: " + o.body["error"]
    ensures o.Decoded? && "answer" !in o.body && "error" !in o.body ==> Normalise(o) == "Unexpected response from the API."
    ensures o.RequestError? ==> Normalise(o) == "Error contacting the API: " + o.msg
    ensures o.OtherError? ==> Normalise(o) == "An unexpected error occurred: " + o.msg
  {
  }

  /** An `error` key beside an `answer` key never changes the reply. */
  lemma AnswerOverridesError(body: map<string, string>, error: string)
    requires "answer" in body
    ensures Normalise(Decoded(body["error" := error])) == Normalise(Decoded(body))
  {
  }

  predicate HasPrefix(s: string, p: string) {
    |p| <= |s| && s[..|p|] == p
  }

  /** Reads a reply text back into the verdict that produced it, if any did. */
  function ReadReply(s: string): Option<Verdict>
  {
    if HasPrefix(s, AnswerPrefix) then Some(Answered(s[|AnswerPrefix|..]))
    else if HasPrefix(s, ContactPrefix) then Some(ContactFailure(s[|ContactPrefix|..]))
    else if HasPrefix(s, ErrorPrefix) then Some(ApiError(s[|ErrorPrefix|..]))
    else if s == UnexpectedText then Some(UnexpectedResponse)
    else if HasPrefix(s, FailurePrefix) then Some(InternalFailure(s[|FailurePrefix|..]))
    else None
  }

  /** Every reply text names its verdict and carries its text unchanged: the replies of different paths never coincide. */
  lemma ReadRender(v: Verdict)
    ensures ReadReply(Render(v)) == Some(v)
  {
    var s := Render(v);
    match v
    case Answered(a) =>
      assert s[..|AnswerPrefix|] == AnswerPrefix;
      assert s[|AnswerPrefix|..] == a;
    case ApiError(e) =>
      assert s[1] != AnswerPrefix[1];
      assert s[5] != ContactPrefix[5];
      assert s[..|ErrorPrefix|] == ErrorPrefix;
      assert s[|ErrorPrefix|..] == e;
    case UnexpectedResponse =>
      assert s[0] != AnswerPrefix[0];
      assert s[0] != ContactPrefix[0];
      assert s[0] != ErrorPrefix[0];
    case ContactFailure(d) =>
      assert s[1] != AnswerPrefix[1];
      assert s[..|ContactPrefix|] == ContactPrefix;
      assert s[|ContactPrefix|..] == d;
    case InternalFailure(d) =>
      assert s[2] != AnswerPrefix[2];
      assert s[0] != ContactPrefix[0];
      assert s[0] != ErrorPrefix[0];
      assert s[0] != UnexpectedText[0];
      assert s[..|FailurePrefix|] == FailurePrefix;
      assert s[|FailurePrefix|..] == d;
  }

  /** The reply text alone tells which branch the handler took, and with what text. */
  lemma NormaliseReadsBack(o: Outcome)
    ensures ReadReply(Normalise(o)) == Some(Classify(o))
  {
    ReadRender(Classify(o));
  }

  /** What handling one message did: the request sent, if any, and the one reply. */
  datatype Turn = Turn(sent: Option<Request>, reply: string)

  /** One chat message, answered once; `post` stands for the call to the answering service. */
  function HandleMessage(raw: string, apiUrl: string, post: Request -> Outcome): (t: Turn)
    ensures t.sent.None? <==> Bar !in raw
    ensures t.sent.None? ==> t.reply == UsageText
    ensures t.sent.Some? ==>
      && Parse(raw).Query?
      && t.sent.value == BuildRequest(apiUrl, Parse(raw).context, Parse(raw).question)
      && t.reply == Normalise(post(t.sent.value))
  {
    match Parse(raw)
    case Usage => Turn(None, UsageText)
    case Query(context, question) =>
      var r := BuildRequest(apiUrl, context, question);
      Turn(Some(r), Normalise(post(r)))
  }

  /**
    A message with its first delimiter at `i` sends the stripped halves around
    it to `apiUrl + "/answer"` and relays what comes back.
   */
  lemma HandleAtFirstBar(raw: string, apiUrl: string, post: Request -> Outcome, i: nat)
    requires i < |raw| && raw[i] == Bar && Bar !in raw[..i]
    ensures var t := HandleMessage(raw, apiUrl, post);
      && t.sent == Some(BuildRequest(apiUrl, Strip(raw[..i]), Strip(raw[i + 1..])))
      && t.reply == Normalise(post(t.sent.value))
  {
    ParseAtFirstBar(raw, i);
  }

  /** The reply to `/start`: the same greeting every time. */
  function StartReply(): (g: string)
    ensures g != UsageText
    ensures |ExampleLine| <= |g| && g[|g| - |ExampleLine|..] == ExampleLine
  {
    assert |GreetingIntro| != |UsageIntro|;
    GreetingText
  }

  /** The worked example's halves are a valid context and question. */
  lemma ExampleHalvesWellFormed()
    ensures Bar !in ExampleContext && Trimmed(ExampleContext) && Trimmed(ExampleQuestion)
  {
  }

  /** The worked example in the canned replies is a well-formed query. */
  lemma ExampleParses()
    ensures Parse(ExampleLine) == Query(ExampleContext, ExampleQuestion)
  {
    ExampleHalvesWellFormed();
    ParseFormatQuery(ExampleContext, ExampleQuestion);
  }

  /**
    With a delimiter-free context, everything after the first delimiter is
    the question, further delimiters included.
   */
  lemma ParseCompactQuery(context: string, question: string)
    requires Bar !in context && Trimmed(context) && Trimmed(question)
    ensures Parse(context + [Bar] + question) == Query(context, question)
  {
    var raw := context + [Bar] + question;
    assert raw[..|context|] == context && raw[|context| + 1..] == question;
    ParseAtFirstBar(raw, |context|);
    StripFixedPoint(context);
    StripFixedPoint(question);
  }

  /**
    Whitespace around the message and around the delimiter does not matter:
    any whitespace runs around a valid context and question leave them as they are.
   */
  lemma SpacingIrrelevant(w1: string, context: string, w2: string, w3: string, question: string, w4: string)
    requires AllWhitespace(w1) && AllWhitespace(w2) && AllWhitespace(w3) && AllWhitespace(w4)
    requires Bar !in context && Trimmed(context) && Trimmed(question)
    ensures Parse(w1 + context + w2 + [Bar] + w3 + question + w4) == Query(context, question)
  {
    var before, after := w1 + context + w2, w3 + question + w4;
    var raw := before + [Bar] + after;
    assert w1 + context + w2 + [Bar] + w3 + question + w4 == raw;
    assert raw[..|before|] == before && raw[|before| + 1..] == after;
    NoBarInPadding(w1, context, w2);
    ParseAtFirstBar(raw, |before|);
    StripPadded(w1, context, w2);
    StripPadded(w3, question, w4);
    StripFixedPoint(context);
    StripFixedPoint(question);
  }

  /** `" a | b "` parses as `"a|b"` does. */
  lemma SpacedQueryExample()
    ensures Parse(" a | b ") == Parse("a|b") == Query("a", "b")
  {
    assert " a | b " == " " + FormatQuery("a", "b") + " " && "a|b" == "a" + [Bar] + "b";
    ParsePadded(" ", FormatQuery("a", "b"), " ");
    ParseFormatQuery("a", "b");
    ParseCompactQuery("a", "b");
  }

  /** Only the first delimiter splits: the question may contain more. */
  lemma FirstBarExample()
    ensures Parse("a|b|c") == Query("a", "b|c")
  {
    assert "a|b|c" == "a" + [Bar] + "b|c";
    ParseCompactQuery("a", "b|c");
  }

  /** Empty halves are not rejected: a lone delimiter is a query with empty context and question. */
  lemma LoneBarExample()
    ensures Parse("|") == Query("", "")
  {
  }
}
