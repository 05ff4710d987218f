# Question-answering chat bot: the message-relay path

This project models, in Dafny, the message-relay path of a chat bot
(`bot.py`). The bot forwards a user's `Context | Question` message to a
question-answering service and relays the answer back. For each text message
the handler does four things:

1. It strips the message. If the message holds no `|`, the reply is a fixed
   usage text with a worked example, and nothing is sent.
2. Otherwise it splits the message at the first `|` only and strips both halves.
3. It POSTs the JSON object `{"context": …, "question": …}` to `API_URL + "/answer"`.
4. It turns whatever came back into exactly one reply:
   - a decoded body with an `answer` key gives `Answer: …`;
   - otherwise an `error` key gives `Error: …`;
   - otherwise the reply is `Unexpected response from the API.`;
   - a `requests` exception gives `Error contacting the API: …`;
   - any other exception gives `An unexpected error occurred: …`.

The `/start` command replies with a fixed greeting that ends with the same
worked example.

The model is pure, like the code it models: it uses datatypes, functions and
lemmas.

- `wrappers.dfy` defines `Option`.
- `pystr.dfy` (module `PyStr`) models the Python string operations the handler
  uses:
  - `str.strip()`, removing exactly the characters `str.isspace` accepts;
  - `str.split(sep, 1)`, with `join` as its inverse and `FindChar` as the
    search for the first separator.
- `bot.dfy` (module `Bot`) holds:
  - the parser `Parse`;
  - the request `BuildRequest`;
  - the outcome of the HTTP call, as the datatype `Outcome`;
  - the normaliser `Normalise`, split into `Classify` (which branch is taken)
    and `Render` (the reply text);
  - the whole handler `HandleMessage`;
  - the `/start` reply `StartReply`.

The HTTP call is an input. `HandleMessage` takes it as a function `post` from
`Request` to `Outcome`, and the properties hold for every such function.

## Behaviour as written

The model follows the code, and these behaviours of the code are part of it:

- The code passes no timeout to the POST.
- The code relays the raw exception text to the user in both exception replies.
- A 4xx or 5xx status is raised by `raise_for_status`, so it becomes
  `Error contacting the API: …`. Other statuses reach `response.json()`.
- The code accepts empty halves: `"|"` is sent as an empty context and an empty question.
- The code applies no confidence threshold to answers.

## Model

| member | source | states |
|---|---|---|
| `PyStr.IsWhitespace` | bot.py:28 | The characters `str.isspace` accepts, which are the ones `strip()` removes. It has no contract of its own. `StripSpan` and `StripUnique` state what stripping does with this set. |
| `PyStr.TrimStart` | bot.py:28 | Left stripping. It has no contract of its own: `TrimStartAt` states where it stops. |
| `PyStr.TrimEnd` | bot.py:28 | Right stripping. It has no contract of its own: `TrimEndAt` states where it stops. |
| `PyStr.Strip` | bot.py:28 | `str.strip()`, used here and on both halves at line 37. It has no contract of its own. `StripSpan` and `StripUnique` together characterise its result. |
| `PyStr.StripSpan` | bot.py:28 | `strip()` returns an infix of its input. Only whitespace lies before and after that infix, and the infix has no whitespace at either end. |
| `PyStr.StripUnique` | bot.py:28 | Any infix with that property is the result of `strip()`. This is an independent definition of stripping. |
| `PyStr.StripIdempotent` | bot.py:37 | Stripping an already stripped string changes nothing. |
| `PyStr.StripPadded` | bot.py:28 | Adding whitespace around a string does not change its strip. |
| `PyStr.TrimStartAt` | bot.py:28 | Left stripping stops exactly at the first character that is not whitespace. |
| `PyStr.TrimEndAt` | bot.py:28 | Right stripping stops exactly after the last character that is not whitespace. |
| `PyStr.FindChar` | bot.py:37 | The first-separator search inside the one-shot `split`. It finds nothing exactly when the character is absent. Otherwise it returns an index holding the character, with no earlier occurrence. |
| `PyStr.SplitOnce` | bot.py:37 | Splitting once at a separator gives one part exactly when the separator is absent, otherwise two. The first part never holds the separator. Joining the parts with the separator gives back the input. |
| `PyStr.SplitOnceAt` | bot.py:37 | With a separator present, the two parts are the text before its first occurrence and the text after it. |
| `PyStr.StripKeepsNonWhitespace` | bot.py:28-30 | The message holds the delimiter after stripping exactly when it held it before. |
| `Bot.Parse` | bot.py:28-37 | The usage reply is chosen exactly when the message holds no delimiter. Otherwise the context holds no delimiter, and neither half has whitespace at its ends. |
| `Bot.FirstBarAfterStrip` | bot.py:28-37 | The first delimiter of the raw message is also the first delimiter of the stripped message. The halves around it strip to the same values either way. |
| `Bot.ParseAtFirstBar` | bot.py:28-37 | Reference definition of parsing. If the first delimiter is at index `i`, the result is `Query(strip(raw[..i]), strip(raw[i+1..]))`. |
| `PyStr.StripFixedPoint` | bot.py:37 | A string is its own strip exactly when it has no whitespace at either end. |
| `Bot.ParseFormatQuery` | bot.py:32-33 | A query typed as context, space, delimiter, space, question (the format the usage text shows) parses back to that context and question. |
| `Bot.ParsePadded` | bot.py:28 | Whitespace around the whole message never changes the parse. |
| `Bot.ParsePaddedAt` | bot.py:28-37 | Padding a message whose first delimiter is at `i` with whitespace leaves its parse unchanged. |
| `Bot.ParseCompactQuery` | bot.py:37 | With a context that holds no delimiter, everything after the first delimiter is the question, including any further delimiters. |
| `Bot.SpacingIrrelevant` | bot.py:28-37 | A valid context and question, with any whitespace runs before and after the message and on either side of the delimiter, parse to that context and question. |
| `Bot.SpacedQueryExample` | bot.py:28-37 | The spaced example and the compact example (`a`, delimiter, `b`) both parse to context `a` and question `b`. |
| `Bot.FirstBarExample` | bot.py:37 | `a`, delimiter, `b`, delimiter, `c` parses to context `a`. The question is `b`, delimiter, `c`. |
| `Bot.LoneBarExample` | bot.py:30-39 | A lone delimiter is not rejected. It parses to an empty context and an empty question. |
| `Bot.BuildRequest` | bot.py:38-39 | The payload has exactly the keys `context` and `question`, and they hold the parsed values. The URL is the endpoint followed by `/answer`. |
| `Bot.Classify` | bot.py:41-56 | Which branch an outcome takes. It has no contract of its own. `NormaliseReplies` and `AnswerOverridesError` state the branch order, with `answer` checked before `error`. |
| `Bot.Render` | bot.py:47-56 | The reply text of each branch. It has no contract of its own: `ReadRender` proves that `ReadReply` inverts it. |
| `Bot.Normalise` | bot.py:41-56 | The reply to an outcome. It has no contract of its own. `NormaliseReplies` gives each reply, and `NormaliseReadsBack` shows the reply identifies its branch. |
| `Bot.NormaliseReplies` | bot.py:41-56 | Each outcome gets its reply. An `answer` key gives `Answer: ` plus the value, and this wins over `error`. An `error` key alone gives `Error: ` plus the value. Neither key gives `Unexpected response from the API.`. A request exception gives `Error contacting the API: ` plus its text. Any other exception gives `An unexpected error occurred: ` plus its text. |
| `Bot.AnswerOverridesError` | bot.py:47-50 | When an `answer` key is present, adding or changing an `error` key never changes the reply. |
| `Bot.ReadRender` | bot.py:47-56 | Each reply text can be read back into the branch that produced it, together with the text it carries. So the five branches never produce the same reply. |
| `Bot.NormaliseReadsBack` | bot.py:41-58 | The reply relayed for an outcome identifies the branch taken and its payload. Each outcome leads to exactly one such reply. |
| `Bot.HandleMessage` | bot.py:27-58 | A request is sent exactly when the message holds the delimiter. Without one, the reply is the usage text. With one, the request is built from the parse, and the reply is the normalised outcome of that request. |
| `Bot.HandleAtFirstBar` | bot.py:37-58 | For a message whose first delimiter is at `i`, the handler sends the stripped text before and after `i` to the `/answer` URL, and relays the normalised outcome. |
| `Bot.StartReply` | bot.py:60-65 | The `/start` greeting is not the usage text, and it ends with the worked example. |
| `Bot.ExampleParses` | bot.py:31-34 | The worked example in the canned replies is a valid query. It parses to its own context and question. |

## Left out

- `model_api.py` is not part of this model. It only wraps a pretrained model from an ML library.
- `get_secret` and the secret-store client (bot.py:15-19) are cloud I/O.
- The Telegram `Bot` and `Application` objects, and handler registration (bot.py:22-24, 95-96), are framework plumbing. The reply is returned as a value instead of being sent.
- The Flask `/webhook` route (bot.py:67-80) is HTTP plumbing. Note that its `abort(403)` is caught by its own `except` and turns into a 500.
- `set_webhook` and `main` (bot.py:82-99) only handle startup and logging.
- `requests.post`, `raise_for_status` and `response.json()` (bot.py:42-44) are the `Outcome` input. Exception texts are opaque strings.
- A body that fails to decode as JSON becomes `RequestError` or `OtherError`, depending on the exception class the installed `requests` version raises. The caller of the model picks which.
- JSON values are modelled as the text they format to. A decoded body that is not a JSON object (a list, a string or a number) is not modelled, because `in` and indexing mean something else on those.
- When `API_URL` is unset, `os.getenv` returns `None` and line 38 raises outside the `try`. The model takes the endpoint as a given string instead.
- Telegram delivers message text as Unicode code points. The model uses Dafny's `char`, a Unicode scalar value, so lone surrogates are not modelled.
