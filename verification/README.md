# react-gemini chat front end: typewriter reveal and submit flow

This project models the two small state machines in the chat page
`api-frontend/src/component/Content.jsx`:

- **`useTypewriter`** (lines 6-29). When its `text` or `speed` argument changes, a React effect
  cancels the interval of the previous run. For a non-empty text it then sets `isTyping` and
  starts a new interval. Each tick of that interval appends the next character of `text` to
  `displayText`. The first tick after the last character clears `isTyping` and the interval.
  The module `Typewriter` holds this hook. The datatype `HookState` and the pure step functions
  `RenderStep`, `TickStep` and `UnmountStep` are proved against the invariant `Consistent`.
  Lemmas prove what whole reveals do. The class `Typewriter.Hook` has one method per event,
  and each method is proved to produce exactly the state its step function gives. Timers are
  explicit: the set of scheduled interval handles, plus the handle that the pending effect
  cleanup will clear.
- **The submission flow** (lines 43-64 and 114). Module `Content` models:
  - the blank-prompt guard (`!prompt.trim()`, with `String.prototype.trim` in module `JsString`);
  - the button's `disabled` predicate;
  - the Enter/Shift test of `handleKeyPress`;
  - `fetchGeminiResponse` as the class `Content.Component`. `Submit` covers everything up to
    the `await`. `Settle` delivers the outcome of one pending request. Other events can
    happen in between.

  The request outcome is either `Received(res.data)` or `Failed`. The extraction
  `res.data.candidates[0].content.parts[0].text` follows JavaScript's property-access rules
  (module `JsValue`). The unguarded chain (`Walk`) is proved to succeed exactly when no
  intermediate value is `undefined` or `null`. When it succeeds, it agrees with the optional
  chain `?.` (`Follow`). When it fails, it throws the TypeError that the `catch` of line 51
  turns into the fallback sentence.

Behaviour of the code that the proofs bring out:

- `displayText` is never cleared. Line 47 clears `response` (its comment reads "Clear previous
  response"), but nothing ever calls `setDisplayText("")`, so the previous text stays in
  `displayText`. While `response` is empty, line 131 hides the whole response block, including
  `{displayText}` at line 145. When the reply arrives, the old text reappears ahead of the new
  text. A reveal therefore ends with the previous display followed by the new text
  (`RevealNewText`), which is not a prefix of the new text (`RevealIsNotReset`).
- A full reveal takes `|text|` appending ticks and one more tick that stops the timer
  (`RevealNewText`, `TicksFinish`). It does not stop on the tick that completes the text.
- If `text` becomes empty mid-reveal, the interval is cancelled but `isTyping` stays true
  (`EmptyTextLeavesTyping`). It stays true until a new non-empty text has been revealed to its
  end.
- Enter does not check `isLoading`, although the button does (line 114). A second Enter posts a
  second request. The first request to settle ends loading while the other is still pending
  (`EnterWhileLoading`).
- A malformed payload whose intermediate field is missing throws inside the `try` and shows the
  fallback sentence (`MissingCandidatesShowFallback`). A part without `text` does not throw:
  the response becomes `undefined` (`PartWithoutTextGivesUndefined`).
- When a second submission supersedes a reveal in progress, the partial first text stays in
  `displayText`. It is hidden while `response` is empty (line 131) and reappears, followed by the
  whole second text, once the second reply is revealed. Nothing is interleaved
  (`SupersededReveal`).

## Model

| member | source | states |
|---|---|---|
| Typewriter.AtMostOneInterval | api-frontend/src/component/Content.jsx:10-26 | in every consistent hook state at most one interval is scheduled |
| Typewriter.Cleanup | api-frontend/src/component/Content.jsx:25 | the effect cleanup leaves no interval scheduled and changes nothing but the timers |
| Typewriter.RunEffect | api-frontend/src/component/Content.jsx:11-23 | the effect body keeps the display; an empty text returns without touching `isTyping` or starting a timer; a non-empty one sets `isTyping`, resets the cursor and schedules exactly one fresh interval |
| Typewriter.Mount | api-frontend/src/component/Content.jsx:7-26 | the first render starts with an empty display and is typing (with one interval) exactly when the text is non-empty |
| Typewriter.RenderStep | api-frontend/src/component/Content.jsx:10-26 | a render with unchanged `[text, speed]` changes nothing; a render keeps the invariant and the display; when a dependency changes, no interval of the previous run survives; an empty text leaves no timer and `isTyping` unchanged; a new non-empty text restarts typing from cursor 0 on one new interval |
| Typewriter.UnmountStep | api-frontend/src/component/Content.jsx:25 | unmounting leaves no interval scheduled and the display and `isTyping` unchanged |
| Typewriter.TickStep | api-frontend/src/component/Content.jsx:15-22 | a tick with characters left appends exactly `text[index]`, advances the cursor by one and changes nothing else; a tick at the end clears `isTyping`, leaves no interval scheduled and appends nothing |
| Typewriter.Ticks | api-frontend/src/component/Content.jsx:15-23 | any number of ticks keeps the hook state consistent and the text unchanged |
| Typewriter.TicksAppend | api-frontend/src/component/Content.jsx:16-18 | `n` ticks with characters left append exactly the next `n` characters of the text, in order, and typing goes on |
| Typewriter.TicksFinish | api-frontend/src/component/Content.jsx:19-22 | one tick after the last character, typing has stopped, no interval is scheduled and the rest of the text has been appended |
| Typewriter.TicksAfterFinish | api-frontend/src/component/Content.jsx:19-22 | no tick after the one that stops the timer changes the state |
| Typewriter.RevealNewText | api-frontend/src/component/Content.jsx:10-26 | after a render with a new non-empty text, `|t|` ticks give the old display followed by `t` with the timer still running, and tick `|t|+1` stops it |
| Typewriter.RevealIsNotReset | api-frontend/src/component/Content.jsx:7-18 | with something already displayed, the finished reveal is the old display followed by the new text, which is not a prefix of the new text |
| Typewriter.EmptyTextLeavesTyping | api-frontend/src/component/Content.jsx:11-25 | an empty text arriving mid-reveal cancels the interval but leaves `isTyping` true and the display unchanged |
| Typewriter.SupersededReveal | api-frontend/src/component/Content.jsx:10-26 | clearing the text mid-reveal and then setting a new text shows the partial first display followed by the whole new text, and stops |
| Typewriter.Hook.constructor | api-frontend/src/component/Content.jsx:6-26 | the mounted hook's state is `Mount(t, sp)` |
| Typewriter.Hook.Render | api-frontend/src/component/Content.jsx:10-26 | a render updates the fields to `RenderStep` of the old state |
| Typewriter.Hook.Tick | api-frontend/src/component/Content.jsx:15-22 | a tick of a scheduled interval updates the fields to `TickStep` of the old state |
| Typewriter.Hook.Unmount | api-frontend/src/component/Content.jsx:25 | unmounting updates the fields to `UnmountStep` of the old state |
| JsString.Trim | api-frontend/src/component/Content.jsx:44 | the trimmed prompt is empty exactly when every character is JavaScript white space, and otherwise starts and ends with a non-space |
| JsValue.Walk | api-frontend/src/component/Content.jsx:50 | the unguarded chain returns the value itself for an empty path, and a thrown TypeError always names a key on the path |
| JsValue.WalkMatchesFollow | api-frontend/src/component/Content.jsx:50 | the unguarded property chain succeeds exactly when no value it reads from is nullish, and then equals the optional chain |
| JsValue.WalkThrowsAtFirstNullish | api-frontend/src/component/Content.jsx:50 | when the chain throws, the TypeError names the property read from the first nullish value on the path, and every value before it is readable |
| Content.ExtractText | api-frontend/src/component/Content.jsx:50 | reading `candidates[0].content.parts[0].text` succeeds exactly when every intermediate value is readable, and then yields that field (possibly `undefined`) |
| Content.ResponseAfter | api-frontend/src/component/Content.jsx:48-56 | a settled request leaves the payload's text in `response`, or the fallback sentence when the request failed or an intermediate field was missing |
| Content.ReplyTextBecomesResponse | api-frontend/src/component/Content.jsx:50 | a reply of the documented shape puts exactly its text into `response` |
| Content.MissingCandidatesShowFallback | api-frontend/src/component/Content.jsx:50-53 | a payload without `candidates` ends in the fallback sentence |
| Content.PartWithoutTextGivesUndefined | api-frontend/src/component/Content.jsx:50 | a part without `text` stores `undefined` as the response, not the fallback |
| Content.Blank | api-frontend/src/component/Content.jsx:44 | `!prompt.trim()` holds exactly when every character of the prompt is white space |
| Content.SubmitDisabled | api-frontend/src/component/Content.jsx:114 | the button is disabled exactly while loading or while the prompt is all white space |
| Content.TriggersSubmit | api-frontend/src/component/Content.jsx:60 | Enter without Shift submits; Shift+Enter and every other key do not |
| Content.Component.constructor | api-frontend/src/component/Content.jsx:32-34 | the page starts with an empty prompt and response, not loading, with nothing sent |
| Content.Component.Edit | api-frontend/src/component/Content.jsx:103 | typing replaces the prompt and nothing else |
| Content.Component.Submit | api-frontend/src/component/Content.jsx:43-49 | a blank prompt changes nothing and sends nothing; otherwise the response is cleared, loading starts and exactly the prompt is posted as a new pending request |
| Content.Component.Settle | api-frontend/src/component/Content.jsx:50-56 | a settling request sets the response to `ResponseAfter(outcome)` and always clears loading |
| Content.Component.KeyDown | api-frontend/src/component/Content.jsx:59-64 | Enter without Shift prevents the default and submits; any other key changes nothing |
| Content.Component.Click | api-frontend/src/component/Content.jsx:112-114 | a click on a disabled button changes nothing; otherwise it submits |
| Content.EnterWhileLoading | api-frontend/src/component/Content.jsx:59-64 | two Enter presses post two requests; the first to settle clears loading while the second is still pending |
| Content.FirstReplyIsRevealed | api-frontend/src/component/Content.jsx:36-56 | a first reply carrying "Hi there!" becomes the response; after its nine characters' ticks it is shown whole with typing still on, and the tenth tick stops typing with no interval left |

## Left out

- The relay service in `backend/server.js` is not part of this model. It forwards the prompt
  and maps every failure to a status-500 body. On the client side, axios throws for any
  non-2xx status, so every relay failure arrives as the outcome `Failed`.
- The HTTP call itself (line 49) is left out. Its result is the parameter of `Settle`, and the
  posted prompts are recorded in `posted`.
- `console.error` (line 52), the dark-mode toggle (lines 38-41), and all markup and styling are
  left out.
- The interval length has no effect in the model. `speed` matters only as an effect
  dependency: changing it restarts the reveal.
- React's render scheduling and batching are left out. Every `setResponse` is treated as one
  render that passes the new value to the hook. The updater at line 17 is treated as if it
  reads the cursor value of its own tick.
- Typewriter.Hook: the hook is modelled for string texts only. A truthy non-string response,
  such as a number or object in the `text` field, is not revealed by the model. A falsy one,
  such as `undefined`, behaves like `""` at line 11.
- `Content.Component` does not hold the hook. The coupling through `useTypewriter(response)`
  (line 36) is stated by `FirstReplyIsRevealed` and `SupersededReveal`, over the step
  functions.
- Characters are Unicode scalar values. `charAt` works on UTF-16 code units, so JavaScript
  reveals a character outside the Basic Multilingual Plane in two ticks, and the model
  reveals it in one.
- JsValue.Property models own properties of objects, plus indices and `length` of arrays and
  strings. Inherited prototype properties are left out. Numbers are integers. No property on
  the extraction path is inherited.
