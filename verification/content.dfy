/**
 * The `Content` component of api-frontend/src/component/Content.jsx: the
 * prompt box, the submit guard, the request/response flow of
 * `fetchGeminiResponse` and the Enter-key dispatch of `handleKeyPress`.
 *
 * The POST to the relay is not performed: a submission records the prompt
 * it sends and stays pending until `Settle` delivers its outcome, so other
 * events (typing, more submissions, other requests settling) can happen in
 * between, as they can around the `await` of line 49.
 */
module Content {
  import opened Wrappers
  import JsString
  import opened JsValue
  import Typewriter

  /** The sentence shown when the request or the extraction throws (line 53). */
  const Fallback: string := "Sorry, something went wrong. Please try again."

  /** The property path of line 50: `.candidates[0].content.parts[0].text`. */
  const TextPath: seq<string> := ["candidates", "0", "content", "parts", "0", "text"]

  /** `!prompt.trim()` (line 44): the prompt is empty after trimming, that is, all white space. */
  predicate Blank(prompt: string)
    ensures Blank(prompt) <==> JsString.AllWhitespace(prompt)
  {
    JsString.Trim(prompt) == ""
  }

  /** The `disabled` attribute of the submit button (line 114): loading, or an all-white-space prompt. */
  predicate SubmitDisabled(isLoading: bool, prompt: string)
    ensures SubmitDisabled(isLoading, prompt) <==> isLoading || JsString.AllWhitespace(prompt)
  {
    isLoading || Blank(prompt)
  }

  /** The fields of a keyboard event that `handleKeyPress` reads. */
  datatype KeyEvent = KeyEvent(key: string, shiftKey: bool)

  /** Line 60: Enter without Shift submits (and suppresses the newline); Shift+Enter and other keys do not. */
  predicate TriggersSubmit(e: KeyEvent)
    ensures TriggersSubmit(e) ==> e.key == "Enter"
    ensures e.shiftKey ==> !TriggersSubmit(e)
    ensures e.key == "Enter" && !e.shiftKey ==> TriggersSubmit(e)
  {
    e.key == "Enter" && !e.shiftKey
  }

  /** The result of the awaited `axios.post`: the decoded body `res.data`, or a thrown error. */
  datatype RequestOutcome = Received(data: Value) | Failed

  /** Line 50's unguarded read of the response text from `res.data`. */
  function ExtractText(data: Value): (r: Result<Value, TypeError>)
    ensures r.Ok? <==> forall k | 0 <= k < |TextPath| :: !Nullish(Follow(data, TextPath[..k]))
    ensures r.Ok? ==> r.value == Follow(data, TextPath)
  {
    WalkMatchesFollow(data, TextPath);
    Walk(data, TextPath)
  }

  /**
   * The value `response` holds once a request settles (lines 48-56): the
   * payload's text when the request succeeded and every value on the path
   * to it could be read; the fallback sentence after any exception,
   * whether the request failed or the payload lacked an intermediate field.
   */
  function ResponseAfter(o: RequestOutcome): (r: Value)
    ensures o.Failed? ==> r == Str(Fallback)
    ensures o.Received? && (forall k | 0 <= k < |TextPath| :: !Nullish(Follow(o.data, TextPath[..k]))) ==>
              r == Follow(o.data, TextPath)
    ensures o.Received? && (exists k | 0 <= k < |TextPath| :: Nullish(Follow(o.data, TextPath[..k]))) ==>
              r == Str(Fallback)
  {
    match o
    case Failed => Str(Fallback)
    case Received(data) =>
      match ExtractText(data)
      case Ok(text) => text
      case Err(_) => Str(Fallback)
  }

  /** The part of a reply that line 50 reaches through `candidates[0].content.parts[0]`. */
  lemma ReachesPart(part: map<string, Value>)
    ensures Walk(ReplyWithPart(part), TextPath) == Walk(Obj(part), ["text"])
    ensures Follow(ReplyWithPart(part), TextPath) == Follow(Obj(part), ["text"])
  {
    var parts := Arr([Obj(part)]);
    var content := Obj(map["parts" := parts]);
    var candidate := Obj(map["content" := content]);
    var candidates := Arr([candidate]);
    assert Property(ReplyWithPart(part), "candidates") == candidates;
    assert Property(candidates, "0") == candidate;
    assert Property(candidate, "content") == content;
    assert Property(content, "parts") == parts;
    assert Property(parts, "0") == Obj(part);
    assert TextPath[1..][1..][1..][1..][1..] == ["text"];
  }

  /** A reply with one candidate holding one part with the given fields. */
  function ReplyWithPart(part: map<string, Value>): Value {
    Obj(map["candidates" := Arr([Obj(map["content" := Obj(map["parts" := Arr([Obj(part)])])])])])
  }

  /** The reply shape the upstream API documents, with one candidate and one part. */
  function Reply(text: string): Value {
    ReplyWithPart(map["text" := Str(text)])
  }

  /** A well-formed reply puts its text into `response`. */
  lemma ReplyTextBecomesResponse(text: string)
    ensures ResponseAfter(Received(Reply(text))) == Str(text)
  {
    ReachesPart(map["text" := Str(text)]);
  }

  /** A reply without `candidates` (a blocked prompt, say) makes line 50 throw: the fallback is shown. */
  lemma MissingCandidatesShowFallback(props: map<string, Value>)
    requires "candidates" !in props
    ensures ResponseAfter(Received(Obj(props))) == Str(Fallback)
  {
    assert TextPath[..1] == ["candidates"];
    assert Nullish(Follow(Obj(props), TextPath[..1]));
  }

  /**
   * A part without a `text` field does not throw: line 50 reads
   * `undefined` and stores it as the response instead of the fallback.
   */
  lemma PartWithoutTextGivesUndefined(part: map<string, Value>)
    requires "text" !in part
    ensures ResponseAfter(Received(ReplyWithPart(part))) == Undefined
  {
    ReachesPart(part);
  }

  /** The state of the component that the submission flow reads and writes. */
  class Component {
    var prompt: string
    var response: Value
    var isLoading: bool
    var posted: seq<string>   // the prompts sent to the relay, request `i` carrying `posted[i]`
    var pending: set<nat>     // requests whose outcome has not arrived yet

    /** Loading only while some request is pending, and every pending request was sent. */
    ghost predicate Valid()
      reads this
    {
      && (isLoading ==> pending != {})
      && (forall id | id in pending :: id < |posted|)
    }

    /** Lines 32-34: empty prompt and response, not loading. */
    constructor ()
      ensures Valid()
      ensures prompt == "" && response == Str("") && !isLoading && posted == [] && pending == {}
    {
      prompt, response, isLoading := "", Str(""), false;
      posted, pending := [], {};
    }

    /** `onChange` of the text area (line 103). */
    method Edit(p: string)
      requires Valid()
      modifies this`prompt
      ensures Valid() && prompt == p
    {
      prompt := p;
    }

    /**
     * `fetchGeminiResponse` up to its `await` (lines 44-49): a blank prompt
     * does nothing; otherwise the response is cleared, loading starts and
     * the prompt is posted as a new pending request.
     */
    method Submit() returns (id: Option<nat>)
      requires Valid()
      modifies this
      ensures Valid()
      ensures Blank(old(prompt)) ==> id == None && unchanged(this)
      ensures !Blank(old(prompt)) ==>
                && id == Some(|old(posted)|)
                && response == Str("") && isLoading
                && posted == old(posted) + [old(prompt)]
                && pending == old(pending) + {|old(posted)|}
                && prompt == old(prompt)
    {
      if Blank(prompt) {
        return None;
      }
      isLoading := true;
      response := Str("");
      id := Some(|posted|);
      posted := posted + [prompt];
      pending := pending + {id.value};
    }

    /**
     * The rest of `fetchGeminiResponse` once request `id` settles (lines
     * 50-56): the response becomes the payload's text or the fallback
     * sentence, and loading ends whatever the outcome, even if other
     * requests are still pending.
     */
    method Settle(id: nat, o: RequestOutcome)
      requires Valid() && id in pending
      modifies this
      ensures Valid()
      ensures response == ResponseAfter(o) && !isLoading
      ensures pending == old(pending) - {id}
      ensures prompt == old(prompt) && posted == old(posted)
    {
      response := ResponseAfter(o);
      isLoading := false;
      pending := pending - {id};
    }

    /** `handleKeyPress` (lines 59-64): Enter without Shift prevents the default and submits. */
    method KeyDown(e: KeyEvent) returns (defaultPrevented: bool, id: Option<nat>)
      requires Valid()
      modifies this
      ensures Valid()
      ensures defaultPrevented == TriggersSubmit(e)
      ensures !TriggersSubmit(e) || Blank(old(prompt)) ==> id == None && unchanged(this)
      ensures TriggersSubmit(e) && !Blank(old(prompt)) ==>
                && id == Some(|old(posted)|)
                && response == Str("") && isLoading
                && posted == old(posted) + [old(prompt)]
                && pending == old(pending) + {|old(posted)|}
                && prompt == old(prompt)
    {
      defaultPrevented, id := false, None;
      if TriggersSubmit(e) {
        defaultPrevented := true;
        id := Submit();
      }
    }

    /** A click on the submit button (lines 112-114): a disabled button ignores it. */
    method Click() returns (id: Option<nat>)
      requires Valid()
      modifies this
      ensures Valid()
      ensures SubmitDisabled(old(isLoading), old(prompt)) ==> id == None && unchanged(this)
      ensures !SubmitDisabled(old(isLoading), old(prompt)) ==>
                && id == Some(|old(posted)|)
                && response == Str("") && isLoading
                && posted == old(posted) + [old(prompt)]
                && pending == old(pending) + {|old(posted)|}
                && prompt == old(prompt)
    {
      id := None;
      if !SubmitDisabled(isLoading, prompt) {
        id := Submit();
      }
    }
  }

  /**
   * The button is disabled while loading, but Enter is not guarded: a
   * second Enter posts a second request, and the first one settling ends
   * loading while the second is still pending.
   */
  method EnterWhileLoading(p: string) returns (c: Component)
    requires !Blank(p)
    ensures c.Valid()
    ensures c.posted == [p, p] && c.pending == {1} && !c.isLoading
  {
    c := new Component();
    c.Edit(p);
    var enter := KeyEvent("Enter", false);
    var _, first := c.KeyDown(enter);
    assert SubmitDisabled(c.isLoading, c.prompt);
    var _, second := c.KeyDown(enter);
    assert first == Some(0) && second == Some(1);
    c.Settle(0, Failed);
  }

  /**
   * The scenario of a first submission: the reply carrying "Hi there!"
   * becomes the response, and the hook, which has shown nothing yet,
   * shows exactly that text after nine ticks, still typing, and stops on
   * the tenth.
   */
  lemma FirstReplyIsRevealed()
    ensures ResponseAfter(Received(Reply("Hi there!"))) == Str("Hi there!")
    ensures var mounted := Typewriter.Mount("", Typewriter.DefaultSpeed);
      var shown := Typewriter.RenderStep(mounted, "Hi there!", Typewriter.DefaultSpeed);
      var typed := Typewriter.Ticks(shown, mounted.nextHandle, |"Hi there!"|);
      |"Hi there!"| == 9 && typed.displayText == "Hi there!" && typed.isTyping
    ensures var mounted := Typewriter.Mount("", Typewriter.DefaultSpeed);
      var shown := Typewriter.RenderStep(mounted, "Hi there!", Typewriter.DefaultSpeed);
      var done := Typewriter.Ticks(shown, mounted.nextHandle, |"Hi there!"| + 1);
      done.displayText == "Hi there!" && !done.isTyping && done.active == {}
  {
    ReplyTextBecomesResponse("Hi there!");
    var mounted := Typewriter.Mount("", Typewriter.DefaultSpeed);
    Typewriter.RevealNewText(mounted, "Hi there!", Typewriter.DefaultSpeed);
  }
}
