/**
 * The `useTypewriter` hook of api-frontend/src/component/Content.jsx: an
 * effect keyed on `(text, speed)` that starts an interval timer, and an
 * interval callback that appends one character of `text` per tick to
 * `displayText` and then stops its own timer.
 *
 * Time is a sequence of discrete events: a render that passes the hook new
 * arguments (the effect's cleanup followed by its body, when a dependency
 * changed), a tick of an active interval, and unmounting.
 */
module Typewriter {
  import opened Wrappers

  /** The handle `setInterval` returns; the model numbers intervals in creation order. */
  type Handle = nat

  /** The interval length the component passes (the hook's default). */
  const DefaultSpeed: nat := 30

  /** Everything the hook keeps between events. */
  datatype HookState = HookState(
    text: string,             // the `text` dependency of the last effect run
    speed: nat,               // the `speed` dependency of the last effect run
    index: nat,               // the cursor captured by the last effect run's interval callback
    displayText: string,      // state variable `displayText`
    isTyping: bool,           // state variable `isTyping`
    cleanup: Option<Handle>,  // the interval the pending effect cleanup will clear, if one was registered
    active: set<Handle>,      // intervals that are scheduled and will tick
    nextHandle: Handle)       // the handle the next `setInterval` returns

  /**
   * What every reachable state satisfies: the cursor stays within the text,
   * an interval ticks only if it belongs to the last effect run, and an
   * interval ticks only while the hook is typing a non-empty text.
   */
  predicate Consistent(s: HookState) {
    && s.index <= |s.text|
    && (forall h | h in s.active :: s.cleanup == Some(h))
    && (s.cleanup.Some? ==> s.cleanup.value < s.nextHandle)
    && (s.active != {} ==> s.isTyping && s.text != "")
  }

  /** At most one interval is ever scheduled. */
  lemma AtMostOneInterval(s: HookState)
    requires Consistent(s)
    ensures |s.active| <= 1
  {
    if s.active != {} {
      var h :| h in s.active;
      assert s.active == {h};
    }
  }

  /** The cleanup returned by the last effect run (line 25): clears that run's interval. */
  function Cleanup(s: HookState): (r: HookState)
    requires Consistent(s)
    ensures Consistent(r)
    ensures r.active == {} && r.cleanup.None?
    ensures r.(active := s.active, cleanup := s.cleanup) == s
  {
    s.(active := if s.cleanup.Some? then s.active - {s.cleanup.value} else s.active, cleanup := None)
  }

  /**
   * The effect body (lines 11-23), run once no interval is scheduled: an
   * empty text returns at once; otherwise typing starts with a fresh cursor
   * and a new interval. `displayText` is left as it is in both cases.
   */
  function RunEffect(s: HookState, t: string, sp: nat): (r: HookState)
    requires Consistent(s) && s.active == {}
    ensures Consistent(r)
    ensures r.text == t && r.speed == sp && r.index == 0 && r.displayText == s.displayText
    ensures t == "" ==> r.active == {} && r.isTyping == s.isTyping && r.nextHandle == s.nextHandle
    ensures t != "" ==> r.isTyping && r.active == {s.nextHandle} && r.cleanup == Some(s.nextHandle)
                        && r.nextHandle == s.nextHandle + 1
  {
    if t == "" then s.(text := t, speed := sp, index := 0)
    else
      s.(text := t, speed := sp, index := 0, isTyping := true,
         cleanup := Some(s.nextHandle), active := s.active + {s.nextHandle},
         nextHandle := s.nextHandle + 1)
  }

  /** The first render (lines 7-8 and the effect's first run). */
  function Mount(t: string, sp: nat): (r: HookState)
    ensures Consistent(r)
    ensures r.displayText == "" && r.index == 0 && r.text == t
    ensures r.isTyping <==> t != ""
    ensures |r.active| == (if t == "" then 0 else 1)
  {
    RunEffect(HookState("", sp, 0, "", false, None, {}, 0), t, sp)
  }

  /**
   * A render with arguments `(t, sp)` (line 26): when a dependency changed,
   * the previous run's cleanup and then the effect body run; otherwise
   * nothing happens.
   */
  function RenderStep(s: HookState, t: string, sp: nat): (r: HookState)
    requires Consistent(s)
    ensures Consistent(r) && r.text == t && r.speed == sp
    ensures r.displayText == s.displayText
    ensures (t, sp) != (s.text, s.speed) ==> r.active !! s.active
    ensures t == "" ==> r.active == {} && r.isTyping == s.isTyping
    ensures t != "" && (t, sp) != (s.text, s.speed) ==>
              r.isTyping && r.index == 0 && r.active == {s.nextHandle}
    ensures (t, sp) == (s.text, s.speed) ==> r == s
  {
    if t == s.text && sp == s.speed then s else RunEffect(Cleanup(s), t, sp)
  }

  /** Unmounting runs the pending cleanup (line 25). */
  function UnmountStep(s: HookState): (r: HookState)
    requires Consistent(s)
    ensures Consistent(r) && r.active == {}
    ensures r.displayText == s.displayText && r.isTyping == s.isTyping
  {
    Cleanup(s)
  }

  /**
   * One call of the interval callback of timer `h` (lines 16-22): while
   * characters remain it appends the next one and advances the cursor;
   * afterwards it clears `isTyping` and its own interval, after which no
   * interval is scheduled.
   */
  function TickStep(s: HookState, h: Handle): (r: HookState)
    requires Consistent(s) && h in s.active
    ensures Consistent(r)
    ensures r.text == s.text && r.speed == s.speed && r.cleanup == s.cleanup && r.nextHandle == s.nextHandle
    ensures s.index < |s.text| ==>
              r.displayText == s.displayText + [s.text[s.index]] && r.index == s.index + 1
              && r.isTyping == s.isTyping && r.active == s.active
    ensures s.index == |s.text| ==>
              r.displayText == s.displayText && r.index == s.index && !r.isTyping && r.active == {}
  {
    if s.index < |s.text| then
      s.(displayText := s.displayText + [s.text[s.index]], index := s.index + 1)
    else
      s.(isTyping := false, active := s.active - {h})
  }

  /** `n` ticks of timer `h`, as long as it stays scheduled. */
  function Ticks(s: HookState, h: Handle, n: nat): (r: HookState)
    requires Consistent(s)
    ensures Consistent(r)
    ensures r.text == s.text && r.nextHandle == s.nextHandle
    decreases n
  {
    if n == 0 || h !in s.active then s else Ticks(TickStep(s, h), h, n - 1)
  }

  /**
   * While characters remain, each tick appends exactly the next character
   * of the text: after `n` ticks the display has grown by the `n`
   * characters following the cursor, in order, and typing continues.
   */
  lemma {:induction false} TicksAppend(s: HookState, h: Handle, n: nat)
    requires Consistent(s) && h in s.active && s.index + n <= |s.text|
    ensures var r := Ticks(s, h, n);
      && r.displayText == s.displayText + s.text[s.index..s.index + n]
      && r.index == s.index + n && r.isTyping && h in r.active
    decreases n
  {
    if n > 0 {
      var s' := TickStep(s, h);
      TicksAppend(s', h, n - 1);
      assert s.text[s.index..s.index + n] == [s.text[s.index]] + s'.text[s'.index..s'.index + (n - 1)];
    }
  }

  /**
   * One tick after the last character the timer stops: typing is over, no
   * interval is scheduled and the display holds the whole rest of the text.
   */
  lemma {:induction false} TicksFinish(s: HookState, h: Handle)
    requires Consistent(s) && h in s.active
    ensures var r := Ticks(s, h, |s.text| - s.index + 1);
      && r.displayText == s.displayText + s.text[s.index..]
      && !r.isTyping && r.active == {}
  {
    var n := |s.text| - s.index;
    TicksAppend(s, h, n);
    TicksSplit(s, h, n, 1);
  }

  /** Ticking `m` times and then `k` times is ticking `m + k` times. */
  lemma {:induction false} TicksSplit(s: HookState, h: Handle, m: nat, k: nat)
    requires Consistent(s)
    ensures Ticks(s, h, m + k) == Ticks(Ticks(s, h, m), h, k)
    decreases m
  {
    if m > 0 && h in s.active {
      TicksSplit(TickStep(s, h), h, m - 1, k);
    }
  }

  /** No tick after the one that stops the timer changes anything. */
  lemma {:induction false} TicksAfterFinish(s: HookState, h: Handle, extra: nat)
    requires Consistent(s) && h in s.active
    ensures Ticks(s, h, |s.text| - s.index + 1 + extra) == Ticks(s, h, |s.text| - s.index + 1)
  {
    TicksFinish(s, h);
    TicksSplit(s, h, |s.text| - s.index + 1, extra);
    var r := Ticks(s, h, |s.text| - s.index + 1);
    assert extra > 0 ==> h !in r.active;
  }

  /**
   * A reveal from cursor 0: after `|text|` ticks the whole text follows the
   * display it started from and the timer still runs; the next tick stops it.
   */
  lemma {:induction false} RevealFromStart(r: HookState, h: Handle)
    requires Consistent(r) && h in r.active && r.index == 0
    ensures var typed := Ticks(r, h, |r.text|);
      typed.displayText == r.displayText + r.text && typed.isTyping && typed.active == {h}
    ensures var done := Ticks(r, h, |r.text| + 1);
      done.displayText == r.displayText + r.text && !done.isTyping && done.active == {}
  {
    TicksAppend(r, h, |r.text|);
    assert r.text[0..|r.text|] == r.text;
    var typed := Ticks(r, h, |r.text|);
    assert typed.active == {h} by {
      AtMostOneInterval(typed);
      assert {h} <= typed.active;
    }
    TicksFinish(r, h);
    assert r.text[r.index..] == r.text;
  }

  /**
   * A render that hands the hook a new non-empty text (or a new speed)
   * reveals it in full: after `|t|` ticks the display is its value before
   * the render followed by `t`, and the timer is still running; the next
   * tick stops it.
   */
  lemma {:induction false} RevealNewText(s: HookState, t: string, sp: nat)
    requires Consistent(s) && t != "" && (t, sp) != (s.text, s.speed)
    ensures RenderStep(s, t, sp).active == {s.nextHandle}
    ensures var typed := Ticks(RenderStep(s, t, sp), s.nextHandle, |t|);
      typed.displayText == s.displayText + t && typed.isTyping && typed.active == {s.nextHandle}
    ensures var done := Ticks(RenderStep(s, t, sp), s.nextHandle, |t| + 1);
      done.displayText == s.displayText + t && !done.isTyping && done.active == {}
  {
    RevealFromStart(RenderStep(s, t, sp), s.nextHandle);
  }

  /**
   * `displayText` is never cleared: once something has been revealed, a
   * later reveal ends with the old text in front of the new one, so the
   * display is not a prefix of the text being revealed.
   */
  lemma {:induction false} RevealIsNotReset(s: HookState, t: string, sp: nat)
    requires Consistent(s) && t != "" && (t, sp) != (s.text, s.speed) && s.displayText != ""
    ensures var done := Ticks(RenderStep(s, t, sp), s.nextHandle, |t| + 1);
      && done.displayText == s.displayText + t && !(done.displayText <= t)
  {
    RevealNewText(s, t, sp);
  }

  /**
   * A text that becomes empty mid-reveal cancels the timer but leaves
   * `isTyping` set: no interval is left to clear it until a new non-empty
   * text has been revealed to its end.
   */
  lemma EmptyTextLeavesTyping(s: HookState, sp: nat)
    requires Consistent(s) && s.active != {}
    ensures var r := RenderStep(s, "", sp);
      && r.active == {} && r.isTyping && r.displayText == s.displayText
  {
  }

  /**
   * Two submissions in quick succession: the response is cleared mid-reveal
   * and then set to the second text. The first reveal's partial display
   * stays, and the second text follows it whole, with no character of the
   * first interleaved.
   */
  lemma {:induction false} SupersededReveal(s: HookState, t: string)
    requires Consistent(s) && s.active != {} && t != ""
    ensures RenderStep(s, "", s.speed).active == {}
    ensures var cleared := RenderStep(s, "", s.speed);
      var done := Ticks(RenderStep(cleared, t, s.speed), cleared.nextHandle, |t| + 1);
      done.displayText == s.displayText + t && !done.isTyping
  {
    var cleared := RenderStep(s, "", s.speed);
    RevealNewText(cleared, t, s.speed);
  }

  /** The hook as mutable state, one method per event. */
  class Hook {
    var text: string
    var speed: nat
    var index: nat
    var displayText: string
    var isTyping: bool
    var cleanup: Option<Handle>
    var active: set<Handle>
    var nextHandle: Handle

    ghost function State(): HookState
      reads this
    {
      HookState(text, speed, index, displayText, isTyping, cleanup, active, nextHandle)
    }

    ghost predicate Valid()
      reads this
    {
      Consistent(State())
    }

    /** The first render with arguments `(t, sp)`. */
    constructor (t: string, sp: nat)
      ensures Valid() && State() == Mount(t, sp)
    {
      text, speed, index := t, sp, 0;
      displayText, isTyping := "", false;
      cleanup, active, nextHandle := None, {}, 0;
      if t != "" {
        isTyping := true;
        cleanup, active, nextHandle := Some(0), {0}, 1;
      }
    }

    /** A re-render with arguments `(t, sp)`. */
    method Render(t: string, sp: nat)
      requires Valid()
      modifies this
      ensures Valid() && State() == RenderStep(old(State()), t, sp)
    {
      if t != text || sp != speed {
        if cleanup.Some? {
          active := active - {cleanup.value};
        }
        cleanup := None;
        text, speed, index := t, sp, 0;
        if t != "" {
          isTyping := true;
          var timer := nextHandle;
          nextHandle := nextHandle + 1;
          active := active + {timer};
          cleanup := Some(timer);
        }
      }
    }

    /** Interval `h` fires. */
    method Tick(h: Handle)
      requires Valid() && h in active
      modifies this
      ensures Valid() && State() == TickStep(old(State()), h)
    {
      if index < |text| {
        displayText := displayText + [text[index]];
        index := index + 1;
      } else {
        isTyping := false;
        active := active - {h};
      }
    }

    /** The component unmounts. */
    method Unmount()
      requires Valid()
      modifies this
      ensures Valid() && State() == UnmountStep(old(State()))
    {
      if cleanup.Some? {
        active := active - {cleanup.value};
      }
      cleanup := None;
    }
  }
}
