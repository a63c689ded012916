/**
  The window adapter: a phase flag that moves nil -> setup -> update ->
  teardown, and the forwarding of host events (update tick, draw, button
  press and release, close) to the game's callback table. The host's
  blocking `show` is an abstract list of events delivered in order.
 */
module Windows {
  import opened Wrappers
  import opened Buttons
  import opened Callbacks

  /** `@phase`; `Unset` is the nil it holds before the first `show`. */
  datatype Phase = Unset | Setup | Update | Teardown

  /** The window object: constructor arguments, caption, cursor flag, phase. */
  datatype Window = Window(
    width: int,
    height: int,
    fullscreen: bool,
    updateInterval: real,
    caption: string,
    needsCursor: bool,
    phase: Phase)

  /** Exceptions that escape the layer. */
  datatype Error =
    | NoMethodForNil(selector: string)   // a method called on the nil an unknown key looks up
    | AlreadyCreated(message: string)  // the RuntimeError of a second `window` call
    | MissingBlock(message: string)    // the ArgumentError of `define_singleton_method` given no block
    | UndefinedMethod(selector: string) // a NoMethodError for a method the receiver does not have

  /** What the host's main loop delivers while `show` blocks. */
  datatype Event = UpdateTick | DrawFrame | ButtonDown(id: int) | ButtonUp(id: int) | Close

  /**
    The effect of one or more events: the window afterwards, the game methods
    called in order, the values written to standard output, and the exception
    raised, if any.
   */
  datatype Step = Step(window: Window, calls: seq<Invocation>, printed: seq<int>, error: Option<Error>)

  /** `ZenWindow.new`: the phase is still nil and the cursor is shown. */
  function NewWindow(width: int, height: int, fullscreen: bool, updateInterval: real): (w: Window)
    ensures w.phase == Unset
    ensures NeedsCursor(w)
    ensures w.width == width && w.height == height
    ensures w.fullscreen == fullscreen && w.updateInterval == updateInterval
  {
    Window(width, height, fullscreen, updateInterval, "", true, Unset)
  }

  /** `needs_cursor?`. */
  function NeedsCursor(w: Window): bool {
    w.needsCursor
  }

  /** `needs_cursor=`: the next `needs_cursor?` answers `b`; nothing else changes. */
  function SetNeedsCursor(w: Window, b: bool): (r: Window)
    ensures NeedsCursor(r) == b
    ensures r == w.(needsCursor := r.needsCursor)
  {
    w.(needsCursor := b)
  }

  /**
    `update`: in phase setup, `on_setup` then `on_update` and the phase
    becomes update; in phase update, `on_update` alone; otherwise nothing.
   */
  function UpdateStep(w: Window, t: Table): (r: Step)
    ensures r.error.None? && r.printed == [] && Faithful(r.calls, t)
    ensures forall k :: 0 <= k < |r.calls| ==> r.calls[k].arg.None?
    ensures w.phase == Setup ==> Handlers(r.calls) == [SetupSlot, UpdateSlot] && r.window == w.(phase := Update)
    ensures w.phase == Update ==> Handlers(r.calls) == [UpdateSlot] && r.window == w
    ensures w.phase == Unset || w.phase == Teardown ==> r.calls == [] && r.window == w
  {
    match w.phase
    case Setup => Step(w.(phase := Update), Call(t, SetupSlot, None) + Call(t, UpdateSlot, None), [], None)
    case Update => Step(w, Call(t, UpdateSlot, None), [], None)
    case _ => Step(w, [], [], None)
  }

  /** `draw`: `on_draw` in every phase, the window untouched. */
  function DrawStep(w: Window, t: Table): (r: Step)
    ensures r.window == w && r.error.None? && r.printed == []
    ensures Handlers(r.calls) == [DrawSlot] && r.calls[0].arg.None?
    ensures Faithful(r.calls, t)
  {
    Step(w, Call(t, DrawSlot, None), [], None)
  }

  /** `close`: the phase becomes teardown; `on_teardown` is not called here. */
  function CloseStep(w: Window): (r: Step)
    ensures r.window.phase == Teardown && r.window == w.(phase := r.window.phase)
    ensures r.calls == [] && r.printed == [] && r.error.None?
  {
    Step(w.(phase := Teardown), [], [], None)
  }

  /**
    `button_down id`: the button's own down method if the game responds to
    it, then `on_button_down_any`, both with the button. An id the registry
    does not know leaves nil, whose `down_method` raises; the id is printed
    and the exception re-raised.
   */
  function ButtonDownStep(w: Window, t: Table, reg: Registry, id: int): (r: Step)
    ensures r.window == w && Faithful(r.calls, t)
    ensures id !in reg.byId ==>
      r.error == Some(NoMethodForNil("down_method")) && r.calls == [] && r.printed == [id]
    ensures id in reg.byId ==>
      var b := reg.byId[id];
      && r.error.None? && r.printed == []
      && Handlers(r.calls) == (if b.DownMethod() in t then [b.DownMethod()] else []) + [DownAnySlot]
      && forall k :: 0 <= k < |r.calls| ==> r.calls[k].arg == Some(b)
  {
    match Lookup(reg, KInt(id))
    case None => Step(w, [], [id], Some(NoMethodForNil("down_method")))
    case Some(b) =>
      var calls := CallIfDefined(t, b.DownMethod(), Some(b)) + Call(t, DownAnySlot, Some(b));
      FaithfulAppend(CallIfDefined(t, b.DownMethod(), Some(b)), Call(t, DownAnySlot, Some(b)), t);
      Step(w, calls, [], None)
  }

  /** `button_up id`: as `button_down`, but an unknown id raises without printing. */
  function ButtonUpStep(w: Window, t: Table, reg: Registry, id: int): (r: Step)
    ensures r.window == w && Faithful(r.calls, t) && r.printed == []
    ensures id !in reg.byId ==> r.error == Some(NoMethodForNil("up_method")) && r.calls == []
    ensures id in reg.byId ==>
      var b := reg.byId[id];
      && r.error.None?
      && Handlers(r.calls) == (if b.UpMethod() in t then [b.UpMethod()] else []) + [UpAnySlot]
      && forall k :: 0 <= k < |r.calls| ==> r.calls[k].arg == Some(b)
  {
    match Lookup(reg, KInt(id))
    case None => Step(w, [], [], Some(NoMethodForNil("up_method")))
    case Some(b) =>
      var calls := CallIfDefined(t, b.UpMethod(), Some(b)) + Call(t, UpAnySlot, Some(b));
      FaithfulAppend(CallIfDefined(t, b.UpMethod(), Some(b)), Call(t, UpAnySlot, Some(b)), t);
      Step(w, calls, [], None)
  }

  /** Which lifecycle slots one update tick calls. */
  lemma UpdateStepCounts(w: Window, t: Table)
    ensures Count(UpdateStep(w, t).calls, SetupSlot) == (if w.phase == Setup then 1 else 0)
    ensures Count(UpdateStep(w, t).calls, UpdateSlot) == (if w.phase == Setup || w.phase == Update then 1 else 0)
    ensures Count(UpdateStep(w, t).calls, TeardownSlot) == 0
  {
    var r := UpdateStep(w, t);
    if w.phase == Setup {
      assert r.calls == [r.calls[0]] + [r.calls[1]];
      CountAppend([r.calls[0]], [r.calls[1]], SetupSlot);
      CountAppend([r.calls[0]], [r.calls[1]], UpdateSlot);
      CountAppend([r.calls[0]], [r.calls[1]], TeardownSlot);
    }
  }

  /** A press calls no lifecycle slot. */
  lemma ButtonDownCounts(w: Window, t: Table, reg: Registry, id: int)
    ensures Count(ButtonDownStep(w, t, reg, id).calls, SetupSlot) == 0
    ensures Count(ButtonDownStep(w, t, reg, id).calls, UpdateSlot) == 0
    ensures Count(ButtonDownStep(w, t, reg, id).calls, TeardownSlot) == 0
  {
    if id in reg.byId {
      ButtonMethodsAreNotLifecycle(reg.byId[id].name);
    }
  }

  /** A release calls no lifecycle slot. */
  lemma ButtonUpCounts(w: Window, t: Table, reg: Registry, id: int)
    ensures Count(ButtonUpStep(w, t, reg, id).calls, SetupSlot) == 0
    ensures Count(ButtonUpStep(w, t, reg, id).calls, UpdateSlot) == 0
    ensures Count(ButtonUpStep(w, t, reg, id).calls, TeardownSlot) == 0
  {
    if id in reg.byId {
      ButtonMethodsAreNotLifecycle(reg.byId[id].name);
    }
  }

  /**
    One host event. Only an update tick in phase setup calls `on_setup`, only
    a tick in phase setup or update calls `on_update`, no event calls
    `on_teardown`, the phase never goes back to setup, and nothing but the
    phase of the window changes.
   */
  function Dispatch(w: Window, t: Table, reg: Registry, e: Event): (r: Step)
    ensures Faithful(r.calls, t)
    ensures r.window == w.(phase := r.window.phase)
    ensures Count(r.calls, SetupSlot) == (if e.UpdateTick? && w.phase == Setup then 1 else 0)
    ensures Count(r.calls, UpdateSlot) == (if e.UpdateTick? && (w.phase == Setup || w.phase == Update) then 1 else 0)
    ensures Count(r.calls, TeardownSlot) == 0
    ensures e.UpdateTick? && w.phase == Setup ==> r.window.phase == Update
    ensures e.UpdateTick? && w.phase != Setup ==> r.window == w
    ensures e.Close? ==> r.window.phase == Teardown
    ensures !(e.UpdateTick? || e.Close?) ==> r.window == w
    ensures r.error.Some? <==> (e.ButtonDown? && e.id !in reg.byId) || (e.ButtonUp? && e.id !in reg.byId)
    ensures r.error.None? ==> r.printed == []
  {
    match e
    case UpdateTick =>
      UpdateStepCounts(w, t);
      UpdateStep(w, t)
    case DrawFrame => DrawStep(w, t)
    case ButtonDown(id) =>
      ButtonDownCounts(w, t, reg, id);
      ButtonDownStep(w, t, reg, id)
    case ButtonUp(id) =>
      ButtonUpCounts(w, t, reg, id);
      ButtonUpStep(w, t, reg, id)
    case Close => CloseStep(w)
  }

  /**
    One more event after `prev`, unless `prev` already raised: the loop stops
    at the first exception.
   */
  function Continue(prev: Step, t: Table, reg: Registry, e: Event): (r: Step)
    requires Faithful(prev.calls, t)
    ensures Faithful(r.calls, t)
    ensures prev.error.Some? ==> r == prev
  {
    if prev.error.Some? then prev
    else
      var s := Dispatch(prev.window, t, reg, e);
      FaithfulAppend(prev.calls, s.calls, t);
      Step(s.window, prev.calls + s.calls, prev.printed + s.printed, s.error)
  }

  /** One more event only appends to what was called and printed so far. */
  lemma ContinueExtends(prev: Step, t: Table, reg: Registry, e: Event)
    requires Faithful(prev.calls, t)
    ensures var r := Continue(prev, t, reg, e);
            && |prev.calls| <= |r.calls| && r.calls[..|prev.calls|] == prev.calls
            && |prev.printed| <= |r.printed| && r.printed[..|prev.printed|] == prev.printed
  {
  }

  /**
    The host's main loop: events in order until one raises, which ends the
    loop with that exception.
   */
  function RunEvents(w: Window, t: Table, reg: Registry, es: seq<Event>): (r: Step)
    ensures Faithful(r.calls, t)
    ensures r.window == w.(phase := r.window.phase)
    ensures Count(r.calls, TeardownSlot) == 0
    ensures w.phase == Teardown ==> r.window.phase == Teardown
    ensures r.error.None? ==> r.printed == []
  {
    if |es| == 0 then Step(w, [], [], None)
    else
      var prev := RunEvents(w, t, reg, es[..|es| - 1]);
      var r := Continue(prev, t, reg, es[|es| - 1]);
      assert prev.error.None? ==> r.calls == prev.calls + Dispatch(prev.window, t, reg, es[|es| - 1]).calls;
      r
  }

  /**
    `show`: the phase becomes setup, the host loop runs, and when it returns
    the phase becomes teardown and `on_teardown` is called. An exception from
    the loop propagates and skips both.
   */
  function Show(w: Window, t: Table, reg: Registry, es: seq<Event>): (r: Step)
    ensures Faithful(r.calls, t)
    ensures r.window == w.(phase := r.window.phase)
    ensures r.error.None? ==> r.window.phase == Teardown && |r.calls| > 0 && r.calls[|r.calls| - 1].handler == TeardownSlot
  {
    var loop := RunEvents(w.(phase := Setup), t, reg, es);
    if loop.error.Some? then loop
    else
      FaithfulAppend(loop.calls, Call(t, TeardownSlot, None), t);
      Step(loop.window.(phase := Teardown), loop.calls + Call(t, TeardownSlot, None), loop.printed, None)
  }

  // ---------------------------------------------------------------------------
  // Properties of the lifecycle
  // ---------------------------------------------------------------------------

  /** `ra` followed by `rb`, where `rb` ran from the window `ra` left. */
  function Then(ra: Step, rb: Step): Step {
    if ra.error.Some? then ra
    else Step(rb.window, ra.calls + rb.calls, ra.printed + rb.printed, rb.error)
  }

  /** A step that did not raise, followed by the event's own step. */
  lemma ContinueStep(prev: Step, t: Table, reg: Registry, e: Event, s: Step)
    requires Faithful(prev.calls, t) && prev.error.None? && s == Dispatch(prev.window, t, reg, e)
    ensures Continue(prev, t, reg, e) == Step(s.window, prev.calls + s.calls, prev.printed + s.printed, s.error)
  {
  }

  lemma ContinueThen(ra: Step, rb: Step, t: Table, reg: Registry, e: Event)
    requires Faithful(ra.calls, t) && Faithful(rb.calls, t)
    requires ra.error.None? ==> rb.window == ra.window.(phase := rb.window.phase)
    requires Faithful(Then(ra, rb).calls, t)
    ensures ra.error.None? ==> Continue(Then(ra, rb), t, reg, e) == Then(ra, Continue(rb, t, reg, e))
  {
    if ra.error.None? {
      if rb.error.None? {
        var s := Dispatch(rb.window, t, reg, e);
        ContinueStep(rb, t, reg, e, s);
        ContinueStep(Then(ra, rb), t, reg, e, s);
        ThenOfSteps(ra, rb, s);
      } else {
        assert Continue(rb, t, reg, e) == rb;
        assert Continue(Then(ra, rb), t, reg, e) == Then(ra, rb);
      }
    }
  }

  /** `Then` regroups: `ra` then (`rb` then `s`) is (`ra` then `rb`) then `s`. */
  lemma ThenOfSteps(ra: Step, rb: Step, s: Step)
    requires ra.error.None? && rb.error.None?
    ensures Then(ra, Step(s.window, rb.calls + s.calls, rb.printed + s.printed, s.error))
         == Step(s.window, Then(ra, rb).calls + s.calls, Then(ra, rb).printed + s.printed, s.error)
  {
    assert ra.calls + rb.calls + s.calls == ra.calls + (rb.calls + s.calls);
    assert ra.printed + rb.printed + s.printed == ra.printed + (rb.printed + s.printed);
  }

  /** Running `a + b` is running `a`, then, unless it raised, `b` from where `a` left off. */
  lemma {:induction false} RunEventsAppend(w: Window, t: Table, reg: Registry, a: seq<Event>, b: seq<Event>)
    ensures var ra := RunEvents(w, t, reg, a);
            RunEvents(w, t, reg, a + b) == Then(ra, RunEvents(ra.window, t, reg, b))
    decreases |b|
  {
    var ra := RunEvents(w, t, reg, a);
    if |b| == 0 {
      assert a + b == a;
      assert ra.calls + [] == ra.calls && ra.printed + [] == ra.printed;
    } else {
      var b' := b[..|b| - 1];
      var e := b[|b| - 1];
      assert (a + b)[..|a + b| - 1] == a + b';
      assert (a + b)[|a + b| - 1] == e;
      RunEventsAppend(w, t, reg, a, b');
      var rb' := RunEvents(ra.window, t, reg, b');
      assert RunEvents(w, t, reg, a + b) == Continue(Then(ra, rb'), t, reg, e);
      assert RunEvents(ra.window, t, reg, b) == Continue(rb', t, reg, e);
      if ra.error.None? {
        ContinueThen(ra, rb', t, reg, e);
      }
    }
  }

  /**
    The setup budget: `on_setup` calls made so far, plus one while the phase
    is still setup, never exceed one if the loop started in phase setup, and
    are zero otherwise.
   */
  lemma {:induction false} RunEventsSetupBudget(w: Window, t: Table, reg: Registry, es: seq<Event>)
    ensures var r := RunEvents(w, t, reg, es);
            Count(r.calls, SetupSlot) + (if r.window.phase == Setup then 1 else 0)
              <= (if w.phase == Setup then 1 else 0)
    decreases |es|
  {
    if |es| > 0 {
      var prev := RunEvents(w, t, reg, es[..|es| - 1]);
      RunEventsSetupBudget(w, t, reg, es[..|es| - 1]);
      if prev.error.None? {
        var s := Dispatch(prev.window, t, reg, es[|es| - 1]);
        assert RunEvents(w, t, reg, es).calls == prev.calls + s.calls;
        CountAppend(prev.calls, s.calls, SetupSlot);
      }
    }
  }

  /** One `show` calls `on_setup` at most once. */
  lemma ShowSetupAtMostOnce(w: Window, t: Table, reg: Registry, es: seq<Event>)
    ensures Count(Show(w, t, reg, es).calls, SetupSlot) <= 1
  {
    var loop := RunEvents(w.(phase := Setup), t, reg, es);
    RunEventsSetupBudget(w.(phase := Setup), t, reg, es);
    CountAppend(loop.calls, Call(t, TeardownSlot, None), SetupSlot);
  }

  /**
    `on_teardown` runs exactly once when the host loop returns and not at all
    when it raised; `close` during the loop does not add a second one.
   */
  lemma ShowTeardownOnce(w: Window, t: Table, reg: Registry, es: seq<Event>)
    ensures var r := Show(w, t, reg, es);
            (r.error.None? ==> Count(r.calls, TeardownSlot) == 1)
            && (r.error.Some? ==> Count(r.calls, TeardownSlot) == 0)
  {
    var loop := RunEvents(w.(phase := Setup), t, reg, es);
    CountAppend(loop.calls, Call(t, TeardownSlot, None), TeardownSlot);
  }

  /** In phase teardown no tick calls anything and the phase stays put. */
  lemma {:induction false} TeardownIsIdle(w: Window, t: Table, reg: Registry, es: seq<Event>)
    requires w.phase == Teardown
    ensures var r := RunEvents(w, t, reg, es);
            r.window.phase == Teardown && Count(r.calls, UpdateSlot) == 0 && Count(r.calls, SetupSlot) == 0
    decreases |es|
  {
    if |es| > 0 {
      var prev := RunEvents(w, t, reg, es[..|es| - 1]);
      TeardownIsIdle(w, t, reg, es[..|es| - 1]);
      if prev.error.None? {
        var s := Dispatch(prev.window, t, reg, es[|es| - 1]);
        assert RunEvents(w, t, reg, es).calls == prev.calls + s.calls;
        CountAppend(prev.calls, s.calls, UpdateSlot);
        CountAppend(prev.calls, s.calls, SetupSlot);
      }
    }
  }

  /** A lone `close` moves to teardown and calls nothing. */
  lemma RunClose(v: Window, t: Table, reg: Registry)
    ensures RunEvents(v, t, reg, [Close]) == Step(v.(phase := Teardown), [], [], None)
  {
    assert [Close][..0] == [];
    assert RunEvents(v, t, reg, []) == Step(v, [], [], None);
    assert RunEvents(v, t, reg, [Close]) == Continue(Step(v, [], [], None), t, reg, Close);
  }

  lemma CloseThenIdle(v: Window, t: Table, reg: Registry, b: seq<Event>)
    ensures Count(RunEvents(v, t, reg, [Close] + b).calls, UpdateSlot) == 0
    ensures Count(RunEvents(v, t, reg, [Close] + b).calls, SetupSlot) == 0
  {
    var closed := v.(phase := Teardown);
    RunClose(v, t, reg);
    RunEventsAppend(v, t, reg, [Close], b);
    TeardownIsIdle(closed, t, reg, b);
    assert RunEvents(v, t, reg, [Close] + b).calls == [] + RunEvents(closed, t, reg, b).calls;
  }

  /** After `close`, later update ticks call neither `on_setup` nor `on_update`. */
  lemma CloseSilencesTicks(w: Window, t: Table, reg: Registry, a: seq<Event>, b: seq<Event>)
    ensures var before := RunEvents(w, t, reg, a);
            var after := RunEvents(w, t, reg, a + [Close] + b);
            Count(after.calls, UpdateSlot) == Count(before.calls, UpdateSlot)
            && Count(after.calls, SetupSlot) == Count(before.calls, SetupSlot)
  {
    var ra := RunEvents(w, t, reg, a);
    assert a + [Close] + b == a + ([Close] + b);
    RunEventsAppend(w, t, reg, a, [Close] + b);
    if ra.error.None? {
      var rest := RunEvents(ra.window, t, reg, [Close] + b);
      CloseThenIdle(ra.window, t, reg, b);
      CountAppend(ra.calls, rest.calls, UpdateSlot);
      CountAppend(ra.calls, rest.calls, SetupSlot);
    }
  }

  /** An event that neither ticks, closes nor raises: a draw, or a known button. */
  predicate Quiet(reg: Registry, e: Event) {
    e.DrawFrame? || (e.ButtonDown? && e.id in reg.byId) || (e.ButtonUp? && e.id in reg.byId)
  }

  /** Quiet events, then a tick as the last event. */
  predicate QuietThenTick(reg: Registry, es: seq<Event>) {
    && |es| > 0 && es[|es| - 1] == UpdateTick
    && forall j :: 0 <= j < |es| - 1 ==> Quiet(reg, es[j])
  }

  /** Quiet events leave the window as it was, raise nothing and call no lifecycle slot. */
  lemma {:induction false} QuietEvents(w: Window, t: Table, reg: Registry, es: seq<Event>)
    requires forall j :: 0 <= j < |es| ==> Quiet(reg, es[j])
    ensures var r := RunEvents(w, t, reg, es);
            && r.window == w && r.error.None?
            && Count(r.calls, SetupSlot) == 0 && Count(r.calls, UpdateSlot) == 0
    decreases |es|
  {
    if |es| > 0 {
      var prev := RunEvents(w, t, reg, es[..|es| - 1]);
      QuietEvents(w, t, reg, es[..|es| - 1]);
      var s := Dispatch(prev.window, t, reg, es[|es| - 1]);
      assert RunEvents(w, t, reg, es).calls == prev.calls + s.calls;
      CountAppend(prev.calls, s.calls, SetupSlot);
      CountAppend(prev.calls, s.calls, UpdateSlot);
    }
  }

  /** `calls[n]` is `on_setup`, the next call is `on_update`, and no `on_update` comes earlier. */
  ghost predicate SetupThenUpdateAt(calls: seq<Invocation>, n: int) {
    && 0 <= n && n + 1 < |calls|
    && calls[n].handler == SetupSlot && calls[n + 1].handler == UpdateSlot
    && forall m :: 0 <= m < n ==> calls[m].handler != UpdateSlot
  }

  /** Calls that run no further `on_setup` keep both facts about the first tick. */
  lemma FirstTickKept(a: seq<Invocation>, b: seq<Invocation>, n: int)
    requires Count(a, SetupSlot) == 1 && SetupThenUpdateAt(a, n)
    requires Count(b, SetupSlot) == 0
    ensures Count(a + b, SetupSlot) == 1 && SetupThenUpdateAt(a + b, n)
    ensures exists m :: SetupThenUpdateAt(a + b, m)
  {
    CountAppend(a, b, SetupSlot);
    assert forall m :: 0 <= m < |a| ==> (a + b)[m] == a[m];
  }

  /** Appending `on_setup`, `on_update` to calls that had neither. */
  lemma AppendSetupUpdate(a: seq<Invocation>, b: seq<Invocation>)
    requires Count(a, SetupSlot) == 0 && Count(a, UpdateSlot) == 0
    requires Handlers(b) == [SetupSlot, UpdateSlot]
    ensures Count(a + b, SetupSlot) == 1
    ensures SetupThenUpdateAt(a + b, |a + b| - 2)
  {
    assert b[0].handler == SetupSlot && b[1].handler == UpdateSlot;
    assert b == [b[0]] + [b[1]];
    CountAppend(a, b, SetupSlot);
    CountAppend([b[0]], [b[1]], SetupSlot);
    assert Count([b[0]], SetupSlot) == 1 && Count([b[1]], SetupSlot) == 0;
    var n := |a|;
    assert (a + b)[n] == b[0] && (a + b)[n + 1] == b[1];
    assert forall m :: 0 <= m < n ==> (a + b)[m] == a[m];
  }

  /** From phase setup, quiet events and then a tick end with `on_setup`, `on_update`. */
  lemma TickAfterQuiet(w: Window, t: Table, reg: Registry, es: seq<Event>)
    requires w.phase == Setup && QuietThenTick(reg, es)
    ensures RunEvents(w, t, reg, es).error.None?
    ensures RunEvents(w, t, reg, es).window.phase == Update
    ensures Count(RunEvents(w, t, reg, es).calls, SetupSlot) == 1
    ensures SetupThenUpdateAt(RunEvents(w, t, reg, es).calls, |RunEvents(w, t, reg, es).calls| - 2)
  {
    var pre := es[..|es| - 1];
    var rp := RunEvents(w, t, reg, pre);
    assert rp.window == w && rp.error.None? && Count(rp.calls, SetupSlot) == 0 && Count(rp.calls, UpdateSlot) == 0 by {
      assert forall j :: 0 <= j < |pre| ==> pre[j] == es[j];
      QuietEvents(w, t, reg, pre);
    }
    var d := UpdateStep(w, t);
    var mid := RunEvents(w, t, reg, es);
    assert mid == Step(w.(phase := Update), rp.calls + d.calls, rp.printed + d.printed, None) by {
      assert mid == Continue(rp, t, reg, UpdateTick);
      assert Dispatch(w, t, reg, UpdateTick) == d;
    }
    AppendSetupUpdate(rp.calls, d.calls);
  }

  /** A step that ran no further `on_setup`, after one that made the first tick. */
  lemma ThenKeepsFirstTick(a: Step, b: Step, n: int)
    requires a.error.None? && Count(a.calls, SetupSlot) == 1 && SetupThenUpdateAt(a.calls, n)
    requires Count(b.calls, SetupSlot) == 0
    ensures Count(Then(a, b).calls, SetupSlot) == 1 && SetupThenUpdateAt(Then(a, b).calls, n)
    ensures exists m :: SetupThenUpdateAt(Then(a, b).calls, m)
  {
    FirstTickKept(a.calls, b.calls, n);
  }

  /**
    The host loop from phase setup over quiet events, a tick, and then any
    events at all: the tick's calls stay, and no second `on_setup` comes.
   */
  lemma LoopFirstTick(start: Window, t: Table, reg: Registry, es: seq<Event>, upto: seq<Event>, rest: seq<Event>)
    requires start.phase == Setup && QuietThenTick(reg, upto) && es == upto + rest
    ensures Count(RunEvents(start, t, reg, es).calls, SetupSlot) == 1
    ensures exists n :: SetupThenUpdateAt(RunEvents(start, t, reg, es).calls, n)
  {
    TickAfterQuiet(start, t, reg, upto);
    var mid := RunEvents(start, t, reg, upto);
    RunEventsSetupBudget(mid.window, t, reg, rest);
    RunEventsAppend(start, t, reg, upto, rest);
    ThenKeepsFirstTick(mid, RunEvents(mid.window, t, reg, rest), |mid.calls| - 2);
  }

  /** Cutting the events just after the tick at `k` keeps the tick and the quiet events before it. */
  lemma CutAfterTick(reg: Registry, es: seq<Event>, k: int)
    requires 0 <= k < |es| && es[k] == UpdateTick
    requires forall j :: 0 <= j < k ==> Quiet(reg, es[j])
    ensures es == es[..k + 1] + es[k + 1..]
    ensures QuietThenTick(reg, es[..k + 1])
  {
    assert forall j :: 0 <= j < k + 1 ==> es[..k + 1][j] == es[j];
  }

  /** The teardown `show` appends keeps both facts about the loop's first tick. */
  lemma ShowKeepsFirstTick(w: Window, t: Table, reg: Registry, es: seq<Event>)
    requires Count(RunEvents(w.(phase := Setup), t, reg, es).calls, SetupSlot) == 1
    requires exists n :: SetupThenUpdateAt(RunEvents(w.(phase := Setup), t, reg, es).calls, n)
    ensures Count(Show(w, t, reg, es).calls, SetupSlot) == 1
    ensures exists n :: SetupThenUpdateAt(Show(w, t, reg, es).calls, n)
  {
    var loop := RunEvents(w.(phase := Setup), t, reg, es);
    var n :| SetupThenUpdateAt(loop.calls, n);
    if loop.error.None? {
      FirstTickKept(loop.calls, Call(t, TeardownSlot, None), n);
    }
  }

  /**
    The first tick of a `show`, after any draws and presses of known buttons,
    calls `on_setup` and then `on_update`; no `on_update` comes earlier, and
    `on_setup` runs only that once.
   */
  lemma ShowFirstTick(w: Window, t: Table, reg: Registry, es: seq<Event>, k: int)
    requires 0 <= k < |es| && es[k] == UpdateTick
    requires forall j :: 0 <= j < k ==> Quiet(reg, es[j])
    ensures Count(Show(w, t, reg, es).calls, SetupSlot) == 1
    ensures exists n :: SetupThenUpdateAt(Show(w, t, reg, es).calls, n)
  {
    var start := w.(phase := Setup);
    CutAfterTick(reg, es, k);
    LoopFirstTick(start, t, reg, es, es[..k + 1], es[k + 1..]);
    ShowKeepsFirstTick(w, t, reg, es);
  }

  /** Events never change what `needs_cursor?` answers. */
  lemma CursorFlagKept(w: Window, t: Table, reg: Registry, es: seq<Event>)
    ensures NeedsCursor(Show(w, t, reg, es).window) == NeedsCursor(w)
  {
  }

  /** With nothing registered, a whole `show` runs no user code. */
  lemma ShowWithoutRegistrations(w: Window, reg: Registry, es: seq<Event>)
    ensures NoUserCode(Show(w, map[], reg, es).calls)
  {
  }
}
