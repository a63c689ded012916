/**
  The registration surface: the process-wide game context (its callback
  table) and window, the one-window guard, the per-slot and per-button
  registrations, `run!` with its default window, and the exit hook.
 */
module Zen {
  import opened Wrappers
  import opened ButtonNames
  import opened Buttons
  import opened Callbacks
  import opened Windows

  /** `$zen_game`'s callback table and `$zen_window`. */
  datatype World = World(game: Table, window: Option<Window>)

  /** Before any call: every method is the class's no-op and there is no window. */
  const Initial: World := World(map[], None)

  const AlreadyCreatedMessage: string := "a window has already been created"

  /** The default of the `update_interval:` keyword, in milliseconds. */
  const DefaultUpdateInterval: real := 16.666666

  /** The result of `run!`: the world afterwards and what the run did. */
  datatype Outcome = Outcome(world: World, calls: seq<Invocation>, printed: seq<int>, error: Option<Error>)

  /** `r` is `z` with exactly the table slot `slot` now holding `h`. */
  ghost predicate Overwrites(z: World, r: World, slot: string, h: Handler) {
    && r.window == z.window
    && r.game.Keys == z.game.Keys + {slot}
    && r.game[slot] == h
    && forall n :: n in z.game && n != slot ==> r.game[n] == z.game[n]
  }

  /** Ruby truthiness of the `id` argument: only nil and false are false. */
  predicate Truthy(key: Key) {
    !(key.KNil? || key.KFalse?)
  }

  /**
    `window`: creates the window only when there is none, then sets its
    caption and cursor flag (default false, overriding the window's own
    default); a second call raises and leaves the existing window alone.
   */
  function CreateWindow(z: World, width: int, height: int, fullscreen: bool := false,
                        updateInterval: real := DefaultUpdateInterval, caption: string := "",
                        needsCursor: bool := false): (r: Result<World, Error>)
    ensures z.window.None? ==>
      && r.Success? && r.value.game == z.game && r.value.window.Some?
      && var w := r.value.window.value;
         && w.width == width && w.height == height && w.fullscreen == fullscreen
         && w.updateInterval == updateInterval && w.caption == caption
         && NeedsCursor(w) == needsCursor && w.phase == Unset
    ensures z.window.Some? ==> r == Failure(AlreadyCreated(AlreadyCreatedMessage))
  {
    if z.window.None? then
      var w := NewWindow(width, height, fullscreen, updateInterval);
      Success(World(z.game, Some(SetNeedsCursor(w.(caption := caption), needsCursor))))
    else
      Failure(AlreadyCreated(AlreadyCreatedMessage))
  }

  /** What `define_singleton_method` raises when the block it is passed is nil. */
  const MissingBlockMessage: string := "tried to create Proc object without a block"

  /**
    `define_singleton_method name, &body`: with a block, overwrites the one
    table slot; every DSL method passes its block on even when the caller gave
    none, and then the definition raises and nothing is defined.
   */
  function DefineBody(z: World, slot: string, body: Option<Handler>): (r: Result<World, Error>)
    ensures body.Some? ==> r.Success? && Overwrites(z, r.value, slot, body.value)
    ensures body.None? ==> r == Failure(MissingBlock(MissingBlockMessage))
  {
    match body
    case None => Failure(MissingBlock(MissingBlockMessage))
    case Some(h) => Success(World(Define(z.game, slot, h), z.window))
  }

  /** `setup`: overwrites `on_setup` and nothing else; without a block it raises. */
  function DefineSetup(z: World, body: Option<Handler>): (r: Result<World, Error>)
    ensures body.Some? ==> r.Success? && Overwrites(z, r.value, SetupSlot, body.value)
    ensures body.None? ==> r == Failure(MissingBlock(MissingBlockMessage))
  {
    DefineBody(z, SetupSlot, body)
  }

  /** `teardown`: overwrites `on_teardown` and nothing else; without a block it raises. */
  function DefineTeardown(z: World, body: Option<Handler>): (r: Result<World, Error>)
    ensures body.Some? ==> r.Success? && Overwrites(z, r.value, TeardownSlot, body.value)
    ensures body.None? ==> r == Failure(MissingBlock(MissingBlockMessage))
  {
    DefineBody(z, TeardownSlot, body)
  }

  /** `update`: overwrites `on_update` and nothing else; without a block it raises. */
  function DefineUpdate(z: World, body: Option<Handler>): (r: Result<World, Error>)
    ensures body.Some? ==> r.Success? && Overwrites(z, r.value, UpdateSlot, body.value)
    ensures body.None? ==> r == Failure(MissingBlock(MissingBlockMessage))
  {
    DefineBody(z, UpdateSlot, body)
  }

  /** `draw`: overwrites `on_draw` and nothing else; without a block it raises. */
  function DefineDraw(z: World, body: Option<Handler>): (r: Result<World, Error>)
    ensures body.Some? ==> r.Success? && Overwrites(z, r.value, DrawSlot, body.value)
    ensures body.None? ==> r == Failure(MissingBlock(MissingBlockMessage))
  {
    DefineBody(z, DrawSlot, body)
  }

  /**
    `button_down`: a nil or false key registers the catch-all; any other key
    is looked up and its button's down method is defined; a key the registry
    does not know yields nil, and asking nil for its down method raises before
    the block is looked at. A missing block raises at the definition.
   */
  function DefineButtonDown(z: World, reg: Registry, key: Key, body: Option<Handler>): (r: Result<World, Error>)
    ensures !Truthy(key) && body.Some? ==> r.Success? && Overwrites(z, r.value, DownAnySlot, body.value)
    ensures Truthy(key) && Lookup(reg, key).None? ==> r == Failure(NoMethodForNil("down_method"))
    ensures Truthy(key) && Lookup(reg, key).Some? && body.Some? ==>
      r.Success? && Overwrites(z, r.value, Lookup(reg, key).value.DownMethod(), body.value)
    ensures body.None? && (!Truthy(key) || Lookup(reg, key).Some?) ==> r == Failure(MissingBlock(MissingBlockMessage))
  {
    if !Truthy(key) then DefineBody(z, DownAnySlot, body)
    else
      match Lookup(reg, key)
      case None => Failure(NoMethodForNil("down_method"))
      case Some(b) => DefineBody(z, b.DownMethod(), body)
  }

  /** `button_up`: as `button_down`, with the up method and `on_button_up_any`. */
  function DefineButtonUp(z: World, reg: Registry, key: Key, body: Option<Handler>): (r: Result<World, Error>)
    ensures !Truthy(key) && body.Some? ==> r.Success? && Overwrites(z, r.value, UpAnySlot, body.value)
    ensures Truthy(key) && Lookup(reg, key).None? ==> r == Failure(NoMethodForNil("up_method"))
    ensures Truthy(key) && Lookup(reg, key).Some? && body.Some? ==>
      r.Success? && Overwrites(z, r.value, Lookup(reg, key).value.UpMethod(), body.value)
    ensures body.None? && (!Truthy(key) || Lookup(reg, key).Some?) ==> r == Failure(MissingBlock(MissingBlockMessage))
  {
    if !Truthy(key) then DefineBody(z, UpAnySlot, body)
    else
      match Lookup(reg, key)
      case None => Failure(NoMethodForNil("up_method"))
      case Some(b) => DefineBody(z, b.UpMethod(), body)
  }

  /** The window `run!` shows: the existing one, or a new 800 by 600 one with the keyword defaults. */
  function RunWindow(z: World): (w: Window)
    ensures z.window.Some? ==> w == z.window.value
    ensures z.window.None? ==> Some(w) == CreateWindow(z, 800, 600).value.window
  {
    if z.window.Some? then z.window.value else CreateWindow(z, 800, 600).value.window.value
  }

  /**
    `run!`: an 800 by 600 window with the keyword defaults if none exists yet,
    then `show` over the host's events: the run does exactly what that `show`
    does, so `on_setup` runs at most once, and on a normal return exactly one
    `on_teardown` comes, as the last call.
   */
  function Run(z: World, reg: Registry, es: seq<Event>): (r: Outcome)
    ensures r.world.game == z.game && r.world.window.Some?
    ensures z.window.None? ==>
      var w := r.world.window.value;
      && w.width == 800 && w.height == 600 && !w.fullscreen
      && w.updateInterval == DefaultUpdateInterval && w.caption == "" && !NeedsCursor(w)
    ensures z.window.Some? ==> r.world.window.value == z.window.value.(phase := r.world.window.value.phase)
    ensures r.error.None? ==> r.world.window.value.phase == Teardown
    ensures Faithful(r.calls, z.game)
    ensures r.error.None? ==> |r.calls| > 0 && r.calls[|r.calls| - 1].handler == TeardownSlot
    ensures Count(r.calls, TeardownSlot) == (if r.error.None? then 1 else 0)
    ensures Count(r.calls, SetupSlot) <= 1
    ensures var s := Show(RunWindow(z), z.game, reg, es);
            r.calls == s.calls && r.printed == s.printed && r.error == s.error && r.world.window == Some(s.window)
  {
    var ready := if z.window.Some? then z else CreateWindow(z, 800, 600).value;
    var s := Show(ready.window.value, ready.game, reg, es);
    ShowSetupAtMostOnce(ready.window.value, ready.game, reg, es);
    ShowTeardownOnce(ready.window.value, ready.game, reg, es);
    Outcome(World(ready.game, Some(s.window)), s.calls, s.printed, s.error)
  }

  /**
    The `at_exit` hook that including `Gosu::Zen` installs: `run!` unless an
    exception is propagating. The block runs with the `Zen` module as its
    receiver, and `run!` is a private instance method only (the bare `private`
    ends `module_function`), so the module finds it only through `Object`,
    that is, when `Gosu::Zen` was included at top level; otherwise the call
    raises NoMethodError.
   */
  function AtExit(z: World, reg: Registry, includedAtTopLevel: bool, exceptionPending: bool, es: seq<Event>): (r: Outcome)
    ensures exceptionPending ==> r == Outcome(z, [], [], None)
    ensures !exceptionPending && !includedAtTopLevel ==> r == Outcome(z, [], [], Some(UndefinedMethod("run!")))
    ensures !exceptionPending && includedAtTopLevel ==> r == Run(z, reg, es)
    ensures !exceptionPending && includedAtTopLevel ==> r.world.window.Some? && r.world.game == z.game
    ensures !exceptionPending && includedAtTopLevel && r.error.None? ==> r.world.window.value.phase == Teardown
    ensures r.error.None? ==> r.world.game == z.game
  {
    if exceptionPending then Outcome(z, [], [], None)
    else if !includedAtTopLevel then Outcome(z, [], [], Some(UndefinedMethod("run!")))
    else Run(z, reg, es)
  }

  // ---------------------------------------------------------------------------
  // Properties of the registration surface
  // ---------------------------------------------------------------------------

  /** The second `window` call in a process always raises. */
  lemma WindowAtMostOnce(z: World, w1: int, h1: int, w2: int, h2: int)
    requires z.window.None?
    ensures CreateWindow(z, w1, h1).Success?
    ensures CreateWindow(CreateWindow(z, w1, h1).value, w2, h2) == Failure(AlreadyCreated(AlreadyCreatedMessage))
  {
  }

  /** Defining one slot twice leaves only the second block. */
  lemma DefineBodyTwice(z: World, slot: string, h1: Handler, h2: Handler)
    ensures DefineBody(DefineBody(z, slot, Some(h1)).value, slot, Some(h2)) == DefineBody(z, slot, Some(h2))
  {
    assert Define(Define(z.game, slot, h1), slot, h2) == Define(z.game, slot, h2);
  }

  /** The last `update` registration wins; the same holds for every slot. */
  lemma LastRegistrationWins(z: World, h1: Handler, h2: Handler)
    ensures DefineUpdate(DefineUpdate(z, Some(h1)).value, Some(h2)) == DefineUpdate(z, Some(h2))
    ensures DefineSetup(DefineSetup(z, Some(h1)).value, Some(h2)) == DefineSetup(z, Some(h2))
    ensures DefineTeardown(DefineTeardown(z, Some(h1)).value, Some(h2)) == DefineTeardown(z, Some(h2))
    ensures DefineDraw(DefineDraw(z, Some(h1)).value, Some(h2)) == DefineDraw(z, Some(h2))
  {
    DefineBodyTwice(z, UpdateSlot, h1, h2);
    DefineBodyTwice(z, SetupSlot, h1, h2);
    DefineBodyTwice(z, TeardownSlot, h1, h2);
    DefineBodyTwice(z, DrawSlot, h1, h2);
  }

  /** A per-button registration leaves the six built-in slots as they were. */
  lemma ButtonRegistrationKeepsFixedSlots(z: World, reg: Registry, key: Key, h: Handler)
    requires Truthy(key) && Lookup(reg, key).Some? && ValidButton(Lookup(reg, key).value)
    ensures DefineButtonDown(z, reg, key, Some(h)).Success?
    ensures forall s :: s in FixedSlots ==> Registered(DefineButtonDown(z, reg, key, Some(h)).value.game, s) == Registered(z.game, s)
    ensures DefineButtonUp(z, reg, key, Some(h)).Success?
    ensures forall s :: s in FixedSlots ==> Registered(DefineButtonUp(z, reg, key, Some(h)).value.game, s) == Registered(z.game, s)
  {
    ButtonMethodsAreNotFixed(Lookup(reg, key).value);
  }

  /**
    Registering a block for a button and then pressing it calls that block
    exactly once, with the button, and then the catch-all.
   */
  lemma RegisterThenPress(z: World, reg: Registry, key: Key, h: Handler, w: Window, id: int)
    requires Truthy(key) && Lookup(reg, key).Some?
    requires id in reg.byId && reg.byId[id] == Lookup(reg, key).value
    requires ValidButton(reg.byId[id])
    ensures DefineButtonDown(z, reg, key, Some(h)).Success?
    ensures var b := reg.byId[id];
            ButtonDownStep(w, DefineButtonDown(z, reg, key, Some(h)).value.game, reg, id).calls
              == [Invocation(b.DownMethod(), Some(h), Some(b)), Invocation(DownAnySlot, Registered(z.game, DownAnySlot), Some(b))]
  {
    ButtonMethodsAreNotFixed(reg.byId[id]);
  }

  /**
    With the registry built from the host's constants, registering by symbol
    name reaches the press of that button's id, for every constant no later
    one overwrites.
   */
  lemma RegisterByNameThenPress(cs: seq<HostConstant>, i: int, z: World, h: Handler, w: Window)
    requires 0 <= i < |cs|
    requires LastWithId(cs, i, cs[i].value)
    requires LastWithName(cs, i, Normalize(cs[i].name))
    ensures var b := NewButton(cs[i]);
            var reg := Build(cs);
            && DefineButtonDown(z, reg, KSymbol(b.name), Some(h)).Success?
            && ButtonDownStep(w, DefineButtonDown(z, reg, KSymbol(b.name), Some(h)).value.game, reg, b.id).calls
                 == [Invocation(b.DownMethod(), Some(h), Some(b)), Invocation(DownAnySlot, Registered(z.game, DownAnySlot), Some(b))]
  {
    var b := NewButton(cs[i]);
    LookupByIdAndNameAgree(cs, i);
    NewButtonValid(cs[i]);
    RegisterThenPress(z, Build(cs), KSymbol(b.name), h, w, b.id);
  }

  /**
    `run!` over quiet events and then a tick: `on_setup` and then `on_update`,
    with no earlier `on_update` and no second `on_setup`.
   */
  lemma RunFirstTick(z: World, reg: Registry, es: seq<Event>, k: int)
    requires 0 <= k < |es| && es[k] == UpdateTick
    requires forall j :: 0 <= j < k ==> Quiet(reg, es[j])
    ensures Count(Run(z, reg, es).calls, SetupSlot) == 1
    ensures exists n :: SetupThenUpdateAt(Run(z, reg, es).calls, n)
  {
    ShowFirstTick(RunWindow(z), z.game, reg, es, k);
  }

  /** The exit hook after a clean script with nothing registered: defaults only. */
  lemma QuietExit(reg: Registry, es: seq<Event>)
    ensures NoUserCode(AtExit(Initial, reg, true, false, es).calls)
    ensures AtExit(Initial, reg, true, true, es).world == Initial
  {
  }
}
