# Gosu Zen: button registry, window lifecycle and callback registration

Gosu Zen is a small layer over the Gosu game library. A script declares a window,
button callbacks, an update routine and a draw routine as plain blocks. It does
not subclass `Gosu::Window`. This project models the three pieces of that layer
that hold logic of their own. Every operation is a pure function over immutable
values.

- **Button names and registry** (`ButtonNames`, `Buttons`). A host constant name
  such as `KbLeftShift` becomes the symbol `kb_left_shift`. The model applies
  `NAME_RX` through `gsub(NAME_RX, '_')` and then `downcase`. It also covers the
  device type taken from the two-letter prefix and the per-button handler names
  `on_button_down_<name>` and `on_button_up_<name>`. The registry keeps two maps,
  by id and by name, and is built by a fold over the host's constants. `Button[key]`
  is polymorphic over the key's class.
- **Callback table** (`Callbacks`). Defining a singleton method on the game
  object is modelled as a map from method name to an opaque block. The six methods
  the `Game` class defines itself are no-ops until overwritten. A per-button method
  exists only after it has been registered.
- **Window adapter** (`Windows`). The phase goes nil → setup → update → teardown.
  The model forwards update, draw, button-down, button-up and close events to the
  table. The host's blocking `show` is a list of events delivered in order. Each
  step returns four things: the window, the game methods called (in order), the
  values printed, and the exception raised, if any.
- **Registration surface** (`Zen`). This covers the one-window guard, the
  `setup`/`teardown`/`update`/`draw` slots, and per-button versus catch-all
  registration. It also covers `run!` with its default 800×600 window and the
  `at_exit` hook that including `Gosu::Zen` installs.

Some consequences of the code are worth stating outright:

- `GpButton0` normalises to `gp_button_0`. The `[[:alpha:]]`/`\d` alternative of
  `NAME_RX` puts a separator before every digit that follows a letter
  (`ExampleGamepadButton`).
- The exit hook is installed only when a script includes `Gosu::Zen`, once per
  include. When no exception is pending it calls `run!`, which it reaches only
  if `Gosu::Zen` was included at top level, into `Object`. The bare `private`
  at lib/gosu/zen.rb:154 ends `module_function`, so `run!` is not a method of
  the `Zen` module itself, and an include anywhere else makes the hook raise
  NoMethodError. The hook does not check whether the window was already shown.
- Every registration method passes its block on even when the caller gave none.
  Without a block, `define_singleton_method` raises `ArgumentError` and nothing
  is defined (`DefineBody`).
- `close` sets the phase to teardown and does not call `on_teardown`. `show` calls
  it once after the host loop returns, so there is no double teardown
  (`ShowTeardownOnce`). If the loop raises, `show` propagates the exception and
  skips both the phase change and `on_teardown`.
- Ids and names are not forced to be unique. A later constant with the same id or
  the same name overwrites the earlier entry in that map. `BuildById` and
  `BuildByName` state this "last one wins" rule. Lookup by id and lookup by name
  are proved to agree for constants that no later constant overwrites
  (`LookupByIdAndNameAgree`).

## Model

| member | source | states |
|---|---|---|
| ButtonNames.ToLower | lib/gosu/zen/button.rb:59 | downcasing gives no capital, keeps the letter/digit class of the character, and changes only capitals |
| ButtonNames.Lower | lib/gosu/zen/button.rb:59 | `downcase` keeps the length and downcases every character in place |
| ButtonNames.IsBoundary | lib/gosu/zen/button.rb:51-54 | the regex matches between two characters only before a capital or a digit; before a capital exactly when an alphanumeric precedes, before a digit exactly when a letter precedes |
| ButtonNames.BreakAt | lib/gosu/zen/button.rb:51-54 | a match position is never at either end of the name, sits before a capital or a digit, and follows the two alternatives of the regex |
| ButtonNames.Separate | lib/gosu/zen/button.rb:51-59 | the substituted name is longer by exactly the number of regex matches and keeps the first and last character |
| ButtonNames.SeparatePlacesEveryChar | lib/gosu/zen/button.rb:51-59 | each original character lands at a fixed position; neighbours are one apart unless the regex matches between them, and then the one slot between holds `_`; positions run from 0 to the last index |
| ButtonNames.Normalize | lib/gosu/zen/button.rb:59 | the symbol name has no capital, is longer by the number of matches, and starts with the downcased first character |
| ButtonNames.NormalizeInsertsExactlyAtBreaks | lib/gosu/zen/button.rb:51-59 | `_` is inserted exactly where an alphanumeric precedes a capital or a letter precedes a digit, and the downcased originals fill every other slot in order |
| ButtonNames.NormalizeOnlyInsertsSeparators | lib/gosu/zen/button.rb:59 | deleting the underscores from the symbol name gives the downcased constant name (with its own underscores deleted) |
| ButtonNames.NormalizeHasNoBreaks | lib/gosu/zen/button.rb:51-59 | a symbol name has no position where the regex would match again |
| ButtonNames.NormalizeIdempotent | lib/gosu/zen/button.rb:51-59 | normalising a symbol name again leaves it unchanged |
| ButtonNames.IsButtonConstant | lib/gosu/zen/button.rb:83 | a name passes the filter exactly when its first two characters are `Gp`, `Kb` or `Ms`, so an admitted name starts with a capital followed by a lower-case letter |
| ButtonNames.DeviceOf | lib/gosu/zen/button.rb:61-65 | the device is gamepad, keyboard or mouse exactly for the prefixes `Gp`, `Kb`, `Ms`, and nil exactly when the registry's filter rejects the name |
| ButtonNames.DownMethodName | lib/gosu/zen/button.rb:67 | the down handler name starts with `on_button_down_` and the button name can be read back off its end |
| ButtonNames.UpMethodName | lib/gosu/zen/button.rb:68 | the up handler name starts with `on_button_up_` and the button name can be read back off its end |
| ButtonNames.HandlerNamesDistinct | lib/gosu/zen/button.rb:67-68 | two names have equal handler names if and only if they are equal, and a down name never equals an up name |
| ButtonNames.ExampleLeftShift | lib/gosu/zen/button.rb:51-65 | `KbLeftShift` becomes `kb_left_shift` on a keyboard |
| ButtonNames.ExampleGamepadButton | lib/gosu/zen/button.rb:51-65 | `GpButton0` becomes `gp_button_0` on a gamepad |
| Buttons.NewButton | lib/gosu/zen/button.rb:57-69 | a descriptor has the constant's value as id, a device exactly for the three prefixes, and a symbol name with no capital, longer by the number of matches, that with underscores deleted is the downcased constant name |
| Buttons.NewButtonValid | lib/gosu/zen/button.rb:57-65 | a constant admitted by the prefix filter gives a descriptor with a device, and its symbol name starts with the matching lower-case prefix |
| Buttons.Lookup | lib/gosu/zen/button.rb:40-46 | a Button key returns itself, an integer key consults the id map, a symbol key consults the name map, and every other key or a missing entry gives nil |
| Buttons.Register | lib/gosu/zen/button.rb:85-86 | after an insertion both maps return the new button for its name and id; every other entry is unchanged |
| Buttons.Build | lib/gosu/zen/button.rb:83-87 | every entry in the built registry is keyed by its own id or name, and every descriptor has a device that agrees with its name |
| Buttons.BuildById | lib/gosu/zen/button.rb:83-87 | an id is in the id map if and only if an admitted constant has that value, and it maps to the last such constant's descriptor |
| Buttons.BuildByName | lib/gosu/zen/button.rb:83-87 | a name is in the name map if and only if an admitted constant normalises to it, and it maps to the last such constant's descriptor |
| Buttons.OnlyPrefixedRegistered | lib/gosu/zen/button.rb:83 | a constant without one of the three prefixes is not found by its id, unless an admitted constant shares that id |
| Buttons.LookupByIdAndNameAgree | lib/gosu/zen/button.rb:83-87 | for a constant no later one overwrites, lookup by its id and lookup by its name return the same descriptor |
| Callbacks.Call | lib/gosu/zen.rb:18-23 | calling a built-in method makes one call with the given argument; it runs the registered block, or the no-op when none is registered |
| Callbacks.CallIfDefined | lib/gosu/zen/window.rb:31 | a per-button method is called once if it has been defined and is otherwise not called at all |
| Callbacks.Define | lib/gosu/zen.rb:73 | defining a method sets exactly that entry; every other entry is unchanged |
| Callbacks.ButtonMethodsAreNotLifecycle | lib/gosu/zen/button.rb:67-68 | no per-button handler name is `on_setup`, `on_teardown`, `on_update` or `on_draw` |
| Callbacks.ButtonMethodsAreNotFixed | lib/gosu/zen/button.rb:67-68 | a registered button's handler names are none of the six built-in methods, including the two catch-alls |
| Windows.NewWindow | lib/gosu/zen/window.rb:7-14 | a new window has no phase yet, shows the cursor, and keeps its constructor arguments |
| Windows.UpdateStep | lib/gosu/zen/window.rb:45-54 | in phase setup a tick calls `on_setup` then `on_update` and moves to update; in phase update it calls only `on_update`; before show or in teardown it calls nothing; no tick raises |
| Windows.DrawStep | lib/gosu/zen/window.rb:56-58 | draw calls `on_draw` in every phase and changes nothing |
| Windows.CloseStep | lib/gosu/zen/window.rb:23-26 | close moves to teardown, calls nothing, and changes nothing else |
| Windows.ButtonDownStep | lib/gosu/zen/window.rb:28-36 | a known id calls the button's own down method (if defined) and then `on_button_down_any`, each with the button; an unknown id prints the id and raises |
| Windows.ButtonUpStep | lib/gosu/zen/window.rb:38-43 | a known id calls the button's own up method (if defined) and then `on_button_up_any`, each with the button; an unknown id raises without printing |
| Windows.Dispatch | lib/gosu/zen/window.rb:23-58 | only a tick in phase setup calls `on_setup`; only a tick in setup or update calls `on_update`; no event calls `on_teardown`; a tick moves setup to update and otherwise leaves the window alone; close sets teardown; draw, press and release leave the window unchanged; an event raises exactly when it is a press or release of an unknown id |
| Windows.Continue | lib/gosu/zen/window.rb:18 | once an event has raised, later events do nothing; every call runs what the table holds |
| Windows.ContinueExtends | lib/gosu/zen/window.rb:18 | one more event only appends to the calls and output so far |
| Windows.RunEvents | lib/gosu/zen/window.rb:18 | the host loop calls only registered blocks or defaults, never calls `on_teardown`, stays in teardown once there, and prints only when it raises |
| Windows.Show | lib/gosu/zen/window.rb:16-21 | after show returns normally the phase is teardown and the last call is `on_teardown`; only the phase of the window changes |
| Windows.RunEventsSetupBudget | lib/gosu/zen/window.rb:45-53 | `on_setup` calls so far, plus one while still in phase setup, never exceed one from a setup start and are zero from any other start |
| Windows.ShowSetupAtMostOnce | lib/gosu/zen/window.rb:45-53 | one `show` calls `on_setup` at most once |
| Windows.ShowTeardownOnce | lib/gosu/zen/window.rb:16-26 | `on_teardown` runs exactly once when the loop returns normally and never when it raised |
| Windows.TeardownIsIdle | lib/gosu/zen/window.rb:46-53 | in phase teardown no event calls `on_setup` or `on_update`, and the phase stays teardown |
| Windows.CloseSilencesTicks | lib/gosu/zen/window.rb:23-26 | events after a close add no `on_setup` and no `on_update` call |
| Windows.QuietEvents | lib/gosu/zen/window.rb:28-43 | draws and presses or releases of known buttons leave the window as it was, raise nothing, and call neither `on_setup` nor `on_update` |
| Windows.ShowFirstTick | lib/gosu/zen/window.rb:45-50 | when the first tick of a show comes after only draws and known presses or releases, it calls `on_setup` and then `on_update`, no `on_update` comes earlier, and `on_setup` runs only that once |
| Windows.NeedsCursor | lib/gosu/zen/window.rb:12-14 | `needs_cursor?` answers the window's flag: true after construction (`NewWindow`), the value last written (`SetNeedsCursor`), unchanged by a show (`CursorFlagKept`) |
| Windows.SetNeedsCursor | lib/gosu/zen/window.rb:5 | after the writer, `needs_cursor?` answers the value written; nothing else changes |
| Windows.CursorFlagKept | lib/gosu/zen/window.rb:12-14 | a whole show never changes what `needs_cursor?` answers |
| Windows.ShowWithoutRegistrations | lib/gosu/zen.rb:18-23 | with an empty table a whole show runs no user code |
| Zen.CreateWindow | lib/gosu/zen.rb:44-52 | with no window, creates one with the given size and options, caption and cursor flag (default false); with a window, raises the "already created" error |
| Zen.DefineBody | lib/gosu/zen.rb:73 | with a block, overwrites that one method and nothing else; without one, raises the `ArgumentError` of `define_singleton_method` |
| Zen.DefineSetup | lib/gosu/zen.rb:72-74 | with a block, overwrites `on_setup` and nothing else; without one, raises |
| Zen.DefineTeardown | lib/gosu/zen.rb:81-83 | with a block, overwrites `on_teardown` and nothing else; without one, raises |
| Zen.DefineUpdate | lib/gosu/zen.rb:128-130 | with a block, overwrites `on_update` and nothing else; without one, raises |
| Zen.DefineDraw | lib/gosu/zen.rb:140-142 | with a block, overwrites `on_draw` and nothing else; without one, raises |
| Zen.DefineButtonDown | lib/gosu/zen.rb:98-101 | a nil or false key overwrites `on_button_down_any`; a known key overwrites that button's down method; an unknown key raises `NoMethodError` whether or not a block was given; a missing block otherwise raises `ArgumentError`; nothing else changes |
| Zen.DefineButtonUp | lib/gosu/zen.rb:116-119 | a nil or false key overwrites `on_button_up_any`; a known key overwrites that button's up method; an unknown key raises `NoMethodError` whether or not a block was given; a missing block otherwise raises `ArgumentError`; nothing else changes |
| Zen.RunWindow | lib/gosu/zen.rb:157 | the window `run!` shows is the existing one, or else the one `window 800, 600` creates |
| Zen.Run | lib/gosu/zen.rb:156-159 | makes a default 800×600 window only if none exists (else keeps the existing one), then shows it: its calls, output, exception and final window are exactly those of `show` over the host's events; every call runs what the table holds, `on_setup` runs at most once, and a normal return leaves the phase at teardown with exactly one `on_teardown`, as the last call; after a raise there is none |
| Zen.RunFirstTick | lib/gosu/zen.rb:156-159 | a `run!` whose first tick follows only draws and known presses or releases calls `on_setup` and then `on_update` at that tick, with no earlier `on_update` and no second `on_setup` |
| Zen.AtExit | lib/gosu/zen.rb:154-163 | with an exception pending the hook does nothing; otherwise, after a top-level include it runs `run!`, so a window exists afterwards and a clean exit leaves it in teardown, and after any other include it raises NoMethodError for `run!` and changes nothing |
| Zen.WindowAtMostOnce | lib/gosu/zen.rb:44-52 | a second `window` call after a successful first one always raises |
| Zen.LastRegistrationWins | lib/gosu/zen.rb:128-130 | registering twice for a slot equals registering only the second block |
| Zen.ButtonRegistrationKeepsFixedSlots | lib/gosu/zen.rb:98-101 | registering for a known button leaves all six built-in methods as they were |
| Zen.RegisterThenPress | lib/gosu/zen/window.rb:28-32 | after registering a block for a button, pressing it calls that block once with the button and then the catch-all |
| Zen.RegisterByNameThenPress | lib/gosu/zen.rb:98-101 | a block registered by symbol name runs when the host reports that button's id, for a constant no later one overwrites |
| Zen.QuietExit | lib/gosu/zen.rb:161-163 | with nothing registered the exit hook's run calls only defaults; with an exception pending the world is untouched |

## Left out

- Character classes are ASCII. Ruby's `[[:upper:]]`, `[[:alpha:]]` and `[[:alnum:]]` and `downcase` are Unicode-aware. The host's constant names are ASCII.
- The host library is not modelled: its main loop, the internals of `Window#show` and `Window#close`, and how `Gosu.constants` is enumerated. The loop is a list of events, and the constants are a list of (name, integer value) pairs.
- Blocks never act on the window. A block that closes the window, as a `button_down` block may, is modelled by a `Close` event right after the event that ran it; that gives the same trace. The exception is a `setup` block that closes: `close` sets the phase to teardown (lib/gosu/zen/window.rb:25), and line 49 then sets it back to update, so the program ends that tick in phase update. The model can only place the `Close` after the tick, which gives teardown.
- Ruby reflection is not modelled: `define_singleton_method`, `respond_to?`, `send` and `instance_exec`. The table maps a method name to an opaque block. A block never raises and never registers further blocks while running. In particular, `define_singleton_method` gives the defined method strict, lambda-style arity, so a per-button block written without its `|button|` parameter raises ArgumentError at `send(m, button)` (lib/gosu/zen/window.rb:31), and `button_down` then prints the id and re-raises; the model does not cover this.
- `helpers` (lib/gosu/zen.rb:148-150) is left out: it hands the block to `instance_exec` as an ordinary argument, not as a block, so `instance_exec` has nothing to run and every call raises `LocalJumpError`.
- `assets` (lib/gosu/zen.rb:61-65) and lib/gosu/zen/assets.rb are left out: they expand filesystem paths and call host asset constructors.
- lib/gosu/zen/drawing.rb is left out: it only delegates float-coordinate drawing and transforms to the host.
- lib/gosu/zen/input.rb is left out: it only delegates mouse and button state. Its `button_down?` names an undefined `what` (line 24), so every call raises NameError.
- `Button#down?` and `Button#to_s` are left out: they delegate to the host window or return the name.
- A Float key to `Button[]` is modelled as `KOther`. Such a key is Numeric, but a Float never matches an Integer hash key, so the lookup gives nil either way.
- `Zen.AtExit`: the model covers a single installed hook that runs once; whether the include was at top level is a parameter. `at_exit` is called only from `Zen.included` (lib/gosu/zen.rb:161-163): a script that only requires the file gets no hook, and one that includes `Gosu::Zen` twice gets two, so `run!` runs twice and the second shows the existing window again.
- `Windows.NeedsCursor`: the cursor flag is a boolean. Ruby's `!!` coercion of non-boolean values is not modelled.
- `Windows.NewWindow`: the update interval (a Float, default `16.666666`) is a `real`. It is only passed through to the host, so no floating-point rounding is modelled.
- `Windows.NewWindow`: the caption before `window` assigns one belongs to the host and is taken to be empty.
- Exceptions raised inside user blocks are not modelled. This includes `button_down` printing the id for such an exception before re-raising it.
