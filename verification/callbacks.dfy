/**
  The game context's callback table. Registering a block defines a singleton
  method on the game object; here that is a map from method name to an
  opaque block. The six methods the game class defines itself are no-ops
  until overwritten; per-button methods exist only once registered.
 */
module Callbacks {
  import opened Wrappers
  import opened ButtonNames
  import opened Buttons

  /** A user block; the model never looks inside it. */
  datatype Handler = Block(tag: nat)

  /** Method name to the block defined under it. */
  type Table = map<string, Handler>

  const SetupSlot: string := "on_setup"
  const TeardownSlot: string := "on_teardown"
  const DownAnySlot: string := "on_button_down_any"
  const UpAnySlot: string := "on_button_up_any"
  const UpdateSlot: string := "on_update"
  const DrawSlot: string := "on_draw"

  /** The methods the game class defines with empty bodies. */
  const FixedSlots: set<string> := {SetupSlot, TeardownSlot, DownAnySlot, UpAnySlot, UpdateSlot, DrawSlot}

  /**
    One method call on the game object: the method name, the user block that
    ran (`None` when the class's own no-op ran) and the button argument.
   */
  datatype Invocation = Invocation(handler: string, block: Option<Handler>, arg: Option<Button>)

  function Registered(t: Table, name: string): Option<Handler> {
    if name in t then Some(t[name]) else None
  }

  /** Every invocation ran exactly what the table holds under its name. */
  ghost predicate Faithful(calls: seq<Invocation>, t: Table) {
    forall k :: 0 <= k < |calls| ==> calls[k].block == Registered(t, calls[k].handler)
  }

  /** No user block ran. */
  ghost predicate NoUserCode(calls: seq<Invocation>) {
    forall k :: 0 <= k < |calls| ==> calls[k].block.None?
  }

  /** The method names, in call order. */
  function Handlers(calls: seq<Invocation>): (r: seq<string>)
    ensures |r| == |calls|
    ensures forall k :: 0 <= k < |r| ==> r[k] == calls[k].handler
  {
    seq(|calls|, k requires 0 <= k < |calls| => calls[k].handler)
  }

  /** How many of `calls` went to method `name`. */
  function Count(calls: seq<Invocation>, name: string): (r: nat)
    ensures r <= |calls|
    ensures r == 0 <==> forall k :: 0 <= k < |calls| ==> calls[k].handler != name
  {
    if |calls| == 0 then 0
    else Count(calls[..|calls| - 1], name) + (if calls[|calls| - 1].handler == name then 1 else 0)
  }

  lemma {:induction false} CountAppend(a: seq<Invocation>, b: seq<Invocation>, name: string)
    ensures Count(a + b, name) == Count(a, name) + Count(b, name)
    decreases |b|
  {
    if |b| > 0 {
      assert (a + b)[..|a + b| - 1] == a + b[..|b| - 1];
      CountAppend(a, b[..|b| - 1], name);
    } else {
      assert a + b == a;
    }
  }

  lemma FaithfulAppend(a: seq<Invocation>, b: seq<Invocation>, t: Table)
    requires Faithful(a, t) && Faithful(b, t)
    ensures Faithful(a + b, t)
  {
    forall k | 0 <= k < |a + b|
      ensures (a + b)[k].block == Registered(t, (a + b)[k].handler)
    {
      if k >= |a| {
        assert (a + b)[k] == b[k - |a|];
      }
    }
  }

  /** A per-button method name is never one of the four lifecycle slots. */
  lemma ButtonMethodsAreNotLifecycle(name: string)
    ensures DownMethodName(name) !in {SetupSlot, TeardownSlot, UpdateSlot, DrawSlot}
    ensures UpMethodName(name) !in {SetupSlot, TeardownSlot, UpdateSlot, DrawSlot}
  {
    assert DownMethodName(name)[3] == 'b' && UpMethodName(name)[3] == 'b';
  }

  /**
    Calling a method the game class always defines: the user's block if one
    was registered under `name`, else the built-in no-op.
   */
  function Call(t: Table, name: string, arg: Option<Button>): (r: seq<Invocation>)
    requires name in FixedSlots
    ensures |r| == 1 && r[0].handler == name && r[0].arg == arg
    ensures Faithful(r, t)
    ensures name !in t ==> NoUserCode(r)
  {
    [Invocation(name, Registered(t, name), arg)]
  }

  /** `send(m, button) if respond_to?(m)`: nothing at all when `m` was never defined. */
  function CallIfDefined(t: Table, name: string, arg: Option<Button>): (r: seq<Invocation>)
    ensures |r| == 1 <==> name in t
    ensures |r| <= 1
    ensures forall k :: 0 <= k < |r| ==> r[k].handler == name && r[k].arg == arg
    ensures Faithful(r, t)
  {
    if name in t then [Invocation(name, Some(t[name]), arg)] else []
  }

  /** `define_singleton_method name, &block`: the last definition wins. */
  function Define(t: Table, name: string, h: Handler): (r: Table)
    ensures r.Keys == t.Keys + {name}
    ensures r[name] == h
    ensures forall n :: n in t && n != name ==> r[n] == t[n]
  {
    t[name := h]
  }

  /**
    A valid button's handler names are never one of the class's own methods,
    so registering for a button never overwrites a fixed slot, and a button
    event never runs the catch-all twice.
   */
  lemma ButtonMethodsAreNotFixed(b: Button)
    requires ValidButton(b)
    ensures b.DownMethod() !in FixedSlots
    ensures b.UpMethod() !in FixedSlots
  {
    var d, u := b.DownMethod(), b.UpMethod();
    assert d[3] == 'b' && u[3] == 'b';
    assert b.name != "any" by {
      assert b.name[0] in "gkm";
    }
    assert d[|DownPrefix|..] == b.name;
    assert u[|UpPrefix|..] == b.name;
    assert DownAnySlot[|DownPrefix|..] == "any";
    assert UpAnySlot[|UpPrefix|..] == "any";
    if d == UpAnySlot {
      HandlerNamesDistinct(b.name, "any");
    }
    if u == DownAnySlot {
      HandlerNamesDistinct("any", b.name);
    }
  }
}
