/**
  Button descriptors and the process-wide registry built from the host's
  input constants: two maps, by id and by symbol name, both pointing at the
  same descriptor, and the polymorphic `Button[key]` lookup.
 */
module Buttons {
  import opened Wrappers
  import opened ButtonNames

  /** A descriptor: platform id, symbol name and device type. */
  datatype Button = Button(id: int, name: string, device: Option<Device>) {

    /** Name of the game method a press of this button is sent to. */
    function DownMethod(): string {
      DownMethodName(name)
    }

    /** Name of the game method a release of this button is sent to. */
    function UpMethod(): string {
      UpMethodName(name)
    }
  }

  /** One entry of the host's constant table: its name and its value. */
  datatype HostConstant = HostConstant(name: string, value: int)

  /** The argument of `Button[key]`, by Ruby class. */
  datatype Key =
    | KNil                   // nil
    | KFalse                 // false
    | KButton(button: Button) // a Button
    | KInt(n: int)           // an Integer (Numeric)
    | KSymbol(sym: string)   // a Symbol
    | KOther                 // a String, Float or any other object

  /** The registry's two hashes. */
  datatype Registry = Registry(byName: map<string, Button>, byId: map<int, Button>)

  const EmptyRegistry := Registry(map[], map[])

  /**
    `Button.new const, id`: the id is the constant's value, the symbol name is
    the constant name with separators inserted and downcased, and a device is
    set exactly for the three prefixes.
   */
  function NewButton(c: HostConstant): (r: Button)
    ensures r.id == c.value
    ensures r.device.Some? <==> IsButtonConstant(c.name)
    ensures |r.name| == |c.name| + Breaks(c.name) && NoUpper(r.name)
    ensures Strip(r.name) == Strip(Lower(c.name))
  {
    NormalizeOnlyInsertsSeparators(c.name);
    Button(c.value, Normalize(c.name), DeviceOf(c.name))
  }

  /** The device type agrees with the first two letters of the symbol name. */
  predicate DevicePrefix(d: Device, name: string) {
    match d
    case Gamepad => HasPrefix(name, "gp")
    case Keyboard => HasPrefix(name, "kb")
    case Mouse => HasPrefix(name, "ms")
  }

  /** What every registered descriptor looks like. */
  predicate ValidButton(b: Button) {
    b.device.Some? && DevicePrefix(b.device.value, b.name)
  }

  /** Every constant the registry's filter admits gives a valid descriptor. */
  lemma NewButtonValid(c: HostConstant)
    requires IsButtonConstant(c.name)
    ensures ValidButton(NewButton(c))
  {
    var s := c.name;
    NormalizeFirstTwo(s);
    var n := Normalize(s);
    assert NewButton(c).name == n && NewButton(c).device == DeviceOf(s);
    if HasPrefix(s, "Gp") {
      assert s[0] == 'G' && s[1] == 'p';
      assert HasPrefix(n, "gp");
    } else if HasPrefix(s, "Kb") {
      assert s[0] == 'K' && s[1] == 'b';
      assert HasPrefix(n, "kb");
    } else {
      assert s[0] == 'M' && s[1] == 's';
      assert HasPrefix(n, "ms");
    }
  }

  /** `Button.[]`: a `case` on the key's class with no `else`. */
  function Lookup(reg: Registry, key: Key): (r: Option<Button>)
    ensures key.KButton? ==> r == Some(key.button)
    ensures key.KInt? ==> (r.Some? <==> key.n in reg.byId) && (r.Some? ==> r.value == reg.byId[key.n])
    ensures key.KSymbol? ==> (r.Some? <==> key.sym in reg.byName) && (r.Some? ==> r.value == reg.byName[key.sym])
    ensures key.KNil? || key.KFalse? || key.KOther? ==> r.None?
  {
    match key
    case KButton(b) => Some(b)
    case KInt(n) => if n in reg.byId then Some(reg.byId[n]) else None
    case KSymbol(s) => if s in reg.byName then Some(reg.byName[s]) else None
    case _ => None
  }

  /** Both maps point at `b` afterwards; every other entry is left alone. */
  function Register(reg: Registry, b: Button): (r: Registry)
    ensures r.byName.Keys == reg.byName.Keys + {b.name}
    ensures r.byId.Keys == reg.byId.Keys + {b.id}
    ensures r.byName[b.name] == b && r.byId[b.id] == b
    ensures forall n :: n in reg.byName && n != b.name ==> r.byName[n] == reg.byName[n]
    ensures forall x :: x in reg.byId && x != b.id ==> r.byId[x] == reg.byId[x]
  {
    Registry(reg.byName[b.name := b], reg.byId[b.id := b])
  }

  /** Each map is keyed by its values' own field, and every value is valid. */
  ghost predicate WellFormed(reg: Registry) {
    && (forall x :: x in reg.byId ==> reg.byId[x].id == x && ValidButton(reg.byId[x]))
    && (forall n :: n in reg.byName ==> reg.byName[n].name == n && ValidButton(reg.byName[n]))
  }

  /** The constant at index `i` is registered by the filter. */
  predicate Admitted(cs: seq<HostConstant>, i: int) {
    0 <= i < |cs| && IsButtonConstant(cs[i].name)
  }

  /** The loop over `Gosu.constants.grep(/^(?:Gp|Kb|Ms)/)`. */
  function Build(cs: seq<HostConstant>): (r: Registry)
    ensures WellFormed(r)
  {
    if |cs| == 0 then EmptyRegistry
    else
      var prev := Build(cs[..|cs| - 1]);
      var c := cs[|cs| - 1];
      if IsButtonConstant(c.name) then
        NewButtonValid(c);
        Register(prev, NewButton(c))
      else prev
  }

  /** `i` is the last admitted constant whose value is `x`. */
  ghost predicate LastWithId(cs: seq<HostConstant>, i: int, x: int) {
    && Admitted(cs, i) && cs[i].value == x
    && forall j :: i < j < |cs| && Admitted(cs, j) ==> cs[j].value != x
  }

  /** `i` is the last admitted constant whose symbol name is `n`. */
  ghost predicate LastWithName(cs: seq<HostConstant>, i: int, n: string) {
    && Admitted(cs, i) && Normalize(cs[i].name) == n
    && forall j :: i < j < |cs| && Admitted(cs, j) ==> Normalize(cs[j].name) != n
  }

  /** One step of the registry-building loop. */
  lemma BuildSnoc(cs: seq<HostConstant>)
    requires |cs| > 0
    ensures Build(cs) == if Admitted(cs, |cs| - 1)
                         then Register(Build(cs[..|cs| - 1]), NewButton(cs[|cs| - 1]))
                         else Build(cs[..|cs| - 1])
  {
  }

  lemma {:induction false} BuildIdKeys(cs: seq<HostConstant>, x: int)
    ensures x in Build(cs).byId <==> exists i :: Admitted(cs, i) && cs[i].value == x
    decreases |cs|
  {
    if |cs| > 0 {
      var init := cs[..|cs| - 1];
      BuildIdKeys(init, x);
      BuildSnoc(cs);
      assert forall i :: Admitted(init, i) ==> Admitted(cs, i) && init[i] == cs[i];
      if !(Admitted(cs, |cs| - 1) && cs[|cs| - 1].value == x) {
        assert (exists i :: Admitted(cs, i) && cs[i].value == x) ==> (exists i :: Admitted(init, i) && init[i].value == x) by {
          if i :| Admitted(cs, i) && cs[i].value == x {
            assert Admitted(init, i) && init[i].value == x;
          }
        }
      }
    }
  }

  lemma {:induction false} BuildIdLast(cs: seq<HostConstant>, i: int, x: int)
    requires LastWithId(cs, i, x)
    ensures x in Build(cs).byId && Build(cs).byId[x] == NewButton(cs[i])
    decreases |cs|
  {
    var init := cs[..|cs| - 1];
    BuildSnoc(cs);
    if i < |cs| - 1 {
      assert LastWithId(init, i, x);
      BuildIdLast(init, i, x);
    }
  }

  /** The constant at `i` is admitted and its symbol name is `n`. */
  ghost predicate NamedAt(cs: seq<HostConstant>, i: int, n: string) {
    Admitted(cs, i) && Normalize(cs[i].name) == n
  }

  /** Dropping the last constant loses no name unless that constant carried it. */
  lemma NamedAtSnoc(cs: seq<HostConstant>, init: seq<HostConstant>, n: string)
    requires |cs| > 0 && init == cs[..|cs| - 1] && !NamedAt(cs, |cs| - 1, n)
    ensures (exists i :: NamedAt(cs, i, n)) <==> (exists i :: NamedAt(init, i, n))
  {
    if i :| NamedAt(cs, i, n) {
      assert NamedAt(init, i, n);
    }
    if i :| NamedAt(init, i, n) {
      assert init[i] == cs[i];
      assert NamedAt(cs, i, n);
    }
  }

  lemma {:induction false} BuildNameKeys(cs: seq<HostConstant>, n: string)
    ensures n in Build(cs).byName <==> exists i :: NamedAt(cs, i, n)
    decreases |cs|
  {
    if |cs| > 0 {
      var last := |cs| - 1;
      BuildNameKeys(cs[..last], n);
      BuildSnoc(cs);
      if NamedAt(cs, last, n) {
        assert NewButton(cs[last]).name == n;
      } else {
        if Admitted(cs, last) {
          assert NewButton(cs[last]).name != n;
        }
        NamedAtSnoc(cs, cs[..last], n);
      }
    }
  }

  lemma {:induction false} BuildNameLast(cs: seq<HostConstant>, i: int, n: string)
    requires LastWithName(cs, i, n)
    ensures n in Build(cs).byName && Build(cs).byName[n] == NewButton(cs[i])
    decreases |cs|
  {
    var init := cs[..|cs| - 1];
    BuildSnoc(cs);
    if i < |cs| - 1 {
      assert LastWithName(init, i, n);
      BuildNameLast(init, i, n);
    }
  }

  /**
    The id map holds exactly the values of admitted constants, and for each
    one the descriptor of the last admitted constant with that value: a later
    duplicate overwrites an earlier one.
   */
  lemma BuildById(cs: seq<HostConstant>, x: int)
    ensures x in Build(cs).byId <==> exists i :: Admitted(cs, i) && cs[i].value == x
    ensures forall i :: LastWithId(cs, i, x) ==> x in Build(cs).byId && Build(cs).byId[x] == NewButton(cs[i])
  {
    BuildIdKeys(cs, x);
    forall i | LastWithId(cs, i, x)
      ensures x in Build(cs).byId && Build(cs).byId[x] == NewButton(cs[i])
    {
      BuildIdLast(cs, i, x);
    }
  }

  /** The name map, likewise, keeps the last admitted constant per symbol name. */
  lemma BuildByName(cs: seq<HostConstant>, n: string)
    ensures n in Build(cs).byName <==> exists i :: NamedAt(cs, i, n)
    ensures forall i :: LastWithName(cs, i, n) ==> n in Build(cs).byName && Build(cs).byName[n] == NewButton(cs[i])
  {
    BuildNameKeys(cs, n);
    forall i | LastWithName(cs, i, n)
      ensures n in Build(cs).byName && Build(cs).byName[n] == NewButton(cs[i])
    {
      BuildNameLast(cs, i, n);
    }
  }

  /** Constants outside the three prefixes never reach the registry. */
  lemma OnlyPrefixedRegistered(cs: seq<HostConstant>, i: int)
    requires 0 <= i < |cs| && !IsButtonConstant(cs[i].name)
    requires forall j :: Admitted(cs, j) ==> cs[j].value != cs[i].value
    ensures Lookup(Build(cs), KInt(cs[i].value)).None?
  {
    BuildById(cs, cs[i].value);
  }

  /**
    For a constant that no later admitted constant overwrites, by id or by
    name, both lookups give the same descriptor.
   */
  lemma LookupByIdAndNameAgree(cs: seq<HostConstant>, i: int)
    requires 0 <= i < |cs|
    requires LastWithId(cs, i, cs[i].value)
    requires LastWithName(cs, i, Normalize(cs[i].name))
    ensures Lookup(Build(cs), KInt(cs[i].value)) == Some(NewButton(cs[i]))
    ensures Lookup(Build(cs), KSymbol(NewButton(cs[i]).name)) == Some(NewButton(cs[i]))
  {
    BuildById(cs, cs[i].value);
    BuildByName(cs, Normalize(cs[i].name));
  }
}
