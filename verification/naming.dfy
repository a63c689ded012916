/**
  Button constant names: the `NAME_RX` substitution and `downcase` that turn a
  host constant such as `KbLeftShift` into the symbol `kb_left_shift`, the
  two-letter device prefix, and the per-button handler names.
 */
module ButtonNames {
  import opened Wrappers

  // ---------------------------------------------------------------------------
  // Character classes (ASCII reading of [[:upper:]], [[:alpha:]], [[:alnum:]], \d)
  // ---------------------------------------------------------------------------

  predicate IsUpper(c: char) { 'A' <= c <= 'Z' }
  predicate IsLower(c: char) { 'a' <= c <= 'z' }
  predicate IsDigit(c: char) { '0' <= c <= '9' }
  predicate IsAlpha(c: char) { IsUpper(c) || IsLower(c) }
  predicate IsAlnum(c: char) { IsAlpha(c) || IsDigit(c) }

  /** `String#downcase` on one character. */
  function ToLower(c: char): (r: char)
    ensures !IsUpper(r)
    ensures IsAlpha(r) == IsAlpha(c) && IsDigit(r) == IsDigit(c)
    ensures IsUpper(c) ==> IsLower(r) && r as int - c as int == 'a' as int - 'A' as int
    ensures !IsUpper(c) ==> r == c
  {
    if IsUpper(c) then (c as int - 'A' as int + 'a' as int) as char else c
  }

  /** `String#downcase`. */
  function Lower(s: string): (r: string)
    ensures |r| == |s|
    ensures forall i :: 0 <= i < |r| ==> r[i] == ToLower(s[i])
  {
    seq(|s|, i requires 0 <= i < |s| => ToLower(s[i]))
  }

  ghost predicate NoUpper(s: string) {
    forall i :: 0 <= i < |s| ==> !IsUpper(s[i])
  }

  lemma LowerAppend(a: string, b: string)
    ensures Lower(a + b) == Lower(a) + Lower(b)
  {
  }

  lemma LowerOfNoUpper(s: string)
    requires NoUpper(s)
    ensures Lower(s) == s
  {
  }

  // ---------------------------------------------------------------------------
  // NAME_RX: a zero-width match between two characters of the ORIGINAL name
  // ---------------------------------------------------------------------------

  /**
    The regular expression matches the empty string between `prev` and `next`
    when `prev` is alphanumeric and `next` upper-case, or `prev` is alphabetic
    and `next` a digit.
   */
  function IsBoundary(prev: char, next: char): (b: bool)
    ensures b ==> IsAlnum(prev) && (IsUpper(next) || IsDigit(next))
    ensures IsUpper(next) ==> (b <==> IsAlnum(prev))
    ensures IsDigit(next) ==> (b <==> IsAlpha(prev))
    ensures !IsUpper(next) && !IsDigit(next) ==> !b
  {
    (IsAlnum(prev) && IsUpper(next)) || (IsAlpha(prev) && IsDigit(next))
  }

  /** The regex matches in front of `s[i]`; never at either end of `s`. */
  function BreakAt(s: string, i: int): (b: bool)
    ensures i <= 0 || |s| <= i ==> !b
    ensures b ==> IsUpper(s[i]) || IsDigit(s[i])
    ensures 0 < i < |s| && IsUpper(s[i]) ==> (b <==> IsAlnum(s[i - 1]))
    ensures 0 < i < |s| && IsDigit(s[i]) ==> (b <==> IsAlpha(s[i - 1]))
  {
    0 < i < |s| && IsBoundary(s[i - 1], s[i])
  }

  /** Number of positions at which the regex matches in `s`. */
  function Breaks(s: string): nat
  {
    if |s| <= 1 then 0
    else Breaks(s[..|s| - 1]) + (if BreakAt(s, |s| - 1) then 1 else 0)
  }

  /** Where `s[i]` lands once the separators in front of it are inserted. */
  function Pos(s: string, i: nat): nat
    requires i < |s|
  {
    i + Breaks(s[..i + 1])
  }

  /** `gsub(NAME_RX, '_')`: an underscore at every match, nothing else changed. */
  function Separate(s: string): (r: string)
    ensures |r| == |s| + Breaks(s)
    ensures |s| > 0 ==> r[0] == s[0] && r[|r| - 1] == s[|s| - 1]
  {
    if |s| == 0 then ""
    else Separate(s[..|s| - 1]) + (if BreakAt(s, |s| - 1) then "_" else "") + [s[|s| - 1]]
  }

  /** The symbol name of a host constant: `gsub(NAME_RX, '_').downcase`. */
  function Normalize(s: string): (r: string)
    ensures |r| == |s| + Breaks(s)
    ensures NoUpper(r)
    ensures |s| > 0 ==> r[0] == ToLower(s[0])
  {
    Lower(Separate(s))
  }

  lemma {:induction false} SeparateSnoc(s: string, c: char)
    ensures Separate(s + [c]) == Separate(s) + (if |s| > 0 && IsBoundary(s[|s| - 1], c) then "_" else "") + [c]
  {
    var t := s + [c];
    assert t[..|t| - 1] == s;
  }

  lemma NormalizeSnoc(s: string)
    requires |s| > 0
    ensures Normalize(s) == Normalize(s[..|s| - 1]) + (if BreakAt(s, |s| - 1) then "_" else "") + [ToLower(s[|s| - 1])]
  {
    var mid: string := if BreakAt(s, |s| - 1) then "_" else "";
    LowerAppend(Separate(s[..|s| - 1]) + mid, [s[|s| - 1]]);
    LowerAppend(Separate(s[..|s| - 1]), mid);
  }

  // ---------------------------------------------------------------------------
  // Where the separators go
  // ---------------------------------------------------------------------------

  lemma {:induction false} SeparatePrefix(s: string, k: nat)
    requires k <= |s|
    ensures Separate(s[..k]) <= Separate(s)
    decreases |s|
  {
    if k < |s| {
      var init := s[..|s| - 1];
      assert s[..k] == init[..k];
      SeparatePrefix(init, k);
    } else {
      assert s[..k] == s;
    }
  }

  /**
    The separated name is fully described by the original: every `s[i]` sits
    at `Pos(s, i)`, consecutive characters are one apart unless the regex
    matches between them, in which case the single slot between holds `_`.
   */
  lemma {:induction false} SeparatePlacesEveryChar(s: string)
    ensures forall i :: 0 <= i < |s| ==> Pos(s, i) < |Separate(s)|
    ensures forall i :: 0 <= i < |s| ==> Separate(s)[Pos(s, i)] == s[i]
    ensures forall i :: 0 < i < |s| && BreakAt(s, i) ==> Separate(s)[Pos(s, i) - 1] == '_'
    ensures forall i :: 0 < i < |s| ==> Pos(s, i) == Pos(s, i - 1) + 1 + (if BreakAt(s, i) then 1 else 0)
    ensures |s| > 0 ==> Pos(s, 0) == 0 && Pos(s, |s| - 1) == |Separate(s)| - 1
  {
    forall i | 0 <= i < |s|
      ensures Pos(s, i) < |Separate(s)|
      ensures Separate(s)[Pos(s, i)] == s[i]
      ensures 0 < i && BreakAt(s, i) ==> Separate(s)[Pos(s, i) - 1] == '_'
      ensures 0 < i ==> Pos(s, i) == Pos(s, i - 1) + 1 + (if BreakAt(s, i) then 1 else 0)
    {
      var q := s[..i + 1];
      SeparatePrefix(s, i + 1);
      assert q[i] == s[i];
      assert |Separate(q)| == Pos(s, i) + 1;
      if 0 < i {
        assert q[..i] == s[..i];
        assert BreakAt(q, i) == BreakAt(s, i);
        assert Separate(q) == Separate(s[..i]) + (if BreakAt(s, i) then "_" else "") + [s[i]];
      }
    }
    if |s| > 0 {
      assert s[..|s|] == s;
    }
  }

  // ---------------------------------------------------------------------------
  // Only underscores are inserted
  // ---------------------------------------------------------------------------

  /** Deletes every `_`. */
  function Strip(s: string): (r: string)
    ensures '_' !in r
    ensures |r| <= |s|
  {
    if |s| == 0 then ""
    else Strip(s[..|s| - 1]) + (if s[|s| - 1] == '_' then "" else [s[|s| - 1]])
  }

  lemma {:induction false} StripAppend(a: string, b: string)
    ensures Strip(a + b) == Strip(a) + Strip(b)
    decreases |b|
  {
    if |b| == 0 {
      assert a + b == a;
    } else {
      var b' := b[..|b| - 1];
      assert (a + b)[..|a + b| - 1] == a + b';
      StripAppend(a, b');
    }
  }

  lemma {:induction false} StripNoUnderscore(s: string)
    requires '_' !in s
    ensures Strip(s) == s
    decreases |s|
  {
    if |s| > 0 {
      assert s == s[..|s| - 1] + [s[|s| - 1]];
      StripNoUnderscore(s[..|s| - 1]);
    }
  }

  /**
    Deleting the underscores from the symbol name gives the downcased
    constant name with its own underscores deleted: normalisation adds
    separators and changes case, nothing more.
   */
  lemma {:induction false} NormalizeOnlyInsertsSeparators(s: string)
    ensures Strip(Normalize(s)) == Strip(Lower(s))
    ensures '_' !in s ==> Strip(Normalize(s)) == Lower(s)
    decreases |s|
  {
    StripNormalize(s);
    if '_' !in s {
      assert '_' !in Lower(s);
      StripNoUnderscore(Lower(s));
    }
  }

  /** Stripping a name grown by an optional separator and one character. */
  /** A trailing separator disappears under `Strip`. */
  lemma StripUnderscore(x: string)
    ensures Strip(x + "_") == Strip(x)
  {
    assert (x + "_")[..|x|] == x;
  }

  lemma StripSnoc(x: string, mid: string, c: char)
    requires mid == "" || mid == "_"
    ensures Strip(x + mid + [c]) == Strip(x) + Strip([c])
  {
    if mid == "" {
      assert x + mid + [c] == x + [c];
      StripAppend(x, [c]);
    } else {
      StripAppend(x + mid, [c]);
      StripUnderscore(x);
    }
  }

  /** `Lower` of a non-empty string, one character at the end. */
  lemma LowerSnoc(s: string)
    requires |s| > 0
    ensures Lower(s) == Lower(s[..|s| - 1]) + [ToLower(s[|s| - 1])]
  {
    assert s == s[..|s| - 1] + [s[|s| - 1]];
    LowerAppend(s[..|s| - 1], [s[|s| - 1]]);
  }

  /** Stripped, one step of `Normalize` adds only the lowered last character. */
  lemma StripNormalizeSnoc(s: string)
    requires |s| > 0
    ensures Strip(Normalize(s)) == Strip(Normalize(s[..|s| - 1])) + Strip([ToLower(s[|s| - 1])])
  {
    NormalizeSnoc(s);
    StripSnoc(Normalize(s[..|s| - 1]), if BreakAt(s, |s| - 1) then "_" else "", ToLower(s[|s| - 1]));
  }

  lemma {:induction false} StripNormalize(s: string)
    ensures Strip(Normalize(s)) == Strip(Lower(s))
    decreases |s|
  {
    if |s| > 0 {
      var init := s[..|s| - 1];
      StripNormalize(init);
      LowerSnoc(s);
      StripNormalizeSnoc(s);
      StripAppend(Lower(init), [ToLower(s[|s| - 1])]);
    }
  }

  // ---------------------------------------------------------------------------
  // Idempotence
  // ---------------------------------------------------------------------------

  /** No position of `s` where the regex would match. */
  ghost predicate NoBreaks(s: string) {
    forall i :: 0 < i < |s| ==> !BreakAt(s, i)
  }

  lemma NoBreaksSnoc(a: string, x: char)
    requires NoBreaks(a)
    requires |a| > 0 ==> !IsBoundary(a[|a| - 1], x)
    ensures NoBreaks(a + [x])
  {
    var t := a + [x];
    forall i | 0 < i < |t|
      ensures !BreakAt(t, i)
    {
      if i < |a| {
        assert !BreakAt(a, i);
      }
    }
  }

  lemma {:induction false} SeparateNoBreaks(t: string)
    requires NoBreaks(t)
    ensures Separate(t) == t
    decreases |t|
  {
    if |t| > 0 {
      var init := t[..|t| - 1];
      assert NoBreaks(init) by {
        forall i | 0 < i < |init|
          ensures !BreakAt(init, i)
        {
          assert init[i - 1] == t[i - 1] && init[i] == t[i];
          assert !BreakAt(t, i);
        }
      }
      SeparateNoBreaks(init);
      assert !BreakAt(t, |t| - 1);
      assert t[..|t| - 1] == init;
      assert Separate(t) == Separate(init) + [t[|t| - 1]];
      assert t == init + [t[|t| - 1]];
    }
  }

  /** A symbol name contains no capital and no letter directly before a digit. */
  lemma {:induction false} NormalizeHasNoBreaks(s: string)
    ensures NoBreaks(Normalize(s))
    decreases |s|
  {
    if |s| > 0 {
      var init := s[..|s| - 1];
      var c := s[|s| - 1];
      var head := Normalize(init);
      NormalizeHasNoBreaks(init);
      LowerAppend(Separate(init) + (if BreakAt(s, |s| - 1) then "_" else ""), [c]);
      LowerAppend(Separate(init), if BreakAt(s, |s| - 1) then "_" else "");
      if BreakAt(s, |s| - 1) {
        assert Normalize(s) == head + ['_'] + [ToLower(c)];
        NoBreaksSnoc(head, '_');
        NoBreaksSnoc(head + ['_'], ToLower(c));
      } else {
        assert Normalize(s) == head + [ToLower(c)];
        if |init| > 0 {
          assert head[|head| - 1] == ToLower(init[|init| - 1]);
          assert !IsBoundary(s[|s| - 2], c);
        }
        NoBreaksSnoc(head, ToLower(c));
      }
    }
  }

  /** Normalising a symbol name again leaves it unchanged. */
  lemma NormalizeIdempotent(s: string)
    ensures Normalize(Normalize(s)) == Normalize(s)
  {
    var n := Normalize(s);
    NormalizeHasNoBreaks(s);
    SeparateNoBreaks(n);
    LowerOfNoUpper(n);
  }

  /**
    The placement facts of `SeparatePlacesEveryChar`, read after downcasing:
    the symbol name holds the downcased `s[i]` at `Pos(s, i)` and `_` exactly
    in the extra slots in front of each regex match.
   */
  lemma NormalizeInsertsExactlyAtBreaks(s: string)
    ensures forall i :: 0 <= i < |s| ==> Pos(s, i) < |Normalize(s)|
    ensures forall i :: 0 <= i < |s| ==> Normalize(s)[Pos(s, i)] == ToLower(s[i])
    ensures forall i :: 0 < i < |s| && BreakAt(s, i) ==> Normalize(s)[Pos(s, i) - 1] == '_'
    ensures forall i :: 0 < i < |s| ==> Pos(s, i) == Pos(s, i - 1) + 1 + (if BreakAt(s, i) then 1 else 0)
    ensures |s| > 0 ==> Pos(s, 0) == 0 && Pos(s, |s| - 1) == |Normalize(s)| - 1
  {
    SeparatePlacesEveryChar(s);
  }

  /** Two characters with no match between them are left as they are. */
  lemma SeparateOfTwo(a: char, b: char)
    requires !IsBoundary(a, b)
    ensures Separate([a, b]) == [a, b]
  {
    assert [a, b][..1] == [a];
    assert [a][..0] == [];
  }

  /** A name opening with a capital and a lower-case letter keeps them, downcased. */
  lemma NormalizeFirstTwo(s: string)
    requires |s| >= 2 && IsUpper(s[0]) && IsLower(s[1])
    ensures Normalize(s)[..2] == [ToLower(s[0]), ToLower(s[1])]
  {
    assert Separate(s)[..2] == s[..2] by {
      assert s[..2] == [s[0], s[1]];
      SeparateOfTwo(s[0], s[1]);
      SeparatePrefix(s, 2);
    }
  }

  // ---------------------------------------------------------------------------
  // Device type and handler names
  // ---------------------------------------------------------------------------

  datatype Device = Gamepad | Keyboard | Mouse

  predicate HasPrefix(s: string, p: string) {
    |p| <= |s| && s[..|p|] == p
  }

  /** The registry's filter `/^(?:Gp|Kb|Ms)/`. */
  function IsButtonConstant(c: string): (b: bool)
    ensures b ==> |c| >= 2 && IsUpper(c[0]) && IsLower(c[1])
    ensures b <==> |c| >= 2 && c[..2] in ["Gp", "Kb", "Ms"]
  {
    HasPrefix(c, "Gp") || HasPrefix(c, "Kb") || HasPrefix(c, "Ms")
  }

  /** The `case` on the constant name; no `else`, so other prefixes give nil. */
  function DeviceOf(c: string): (r: Option<Device>)
    ensures r == Some(Gamepad) <==> HasPrefix(c, "Gp")
    ensures r == Some(Keyboard) <==> HasPrefix(c, "Kb")
    ensures r == Some(Mouse) <==> HasPrefix(c, "Ms")
    ensures r.None? <==> !IsButtonConstant(c)
  {
    if HasPrefix(c, "Gp") then Some(Gamepad)
    else if HasPrefix(c, "Kb") then Some(Keyboard)
    else if HasPrefix(c, "Ms") then Some(Mouse)
    else None
  }

  const DownPrefix: string := "on_button_down_"
  const UpPrefix: string := "on_button_up_"

  /** `:"on_button_down_#{name}"`; the name can be read back off the end. */
  function DownMethodName(name: string): (r: string)
    ensures HasPrefix(r, DownPrefix) && r[|DownPrefix|..] == name
  {
    DownPrefix + name
  }

  /** `:"on_button_up_#{name}"`; the name can be read back off the end. */
  function UpMethodName(name: string): (r: string)
    ensures HasPrefix(r, UpPrefix) && r[|UpPrefix|..] == name
  {
    UpPrefix + name
  }

  /** Distinct names give distinct handler names; down and up never meet. */
  lemma HandlerNamesDistinct(a: string, b: string)
    ensures DownMethodName(a) == DownMethodName(b) <==> a == b
    ensures UpMethodName(a) == UpMethodName(b) <==> a == b
    ensures DownMethodName(a) != UpMethodName(b)
  {
    var da, db := DownMethodName(a), DownMethodName(b);
    var ua, ub := UpMethodName(a), UpMethodName(b);
    assert da[|DownPrefix|..] == a && db[|DownPrefix|..] == b;
    assert ua[|UpPrefix|..] == a && ub[|UpPrefix|..] == b;
    assert da[10] == 'd' && ub[10] == 'u';
  }

  // Worked examples from the host's constant set.

  lemma {:induction false} SeparateNoBreak(s: string, c: char, r: string)
    requires Separate(s) == r && |s| > 0 && !IsBoundary(s[|s| - 1], c)
    ensures Separate(s + [c]) == r + [c]
  {
    SeparateSnoc(s, c);
  }

  lemma {:induction false} SeparateBreak(s: string, c: char, r: string)
    requires Separate(s) == r && |s| > 0 && IsBoundary(s[|s| - 1], c)
    ensures Separate(s + [c]) == r + ['_', c]
  {
    SeparateSnoc(s, c);
  }

  lemma SeparateKbLeft()
    ensures Separate("KbLeft") == "Kb_Left"
  {
    SeparateSnoc("", 'K');
    assert "" + ['K'] == "K";
    SeparateNoBreak("K", 'b', "K");
    assert "K" + ['b'] == "Kb";
    SeparateBreak("Kb", 'L', "Kb");
    assert "Kb" + ['_', 'L'] == "Kb_L";
    assert "Kb" + ['L'] == "KbL";
    SeparateNoBreak("KbL", 'e', "Kb_L");
    assert "Kb_L" + ['e'] == "Kb_Le";
    assert "KbL" + ['e'] == "KbLe";
    SeparateNoBreak("KbLe", 'f', "Kb_Le");
    assert "Kb_Le" + ['f'] == "Kb_Lef";
    assert "KbLe" + ['f'] == "KbLef";
    SeparateNoBreak("KbLef", 't', "Kb_Lef");
    assert "Kb_Lef" + ['t'] == "Kb_Left";
    assert "KbLef" + ['t'] == "KbLeft";
  }

  lemma SeparateKbLeftShift()
    ensures Separate("KbLeftShift") == "Kb_Left_Shift"
  {
    SeparateKbLeft();
    SeparateBreak("KbLeft", 'S', "Kb_Left");
    assert "Kb_Left" + ['_', 'S'] == "Kb_Left_S";
    assert "KbLeft" + ['S'] == "KbLeftS";
    SeparateNoBreak("KbLeftS", 'h', "Kb_Left_S");
    assert "Kb_Left_S" + ['h'] == "Kb_Left_Sh";
    assert "KbLeftS" + ['h'] == "KbLeftSh";
    SeparateNoBreak("KbLeftSh", 'i', "Kb_Left_Sh");
    assert "Kb_Left_Sh" + ['i'] == "Kb_Left_Shi";
    assert "KbLeftSh" + ['i'] == "KbLeftShi";
    SeparateNoBreak("KbLeftShi", 'f', "Kb_Left_Shi");
    assert "Kb_Left_Shi" + ['f'] == "Kb_Left_Shif";
    assert "KbLeftShi" + ['f'] == "KbLeftShif";
    SeparateNoBreak("KbLeftShif", 't', "Kb_Left_Shif");
    assert "Kb_Left_Shif" + ['t'] == "Kb_Left_Shift";
    assert "KbLeftShif" + ['t'] == "KbLeftShift";
  }

  lemma ExampleLeftShift()
    ensures Normalize("KbLeftShift") == "kb_left_shift"
    ensures DeviceOf("KbLeftShift") == Some(Keyboard)
  {
    SeparateKbLeftShift();
    assert "KbLeftShift"[..2] == "Kb";
  }

  lemma SeparateGpBu()
    ensures Separate("GpBu") == "Gp_Bu"
  {
    SeparateSnoc("", 'G');
    assert "" + ['G'] == "G";
    SeparateNoBreak("G", 'p', "G");
    assert "G" + ['p'] == "Gp";
    SeparateBreak("Gp", 'B', "Gp");
    assert "Gp" + ['_', 'B'] == "Gp_B";
    assert "Gp" + ['B'] == "GpB";
    SeparateNoBreak("GpB", 'u', "Gp_B");
    assert "Gp_B" + ['u'] == "Gp_Bu";
    assert "GpB" + ['u'] == "GpBu";
  }

  lemma SeparateGpButton()
    ensures Separate("GpButton") == "Gp_Button"
  {
    SeparateGpBu();
    SeparateNoBreak("GpBu", 't', "Gp_Bu");
    assert "Gp_Bu" + ['t'] == "Gp_But";
    assert "GpBu" + ['t'] == "GpBut";
    SeparateNoBreak("GpBut", 't', "Gp_But");
    assert "Gp_But" + ['t'] == "Gp_Butt";
    assert "GpBut" + ['t'] == "GpButt";
    SeparateNoBreak("GpButt", 'o', "Gp_Butt");
    assert "Gp_Butt" + ['o'] == "Gp_Butto";
    assert "GpButt" + ['o'] == "GpButto";
    SeparateNoBreak("GpButto", 'n', "Gp_Butto");
    assert "Gp_Butto" + ['n'] == "Gp_Button";
    assert "GpButto" + ['n'] == "GpButton";
  }

  lemma ExampleGamepadButton()
    ensures Normalize("GpButton0") == "gp_button_0"
    ensures DeviceOf("GpButton0") == Some(Gamepad)
  {
    SeparateGpButton();
    SeparateBreak("GpButton", '0', "Gp_Button");
    assert "Gp_Button" + ['_', '0'] == "Gp_Button_0";
    assert "GpButton" + ['0'] == "GpButton0";
    assert "GpButton0"[..2] == "Gp";
  }
}
