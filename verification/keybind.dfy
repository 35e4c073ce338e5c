/** Keybinds of the client (Game/Client/Input/Keybind.cs): a main key with
    zero or more modifier keys, and their two renderings. */
module Keybinds {
  import opened Wrappers
  import opened Keys

  /** The flags of the `ModifierKeys` enumeration, in increasing flag value
      (Alt = 1, Control = 2, Shift = 4, Windows = 8). A flags value is the
      set of flags it holds; `ModifierKeys.None` is the empty set. */
  datatype Modifier = Alt | Control | Shift | Windows

  datatype Keybind = Keybind(modifiers: set<Modifier>, key: Key)

  /** The one-argument constructor, which is also the implicit conversion
      from a key: no modifiers. */
  function FromKey(k: Key): (r: Keybind)
    ensures r.modifiers == {} && r.key == k
  {
    Keybind({}, k)
  }

  /** The modifier letters of the short string: C, A, S in that fixed order
      for the modifiers present. `Windows` has no letter. */
  function ShortPrefix(m: set<Modifier>): (r: string)
    ensures forall i :: 0 <= i < |r| ==> r[i] in "CAS"
    ensures 'C' in r <==> Control in m
    ensures 'A' in r <==> Alt in m
    ensures 'S' in r <==> Shift in m
  {
    (if Control in m then "C" else "") + (if Alt in m then "A" else "") + (if Shift in m then "S" else "")
  }

  /** The character shown for the main key: its character without caps, or
      '?' when it has none. */
  function KeyGlyph(k: Key): (c: char)
    ensures GetChar(k, false).Some? ==> c == GetChar(k, false).value
    ensures GetChar(k, false).None? ==> c == '?'
  {
    match GetChar(k, false)
    case Some(c) => c
    case None => '?'
  }

  /** `ToShortString`: "N/A" for no key, otherwise the modifier letters and
      then the key's character. */
  function ToShortString(b: Keybind): (r: string)
    ensures b.key == Keys.None ==> r == "N/A"
    ensures b.key != Keys.None ==> 1 <= |r| <= 4 && r[|r| - 1] == KeyGlyph(b.key)
    ensures b.key != Keys.None ==> r[..|r| - 1] == ShortPrefix(b.modifiers)
  {
    if b.key == Keys.None then "N/A"
    else ShortPrefix(b.modifiers) + [KeyGlyph(b.key)]
  }

  /** Only the empty key renders as "N/A": a key with a character or '?'
      after at most three of C, A, S never spells it. */
  lemma {:induction false} NotApplicableOnlyForNone(b: Keybind)
    ensures ToShortString(b) == "N/A" <==> b.key == Keys.None
  {
    var r := ToShortString(b);
    if b.key != Keys.None && |r| == 3 {
      var p := ShortPrefix(b.modifiers);
      assert p == r[..2];
      assert p[0] in "CAS";
    }
  }

  /** Reading a short string back: it gives back which of Control, Alt and
      Shift are held and the key's character. */
  lemma {:induction false} ShortStringDecodes(a: Keybind, b: Keybind)
    requires a.key != Keys.None && b.key != Keys.None
    requires ToShortString(a) == ToShortString(b)
    ensures KeyGlyph(a.key) == KeyGlyph(b.key)
    ensures Control in a.modifiers <==> Control in b.modifiers
    ensures Alt in a.modifiers <==> Alt in b.modifiers
    ensures Shift in a.modifiers <==> Shift in b.modifiers
  {
    var r := ToShortString(a);
    var pa, pb := ShortPrefix(a.modifiers), ShortPrefix(b.modifiers);
    assert pa == r[..|r| - 1] == pb;
  }

  /** The short string does not show the Windows modifier. */
  lemma ShortStringIgnoresWindows(b: Keybind)
    ensures ToShortString(Keybind(b.modifiers + {Windows}, b.key)) == ToShortString(Keybind(b.modifiers - {Windows}, b.key))
  {
    var m1, m2 := b.modifiers + {Windows}, b.modifiers - {Windows};
    assert (Control in m1 <==> Control in m2) && (Alt in m1 <==> Alt in m2) && (Shift in m1 <==> Shift in m2);
    assert ShortPrefix(m1) == ShortPrefix(m2);
  }

  /** The name of each flag, and its capital initial. */
  function Name(md: Modifier): string {
    match md
    case Alt => "Alt"
    case Control => "Control"
    case Shift => "Shift"
    case Windows => "Windows"
  }

  function Initial(md: Modifier): char {
    match md
    case Alt => 'A'
    case Control => 'C'
    case Shift => 'S'
    case Windows => 'W'
  }

  /** The names of the held flags, as `Enum.ToString` writes a flags value:
      in increasing flag value. */
  function FlagNames(m: set<Modifier>): (r: seq<string>)
    ensures forall md :: Name(md) in r <==> md in m
    ensures forall i :: 0 <= i < |r| ==> exists md :: r[i] == Name(md)
  {
    (if Alt in m then [Name(Alt)] else []) + (if Control in m then [Name(Control)] else [])
    + (if Shift in m then [Name(Shift)] else []) + (if Windows in m then [Name(Windows)] else [])
  }

  /** The names joined by ", ". */
  function Join(names: seq<string>): (r: string)
    ensures forall c :: c != ',' && c != ' ' ==> (c in r <==> exists i :: 0 <= i < |names| && c in names[i])
  {
    if |names| == 0 then ""
    else if |names| == 1 then names[0]
    else
      var rest := Join(names[1..]);
      assert forall i :: 0 < i < |names| ==> names[i] == names[1..][i - 1];
      names[0] + ", " + rest
  }

  /** The name of a flags value with at least one flag. */
  function ModifiersName(m: set<Modifier>): string
  {
    Join(FlagNames(m))
  }

  /** A flag's capital initial occurs in its own name and in no other
      flag's name. */
  lemma InitialIsOwn(md: Modifier, other: Modifier)
    ensures Initial(md) in Name(other) <==> md == other
    ensures '+' !in Name(other) && ',' !in Name(other) && ' ' !in Name(other)
  {
  }

  /** So the name of a flags value tells which flags it holds. */
  lemma {:induction false} ModifiersNameMentions(m: set<Modifier>, md: Modifier)
    ensures Initial(md) in ModifiersName(m) <==> md in m
  {
    var ns := FlagNames(m);
    if md in m {
      var i :| 0 <= i < |ns| && ns[i] == Name(md);
      InitialIsOwn(md, md);
    } else {
      forall i | 0 <= i < |ns| ensures Initial(md) !in ns[i] {
        var other :| ns[i] == Name(other);
        InitialIsOwn(md, other);
      }
    }
  }

  /** Distinct flag values have distinct names. */
  lemma {:induction false} ModifiersNameInjective(m1: set<Modifier>, m2: set<Modifier>)
    requires ModifiersName(m1) == ModifiersName(m2)
    ensures m1 == m2
  {
    forall md: Modifier ensures md in m1 <==> md in m2 {
      ModifiersNameMentions(m1, md);
      ModifiersNameMentions(m2, md);
    }
  }

  /** `ToString`: "N/A" for no key, "Mods+Key" with modifiers, the bare key
      name otherwise. `keyName` is the name of a `Keys` value. */
  function ToString(b: Keybind, keyName: Key -> string): (r: string)
    ensures b.key == Keys.None ==> r == "N/A"
    ensures b.key != Keys.None && b.modifiers == {} ==> r == keyName(b.key)
    ensures b.key != Keys.None && b.modifiers != {} ==>
      r == ModifiersName(b.modifiers) + "+" + keyName(b.key)
  {
    if b.key == Keys.None then "N/A"
    else if b.modifiers != {} then ModifiersName(b.modifiers) + "+" + keyName(b.key)
    else keyName(b.key)
  }

  /** When key names contain no '+', the long string of a keybind with
      modifiers gives back its modifiers and its key name. */
  lemma {:induction false} ToStringDecodes(a: Keybind, b: Keybind, keyName: Key -> string)
    requires forall k :: '+' !in keyName(k)
    requires a.key != Keys.None && b.key != Keys.None && a.modifiers != {} && b.modifiers != {}
    requires ToString(a, keyName) == ToString(b, keyName)
    ensures a.modifiers == b.modifiers && keyName(a.key) == keyName(b.key)
  {
    var na, nb := ModifiersName(a.modifiers), ModifiersName(b.modifiers);
    var r := ToString(a, keyName);
    NameHasNoPlus(a.modifiers);
    NameHasNoPlus(b.modifiers);
    PlusSplit(na, keyName(a.key), nb, keyName(b.key));
    ModifiersNameInjective(a.modifiers, b.modifiers);
  }

  lemma NameHasNoPlus(m: set<Modifier>)
    ensures '+' !in ModifiersName(m)
  {
    var ns := FlagNames(m);
    forall i | 0 <= i < |ns| ensures '+' !in ns[i] {
      var md :| ns[i] == Name(md);
      InitialIsOwn(md, md);
    }
  }

  /** Two strings split at their only '+' agree on both halves. */
  lemma {:induction false} PlusSplit(x1: string, y1: string, x2: string, y2: string)
    requires '+' !in x1 && '+' !in y1 && '+' !in x2 && '+' !in y2
    requires x1 + "+" + y1 == x2 + "+" + y2
    ensures x1 == x2 && y1 == y2
  {
    var s := x1 + "+" + y1;
    assert s[|x1|] == '+';
    assert s[|x2|] == '+';
    assert |x1| == |x2|;
    assert x1 == s[..|x1|] == x2;
    assert y1 == s[|x1| + 1..] == y2;
  }

  /** `==` compares key and modifiers; `!=` is its negation. */
  function Eq(a: Keybind, b: Keybind): (r: bool)
    ensures r <==> a == b
  {
    a.key == b.key && a.modifiers == b.modifiers
  }

  function Neq(a: Keybind, b: Keybind): (r: bool)
    ensures r <==> a != b
  {
    !Eq(a, b)
  }
}
