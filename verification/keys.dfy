/** Keyboard keys and the key-to-character tables of the client
    (Game/Client/Input/KeyMap.cs). Keys are the numeric values of the XNA
    `Keys` enumeration, which are the Windows virtual-key codes. Characters
    are Unicode scalar values. A dictionary is modelled as its lookup: a
    function from a key to the character stored under it, if any. */
module Keys {
  import opened Wrappers

  type Key = int

  const None: Key := 0
  const Back: Key := 8
  const Space: Key := 32
  const Left: Key := 37
  const Up: Key := 38
  const Right: Key := 39
  const Down: Key := 40
  const Delete: Key := 46
  const D0: Key := 48
  const D9: Key := 57
  const A: Key := 65
  const Z: Key := 90
  const NumPad0: Key := 96
  const NumPad9: Key := 105
  const OemSemicolon: Key := 186
  const OemTilde: Key := 192
  const OemOpenBrackets: Key := 219
  const OemQuotes: Key := 222

  /** A dictionary from keys to characters, as its lookup. */
  type Table = Key -> Option<char>

  /** The two dictionaries: characters without and with caps. */
  datatype KeyTables = KeyTables(normal: Table, caps: Table)

  const EmptyTables := KeyTables(_ => Option.None, _ => Option.None)

  /** `addSimpleMap`: one key, the same character in both tables; an earlier
      entry for the key is overwritten. */
  function AddSimpleMap(t: KeyTables, k: Key, c: char): (r: KeyTables)
    ensures r.normal(k) == r.caps(k) == Some(c)
    ensures forall j :: j != k ==> r.normal(j) == t.normal(j) && r.caps(j) == t.caps(j)
  {
    KeyTables(j => if j == k then Some(c) else t.normal(j), j => if j == k then Some(c) else t.caps(j))
  }

  /** `addSequentialMap`: keys `from..to` map to consecutive characters
      starting at `cFrom` (normal) and `cFromCaps` (caps). The characters
      stay below the surrogate range, so the C# `char` cast is exact. */
  function AddSequentialMap(t: KeyTables, from: Key, to: Key, cFrom: char, cFromCaps: char): (r: KeyTables)
    requires cFrom as int + (to - from) < 0xD800 && cFromCaps as int + (to - from) < 0xD800
    ensures forall i :: from <= i <= to ==>
      r.normal(i) == Some((i - from + cFrom as int) as char) && r.caps(i) == Some((i - from + cFromCaps as int) as char)
    ensures forall i :: !(from <= i <= to) ==> r.normal(i) == t.normal(i) && r.caps(i) == t.caps(i)
  {
    KeyTables(
      i => if from <= i <= to then Some((i - from + cFrom as int) as char) else t.normal(i),
      i => if from <= i <= to then Some((i - from + cFromCaps as int) as char) else t.caps(i))
  }

  /** `addCustomMap`: keys `from..to` map to the characters of `sNormal` and
      `sCaps` in order. The two strings must have the same length; a range
      longer than them runs off their end, and the string indexer throws
      `IndexOutOfRangeException`. */
  function AddCustomMap(t: KeyTables, from: Key, to: Key, sNormal: string, sCaps: string): (r: Result<KeyTables>)
    requires |sNormal| == |sCaps|
    ensures r.Failure? <==> to - from >= |sNormal|
    ensures r.Failure? ==> r.error == IndexOutOfRange
    ensures r.Success? ==> forall i :: from <= i <= to ==>
      r.value.normal(i) == Some(sNormal[i - from]) && r.value.caps(i) == Some(sCaps[i - from])
    ensures r.Success? ==> forall i :: !(from <= i <= to) ==>
      r.value.normal(i) == t.normal(i) && r.value.caps(i) == t.caps(i)
  {
    if to - from >= |sNormal| then Failure(IndexOutOfRange)
    else Success(KeyTables(
      i => if from <= i <= to then Some(sNormal[i - from]) else t.normal(i),
      i => if from <= i <= to then Some(sCaps[i - from]) else t.caps(i)))
  }

  /** The tables the static constructor builds, step by step. */
  function SimpleStep(): KeyTables { AddSimpleMap(AddSimpleMap(EmptyTables, Space, ' '), Back, '\U{8}') }
  function LetterStep(): KeyTables { AddSequentialMap(SimpleStep(), A, Z, 'a', 'A') }
  function NumPadStep(): KeyTables { AddSequentialMap(LetterStep(), NumPad0, NumPad9, '0', '0') }
  function DigitStep(): KeyTables { AddCustomMap(NumPadStep(), D0, D9, "0123456789", ")!@#$%^&*(").value }
  function PunctuationStep(): KeyTables { AddCustomMap(DigitStep(), OemSemicolon, OemTilde, ";=,-./`", ":+<_>?~").value }
  function Tables(): KeyTables {
    AddCustomMap(PunctuationStep(), OemOpenBrackets, OemQuotes, "[\\]'", "{|}\"").value
  }

  /** `GetChar`: the character of a key from the caps or the normal table,
      `None` for a key with no character. */
  function GetChar(k: Key, isCaps: bool): Option<char> {
    if isCaps then Tables().caps(k) else Tables().normal(k)
  }

  /** Space and backspace type themselves with or without caps, and keys
      with no entry (`None`, the arrow keys, `Delete`) have no character. */
  lemma SimpleKeys()
    ensures GetChar(Space, false) == GetChar(Space, true) == Some(' ')
    ensures GetChar(Back, false) == GetChar(Back, true) == Some('\U{8}')
    ensures forall isCaps ::
      GetChar(None, isCaps).None? && GetChar(Delete, isCaps).None?
      && GetChar(Left, isCaps).None? && GetChar(Right, isCaps).None?
      && GetChar(Up, isCaps).None? && GetChar(Down, isCaps).None?
  {
  }

  /** Letters type lower case normally and upper case with caps; the number
      pad types digits either way. */
  lemma LetterAndNumPadKeys(k: Key)
    ensures A <= k <= Z ==>
      GetChar(k, false) == Some((k - A + 'a' as int) as char)
      && GetChar(k, true) == Some((k - A + 'A' as int) as char)
    ensures NumPad0 <= k <= NumPad9 ==>
      GetChar(k, false) == GetChar(k, true) == Some((k - NumPad0 + '0' as int) as char)
  {
  }

  /** The digit row types digits normally and their shifted symbols with
      caps. */
  lemma DigitRowKeys(k: Key)
    requires D0 <= k <= D9
    ensures GetChar(k, false) == Some("0123456789"[k - D0])
    ensures GetChar(k, true) == Some(")!@#$%^&*("[k - D0])
  {
  }

  /** Every key with a character has one with and without caps, and the
      keys with characters are exactly the seven mapped ranges. */
  lemma MappedKeys(k: Key)
    ensures GetChar(k, false).Some? <==> GetChar(k, true).Some?
    ensures GetChar(k, false).Some? <==>
      k == Space || k == Back || A <= k <= Z || NumPad0 <= k <= NumPad9 || D0 <= k <= D9
      || OemSemicolon <= k <= OemTilde || OemOpenBrackets <= k <= OemQuotes
  {
  }
}
