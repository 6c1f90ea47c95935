/**
 * The lookup tables of mitsi.py and its raising reverse lookup.
 *
 * Each table maps a symbol (a string, or a temperature in half units) to the
 * byte the heat pump uses for it on the wire.
 */
module Tables {
  import opened Wrappers
  import opened Dicts
  import opened Device

  /** `LookupDict.lookup`: the first key whose code is `c`. Indexing the empty
      comprehension raises IndexError when no key has that code. */
  function Lookup(t: Table, c: int): Result<Value, Error> {
    if |KeysWithCode(t, c)| > 0 then Ok(KeysWithCode(t, c)[0]) else Err(IndexError)
  }

  /** The reverse lookup succeeds exactly when some entry has code `c`, and
      then yields the key of the first such entry; it fails with IndexError. */
  lemma LookupMeaning(t: Table, c: int)
    ensures Lookup(t, c).Ok? <==> exists i :: 0 <= i < |t| && t[i].code == c
    ensures Lookup(t, c).Err? ==> Lookup(t, c).error == IndexError
    ensures Lookup(t, c).Ok? ==> exists i :: 0 <= i < |t| && t[i] == Entry(Lookup(t, c).value, c) &&
                                            forall j :: 0 <= j < i ==> t[j].code != c
  {
  }


  const PowerTable: Table := [Entry(Str("OFF"), 0x00), Entry(Str("ON"), 0x01)]

  /** Whole degrees 31 down to 16 (keys in half units) take the codes 0x00 up to 0x0F. */
  const TempTable: Table := [
    Entry(Num(62), 0x00), Entry(Num(60), 0x01), Entry(Num(58), 0x02), Entry(Num(56), 0x03),
    Entry(Num(54), 0x04), Entry(Num(52), 0x05), Entry(Num(50), 0x06), Entry(Num(48), 0x07),
    Entry(Num(46), 0x08), Entry(Num(44), 0x09), Entry(Num(42), 0x0a), Entry(Num(40), 0x0b),
    Entry(Num(38), 0x0c), Entry(Num(36), 0x0d), Entry(Num(34), 0x0e), Entry(Num(32), 0x0f)]

  /** Room temperatures 10 up to 41 (keys in half units) take the codes 0x00 up to 0x1F. */
  const RoomTempTable: Table := [
    Entry(Num(20), 0x00), Entry(Num(22), 0x01), Entry(Num(24), 0x02), Entry(Num(26), 0x03),
    Entry(Num(28), 0x04), Entry(Num(30), 0x05), Entry(Num(32), 0x06), Entry(Num(34), 0x07),
    Entry(Num(36), 0x08), Entry(Num(38), 0x09), Entry(Num(40), 0x0a), Entry(Num(42), 0x0b),
    Entry(Num(44), 0x0c), Entry(Num(46), 0x0d), Entry(Num(48), 0x0e), Entry(Num(50), 0x0f),
    Entry(Num(52), 0x10), Entry(Num(54), 0x11), Entry(Num(56), 0x12), Entry(Num(58), 0x13),
    Entry(Num(60), 0x14), Entry(Num(62), 0x15), Entry(Num(64), 0x16), Entry(Num(66), 0x17),
    Entry(Num(68), 0x18), Entry(Num(70), 0x19), Entry(Num(72), 0x1a), Entry(Num(74), 0x1b),
    Entry(Num(76), 0x1c), Entry(Num(78), 0x1d), Entry(Num(80), 0x1e), Entry(Num(82), 0x1f)]

  const ModeTable: Table := [
    Entry(Str("HEAT"), 0x01), Entry(Str("DRY"), 0x02), Entry(Str("COOL"), 0x03),
    Entry(Str("FAN"), 0x07), Entry(Str("AUTO"), 0x08)]

  const VaneTable: Table := [
    Entry(Str("AUTO"), 0x00), Entry(Str("1"), 0x01), Entry(Str("2"), 0x02),
    Entry(Str("3"), 0x03), Entry(Str("4"), 0x04), Entry(Str("5"), 0x05),
    Entry(Str("SWING"), 0x07)]

  const DirTable: Table := [
    Entry(Str("<<"), 0x01), Entry(Str("<"), 0x02), Entry(Str("|"), 0x03),
    Entry(Str(">"), 0x04), Entry(Str(">>"), 0x05), Entry(Str("<>"), 0x08),
    Entry(Str("SWING"), 0x0c)]

  const FanTable: Table := [
    Entry(Str("AUTO"), 0x00), Entry(Str("QUIET"), 0x01), Entry(Str("1"), 0x02),
    Entry(Str("2"), 0x03), Entry(Str("3"), 0x05), Entry(Str("4"), 0x06)]

  /** The six fields a control frame can change, in the order `diff` visits them. */
  const ControlFields: seq<ControlField> := [Power, Mode, Temp, Fan, Vane, Dir]

  /** CONTROL_PACKET_VALUES: the bit a changed field sets in payload byte 1. */
  function ControlValue(f: ControlField): int {
    match f
    case Power => 0x01
    case Mode => 0x02
    case Temp => 0x04
    case Fan => 0x08
    case Vane => 0x10
    case Dir => 0x80
  }

  /** CONTROL_PACKET_POSITIONS: the payload index of a changed field's code. */
  function ControlPosition(f: ControlField): int {
    match f
    case Power => 3
    case Mode => 4
    case Temp => 5
    case Fan => 6
    case Vane => 7
    case Dir => 10
  }

  /** The table that encodes a field's value. */
  function CodeTable(f: ControlField): Table {
    match f
    case Power => PowerTable
    case Mode => ModeTable
    case Temp => TempTable
    case Fan => FanTable
    case Vane => VaneTable
    case Dir => DirTable
  }

  /** Every value table is a bijection, so looking up the code of any key gives
      the key back, and subscripting the key gives the code. */
  lemma TableRoundTrip(t: Table, i: int)
    requires t in {PowerTable, TempTable, RoomTempTable, ModeTable, VaneTable, DirTable, FanTable}
    requires 0 <= i < |t|
    ensures Lookup(t, t[i].code) == Ok(t[i].key)
    ensures Get(t, t[i].key) == Some(t[i].code)
  {
    TablesInjective();
    EntryRoundTrip(t, i);
  }

  lemma TempShape()
    ensures forall i :: 0 <= i < |TempTable| ==> TempTable[i] == Entry(Num(62 - 2 * i), i)
  {
  }

  lemma RoomShape()
    ensures |RoomTempTable| == 32
    ensures forall i :: 0 <= i < |RoomTempTable| ==> RoomTempTable[i] == Entry(Num(20 + 2 * i), i)
  {
  }

  lemma TablesInjective()
    ensures Injective(PowerTable) && Injective(TempTable) && Injective(RoomTempTable)
    ensures Injective(ModeTable) && Injective(VaneTable) && Injective(DirTable) && Injective(FanTable)
  {
    TempShape();
    RoomShape();
  }

  /** DIR has no code 0x00, so a Set frame whose direction byte is 0 raises
      IndexError on the reverse lookup. */
  lemma DirHasNoZero()
    ensures Lookup(DirTable, 0) == Err(IndexError)
  {
    LookupMeaning(DirTable, 0);
  }

  /** Every code in every value table is below 0x20: a byte, and never the
      start byte 0xFC. */
  lemma CodesAreSmall()
    ensures CodesBelow(PowerTable, 0x20) && CodesBelow(TempTable, 0x20)
    ensures CodesBelow(RoomTempTable, 0x20) && CodesBelow(ModeTable, 0x20)
    ensures CodesBelow(VaneTable, 0x20) && CodesBelow(DirTable, 0x20)
    ensures CodesBelow(FanTable, 0x20)
  {
  }
}
