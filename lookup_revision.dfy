/**
 * mitsi_lookup.py: a standalone revision of the lookup tables.
 *
 * It adds half-degree setpoints to TEMP and makes the reverse lookup answer
 * None for an unknown code. Nothing in mitsi.py uses this module.
 */
module LookupRevision {
  import opened Wrappers
  import opened Dicts

  /** `LookupDict.lookup` as written: on a miss the except branch calls
      `log.error`, but this file never defines `log`, so the miss raises
      NameError instead of answering None. */
  function LookupAsWritten(t: Table, c: int): (r: Result<Option<Value>, Error>)
    ensures r.Err? <==> forall i :: 0 <= i < |t| ==> t[i].code != c
    ensures r.Err? ==> r.error == NameError
    ensures r.Ok? ==> r.value.Some? && exists i :: 0 <= i < |t| && t[i] == Entry(r.value.value, c) &&
                                                   forall j :: 0 <= j < i ==> t[j].code != c
  {
    if |KeysWithCode(t, c)| > 0 then Ok(Some(KeysWithCode(t, c)[0])) else Err(NameError)
  }

  /** `LookupDict.lookup` as its try/except intends: the first key whose code
      is `c`, or None when no key has that code. */
  function Lookup(t: Table, c: int): (r: Option<Value>)
    ensures r.None? <==> forall i :: 0 <= i < |t| ==> t[i].code != c
    ensures r.Some? ==> exists i :: 0 <= i < |t| && t[i] == Entry(r.value, c) &&
                                    forall j :: 0 <= j < i ==> t[j].code != c
  {
    if |KeysWithCode(t, c)| > 0 then Some(KeysWithCode(t, c)[0]) else None
  }

  /** A code that no key has: the written lookup raises where the intended one
      answers None. */
  lemma MissRaisesNameError(t: Table, c: int)
    requires forall i :: 0 <= i < |t| ==> t[i].code != c
    ensures LookupAsWritten(t, c) == Err(NameError)
    ensures Lookup(t, c) == None
  {
  }

  /** For instance POWER has no key for the code 0x02. */
  lemma PowerMissExample()
    ensures LookupAsWritten(PowerTable, 0x02) == Err(NameError)
    ensures Lookup(PowerTable, 0x02) == None
  {
    MissRaisesNameError(PowerTable, 0x02);
  }

  const PowerTable: Table := [Entry(Str("OFF"), 0x00), Entry(Str("ON"), 0x01)]

  /** Whole degrees 31 down to 16 take 0x00 up to 0x0F; half degrees 16.5 up to
      31.5 take 0x1F down to 0x10. Keys are in half units. */
  const TempTable: Table := [
    Entry(Num(62), 0x00), Entry(Num(60), 0x01), Entry(Num(58), 0x02), Entry(Num(56), 0x03),
    Entry(Num(54), 0x04), Entry(Num(52), 0x05), Entry(Num(50), 0x06), Entry(Num(48), 0x07),
    Entry(Num(46), 0x08), Entry(Num(44), 0x09), Entry(Num(42), 0x0a), Entry(Num(40), 0x0b),
    Entry(Num(38), 0x0c), Entry(Num(36), 0x0d), Entry(Num(34), 0x0e), Entry(Num(32), 0x0f),
    Entry(Num(33), 0x1f), Entry(Num(35), 0x1e), Entry(Num(37), 0x1d), Entry(Num(39), 0x1c),
    Entry(Num(41), 0x1b), Entry(Num(43), 0x1a), Entry(Num(45), 0x19), Entry(Num(47), 0x18),
    Entry(Num(49), 0x17), Entry(Num(51), 0x16), Entry(Num(53), 0x15), Entry(Num(55), 0x14),
    Entry(Num(57), 0x13), Entry(Num(59), 0x12), Entry(Num(61), 0x11), Entry(Num(63), 0x10)]

  /** Room temperatures 10 up to 41 (keys in half units) take 0x00 up to 0x1F. */
  const RoomTempTable: Table := [
    Entry(Num(20), 0x00), Entry(Num(22), 0x01), Entry(Num(24), 0x02), Entry(Num(26), 0x03),
    Entry(Num(28), 0x04), Entry(Num(30), 0x05), Entry(Num(32), 0x06), Entry(Num(34), 0x07),
    Entry(Num(36), 0x08), Entry(Num(38), 0x09), Entry(Num(40), 0x0a), Entry(Num(42), 0x0b),
    Entry(Num(44), 0x0c), Entry(Num(46), 0x0d), Entry(Num(48), 0x0e), Entry(Num(50), 0x0f),
    Entry(Num(52), 0x10), Entry(Num(54), 0x11), Entry(Num(56), 0x12), Entry(Num(58), 0x13),
    Entry(Num(60), 0x14), Entry(Num(62), 0x15), Entry(Num(64), 0x16), Entry(Num(66), 0x17),
    Entry(Num(68), 0x18), Entry(Num(70), 0x19), Entry(Num(72), 0x1a), Entry(Num(74), 0x1b),
    Entry(Num(76), 0x1c), Entry(Num(78), 0x1d), Entry(Num(80), 0x1e), Entry(Num(82), 0x1f)]

  const ModeTable: Table := [
    Entry(Str("HEAT"), 0x01), Entry(Str("DRY"), 0x02), Entry(Str("COOL"), 0x03),
    Entry(Str("FAN"), 0x07), Entry(Str("AUTO"), 0x08)]

  const VaneTable: Table := [
    Entry(Str("AUTO"), 0x00), Entry(Str("1"), 0x01), Entry(Str("2"), 0x02),
    Entry(Str("3"), 0x03), Entry(Str("4"), 0x04), Entry(Str("5"), 0x05),
    Entry(Str("SWING"), 0x07)]

  const DirTable: Table := [
    Entry(Str("<<"), 0x01), Entry(Str("<"), 0x02), Entry(Str("|"), 0x03),
    Entry(Str(">"), 0x04), Entry(Str(">>"), 0x05), Entry(Str("<>"), 0x08),
    Entry(Str("SWING"), 0x0c)]

  const FanTable: Table := [
    Entry(Str("AUTO"), 0x00), Entry(Str("QUIET"), 0x01), Entry(Str("1"), 0x02),
    Entry(Str("2"), 0x03), Entry(Str("3"), 0x05), Entry(Str("4"), 0x06)]

  const ControlPacketValues: Table := [
    Entry(Str("POWER"), 0x01), Entry(Str("MODE"), 0x02), Entry(Str("TEMP"), 0x04),
    Entry(Str("FAN"), 0x08), Entry(Str("VANE"), 0x10), Entry(Str("DIR"), 0x80)]

  const ControlPacketPositions: Table := [
    Entry(Str("POWER"), 3), Entry(Str("MODE"), 4), Entry(Str("TEMP"), 5),
    Entry(Str("FAN"), 6), Entry(Str("VANE"), 7), Entry(Str("DIR"), 10)]

  /** The tables of this file. */
  predicate IsTable(t: Table) {
    t in {PowerTable, TempTable, RoomTempTable, ModeTable, VaneTable, DirTable, FanTable,
          ControlPacketValues, ControlPacketPositions}
  }

  /** The tables that encode attribute values. */
  predicate IsValueTable(t: Table) {
    t in {PowerTable, TempTable, RoomTempTable, ModeTable, VaneTable, DirTable, FanTable}
  }

  /** TEMP, in half units: an even key 2t has the code 31 - t, an odd key
      2t + 1 (the setpoint t + 0.5) has the code 0x10 + (31 - t). */
  lemma TempShape()
    ensures |TempTable| == 32
    ensures forall i :: 0 <= i < 16 ==> TempTable[i] == Entry(Num(62 - 2 * i), i)
    ensures forall i :: 16 <= i < 32 ==> TempTable[i] == Entry(Num(2 * i + 1), 0x2F - i)
  {
  }

  lemma RoomTempShape()
    ensures |RoomTempTable| == 32
    ensures forall i :: 0 <= i < 32 ==> RoomTempTable[i] == Entry(Num(20 + 2 * i), i)
  {
  }

  lemma TablesInjective(t: Table)
    requires IsTable(t)
    ensures Injective(t)
  {
    if t == TempTable {
      TempShape();
      forall i, j | 0 <= i < j < |t| ensures t[i].key != t[j].key && t[i].code != t[j].code {
        if j < 16 {
        } else if i >= 16 {
        } else {
          assert t[i].key.halves % 2 == 0 && t[j].key.halves % 2 == 1;
        }
      }
    } else if t == RoomTempTable {
      RoomTempShape();
    }
  }

  /** Every table of this file is injective, so the reverse lookup of any
      key's code gives back that key. */
  lemma ReverseLookupRoundTrip(t: Table, i: int)
    requires IsTable(t) && 0 <= i < |t|
    ensures Lookup(t, t[i].code) == Some(t[i].key)
    ensures LookupAsWritten(t, t[i].code) == Ok(Some(t[i].key))
    ensures Get(t, t[i].key) == Some(t[i].code)
  {
    TablesInjective(t);
    InjectiveRoundTrip(t, i);
  }

  /** In any injective table, both lookups of an entry's code give its key. */
  lemma InjectiveRoundTrip(t: Table, i: int)
    requires Injective(t) && 0 <= i < |t|
    ensures Lookup(t, t[i].code) == Some(t[i].key)
    ensures LookupAsWritten(t, t[i].code) == Ok(Some(t[i].key))
    ensures Get(t, t[i].key) == Some(t[i].code)
  {
    EntryRoundTrip(t, i);
  }

  /** TEMP maps whole degrees t in 16..31 to 31 - t and half degrees t in
      16.5..31.5 to 0x10 + (31.5 - t): whole degrees fill 0x00..0x0F, half
      degrees fill 0x10..0x1F, so the two code ranges are disjoint. */
  lemma TempEncoding(i: int)
    requires 0 <= i < |TempTable|
    ensures var e := TempTable[i];
      && e.key.Num? && 32 <= e.key.halves <= 63
      && (e.key.halves % 2 == 0 ==> e.code == 31 - e.key.halves / 2 && e.code < 0x10)
      && (e.key.halves % 2 == 1 ==> e.code == 0x10 + (63 - e.key.halves) / 2 && 0x10 <= e.code < 0x20)
  {
    TempShape();
    if i < 16 {
      assert TempTable[i] == Entry(Num(62 - 2 * i), i);
    } else {
      assert TempTable[i] == Entry(Num(2 * i + 1), 0x2F - i);
    }
  }

  /** ROOM_TEMP maps t in 10..41 to t - 10: strictly increasing with the key,
      ending at 0x1F. */
  lemma RoomTempEncoding(i: int, j: int)
    requires 0 <= i < j < |RoomTempTable|
    ensures RoomTempTable[i].key.Num? && RoomTempTable[i].code == RoomTempTable[i].key.halves / 2 - 10
    ensures RoomTempTable[i].key.halves < RoomTempTable[j].key.halves
    ensures RoomTempTable[i].code < RoomTempTable[j].code
    ensures RoomTempTable[|RoomTempTable| - 1] == Entry(Num(82), 0x1F)
  {
    RoomTempShape();
  }

  /** Every code of every value table is below 0x20: a byte, and never the
      start byte 0xFC. */
  lemma ValueCodesBelow0x20(t: Table)
    requires IsValueTable(t)
    ensures CodesBelow(t, 0x20)
  {
    TempShape();
    RoomTempShape();
  }

  /** CONTROL_PACKET_POSITIONS: six distinct payload indices in 3..10, inside a
      16-byte payload and clear of bytes 0 and 1. */
  lemma PositionsInsidePayload()
    ensures Injective(ControlPacketPositions)
    ensures forall i :: 0 <= i < |ControlPacketPositions| ==> 3 <= ControlPacketPositions[i].code <= 10
  {
  }

  /** The sum of the codes of the entries of `t` below `n` whose index is in `sel`. */
  function SelectedSum(t: Table, sel: set<int>, n: nat): int
    requires n <= |t|
  {
    if n == 0 then 0
    else SelectedSum(t, sel, n - 1) + (if n - 1 in sel then t[n - 1].code else 0)
  }

  /** Python's `|` on non-negative integers, bit by bit from the lowest. */
  function BitOr(a: nat, b: nat): nat
    decreases a + b
  {
    if a == 0 then b
    else if b == 0 then a
    else 2 * BitOr(a / 2, b / 2) + (if a % 2 == 1 || b % 2 == 1 then 1 else 0)
  }

  /** 2 to the power `k`. */
  function Pow2(k: nat): nat {
    if k == 0 then 1 else 2 * Pow2(k - 1)
  }

  /** The bitwise OR of the same codes. */
  function SelectedOr(t: Table, sel: set<int>, n: nat): nat
    requires n <= |t| && CodesBelow(t, 256)
  {
    if n == 0 then 0
    else BitOr(SelectedOr(t, sel, n - 1), if n - 1 in sel then t[n - 1].code else 0)
  }

  /** CONTROL_PACKET_VALUES holds six distinct single bits, so adding up any
      subset of them is the same as OR-ing it, and stays below 256. */
  lemma {:induction false} ControlBitsAddAsOr(sel: set<int>, n: nat)
    requires n <= |ControlPacketValues|
    ensures CodesBelow(ControlPacketValues, 256)
    ensures 0 <= SelectedSum(ControlPacketValues, sel, n) < (if n == 6 then 256 else ControlPacketValues[n].code)
    ensures SelectedSum(ControlPacketValues, sel, n) == SelectedOr(ControlPacketValues, sel, n)
  {
    var t := ControlPacketValues;
    assert t[0].code == 1 && t[1].code == 2 && t[2].code == 4;
    assert t[3].code == 8 && t[4].code == 16 && t[5].code == 128;
    if n > 0 {
      ControlBitsAddAsOr(sel, n - 1);
      var x := SelectedSum(t, sel, n - 1);
      if n - 1 in sel {
        var k := [0, 1, 2, 3, 4, 7][n - 1];
        assert Pow2(1) == 2 && Pow2(2) == 4 && Pow2(3) == 8 && Pow2(4) == 16;
        assert Pow2(7) == 128 by {
          assert Pow2(5) == 32 && Pow2(6) == 64;
        }
        assert t[n - 1].code == Pow2(k);
        OrBelowPow2(x, k);
      } else {
        assert BitOr(x, 0) == x;
      }
    }
  }

  /** OR-ing a single bit into a smaller number adds it. */
  lemma {:induction false} OrBelowPow2(x: nat, k: nat)
    requires x < Pow2(k)
    ensures BitOr(x, Pow2(k)) == x + Pow2(k)
  {
    if k > 0 && x > 0 {
      OrBelowPow2(x / 2, k - 1);
    }
  }
}
