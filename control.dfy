/**
 * The second half of mitsi.py's `HeatPump`: `diff`, which turns the
 * difference between the current and the wanted attributes into a control
 * frame, and the timed polling step at the end of `loop`.
 */
module Control {
  import opened Wrappers
  import opened Dicts
  import opened Packets
  import opened Device
  import opened Tables
  import opened Receiver

  const ControlType := 0x41
  const InfoType := 0x42
  const PayloadLen := 0x10

  /** `loop` polls when more than a second has passed since the last send;
      the clock is read in milliseconds. */
  const SendIntervalMs := 1000

  /** The start frame `connect` writes. */
  const StartFrame := Frame(0x5a, [0xca, 0x01])

  /** `info_packets`: the two status requests the polling step sends in turn. */
  const InfoFrames: seq<seq<int>> := [
    Frame(InfoType, [0x02, 0, 0, 0, 0, 0, 0, 0, 0, 0, 0, 0, 0, 0, 0, 0]),
    Frame(InfoType, [0x03, 0, 0, 0, 0, 0, 0, 0, 0, 0, 0, 0, 0, 0, 0, 0])]

  /** `t[v]` as a diff result: the code, or KeyError. */
  function Encode(t: Table, v: Value): Result<Option<int>, Error> {
    match Get(t, v)
    case None => Err(KeyError)
    case Some(c) => Ok(Some(c))
  }

  /** Encoding succeeds exactly when the table has key `v`, with that key's code. */
  lemma EncodeMeaning(t: Table, v: Value)
    ensures Encode(t, v).Ok? <==> exists i :: 0 <= i < |t| && t[i].key == v
    ensures Encode(t, v).Ok? ==> Encode(t, v).value.Some? &&
                                 exists i :: 0 <= i < |t| && t[i] == Entry(v, Encode(t, v).value.value)
    ensures Encode(t, v).Err? ==> Encode(t, v).error == KeyError
  {
    GetMeaning(t, v);
  }

  /** Round trip: the code `T[v]` gives for a value table decodes back to `v`. */
  lemma EncodeDecodes(t: Table, v: Value)
    requires t in {PowerTable, TempTable, ModeTable, VaneTable, DirTable, FanTable}
    ensures Encode(t, v).Ok? ==> Lookup(t, Encode(t, v).value.value) == Ok(v)
  {
    EncodeMeaning(t, v);
    if Encode(t, v).Ok? {
      var i :| 0 <= i < |t| && t[i] == Entry(v, Encode(t, v).value.value);
      TableRoundTrip(t, i);
    }
  }

  /** What `diff` does for one field: None when the field does not differ,
      the code it writes when it does, or the exception it raises. Temp is
      compared as `int(other.temp)` and skipped when the wanted temp is falsy;
      the others are compared as they are. */
  function FieldCode(cur: Attrs, other: Attrs, f: ControlField): Result<Option<int>, Error> {
    if f == Temp then
      if !Truthy(other.temp) then Ok(None)
      else match IntOf(other.temp)
        case Err(e) => Err(e)
        case Ok(t) => if cur.temp == t then Ok(None) else Encode(TempTable, t)
    else if cur.Get(f) == other.Get(f) then Ok(None)
    else Encode(CodeTable(f), other.Get(f))
  }

  /** One field of `diff` finds no change exactly when the values agree (for
      temp: the wanted temp is falsy or truncates to the current one), and a
      change it finds is a code that decodes back to the wanted value (for
      temp: to its truncation). */
  lemma FieldCodeMeaning(cur: Attrs, other: Attrs, f: ControlField)
    ensures var r := FieldCode(cur, other, f);
      && (f != Temp ==> (r == Ok(None) <==> cur.Get(f) == other.Get(f)))
      && (f == Temp ==> (r == Ok(None) <==> !Truthy(other.temp) || IntOf(other.temp) == Ok(cur.temp)))
      && (r.Ok? && r.value.Some? && f != Temp ==> Lookup(CodeTable(f), r.value.value) == Ok(other.Get(f)))
      && (r.Ok? && r.value.Some? && f == Temp ==> Lookup(TempTable, r.value.value) == IntOf(other.temp))
  {
    if f == Temp {
      if Truthy(other.temp) && IntOf(other.temp).Ok? {
        EncodeMeaning(TempTable, IntOf(other.temp).value);
        EncodeDecodes(TempTable, IntOf(other.temp).value);
      }
    } else {
      EncodeMeaning(CodeTable(f), other.Get(f));
      EncodeDecodes(CodeTable(f), other.Get(f));
    }
  }

  /** Adds field `f` to the fields found to differ so far. */
  function AddChange(acc: Result<map<ControlField, int>, Error>, cur: Attrs, other: Attrs, f: ControlField)
    : Result<map<ControlField, int>, Error>
  {
    match acc
    case Err(_) => acc
    case Ok(m) =>
      match FieldCode(cur, other, f)
      case Err(e) => Err(e)
      case Ok(None) => Ok(m)
      case Ok(Some(c)) => Ok(m[f := c])
  }

  /** The differing fields among the first `k` of power, mode, temp, fan,
      vane and dir, with the codes written for them; the first exception wins. */
  function ChangesOver(cur: Attrs, other: Attrs, k: nat): Result<map<ControlField, int>, Error>
    requires k <= |ControlFields|
  {
    if k == 0 then Ok(map[])
    else AddChange(ChangesOver(cur, other, k - 1), cur, other, ControlFields[k - 1])
  }

  /** Once a field raises, `diff` raises that exception: no later field is looked at. */
  lemma {:induction false} ChangesErrorStops(cur: Attrs, other: Attrs, k: nat, n: nat)
    requires k <= n <= |ControlFields| && ChangesOver(cur, other, k).Err?
    ensures ChangesOver(cur, other, n) == ChangesOver(cur, other, k)
    decreases n - k
  {
    if k < n {
      ChangesErrorStops(cur, other, k + 1, n);
    }
  }

  /** All the differences `diff` finds, visiting the six fields in turn. */
  function Changes(cur: Attrs, other: Attrs): Result<map<ControlField, int>, Error> {
    ChangesOver(cur, other, |ControlFields|)
  }

  /** Payload byte 1: the sum of the CONTROL_PACKET_VALUES bits of the fields in `fs`. */
  function MaskOf(fs: set<ControlField>): int {
    (if Power in fs then ControlValue(Power) else 0) + (if Mode in fs then ControlValue(Mode) else 0) +
    (if Temp in fs then ControlValue(Temp) else 0) + (if Fan in fs then ControlValue(Fan) else 0) +
    (if Vane in fs then ControlValue(Vane) else 0) + (if Dir in fs then ControlValue(Dir) else 0)
  }

  /** The code written for `f`, or 0 when it does not differ. */
  function CodeAt(m: map<ControlField, int>, f: ControlField): int {
    if f in m then m[f] else 0
  }

  /** Byte `i` of the control payload for the differing fields `m`: 0x01,
      then the bitmask, then each differing field's code at its
      CONTROL_PACKET_POSITIONS index, and 0 everywhere else. */
  function PayloadAt(m: map<ControlField, int>, i: int): int {
    if i == 0 then 0x01
    else if i == 1 then MaskOf(m.Keys)
    else if i == ControlPosition(Power) then CodeAt(m, Power)
    else if i == ControlPosition(Mode) then CodeAt(m, Mode)
    else if i == ControlPosition(Temp) then CodeAt(m, Temp)
    else if i == ControlPosition(Fan) then CodeAt(m, Fan)
    else if i == ControlPosition(Vane) then CodeAt(m, Vane)
    else if i == ControlPosition(Dir) then CodeAt(m, Dir)
    else 0
  }

  function Payload(m: map<ControlField, int>): seq<int> {
    seq(PayloadLen, i => PayloadAt(m, i))
  }

  /** `diff(other)`: a type-0x41 control frame when some field differs, None
      when none does, or the exception the encoding raises. */
  function DiffPacket(cur: Attrs, other: Attrs): Result<Option<Packet>, Error> {
    match Changes(cur, other)
    case Err(e) => Err(e)
    case Ok(m) => if MaskOf(m.Keys) > 0 then Ok(Some(Packet(Frame(ControlType, Payload(m)), None))) else Ok(None)
  }

  /** What `loop` ends with: the new state, the frames written to the serial
      line, and whether it returned or raised. */
  datatype Outcome = Returned | Raised(e: Error)
  datatype LoopResult = LoopResult(s: State, sent: seq<seq<int>>, outcome: Outcome)

  /** The first part of a due poll: with a wanted state pending, `diff` the
      object against it; a frame is sent and restarts the round-robin, no
      difference drops the wanted state, an exception propagates. */
  function ResolveWanted(s: State, now: int): Result<(State, seq<seq<int>>), Error> {
    if s.wanted == map[] then Ok((s, []))
    else Resolve(s, DiffPacket(s.attrs, FromDict(s, s.wanted).attrs), now)
  }

  /** What the poll does with the result `d` of `diff`. */
  function Resolve(s: State, d: Result<Option<Packet>, Error>, now: int): Result<(State, seq<seq<int>>), Error> {
    match d
    case Err(e) => Err(e)
    case Ok(None) => Ok((s.(wanted := map[]), []))
    case Ok(Some(p)) => Ok((s.(lastSend := now, infoIndex := 0), [p.bytes]))
  }

  /** The second part: send the info request at the index and advance it,
      wrapping after the last one. */
  function SendInfo(s: State, sent: seq<seq<int>>, now: int): LoopResult {
    if s.infoIndex >= |InfoFrames| then LoopResult(s, sent, Raised(IndexError))
    else
      var next := s.infoIndex + 1;
      LoopResult(s.(lastSend := now, infoIndex := if next >= |InfoFrames| then 0 else next),
                 sent + [InfoFrames[s.infoIndex]], Returned)
  }

  /** The timed half of `loop`: nothing happens until more than a second has
      passed since the last send. */
  function Poll(s: State, now: int): LoopResult {
    if now - s.lastSend <= SendIntervalMs then LoopResult(s, [], Returned)
    else match ResolveWanted(s, now)
      case Err(e) => LoopResult(s, [], Raised(e))
      case Ok((s1, sent)) => SendInfo(s1, sent, now)
  }

  /** `loop` as a whole: the byte loop over the batch read, then, unless it
      returned early or raised, the polling step. */
  function LoopSpec(s: State, input: seq<Byte>, now: int): LoopResult {
    match Receive(s, input)
    case NoPacket(s1) => LoopResult(s1, [], Returned)
    case Raise(s1, e) => LoopResult(s1, [], Raised(e))
    case Continue(s1) => Poll(s1, now)
  }

  /** 1 when `f` is in `fs`, else 0. */
  function Bit(fs: set<ControlField>, f: ControlField): int {
    if f in fs then 1 else 0
  }

  /** Six 0/1 digits weighted 1, 2, 4, 8, 16 and 128 can be read back one by one. */
  lemma BitsDecode(p: int, m: int, t: int, f: int, v: int, d: int)
    requires 0 <= p <= 1 && 0 <= m <= 1 && 0 <= t <= 1 && 0 <= f <= 1 && 0 <= v <= 1 && 0 <= d <= 1
    ensures var x := p + 2 * m + 4 * t + 8 * f + 16 * v + 128 * d;
      && x % 2 == p && (x / 2) % 2 == m && (x / 4) % 2 == t && (x / 8) % 2 == f
      && (x / 16) % 2 == v && (x / 128) % 2 == d
  {
    var x := p + 2 * m + 4 * t + 8 * f + 16 * v + 128 * d;
    assert x / 2 == m + 2 * t + 4 * f + 8 * v + 64 * d;
    assert x / 4 == t + 2 * f + 4 * v + 32 * d;
    assert x / 8 == f + 2 * v + 16 * d;
    assert x / 16 == v + 8 * d;
    assert x / 128 == d;
  }

  /** Byte 1 of a control payload decodes back to the set of fields it names:
      a field's bit is set exactly when the field is in the set, and the byte
      is 0 exactly when the set is empty. */
  lemma MaskBits(fs: set<ControlField>)
    ensures 0 <= MaskOf(fs) <= 0x9F
    ensures MaskOf(fs) == 0 <==> fs == {}
    ensures forall f: ControlField :: f in fs <==> (MaskOf(fs) / ControlValue(f)) % 2 == 1
  {
    var mask := MaskOf(fs);
    BitsDecode(Bit(fs, Power), Bit(fs, Mode), Bit(fs, Temp), Bit(fs, Fan), Bit(fs, Vane), Bit(fs, Dir));
    assert mask == Bit(fs, Power) + 2 * Bit(fs, Mode) + 4 * Bit(fs, Temp) + 8 * Bit(fs, Fan) +
                   16 * Bit(fs, Vane) + 128 * Bit(fs, Dir);
    if fs != {} {
      var g: ControlField :| g in fs;
      assert mask >= ControlValue(g);
    }
    forall g: ControlField ensures g in fs <==> (mask / ControlValue(g)) % 2 == 1 {
      assert (mask / ControlValue(g)) % 2 == Bit(fs, g);
    }
  }

  /** The differing fields as `diff` finds them among the first `k` fields:
      it fails exactly when some field's encoding raises, with the first such
      error in field order; otherwise it collects exactly the fields that
      differ, each with its code. */
  lemma {:induction false} ChangesOverMeaning(cur: Attrs, other: Attrs, k: nat)
    requires k <= |ControlFields|
    ensures var c := ChangesOver(cur, other, k);
      && (c.Ok? <==> forall j :: 0 <= j < k ==> FieldCode(cur, other, ControlFields[j]).Ok?)
      && (c.Ok? ==> forall f :: f in c.value ==> f in ControlFields[..k])
      && (c.Ok? ==> forall j :: 0 <= j < k ==>
            && (ControlFields[j] in c.value <==> FieldCode(cur, other, ControlFields[j]).value.Some?)
            && (ControlFields[j] in c.value ==>
                  c.value[ControlFields[j]] == FieldCode(cur, other, ControlFields[j]).value.value))
      && (c.Err? ==>
            exists j :: 0 <= j < k && FieldCode(cur, other, ControlFields[j]) == Err(c.error) &&
                        forall i :: 0 <= i < j ==> FieldCode(cur, other, ControlFields[i]).Ok?)
  {
    if k > 0 {
      ChangesOverMeaning(cur, other, k - 1);
      var f := ControlFields[k - 1];
      var prev := ChangesOver(cur, other, k - 1);
      var fc := FieldCode(cur, other, f);
      if prev.Ok? {
        assert ControlFields[..k] == ControlFields[..k - 1] + [f];
        forall j | 0 <= j < k - 1 ensures ControlFields[j] != f {
        }
        match fc
        case Err(e) =>
          assert ChangesOver(cur, other, k) == Err(e);
        case Ok(None) =>
          assert ChangesOver(cur, other, k) == prev;
        case Ok(Some(c)) =>
          assert ChangesOver(cur, other, k) == Ok(prev.value[f := c]);
      } else {
        assert ChangesOver(cur, other, k) == prev;
      }
    }
  }

  /** The same over all six fields, by field rather than by position. */
  lemma ChangesMeaning(cur: Attrs, other: Attrs)
    ensures Changes(cur, other).Ok? <==> forall f: ControlField :: FieldCode(cur, other, f).Ok?
    ensures Changes(cur, other).Ok? ==>
              forall f: ControlField ::
                && (f in Changes(cur, other).value <==> FieldCode(cur, other, f).value.Some?)
                && (f in Changes(cur, other).value ==>
                      Changes(cur, other).value[f] == FieldCode(cur, other, f).value.value)
    ensures Changes(cur, other).Err? ==>
              exists k :: 0 <= k < |ControlFields| &&
                FieldCode(cur, other, ControlFields[k]) == Err(Changes(cur, other).error) &&
                forall j :: 0 <= j < k ==> FieldCode(cur, other, ControlFields[j]).Ok?
  {
    var c := Changes(cur, other);
    ChangesOverMeaning(cur, other, |ControlFields|);
    if c.Ok? {
      forall f: ControlField
        ensures && FieldCode(cur, other, f).Ok?
                && (f in c.value <==> FieldCode(cur, other, f).value.Some?)
                && (f in c.value ==> c.value[f] == FieldCode(cur, other, f).value.value)
      {
        var j := FieldIndex(f);
      }
    } else {
      var j :| 0 <= j < |ControlFields| && FieldCode(cur, other, ControlFields[j]).Err?;
    }
  }

  /** The position of a control field in `ControlFields`. */
  function FieldIndex(f: ControlField): (i: nat)
    ensures i < |ControlFields| && ControlFields[i] == f
  {
    match f
    case Power => 0
    case Mode => 1
    case Temp => 2
    case Fan => 3
    case Vane => 4
    case Dir => 5
  }

  /** Before field `f` is compared, `diff` has not flagged it. */
  lemma NotYetChanged(cur: Attrs, other: Attrs, f: ControlField)
    requires ChangesOver(cur, other, FieldIndex(f)).Ok?
    ensures f !in ChangesOver(cur, other, FieldIndex(f)).value
  {
    ChangesOverMeaning(cur, other, FieldIndex(f));
  }

  /** The object is already in the wanted state `other`: power, mode, fan, vane
      and dir are equal, and the wanted temp is falsy or truncates to the
      current temp. */
  predicate Agrees(cur: Attrs, other: Attrs) {
    && cur.power == other.power && cur.mode == other.mode && cur.fan == other.fan
    && cur.vane == other.vane && cur.dir == other.dir
    && (Truthy(other.temp) ==> IntOf(other.temp) == Ok(cur.temp))
  }

  /** `diff` returns None exactly when the object is already in the wanted state. */
  lemma DiffNothingIffAgrees(cur: Attrs, other: Attrs)
    ensures DiffPacket(cur, other) == Ok(None) <==> Agrees(cur, other)
  {
    ChangesMeaning(cur, other);
    var c := Changes(cur, other);
    if c.Ok? {
      MaskBits(c.value.Keys);
      if c.value.Keys == {} {
        forall f: ControlField ensures FieldCode(cur, other, f) == Ok(None) {
          assert f !in c.value.Keys;
        }
        assert FieldCode(cur, other, Power) == Ok(None) && FieldCode(cur, other, Mode) == Ok(None);
        assert FieldCode(cur, other, Temp) == Ok(None) && FieldCode(cur, other, Fan) == Ok(None);
        assert FieldCode(cur, other, Vane) == Ok(None) && FieldCode(cur, other, Dir) == Ok(None);
      } else {
        var f :| f in c.value.Keys;
        assert FieldCode(cur, other, f).value.Some?;
      }
    } else {
      var k :| 0 <= k < 6 && FieldCode(cur, other, ControlFields[k]).Err?;
    }
  }

  /** The largest code of each control table. */
  function MaxCode(f: ControlField): int {
    match f
    case Power => 0x01
    case Mode => 0x08
    case Temp => 0x0f
    case Fan => 0x06
    case Vane => 0x07
    case Dir => 0x0c
  }

  /** Every code `diff` can write lies between 0 and the table's largest code,
      and a DIR code is never 0. */
  lemma FieldCodeRange(cur: Attrs, other: Attrs, f: ControlField)
    requires FieldCode(cur, other, f).Ok? && FieldCode(cur, other, f).value.Some?
    ensures (if f == Dir then 1 else 0) <= FieldCode(cur, other, f).value.value <= MaxCode(f)
  {
    var c := FieldCode(cur, other, f).value.value;
    if f == Temp {
      var t := IntOf(other.temp).value;
      EncodeMeaning(TempTable, t);
      var i :| 0 <= i < |TempTable| && TempTable[i] == Entry(t, c);
      TempShape();
    } else {
      EncodeMeaning(CodeTable(f), other.Get(f));
      var i :| 0 <= i < |CodeTable(f)| && CodeTable(f)[i] == Entry(other.Get(f), c);
    }
  }

  /** The sum of a control payload: 0x01, the mask and the codes. */
  lemma SumPayload(m: map<ControlField, int>)
    ensures Sum(Payload(m)) == 1 + MaskOf(m.Keys) + CodeAt(m, Power) + CodeAt(m, Mode) +
                               CodeAt(m, Temp) + CodeAt(m, Fan) + CodeAt(m, Vane) + CodeAt(m, Dir)
  {
    var p := Payload(m);
    assert p == [p[0]] + [p[1]] + [0, p[3], p[4], p[5], p[6], p[7], 0, 0, p[10], 0, 0, 0, 0, 0];
    var q := [0, p[3], p[4], p[5], p[6], p[7], 0, 0, p[10], 0, 0, 0, 0, 0];
    SumConcat([p[0]] + [p[1]], q);
    SumConcat([p[0]], [p[1]]);
    assert q == [0, p[3], p[4], p[5], p[6], p[7]] + [0, 0, p[10], 0, 0, 0, 0, 0];
    SumConcat([0, p[3], p[4], p[5], p[6], p[7]], [0, 0, p[10], 0, 0, 0, 0, 0]);
    SumSix(0, p[3], p[4], p[5], p[6], p[7]);
    SumEightZeroes(p[10]);
  }

  lemma SumSix(a: int, b: int, c: int, d: int, e: int, f: int)
    ensures Sum([a, b, c, d, e, f]) == a + b + c + d + e + f
  {
    var s := [a, b, c, d, e, f];
    SumStep(s, 0); SumStep(s, 1); SumStep(s, 2); SumStep(s, 3); SumStep(s, 4); SumStep(s, 5);
    assert s[..0] == [] && s[..6] == s;
  }

  lemma SumEightZeroes(x: int)
    ensures Sum([0, 0, x, 0, 0, 0, 0, 0]) == x
  {
    var s := [0, 0, x, 0, 0, 0, 0, 0];
    SumStep(s, 0); SumStep(s, 1); SumStep(s, 2); SumStep(s, 3);
    SumStep(s, 4); SumStep(s, 5); SumStep(s, 6); SumStep(s, 7);
    assert s[..0] == [] && s[..8] == s;
  }

  /** The payload's bytes and the range of its sum, from the codes' ranges. */
  lemma PayloadBytes(m: map<ControlField, int>)
    requires forall f :: f in m ==> (if f == Dir then 1 else 0) <= m[f] <= MaxCode(f)
    ensures AllBytes(Payload(m))
    ensures Dir in m ==> 130 <= Sum(Payload(m)) <= 0xD1
    ensures Dir !in m ==> 1 <= Sum(Payload(m)) <= 69
  {
    var mask := MaskOf(m.Keys);
    assert Dir in m ==> 128 <= mask <= 0x9F;
    assert Dir !in m ==> 0 <= mask <= 0x1F;
    forall f: ControlField ensures (if f == Dir && f in m then 1 else 0) <= CodeAt(m, f) <= MaxCode(f) {
    }
    forall i | 0 <= i < PayloadLen ensures IsByte(Payload(m)[i]) {
      assert Payload(m)[i] == PayloadAt(m, i);
    }
    SumPayload(m);
  }

  /** A control frame built from codes within the tables' ranges consists of
      bytes only: its unreduced checksum is never negative. Without a DIR
      change the prefix sum lies in 0x17F..0x1C3; with one it wraps to
      0x200..0x24F, below 0xFD mod 256 either way. */
  lemma ControlFrameBytes(m: map<ControlField, int>)
    requires forall f :: f in m ==> (if f == Dir then 1 else 0) <= m[f] <= MaxCode(f)
    ensures AllBytes(Frame(ControlType, Payload(m)))
  {
    var d := Payload(m);
    var f := Frame(ControlType, d);
    PayloadBytes(m);
    FrameSum(ControlType, d);
    assert 0 <= ChecksumOver(AllButLast(f));
    FrameBytes(ControlType, d);
  }

  /** The only exceptions `diff` raises: KeyError for a wanted value outside
      its table, ValueError for a wanted temp that is a string. */
  lemma DiffErrors(cur: Attrs, other: Attrs)
    ensures DiffPacket(cur, other).Err? ==>
              DiffPacket(cur, other).error == KeyError ||
              (DiffPacket(cur, other).error == ValueError && other.temp.Str? && other.temp.s != "")
  {
    ChangesMeaning(cur, other);
  }

  /** The layout of a control payload: sixteen bytes led by 0x01; byte 1 has
      the bit of exactly the fields in `m`; each field's slot holds its code
      from `m`, or 0; the remaining slots are 0. */
  lemma PayloadLayout(m: map<ControlField, int>)
    ensures var d := Payload(m);
      && |d| == PayloadLen && d[0] == 0x01
      && (forall f: ControlField :: f in m <==> (d[1] / ControlValue(f)) % 2 == 1)
      && (forall f: ControlField :: d[ControlPosition(f)] == if f in m then m[f] else 0)
      && (forall i :: 2 <= i < PayloadLen && i !in {3, 4, 5, 6, 7, 10} ==> d[i] == 0)
  {
    MaskBits(m.Keys);
  }

  /** A frame `diff` returns is a type-0x41 frame of sixteen payload bytes led
      by 0x01; byte 1 has exactly the bits of the fields that differ, each
      field's slot holds the code for its wanted value (0 when it does not
      differ) and the other slots are 0; every element is a byte. */
  lemma DiffFrame(cur: Attrs, other: Attrs)
    requires DiffPacket(cur, other).Ok? && DiffPacket(cur, other).value.Some?
    ensures !Agrees(cur, other)
    ensures var p := DiffPacket(cur, other).value.value;
      && p.dataLen == None && Type(p) == Ok(ControlType) && AllBytes(p.bytes)
      && |Data(p)| == PayloadLen && Data(p)[0] == 0x01
      && (forall f: ControlField ::
            FieldCode(cur, other, f) ==
              if (Data(p)[1] / ControlValue(f)) % 2 == 1 then Ok(Some(Data(p)[ControlPosition(f)])) else Ok(None))
      && (forall i :: 2 <= i < PayloadLen && i !in {3, 4, 5, 6, 7, 10} ==> Data(p)[i] == 0)
  {
    DiffNothingIffAgrees(cur, other);
    var c := Changes(cur, other);
    ChangesMeaning(cur, other);
    var m := c.value;
    forall f | f in m ensures (if f == Dir then 1 else 0) <= m[f] <= MaxCode(f) {
      FieldCodeRange(cur, other, f);
    }
    ControlFrameBytes(m);
    PayloadLayout(m);
    var d := Payload(m);
    assert DiffPacket(cur, other).value.value == Packet(Frame(ControlType, d), None);
    forall f: ControlField
      ensures FieldCode(cur, other, f) ==
                if (d[1] / ControlValue(f)) % 2 == 1 then Ok(Some(d[ControlPosition(f)])) else Ok(None)
    {
    }
  }

  /** A due poll with no wanted state sends the next info request and
      advances the index, wrapping after the last one. */
  lemma PollInfoOnly(s: State, now: int)
    requires now - s.lastSend > SendIntervalMs && s.wanted == map[] && s.infoIndex < |InfoFrames|
    ensures Poll(s, now) ==
              LoopResult(s.(lastSend := now, infoIndex := (s.infoIndex + 1) % |InfoFrames|),
                         [InfoFrames[s.infoIndex]], Returned)
  {
  }

  /** Round robin: two due polls without a wanted state send the two info
      requests in turn and come back to the index they started from. */
  lemma InfoRoundRobin(s: State, t1: int, t2: int)
    requires s.wanted == map[] && s.infoIndex < |InfoFrames|
    requires t1 - s.lastSend > SendIntervalMs && t2 - t1 > SendIntervalMs
    ensures var r1 := Poll(s, t1);
            var r2 := Poll(r1.s, t2);
            && r1.outcome == Returned && r2.outcome == Returned
            && r1.sent + r2.sent == [InfoFrames[s.infoIndex], InfoFrames[1 - s.infoIndex]]
            && r2.s == s.(lastSend := t2)
  {
    PollInfoOnly(s, t1);
    PollInfoOnly(Poll(s, t1).s, t2);
  }

  /** A due poll with a wanted state: a frame from `diff` is sent first, then
      the first info request, and the rotation restarts after it; when nothing
      differs the wanted state is dropped and only the next info request is
      sent; an exception from `diff` leaves everything as it was. */
  lemma PollWanted(s: State, now: int)
    requires now - s.lastSend > SendIntervalMs && s.wanted != map[] && s.infoIndex < |InfoFrames|
    ensures var d := DiffPacket(s.attrs, FromDict(s, s.wanted).attrs);
      && (d.Ok? && d.value.Some? ==>
            Poll(s, now) == LoopResult(s.(lastSend := now, infoIndex := 1),
                                       [d.value.value.bytes, InfoFrames[0]], Returned))
      && (d == Ok(None) ==>
            Poll(s, now) == LoopResult(s.(wanted := map[], lastSend := now,
                                          infoIndex := (s.infoIndex + 1) % |InfoFrames|),
                                       [InfoFrames[s.infoIndex]], Returned))
      && (d.Err? ==> Poll(s, now) == LoopResult(s, [], Raised(d.error)))
  {
  }

  /** A poll keeps the info index in range and never fails on it; a poll that
      raises changed nothing and sent nothing. */
  lemma PollKeepsIndex(s: State, now: int)
    requires s.infoIndex < |InfoFrames|
    ensures Poll(s, now).s.infoIndex < |InfoFrames|
    ensures Poll(s, now).outcome.Raised? ==>
              Poll(s, now).s == s && Poll(s, now).sent == [] && Poll(s, now).outcome.e != IndexError
  {
    DiffErrors(s.attrs, FromDict(s, s.wanted).attrs);
  }

  /** A poll touches only the wanted state, the send time and the info index:
      the attributes, `dirty`, the history and the packet in progress are
      left as they were. A poll that is not yet due sends nothing and changes
      nothing. */
  lemma PollFrame(s: State, now: int)
    ensures var r := Poll(s, now).s;
      r == s.(wanted := r.wanted, lastSend := r.lastSend, infoIndex := r.infoIndex)
    ensures now - s.lastSend <= SendIntervalMs ==> Poll(s, now) == LoopResult(s, [], Returned)
  {
  }

  /** Nothing in `loop` ever resets `dirty`: once set, it stays set through
      the byte loop and the poll. */
  lemma LoopKeepsDirty(s: State, input: seq<Byte>, now: int)
    requires s.dirty
    ensures LoopSpec(s, input, now).s.dirty
  {
    ReceiveKeepsDirty(s, input);
    PollFrame(Receive(s, input).s, now);
  }

  /** The wanted state has been reached: every control field it supplies
      already holds the wanted value, and the temp `diff` would compare
      (the wanted one, or the current one when none is supplied) is falsy or
      truncates to the current temp. */
  predicate Reached(s: State) {
    && (forall a: ControlField :: a != Temp && Supplied(s.wanted, a) ==> s.wanted[Name(a)] == s.attrs.Get(a))
    && var w := if Supplied(s.wanted, Temp) then s.wanted[Name(Temp)] else s.attrs.temp;
       Truthy(w) ==> IntOf(w) == Ok(s.attrs.temp)
  }

  /** Convergence: a due poll drops the wanted state exactly when it has been
      reached. */
  lemma ClearsWantedIffReached(s: State, now: int)
    requires now - s.lastSend > SendIntervalMs && s.wanted != map[] && s.infoIndex < |InfoFrames|
    ensures Poll(s, now).s.wanted == map[] <==> Reached(s)
  {
    PollWanted(s, now);
    DiffNothingIffAgrees(s.attrs, FromDict(s, s.wanted).attrs);
    WantedAgrees(s);
  }

  /** The object built by `from_dict` from the wanted state agrees with the
      object exactly when the wanted state has been reached. */
  lemma WantedAgrees(s: State)
    ensures Agrees(s.attrs, FromDict(s, s.wanted).attrs) <==> Reached(s)
  {
    var other := FromDict(s, s.wanted).attrs;
    FromDictEffect(s, s.wanted);
    assert other.power == other.Get(Power) && other.mode == other.Get(Mode);
    assert other.temp == other.Get(Temp) && other.fan == other.Get(Fan);
    assert other.vane == other.Get(Vane) && other.dir == other.Get(Dir);
  }

  /** TEMP maps the whole degree t in 16..31 to 31 - t. */
  lemma TempCode(t: int)
    requires 16 <= t <= 31
    ensures Get(TempTable, Num(2 * t)) == Some(31 - t)
  {
    TempShape();
    GetMeaning(TempTable, Num(2 * t));
    assert TempTable[31 - t].key == Num(2 * t);
    var i :| 0 <= i < |TempTable| && TempTable[i] == Entry(Num(2 * t), Get(TempTable, Num(2 * t)).value);
    assert i == 31 - t;
  }

  /** The payload for a temp-only change. */
  lemma TempOnlyPayload(c: int)
    ensures Payload(map[Temp := c]) == [0x01, 0x04, 0, 0, 0, c, 0, 0, 0, 0, 0, 0, 0, 0, 0, 0]
  {
    var m := map[Temp := c];
    assert m.Keys == {Temp};
    assert MaskOf(m.Keys) == 4;
  }

  /** The temp field of a temp-only change to a whole degree t in 16..31. */
  lemma TempFieldCode(cur: Attrs, t: int)
    requires 16 <= t <= 31 && cur.temp != Num(2 * t)
    ensures FieldCode(cur, cur.(temp := Num(2 * t)), Temp) == Ok(Some(31 - t))
  {
    assert IntOf(Num(2 * t)) == Ok(Num(2 * t));
    TempCode(t);
  }

  /** When only temp differs, with code `c`, `diff` collects just that. */
  lemma SingleChange(cur: Attrs, other: Attrs, c: int)
    requires FieldCode(cur, other, Temp) == Ok(Some(c))
    requires forall f: ControlField :: f != Temp ==> FieldCode(cur, other, f) == Ok(None)
    ensures Changes(cur, other) == Ok(map[Temp := c])
  {
    ChangesMeaning(cur, other);
    assert Changes(cur, other).Ok? by {
      forall f: ControlField ensures FieldCode(cur, other, f).Ok? {
        if f != Temp {
          assert FieldCode(cur, other, f) == Ok(None);
        }
      }
    }
    var m := Changes(cur, other).value;
    assert Temp in m && m[Temp] == c;
    assert m.Keys == {Temp} by {
      forall f: ControlField ensures f in m <==> f == Temp {
        if f != Temp {
          assert FieldCode(cur, other, f) == Ok(None);
        }
      }
    }
    var want: map<ControlField, int> := map[Temp := c];
    assert want.Keys == {Temp};
    assert m == want;
  }

  /** Changing only the temperature to a whole degree t in 16..31 yields the
      frame that sets bit 0x04 of byte 1 and puts TEMP's code 31 - t at
      payload position 5, every other byte 0. */
  lemma TempOnlyFrame(cur: Attrs, t: int)
    requires 16 <= t <= 31 && cur.temp != Num(2 * t)
    ensures DiffPacket(cur, cur.(temp := Num(2 * t))) ==
              Ok(Some(Packet(Frame(ControlType, [0x01, 0x04, 0, 0, 0, 31 - t, 0, 0, 0, 0, 0, 0, 0, 0, 0, 0]), None)))
  {
    var other := cur.(temp := Num(2 * t));
    TempFieldCode(cur, t);
    forall f: ControlField | f != Temp ensures FieldCode(cur, other, f) == Ok(None) {
      assert cur.Get(f) == other.Get(f);
    }
    SingleChange(cur, other, 31 - t);
    TempOnlyPayload(31 - t);
    assert MaskOf({Temp}) == 4;
    assert map[Temp := 31 - t].Keys == {Temp};
  }
}
