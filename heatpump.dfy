/**
 * The `HeatPump` object of mitsi.py: its tracked attributes, the `dirty`
 * flag, the packet in progress and the history, the wanted state, and the
 * methods that update them in place. Each method is proved against the
 * functions of `Device`, `Receiver` and `Control` that describe it.
 */
module HeatPumps {
  import opened Wrappers
  import opened Dicts
  import opened Packets
  import opened Device
  import opened Tables
  import opened Receiver
  import opened Control

  /** How one pass of the byte loop ends, as the loop body sees it. */
  datatype Feed = Fed | Idle | Failed(e: Error)

  /** The `Receiver.Step` a pass ending in `k` with state `s` corresponds to. */
  function AsStep(k: Feed, s: State): Step {
    match k
    case Fed => Continue(s)
    case Idle => NoPacket(s)
    case Failed(e) => Raise(s, e)
  }

  /** One pass of the byte loop over `input[i]`, after the first `i` bytes
      left the loop in state `st`: a pass that carries on extends the batch
      by one byte, and one that returns or raises ends the whole batch. */
  lemma FeedOne(s0: State, input: seq<Byte>, i: nat, st: State, k: Feed, s1: State)
    requires i < |input| && Receive(s0, input[..i]) == Continue(st)
    requires AsStep(k, s1) == Receiver.ReceiveByte(st, input[i])
    ensures k.Fed? ==> Receive(s0, input[..i + 1]) == Continue(s1)
    ensures !k.Fed? ==> AsStep(k, s1) == Receive(s0, input)
  {
    ReceiveSnoc(s0, input[..i], input[i], st);
    assert input[..i + 1] == input[..i] + [input[i]];
    if !k.Fed? {
      ReceiveStops(s0, input[..i + 1], input[i + 1..]);
      assert input[..i + 1] + input[i + 1..] == input;
    }
  }

  /** A control payload under construction holds the bytes for the changes `m`. */
  predicate Holds(d: seq<int>, m: map<ControlField, int>) {
    && |d| == PayloadLen && d[0] == 0x01 && d[1] == MaskOf(m.Keys)
    && (forall f: ControlField :: d[ControlPosition(f)] == CodeAt(m, f))
    && (forall i :: 2 <= i < PayloadLen && i !in {3, 4, 5, 6, 7, 10} ==> d[i] == 0)
  }

  /** A buffer holding the changes `m` is exactly their payload. */
  lemma HoldsPayload(d: seq<int>, m: map<ControlField, int>)
    requires Holds(d, m)
    ensures d == Payload(m)
  {
    forall i | 0 <= i < PayloadLen ensures d[i] == Payload(m)[i] {
      if i == 3 { assert i == ControlPosition(Power); }
      else if i == 4 { assert i == ControlPosition(Mode); }
      else if i == 5 { assert i == ControlPosition(Temp); }
      else if i == 6 { assert i == ControlPosition(Fan); }
      else if i == 7 { assert i == ControlPosition(Vane); }
      else if i == 10 { assert i == ControlPosition(Dir); }
    }
  }

  /** The value of the keyword argument named after `a`, or None. */
  function Kwarg(kwargs: map<string, Value>, a: Attr): Value {
    if Name(a) in kwargs then kwargs[Name(a)] else Nil
  }

  class HeatPump {
    var power: Value
    var mode: Value
    var temp: Value
    var fan: Value
    var vane: Value
    var dir: Value
    var roomTemp: Value
    var dirty: bool
    var infoPacketIndex: nat
    /** Milliseconds. */
    var lastSend: int
    var currentPacket: Option<Packet>
    var packetHistory: map<int, Packet>
    var wantedState: map<string, Value>
    const startPacket: Packet
    const infoPackets: seq<Packet>

    /** The packets built at construction are the start frame and the two info requests. */
    predicate Valid() {
      && startPacket == Packet(StartFrame, None)
      && infoPackets == [Packet(InfoFrames[0], None), Packet(InfoFrames[1], None)]
    }

    function Attributes(): Attrs
      reads this
    {
      Attrs(power, mode, temp, fan, vane, dir, roomTemp)
    }

    /** Everything the object holds, as a `Device.State`. */
    function Model(): State
      reads this
    {
      State(Attributes(), dirty, infoPacketIndex, lastSend, currentPacket, packetHistory, wantedState)
    }

    /** `HeatPump(**kwargs)`: each attribute from the keyword argument of its
        name, or None; room_temp then reset to None; dirty; nothing pending. */
    constructor (kwargs: map<string, Value>)
      ensures Valid()
      ensures forall a: Attr :: a != RoomTemp ==> Attributes().Get(a) == Kwarg(kwargs, a)
      ensures roomTemp == Nil
      ensures Model() == State(Attributes(), true, 0, 0, None, map[], map[])
    {
      power, mode, temp, fan, vane, dir, roomTemp := Nil, Nil, Nil, Nil, Nil, Nil, Nil;
      dirty := false;
      infoPacketIndex, lastSend := 0, 0;
      currentPacket, packetHistory, wantedState := None, map[], map[];
      var start := Build(0x5a, [0xca, 0x01]);
      var info2 := Build(InfoType, [0x02, 0, 0, 0, 0, 0, 0, 0, 0, 0, 0, 0, 0, 0, 0, 0]);
      var info3 := Build(InfoType, [0x03, 0, 0, 0, 0, 0, 0, 0, 0, 0, 0, 0, 0, 0, 0, 0]);
      startPacket := start;
      infoPackets := [info2, info3];
      new;
      for i := 0 to |AttributeOrder|
        invariant forall j :: 0 <= j < i ==> Attributes().Get(AttributeOrder[j]) == Kwarg(kwargs, AttributeOrder[j])
        invariant forall j :: i <= j < |AttributeOrder| ==> Attributes().Get(AttributeOrder[j]) == Nil
        invariant infoPacketIndex == 0 && lastSend == 0 && currentPacket == None
        invariant packetHistory == map[] && wantedState == map[]
      {
        Assign(AttributeOrder[i], Kwarg(kwargs, AttributeOrder[i]));
      }
      dirty := true;
      Assign(RoomTemp, Nil);
      forall a: Attr | a != RoomTemp ensures Attributes().Get(a) == Kwarg(kwargs, a) {
        assert a == AttributeOrder[IndexOf(a)];
      }
    }

    /** `copy(self)`: a fresh object with the same attributes and bookkeeping. */
    constructor Copy(other: HeatPump)
      requires other.Valid()
      ensures Valid() && Model() == other.Model()
    {
      power, mode, temp, fan, vane, dir, roomTemp :=
        other.power, other.mode, other.temp, other.fan, other.vane, other.dir, other.roomTemp;
      dirty, infoPacketIndex, lastSend := other.dirty, other.infoPacketIndex, other.lastSend;
      currentPacket, packetHistory, wantedState := other.currentPacket, other.packetHistory, other.wantedState;
      startPacket, infoPackets := other.startPacket, other.infoPackets;
    }

    /** `__setattr__` on a tracked attribute. */
    method Assign(a: Attr, v: Value)
      modifies this
      ensures Model() == Device.Assign(old(Model()), a, v)
    {
      if Attributes().Get(a) != v {
        dirty := true;
      }
      match a
      case Power => power := v;
      case Mode => mode := v;
      case Temp => temp := v;
      case Fan => fan := v;
      case Vane => vane := v;
      case Dir => dir := v;
      case RoomTemp => roomTemp := v;
    }

    /** `to_dict`. */
    method ToDict() returns (d: map<string, Value>)
      ensures d == Snapshot(Attributes())
    {
      d := map[];
      for i := 0 to |AttributeOrder|
        invariant d.Keys == set j | 0 <= j < i :: Name(AttributeOrder[j])
        invariant forall j :: 0 <= j < i ==> d[Name(AttributeOrder[j])] == Attributes().Get(AttributeOrder[j])
      {
        var a := AttributeOrder[i];
        d := d[Name(a) := Attributes().Get(a)];
      }
      var s := Snapshot(Attributes());
      assert d.Keys == s.Keys by {
        forall a: Attr ensures Name(a) in d {
          assert a == AttributeOrder[IndexOf(a)];
        }
      }
      forall k | k in d ensures d[k] == s[k] {
        var j :| 0 <= j < |AttributeOrder| && k == Name(AttributeOrder[j]);
      }
    }

    /** The `valid` property. */
    method IsValid() returns (r: bool)
      ensures r <==> AllSet(Attributes())
    {
      for i := 0 to |AttributeOrder|
        invariant forall j :: 0 <= j < i ==> Attributes().Get(AttributeOrder[j]) != Nil
      {
        if Attributes().Get(AttributeOrder[i]) == Nil {
          return false;
        }
      }
      forall a: Attr ensures Attributes().Get(a) != Nil {
        assert a == AttributeOrder[IndexOf(a)];
      }
      return true;
    }

    /** `from_dict(d)`. */
    method FromDict(d: map<string, Value>)
      modifies this
      ensures Model() == Device.FromDict(old(Model()), d)
    {
      for i := 0 to |AttributeOrder|
        invariant Model() == FromDictOver(old(Model()), d, AttributeOrder[..i])
      {
        var a := AttributeOrder[i];
        assert AttributeOrder[..i + 1][..i] == AttributeOrder[..i];
        if Name(a) in d && Truthy(d[Name(a)]) {
          Assign(a, d[Name(a)]);
        }
      }
      assert AttributeOrder[..|AttributeOrder|] == AttributeOrder;
    }

    /** `set(state)`: `wanted_state.update(state)`, later keys winning. */
    method Set(state: map<string, Value>)
      modifies this
      ensures Model() == old(Model()).(wanted := old(wantedState) + state)
    {
      wantedState := wantedState + state;
    }
 
    /** `self.a = t.lookup(data[idx])`: IndexError when the payload is too
        short or no key has the code; otherwise the attribute is assigned. */
    method DecodeField(a: Attr, t: Table, data: seq<int>, idx: nat) returns (err: Option<Error>)
      modifies this
      ensures Decode(old(Model()), data, a, t, idx) ==
                if err.None? then Continue(Model()) else Raise(Model(), err.value)
    {
      if idx >= |data| {
        return Some(IndexError);
      }
      var v := Lookup(t, data[idx]);
      if v.Err? {
        return Some(v.error);
      }
      Assign(a, v.value);
      return None;
    }

    /** A Set frame: power, mode, temp, fan, vane and dir from payload bytes
        3, 4, 5, 6, 7 and 10, stopping at the first that raises. */
    method ApplySet(data: seq<int>) returns (err: Option<Error>)
      modifies this
      ensures ApplySetFrame(old(Model()), data) ==
                if err.None? then Continue(Model()) else Raise(Model(), err.value)
    {
      ghost var s0 := Model();
      err := DecodeField(Power, PowerTable, data, 3);
      if err.Some? { return; }
      ghost var s1 := Model();
      err := DecodeField(Mode, ModeTable, data, 4);
      assert Then(Continue(s1), data, Mode, ModeTable, 4) == Decode(s1, data, Mode, ModeTable, 4);
      if err.Some? { return; }
      ghost var s2 := Model();
      err := DecodeField(Temp, TempTable, data, 5);
      assert Then(Continue(s2), data, Temp, TempTable, 5) == Decode(s2, data, Temp, TempTable, 5);
      if err.Some? { return; }
      ghost var s3 := Model();
      err := DecodeField(Fan, FanTable, data, 6);
      assert Then(Continue(s3), data, Fan, FanTable, 6) == Decode(s3, data, Fan, FanTable, 6);
      if err.Some? { return; }
      ghost var s4 := Model();
      err := DecodeField(Vane, VaneTable, data, 7);
      assert Then(Continue(s4), data, Vane, VaneTable, 7) == Decode(s4, data, Vane, VaneTable, 7);
      if err.Some? { return; }
      ghost var s5 := Model();
      err := DecodeField(Dir, DirTable, data, 10);
      assert Then(Continue(s5), data, Dir, DirTable, 10) == Decode(s5, data, Dir, DirTable, 10);
    }

    /** The handling of a complete, valid packet `p`. */
    method ApplyPacket(p: Packet) returns (k: Feed)
      modifies this
      ensures AsStep(k, Model()) == ApplyValid(old(Model()), p)
    {
      var data := Data(p);
      if |data| == 0 {
        return Failed(IndexError);
      }
      if data[0] == 0x02 {
        var err := ApplySet(data);
        if err.Some? { return Failed(err.value); }
      }
      if data[0] == 0x03 {
        var err := DecodeField(RoomTemp, RoomTempTable, data, 3);
        if err.Some? { return Failed(err.value); }
      }
      packetHistory := packetHistory[data[0] := p];
      currentPacket := None;
      return Fed;
    }

    /** One pass of the byte loop over byte `b`. */
    method ReceiveByte(b: Byte) returns (k: Feed)
      modifies this
      ensures AsStep(k, Model()) == Receiver.ReceiveByte(old(Model()), b)
    {
      if b == StartByte {
        currentPacket := Some(Packet([], None));
      }
      if currentPacket.None? {
        return Idle;
      }
      var p := currentPacket.value;
      p := p.(bytes := p.bytes + [b]);
      if |p.bytes| == HeaderLen {
        p := p.(dataLen := Some(b));
      }
      currentPacket := Some(p);
      assert Push(old(currentPacket), b) == Some(p);
      k := Settle(p);
    }

    /** Once `p` is the packet in progress: apply it when it is complete and
        valid, drop it when it is complete and invalid. */
    method Settle(p: Packet) returns (k: Feed)
      requires currentPacket == Some(p)
      modifies this
      ensures AsStep(k, Model()) == Receiver.Settle(old(Model()), p)
    {
      if Complete(p) {
        if Packets.Valid(p) {
          k := ApplyPacket(p);
        } else {
          currentPacket := None;
          k := Fed;
        }
      } else {
        k := Fed;
      }
    }

    /** `diff(other)`: fills a 16-byte payload field by field and builds a
        type-0x41 frame from it when some field differs. */
    method Diff(other: HeatPump) returns (r: Result<Option<Packet>, Error>)
      ensures r == DiffPacket(Attributes(), other.Attributes())
    {
      ghost var cur, wanted := Attributes(), other.Attributes();
      var data := new int[PayloadLen](_ => 0);
      data[0] := 0x01;
      ghost var m: map<ControlField, int> := map[];
      var err: Option<Error>;
      err, m := CompareField(data, Power, power, other.power, cur, wanted, m);
      if err.Some? {
        ChangesErrorStops(cur, wanted, 1, |ControlFields|);
        return Err(err.value);
      }
      err, m := CompareField(data, Mode, mode, other.mode, cur, wanted, m);
      if err.Some? {
        ChangesErrorStops(cur, wanted, 2, |ControlFields|);
        return Err(err.value);
      }
      err, m := CompareTemp(data, temp, other.temp, cur, wanted, m);
      if err.Some? {
        ChangesErrorStops(cur, wanted, 3, |ControlFields|);
        return Err(err.value);
      }
      err, m := CompareField(data, Fan, fan, other.fan, cur, wanted, m);
      if err.Some? {
        ChangesErrorStops(cur, wanted, 4, |ControlFields|);
        return Err(err.value);
      }
      err, m := CompareField(data, Vane, vane, other.vane, cur, wanted, m);
      if err.Some? {
        ChangesErrorStops(cur, wanted, 5, |ControlFields|);
        return Err(err.value);
      }
      err, m := CompareField(data, Dir, dir, other.dir, cur, wanted, m);
      if err.Some? {
        return Err(err.value);
      }
      HoldsPayload(data[..], m);
      if data[1] > 0x00 {
        var p := Build(ControlType, data[..]);
        return Ok(Some(p));
      }
      return Ok(None);
    }

    /** The timed half of `loop`, at time `now` (milliseconds). */
    method PollDue(now: int) returns (sent: seq<seq<int>>, outcome: Outcome)
      requires Valid()
      modifies this
      ensures LoopResult(Model(), sent, outcome) == Control.Poll(old(Model()), now)
    {
      sent := [];
      outcome := Returned;
      if now - lastSend > SendIntervalMs {
        var err: Option<Error>;
        sent, err := ResolveWanted(now);
        if err.Some? {
          return [], Raised(err.value);
        }
        if infoPacketIndex >= |infoPackets| {
          return sent, Raised(IndexError);
        }
        sent := sent + [infoPackets[infoPacketIndex].bytes];
        lastSend := now;
        infoPacketIndex := infoPacketIndex + 1;
        if infoPacketIndex >= |infoPackets| {
          infoPacketIndex := 0;
        }
      }
    }

    /** `diff` against a copy of the object updated with the wanted state;
        the object itself is left as it was. */
    method DiffWanted() returns (packet: Result<Option<Packet>, Error>)
      requires Valid()
      ensures packet == DiffPacket(Attributes(), Device.FromDict(Model(), wantedState).attrs)
    {
      var wanted := new HeatPump.Copy(this);
      wanted.FromDict(wantedState);
      packet := Diff(wanted);
    }

    /** The wanted-state part of a due poll: `diff` against a copy of the
        object updated with the wanted state, then act on the result. */
    method ResolveWanted(now: int) returns (sent: seq<seq<int>>, err: Option<Error>)
      requires Valid()
      modifies this
      ensures err.None? ==> Control.ResolveWanted(old(Model()), now) == Ok((Model(), sent))
      ensures err.Some? ==> Control.ResolveWanted(old(Model()), now) == Err(err.value) && Model() == old(Model())
    {
      if wantedState == map[] {
        return [], None;
      }
      var packet := DiffWanted();
      sent, err := ApplyDiff(packet, now);
    }

    /** What the poll does with the result of `diff`: send the frame and
        restart the round-robin, or drop the wanted state when nothing
        differs; an exception changes nothing. */
    method ApplyDiff(packet: Result<Option<Packet>, Error>, now: int) returns (sent: seq<seq<int>>, err: Option<Error>)
      modifies this
      ensures err.None? ==> Resolve(old(Model()), packet, now) == Ok((Model(), sent))
      ensures err.Some? ==> Resolve(old(Model()), packet, now) == Err(err.value) && Model() == old(Model())
    {
      sent, err := [], None;
      match packet
      case Err(e) =>
        err := Some(e);
      case Ok(Some(p)) =>
        sent := [p.bytes];
        lastSend := now;
        infoPacketIndex := 0;
      case Ok(None) =>
        wantedState := map[];
    }

    /** The byte loop of `loop()` over the batch `input`: it stops at the
        first byte that finds no packet in progress and at the first exception. */
    method ReceiveAll(input: seq<Byte>) returns (k: Feed)
      modifies this
      ensures AsStep(k, Model()) == Receive(old(Model()), input)
    {
      for i := 0 to |input|
        invariant Receive(old(Model()), input[..i]) == Continue(Model())
      {
        ghost var st := Model();
        k := ReceiveByte(input[i]);
        FeedOne(old(Model()), input, i, st, k, Model());
        if !k.Fed? {
          return;
        }
      }
      assert input[..|input|] == input;
      return Fed;
    }

    /** `loop()` over the batch `input` read from the serial line, at time
        `now`: the frames written, and whether it returned or raised. */
    method Loop(input: seq<Byte>, now: int) returns (sent: seq<seq<int>>, outcome: Outcome)
      requires Valid()
      modifies this
      ensures LoopResult(Model(), sent, outcome) == LoopSpec(old(Model()), input, now)
    {
      var k := ReceiveAll(input);
      match k
      case Idle => return [], Returned;
      case Failed(e) => return [], Raised(e);
      case Fed => sent, outcome := PollDue(now);
    }
  }

  /** `data[1] += CONTROL_PACKET_VALUES[f]; data[CONTROL_PACKET_POSITIONS[f]] = code`
      for a field not yet flagged. */
  method Flag(data: array<int>, f: ControlField, code: int, ghost m: map<ControlField, int>)
    requires Holds(data[..], m) && f !in m
    modifies data
    ensures Holds(data[..], m[f := code])
  {
    data[1] := data[1] + ControlValue(f);
    data[ControlPosition(f)] := code;
    assert m[f := code].Keys == m.Keys + {f};
  }

  /** One of the five blocks of `diff` that compare a field as it is: when
      the wanted value differs from the current one, flag `f` in the payload
      with the wanted value's code, or raise KeyError when the table has none. */
  method CompareField(data: array<int>, f: ControlField, mine: Value, theirs: Value,
                      ghost cur: Attrs, ghost wanted: Attrs, ghost m: map<ControlField, int>)
    returns (err: Option<Error>, ghost m': map<ControlField, int>)
    requires f != Temp && mine == cur.Get(f) && theirs == wanted.Get(f)
    requires Holds(data[..], m) && ChangesOver(cur, wanted, FieldIndex(f)) == Ok(m)
    modifies data
    ensures err.None? ==> Holds(data[..], m') && ChangesOver(cur, wanted, FieldIndex(f) + 1) == Ok(m')
    ensures err.Some? ==> ChangesOver(cur, wanted, FieldIndex(f) + 1) == Err(err.value)
  {
    m' := m;
    err := None;
    if mine != theirs {
      var c := Get(CodeTable(f), theirs);
      if c.None? {
        return Some(KeyError), m;
      }
      NotYetChanged(cur, wanted, f);
      Flag(data, f, c.value, m);
      m' := m[f := c.value];
    }
  }

  /** The temp block of `diff`: skipped when the wanted temp is falsy;
      otherwise it is truncated with `int()` (which may raise), compared with
      the current temp, and flagged with TEMP's code when they differ. */
  method CompareTemp(data: array<int>, mine: Value, theirs: Value,
                     ghost cur: Attrs, ghost wanted: Attrs, ghost m: map<ControlField, int>)
    returns (err: Option<Error>, ghost m': map<ControlField, int>)
    requires mine == cur.temp && theirs == wanted.temp
    requires Holds(data[..], m) && ChangesOver(cur, wanted, FieldIndex(Temp)) == Ok(m)
    modifies data
    ensures err.None? ==> Holds(data[..], m') && ChangesOver(cur, wanted, FieldIndex(Temp) + 1) == Ok(m')
    ensures err.Some? ==> ChangesOver(cur, wanted, FieldIndex(Temp) + 1) == Err(err.value)
  {
    m' := m;
    err := None;
    if Truthy(theirs) {
      var t := IntOf(theirs);
      if t.Err? {
        return Some(t.error), m;
      }
      if mine != t.value {
        var c := Get(TempTable, t.value);
        if c.None? {
          return Some(KeyError), m;
        }
        NotYetChanged(cur, wanted, Temp);
        Flag(data, Temp, c.value, m);
        m' := m[Temp := c.value];
      }
    }
  }
}
