/**
 * The first half of `HeatPump.loop` in mitsi.py: rebuilding frames from the
 * bytes read off the serial line, one byte at a time, and applying each
 * complete, valid frame to the device state.
 */
module Receiver {
  import opened Wrappers
  import opened Dicts
  import opened Packets
  import opened Device
  import opened Tables

  type Byte = b: int | 0 <= b < 256

  /** How the handling of one byte ends: go on with the next byte, leave `loop`
      because a byte arrived with no packet in progress, or raise. */
  datatype Step = Continue(s: State) | NoPacket(s: State) | Raise(s: State, e: Error)

  /** The packet in progress after byte `b`, or None when there is none: a
      start byte opens a fresh packet, discarding any partial one; every byte
      is appended; the fifth byte is recorded as the declared length. */
  function Push(cur: Option<Packet>, b: Byte): (r: Option<Packet>)
    ensures b == StartByte ==> r == Some(Packet([StartByte], None))
    ensures b != StartByte ==> (r.Some? <==> cur.Some?)
    ensures r.Some? && b != StartByte ==> r.value.bytes == cur.value.bytes + [b]
    ensures r.Some? ==> r.value.dataLen == (if |r.value.bytes| == HeaderLen then Some(b as nat)
                                            else if b == StartByte then None else cur.value.dataLen)
  {
    var c := if b == StartByte then Some(Packet([], None)) else cur;
    assert b == StartByte ==> c.value.bytes + [b] == [StartByte];
    if c.None? then None
    else
      var bytes := c.value.bytes + [b];
      Some(Packet(bytes, if |bytes| == HeaderLen then Some(b as nat) else c.value.dataLen))
  }

  /** `self.a = t.lookup(data[idx])`: IndexError when the payload is too short
      or no key has the code; otherwise the attribute is assigned. */
  function Decode(s: State, data: seq<int>, a: Attr, t: Table, idx: nat): Step
  {
    if idx >= |data| then Raise(s, IndexError)
    else match Lookup(t, data[idx])
      case Err(e) => Raise(s, e)
      case Ok(v) => Continue(Assign(s, a, v))
  }

  /** A decode raises IndexError when the payload is too short or no key has
      the code, leaving the state as it was; otherwise it assigns the key
      whose code it is. */
  lemma DecodeMeaning(s: State, data: seq<int>, a: Attr, t: Table, idx: nat)
    ensures Decode(s, data, a, t, idx).Continue? <==> idx < |data| && Lookup(t, data[idx]).Ok?
    ensures Decode(s, data, a, t, idx).Continue? ==>
              Decode(s, data, a, t, idx).s == Assign(s, a, Lookup(t, data[idx]).value)
    ensures !Decode(s, data, a, t, idx).Continue? ==> Decode(s, data, a, t, idx) == Raise(s, IndexError)
  {
  }

  /** The next assignment of a Set frame, made only if the earlier ones did not raise. */
  function Then(st: Step, data: seq<int>, a: Attr, t: Table, idx: nat): Step {
    if st.Continue? then Decode(st.s, data, a, t, idx) else st
  }

  /** A Set frame (payload byte 0 is 0x02): power, mode, temp, fan, vane and
      dir are decoded from payload bytes 3, 4, 5, 6, 7 and 10, in that order. */
  function ApplySetFrame(s: State, data: seq<int>): Step {
    var st1 := Decode(s, data, Power, PowerTable, 3);
    var st2 := Then(st1, data, Mode, ModeTable, 4);
    var st3 := Then(st2, data, Temp, TempTable, 5);
    var st4 := Then(st3, data, Fan, FanTable, 6);
    var st5 := Then(st4, data, Vane, VaneTable, 7);
    Then(st5, data, Dir, DirTable, 10)
  }

  /** A Temp frame (payload byte 0 is 0x03): room_temp is decoded from payload byte 3. */
  function ApplyTempFrame(s: State, data: seq<int>): Step {
    Decode(s, data, RoomTemp, RoomTempTable, 3)
  }

  /** What the loop does with a complete, valid packet `p`: apply a Set or
      Temp frame, then record `p` in the history under payload byte 0 and
      drop the packet in progress. */
  function ApplyValid(s: State, p: Packet): Step {
    var data := Data(p);
    if |data| == 0 then Raise(s, IndexError)
    else
      var st1 := if data[0] == 0x02 then ApplySetFrame(s, data) else Continue(s);
      var st2 := if st1.Continue? && data[0] == 0x03 then ApplyTempFrame(st1.s, data) else st1;
      if st2.Continue? then Continue(st2.s.(history := st2.s.history[data[0] := p], current := None))
      else st2
  }

  /** What the loop does once `p` is the packet in progress: nothing more
      until it is complete; then apply it if valid, or drop it. */
  function Settle(s: State, p: Packet): Step {
    if !Complete(p) then Continue(s)
    else if Valid(p) then ApplyValid(s, p)
    else Continue(s.(current := None))
  }

  /** One pass of the byte loop. */
  function ReceiveByte(s: State, b: Byte): Step {
    match Push(s.current, b)
    case None => NoPacket(s)
    case Some(p) => Settle(s.(current := Some(p)), p)
  }

  /** The byte loop over a whole batch: it stops at the first byte that
      finds no packet in progress, and at the first exception. */
  function Receive(s: State, bs: seq<Byte>): Step
    decreases |bs|
  {
    if bs == [] then Continue(s)
    else
      match ReceiveByte(s, bs[0])
      case Continue(s1) => Receive(s1, bs[1..])
      case other => other
  }

  /** One more byte after a batch that carried on is one more pass of the loop. */
  lemma ReceiveSnoc(s: State, xs: seq<Byte>, b: Byte, st: State)
    requires Receive(s, xs) == Continue(st)
    ensures Receive(s, xs + [b]) == ReceiveByte(st, b)
  {
    ReceiveAppend(s, xs, [b]);
    assert [b][1..] == [];
  }

  /** Once the loop has returned or raised, later bytes are not looked at. */
  lemma ReceiveStops(s: State, xs: seq<Byte>, ys: seq<Byte>)
    requires !Receive(s, xs).Continue?
    ensures Receive(s, xs + ys) == Receive(s, xs)
  {
    ReceiveAppend(s, xs, ys);
  }

  /** Handling a batch in two parts is handling it in one. */
  lemma {:induction false} ReceiveAppend(s: State, xs: seq<Byte>, ys: seq<Byte>)
    ensures Receive(s, xs + ys) == match Receive(s, xs)
                                   case Continue(s1) => Receive(s1, ys)
                                   case other => other
    decreases |xs|
  {
    if xs != [] {
      assert (xs + ys)[0] == xs[0] && (xs + ys)[1..] == xs[1..] + ys;
      match ReceiveByte(s, xs[0])
      case Continue(s1) => ReceiveAppend(s1, xs[1..], ys);
      case _ =>
    } else {
      assert xs + ys == ys;
    }
  }

  /** Handling a valid packet never clears `dirty`. */
  lemma ApplyKeepsDirty(s: State, p: Packet)
    requires s.dirty
    ensures ApplyValid(s, p).s.dirty
  {
    var data := Data(p);
    if |data| > 0 && data[0] == 0x02 {
      var st1 := Decode(s, data, Power, PowerTable, 3);
      var st2 := Then(st1, data, Mode, ModeTable, 4);
      var st3 := Then(st2, data, Temp, TempTable, 5);
      var st4 := Then(st3, data, Fan, FanTable, 6);
      var st5 := Then(st4, data, Vane, VaneTable, 7);
      ThenKeepsDirty(Continue(s), data, Power, PowerTable, 3);
      ThenKeepsDirty(st1, data, Mode, ModeTable, 4);
      ThenKeepsDirty(st2, data, Temp, TempTable, 5);
      ThenKeepsDirty(st3, data, Fan, FanTable, 6);
      ThenKeepsDirty(st4, data, Vane, VaneTable, 7);
      ThenKeepsDirty(st5, data, Dir, DirTable, 10);
    }
  }

  lemma ThenKeepsDirty(st: Step, data: seq<int>, a: Attr, t: Table, idx: nat)
    requires st.s.dirty
    ensures Then(st, data, a, t, idx).s.dirty
  {
  }

  /** Once set, `dirty` stays set whatever a batch of bytes does. */
  lemma {:induction false} ReceiveKeepsDirty(s: State, bs: seq<Byte>)
    requires s.dirty
    ensures Receive(s, bs).s.dirty
    decreases |bs|
  {
    if bs != [] {
      var st := ReceiveByte(s, bs[0]);
      var p := Push(s.current, bs[0]);
      if p.Some? {
        ApplyKeepsDirty(s.(current := p), p.value);
      }
      assert st.s.dirty;
      if st.Continue? {
        ReceiveKeepsDirty(st.s, bs[1..]);
      }
    }
  }

  /** A byte other than 0xFC with no packet in progress ends the batch at once,
      dropping the rest of it and changing nothing. */
  lemma StrayByteEndsBatch(s: State, b: Byte, rest: seq<Byte>)
    requires s.current.None? && b != StartByte
    ensures Receive(s, [b] + rest) == NoPacket(s)
  {
    assert ([b] + rest)[0] == b;
  }

  /** A byte sequence shaped like a frame, as the device sends it: it starts
      with 0xFC, holds no other 0xFC, and its fifth byte is its payload length. */
  predicate FrameShaped(f: seq<Byte>) {
    && |f| >= 6 && f[0] == StartByte && f[4] == |f| - 6
    && forall i :: 1 <= i < |f| ==> f[i] != StartByte
  }

  /** The packet the loop holds after the first `k` bytes of a frame, or of
      a packet cut off on the line. */
  function PartialPacket(f: seq<Byte>, k: nat): Packet
    requires 1 <= k <= |f|
  {
    Packet(f[..k], if k >= HeaderLen then Some(f[4] as nat) else None)
  }

  /** Before its last byte, a frame only grows the packet in progress. */
  lemma {:induction false} FramePrefix(s: State, f: seq<Byte>, k: nat)
    requires FrameShaped(f) && 1 <= k < |f|
    ensures Receive(s, f[..k]) == Continue(s.(current := Some(PartialPacket(f, k))))
  {
    if k == 1 {
      assert f[..1] == [f[0]];
    } else {
      FramePrefix(s, f, k - 1);
      ReceiveAppend(s, f[..k - 1], [f[k - 1]]);
      assert f[..k] == f[..k - 1] + [f[k - 1]];
      assert [f[k - 1]][1..] == [];
    }
  }

  /** Feeding a whole frame, from any state, hands the loop one complete packet
      holding exactly the frame's bytes: a valid one is applied, an invalid
      one only clears the packet in progress. */
  lemma FrameDelivered(s: State, f: seq<Byte>)
    requires FrameShaped(f)
    ensures var p := Packet(f, Some(|f| - 6));
            var s1 := s.(current := Some(p));
            Complete(p) &&
            Receive(s, f) == if Valid(p) then ApplyValid(s1, p) else Continue(s1.(current := None))
  {
    var n := |f| - 1;
    FramePrefix(s, f, n);
    ReceiveAppend(s, f[..n], [f[n]]);
    assert f == f[..n] + [f[n]];
    assert [f[n]][1..] == [];
    assert f[..n] + [f[n]] == f;
  }

  /** Round trip: a frame built by `Packet.build` whose bytes are all bytes and
      that holds no 0xFC after its start byte comes back from the loop as a
      complete, valid packet equal to the built one. If its payload is neither
      a Set nor a Temp frame, the only effects are the history entry under
      payload byte 0 and an empty packet slot. */
  lemma BuiltFrameRoundTrip(s: State, t: int, d: seq<int>)
    requires AllBytes(Frame(t, d))
    requires forall i :: 1 <= i < |Frame(t, d)| ==> Frame(t, d)[i] != StartByte
    ensures var f: seq<Byte> := Frame(t, d);
            var p := Packet(f, Some(|d|));
            Valid(p) && SameFrame(p, Packet(Frame(t, d), None)) &&
            Receive(s, f) == ApplyValid(s.(current := Some(p)), p)
    ensures |d| > 0 && d[0] != 0x02 && d[0] != 0x03 ==>
            Receive(s, Frame(t, d)) ==
              Continue(s.(history := s.history[d[0] := Packet(Frame(t, d), Some(|d|))], current := None))
  {
    var f: seq<Byte> := Frame(t, d);
    assert f[4] == |d| by { assert f[..HeaderLen][4] == f[4]; }
    assert f[0] == StartByte by { assert f[..HeaderLen][0] == f[0]; }
    FrameDelivered(s, f);
    BuiltFrame(t, d);
  }

  /** A start byte followed by bytes that are not start bytes and that stop
      before the declared length is reached: a packet cut off on the line. */
  predicate Unfinished(h: seq<Byte>) {
    && |h| >= 1 && h[0] == StartByte
    && (forall i :: 1 <= i < |h| ==> h[i] != StartByte)
    && (|h| <= HeaderLen || |h| < HeaderLen + h[4] + 1)
  }

  /** Resynchronisation: a start byte followed by stray bytes that never
      complete a packet (at most four of them, or fewer than the length a
      received header declares), then a frame, leaves the loop exactly where
      the frame alone leaves an idle loop: the partial packet is discarded. */
  lemma ResyncDiscardsPartial(s: State, g: seq<Byte>, f: seq<Byte>)
    requires (|g| <= 4 || |g| < 5 + g[3] as int) && forall i :: 0 <= i < |g| ==> g[i] != StartByte
    requires FrameShaped(f)
    ensures Receive(s, [StartByte] + g + f) == Receive(s.(current := None), f)
  {
    var h: seq<Byte> := [StartByte] + g;
    assert Unfinished(h) by {
      assert forall i :: 1 <= i < |h| ==> h[i] == g[i - 1];
    }
    var s1 := s.(current := Some(PartialPacket(h, |h|)));
    assert Receive(s, h) == Continue(s1) by {
      PartialStray(s, h, |h|);
      assert h[..|h|] == h;
    }
    ReceiveAppend(s, h, f);
    assert Receive(s1, f) == Receive(s.(current := None), f) by {
      assert f == [f[0]] + f[1..];
    }
  }

  /** A packet cut off on the line only grows the packet in progress: it is
      never complete, so the loop neither applies nor drops it. */
  lemma {:induction false} PartialStray(s: State, h: seq<Byte>, k: nat)
    requires Unfinished(h) && 1 <= k <= |h|
    ensures Receive(s, h[..k]) == Continue(s.(current := Some(PartialPacket(h, k))))
  {
    if k == 1 {
      assert h[..1] == [h[0]];
    } else {
      PartialStray(s, h, k - 1);
      ReceiveAppend(s, h[..k - 1], [h[k - 1]]);
      assert h[..k] == h[..k - 1] + [h[k - 1]];
      assert [h[k - 1]][1..] == [];
    }
  }

  /** The attributes a Set frame carries, when all six codes are known. */
  function SetFrameAttrs(x: Attrs, data: seq<int>): Attrs
    requires |data| >= 11
    requires Lookup(PowerTable, data[3]).Ok? && Lookup(ModeTable, data[4]).Ok?
    requires Lookup(TempTable, data[5]).Ok? && Lookup(FanTable, data[6]).Ok?
    requires Lookup(VaneTable, data[7]).Ok? && Lookup(DirTable, data[10]).Ok?
  {
    x.(power := Lookup(PowerTable, data[3]).value, mode := Lookup(ModeTable, data[4]).value,
       temp := Lookup(TempTable, data[5]).value, fan := Lookup(FanTable, data[6]).value,
       vane := Lookup(VaneTable, data[7]).value, dir := Lookup(DirTable, data[10]).value)
  }

  /** A valid Set frame whose six codes are all known assigns power, mode,
      temp, fan, vane and dir from payload bytes 3, 4, 5, 6, 7 and 10, leaves
      room_temp alone, sets `dirty` if anything changed, and is recorded under
      key 0x02. */
  lemma ValidSetFrame(s: State, p: Packet)
    requires var data := Data(p);
      && |data| >= 11 && data[0] == 0x02
      && Lookup(PowerTable, data[3]).Ok? && Lookup(ModeTable, data[4]).Ok?
      && Lookup(TempTable, data[5]).Ok? && Lookup(FanTable, data[6]).Ok?
      && Lookup(VaneTable, data[7]).Ok? && Lookup(DirTable, data[10]).Ok?
    ensures var x := SetFrameAttrs(s.attrs, Data(p));
      ApplyValid(s, p) ==
        Continue(s.(attrs := x, dirty := s.dirty || x != s.attrs, history := s.history[0x02 := p], current := None))
  {
    var data := Data(p);
    var x := SetFrameAttrs(s.attrs, data);
    var r := ApplySetFrame(s, data);
    assert r.Continue? && r.s.attrs == x && r.s == s.(attrs := x, dirty := r.s.dirty);
  }

  /** A valid Set frame with an unknown fan code raises IndexError after power,
      mode and temp have been assigned; fan, vane, dir, the history and the
      packet in progress are left as they were. */
  lemma ValidSetFrameUnknownFan(s: State, p: Packet)
    requires var data := Data(p);
      && |data| >= 11 && data[0] == 0x02
      && Lookup(PowerTable, data[3]).Ok? && Lookup(ModeTable, data[4]).Ok?
      && Lookup(TempTable, data[5]).Ok? && Lookup(FanTable, data[6]).Err?
    ensures var data := Data(p);
      var x := s.attrs.(power := Lookup(PowerTable, data[3]).value, mode := Lookup(ModeTable, data[4]).value,
                        temp := Lookup(TempTable, data[5]).value);
      ApplyValid(s, p) == Raise(s.(attrs := x, dirty := s.dirty || x != s.attrs), IndexError)
  {
    var data := Data(p);
    var st1 := Decode(s, data, Power, PowerTable, 3);
    DecodeMeaning(s, data, Power, PowerTable, 3);
    var st2 := Decode(st1.s, data, Mode, ModeTable, 4);
    DecodeMeaning(st1.s, data, Mode, ModeTable, 4);
    var st3 := Decode(st2.s, data, Temp, TempTable, 5);
    DecodeMeaning(st2.s, data, Temp, TempTable, 5);
    DecodeMeaning(st3.s, data, Fan, FanTable, 6);
    assert ApplySetFrame(s, data) == Raise(st3.s, IndexError);
    var x := s.attrs.(power := Lookup(PowerTable, data[3]).value, mode := Lookup(ModeTable, data[4]).value,
                      temp := Lookup(TempTable, data[5]).value);
    assert st3.s.attrs == x;
  }

  /** A valid Temp frame with a known code assigns only room_temp, from
      payload byte 3, and is recorded under key 0x03. */
  lemma ValidTempFrame(s: State, p: Packet)
    requires var data := Data(p);
      |data| >= 4 && data[0] == 0x03 && Lookup(RoomTempTable, data[3]).Ok?
    ensures var x := s.attrs.(roomTemp := Lookup(RoomTempTable, Data(p)[3]).value);
      ApplyValid(s, p) ==
        Continue(s.(attrs := x, dirty := s.dirty || x != s.attrs, history := s.history[0x03 := p], current := None))
  {
  }

  /** Any other valid frame changes no attribute: it is only recorded, under
      its payload byte 0 rather than its type byte. */
  lemma ValidOtherFrame(s: State, p: Packet)
    requires |Data(p)| > 0 && Data(p)[0] != 0x02 && Data(p)[0] != 0x03
    ensures ApplyValid(s, p) == Continue(s.(history := s.history[Data(p)[0] := p], current := None))
  {
  }
}
