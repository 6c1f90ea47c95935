/**
 * The `Packet` class of mitsi.py: frame layout, checksum and the predicates
 * the receive loop asks of a frame.
 *
 * A frame is `[0xFC, type, 0x01, 0x30, len] + data + [checksum]`. A packet is
 * a value: its byte list and the payload length declared by its fifth byte,
 * which only the receive loop records (`Build` leaves it unset).
 */
module Packets {
  import opened Wrappers
  import opened Dicts

  const StartByte := 0xFC
  const ExtraHeader := [0x01, 0x30]
  const HeaderLen := 5

  datatype Packet = Packet(bytes: seq<int>, dataLen: Option<nat>)

  predicate IsByte(x: int) { 0 <= x < 256 }

  predicate AllBytes(s: seq<int>) { forall i :: 0 <= i < |s| ==> IsByte(s[i]) }

  /** Python's `sum`. */
  function Sum(s: seq<int>): int {
    if s == [] then 0 else Sum(s[..|s| - 1]) + s[|s| - 1]
  }

  /** `0xfc - (sum(s) & 0xff)`: the checksum the code computes. It is not
      reduced mod 256, so it lies in -3..0xFC and is negative exactly when the
      low byte of the sum exceeds 0xFC; it agrees mod 256 with `0xFC - sum`. */
  function ChecksumOver(s: seq<int>): (c: int)
    ensures -3 <= c <= 0xFC
    ensures c < 0 <==> Sum(s) % 256 > 0xFC
    ensures (c - (0xFC - Sum(s))) % 256 == 0
  {
    0xFC - Sum(s) % 256
  }

  /** Python's `s[0:-1]`. */
  function AllButLast(s: seq<int>): seq<int> {
    if |s| == 0 then [] else s[..|s| - 1]
  }

  /** The `checksum` property: computed over every byte but the last, so that
      those bytes and the checksum add up to 0xFC mod 256. */
  function Checksum(p: Packet): (c: int)
    ensures -3 <= c <= 0xFC
    ensures (Sum(AllButLast(p.bytes)) + c) % 256 == 0xFC
  {
    ChecksumOver(AllButLast(p.bytes))
  }

  /** The `type` property, `bytes[1]`, which raises on a packet shorter than two bytes. */
  function Type(p: Packet): (r: Result<int, Error>)
    ensures r.Ok? <==> |p.bytes| >= 2
    ensures r.Ok? ==> r.value == p.bytes[1]
  {
    if |p.bytes| >= 2 then Ok(p.bytes[1]) else Err(IndexError)
  }

  /** The `complete` property: a length was declared and the packet holds the
      header, that many payload bytes and the checksum. */
  predicate Complete(p: Packet): (r: bool)
    ensures p.dataLen.None? ==> !r
    ensures r ==> |p.bytes| > HeaderLen && |p.bytes[HeaderLen..]| == p.dataLen.value + 1
  {
    p.dataLen.Some? && |p.bytes| == HeaderLen + p.dataLen.value + 1
  }

  /** The `valid` property: complete, and the last byte is the checksum; all
      the bytes of a valid packet then add up to 0xFC mod 256. */
  predicate Valid(p: Packet): (r: bool)
    ensures r ==> Complete(p) && Sum(p.bytes) % 256 == 0xFC
  {
    Complete(p) && Checksum(p) == p.bytes[|p.bytes| - 1]
  }

  /** The `data` property, Python's `bytes[5:-1]`. */
  function Data(p: Packet): (d: seq<int>)
    ensures Complete(p) ==> |d| == p.dataLen.value
    ensures |d| == if |p.bytes| >= 6 then |p.bytes| - 6 else 0
    ensures forall i :: 0 <= i < |d| ==> d[i] == p.bytes[HeaderLen + i]
  {
    if |p.bytes| >= 6 then p.bytes[HeaderLen..|p.bytes| - 1] else []
  }

  /** `__eq__`: packets are equal when their byte lists are, whatever length
      each declares; equal packets carry the same type, payload and checksum. */
  predicate SameFrame(p: Packet, q: Packet): (r: bool)
    ensures r ==> Type(p) == Type(q) && Data(p) == Data(q) && Checksum(p) == Checksum(q)
  {
    p.bytes == q.bytes
  }

  /** The byte list `build(t, d)` produces. */
  function Frame(t: int, d: seq<int>): (f: seq<int>)
    ensures |f| == |d| + 6
    ensures f[..HeaderLen] == [StartByte, t] + ExtraHeader + [|d|]
    ensures forall dl :: Data(Packet(f, dl)) == d
    ensures forall dl :: Type(Packet(f, dl)) == Ok(t)
    ensures forall dl :: Checksum(Packet(f, dl)) == f[|f| - 1]
  {
    var head := [StartByte, t] + ExtraHeader + [|d|] + d;
    assert AllButLast(head + [ChecksumOver(head)]) == head;
    head + [ChecksumOver(head)]
  }

  /** `Packet.build`: lays the frame out step by step, as the classmethod
      does, and leaves the declared length unset. */
  method Build(t: int, d: seq<int>) returns (p: Packet)
    ensures p == Packet(Frame(t, d), None)
  {
    var bytes := [StartByte, t] + ExtraHeader;
    bytes := bytes + [|d|];
    bytes := bytes + d;
    bytes := bytes + [0xFC - Sum(bytes) % 256];
    p := Packet(bytes, None);
  }

  /** A built packet carries its own checksum as last byte, yet is neither
      complete nor valid until a declared length is recorded; with the length
      of its payload it is both. */
  lemma BuiltFrame(t: int, d: seq<int>)
    ensures !Complete(Packet(Frame(t, d), None)) && !Valid(Packet(Frame(t, d), None))
    ensures Valid(Packet(Frame(t, d), Some(|d|)))
    ensures forall n: nat :: n != |d| ==> !Complete(Packet(Frame(t, d), Some(n)))
  {
  }

  /** Because the checksum is not reduced mod 256, a complete packet whose
      prefix sum has a low byte above 0xFC is never valid when its last byte
      is a byte off the wire. */
  lemma UnreducedChecksumRejects(p: Packet)
    requires Complete(p) && IsByte(p.bytes[|p.bytes| - 1])
    requires Sum(AllButLast(p.bytes)) % 256 > 0xFC
    ensures !Valid(p)
  {
  }

  /** A frame whose last byte is `(0xFC - sum) mod 256`, the rule a reader of
      the wire format would apply, and which the code still rejects. */
  lemma WireChecksumRejected()
    ensures var f := [0xFC, 0x62, 0x01, 0x30, 0x01, 0x6F, 0xFD];
            (0xFC - Sum(f[..6])) % 256 == f[6] && !Valid(Packet(f, Some(1)))
  {
    var f := [0xFC, 0x62, 0x01, 0x30, 0x01, 0x6F, 0xFD];
    assert AllButLast(f) == f[..6] == [0xFC, 0x62, 0x01, 0x30, 0x01, 0x6F];
    var h := [0xFC, 0x62, 0x01, 0x30, 0x01, 0x6F];
    assert h[..1][..0] == [] && h[..2][..1] == h[..1] && h[..3][..2] == h[..2];
    assert h[..4][..3] == h[..3] && h[..5][..4] == h[..4] && h[..6][..5] == h[..5];
    assert Sum(h[..1]) == 0xFC && Sum(h[..3]) == 0x15F && Sum(h[..5]) == 0x190;
    assert Sum(h) == 511 by { assert h == h[..6]; }
  }

  /** Replacing one element changes the sum by the difference. */
  lemma {:induction false} SumUpdate(s: seq<int>, k: int, v: int)
    requires 0 <= k < |s|
    ensures Sum(s[k := v]) == Sum(s) - s[k] + v
  {
    var n := |s| - 1;
    if k == n {
      assert s[k := v][..n] == s[..n];
    } else {
      SumUpdate(s[..n], k, v);
      assert s[k := v][..n] == s[..n][k := v];
    }
  }

  /** The sum of a concatenation is the sum of its parts. */
  lemma {:induction false} SumConcat(a: seq<int>, b: seq<int>)
    ensures Sum(a + b) == Sum(a) + Sum(b)
    decreases |b|
  {
    if b == [] {
      assert a + b == a;
    } else {
      var n := |b| - 1;
      SumConcat(a, b[..n]);
      assert (a + b)[..|a + b| - 1] == a + b[..n];
    }
  }

  /** The sum of a prefix one longer. */
  lemma SumStep(s: seq<int>, k: int)
    requires 0 <= k < |s|
    ensures Sum(s[..k + 1]) == Sum(s[..k]) + s[k]
  {
    assert s[..k + 1][..k] == s[..k];
  }

  /** What a frame's checksum is taken over: the header and the payload. */
  lemma FrameHead(t: int, d: seq<int>)
    ensures AllButLast(Frame(t, d)) == [StartByte, t, 0x01, 0x30, |d|] + d
  {
    var head := [StartByte, t] + ExtraHeader + [|d|] + d;
    assert AllButLast(head + [ChecksumOver(head)]) == head;
  }

  /** The sum of a five-element sequence. */
  lemma SumFive(a: int, b: int, c: int, d: int, e: int)
    ensures Sum([a, b, c, d, e]) == a + b + c + d + e
  {
    var h := [a, b, c, d, e];
    SumStep(h, 0); SumStep(h, 1); SumStep(h, 2); SumStep(h, 3); SumStep(h, 4);
    assert h[..0] == [] && h[..5] == h;
  }

  /** The sum a frame's checksum is taken over. */
  lemma FrameSum(t: int, d: seq<int>)
    ensures Sum(AllButLast(Frame(t, d))) == StartByte + t + 0x01 + 0x30 + |d| + Sum(d)
  {
    FrameHead(t, d);
    SumConcat([StartByte, t, 0x01, 0x30, |d|], d);
    SumFive(StartByte, t, 0x01, 0x30, |d|);
  }

  /** A frame is all bytes when its type, length, payload and checksum are. */
  lemma FrameBytes(t: int, d: seq<int>)
    requires IsByte(t) && |d| < 256 && AllBytes(d)
    requires 0 <= ChecksumOver(AllButLast(Frame(t, d)))
    ensures AllBytes(Frame(t, d))
  {
    var f := Frame(t, d);
    forall i | 0 <= i < |f| ensures IsByte(f[i]) {
      if i < HeaderLen {
        assert f[i] == f[..HeaderLen][i];
      } else if i < |f| - 1 {
        assert f[i] == Data(Packet(f, None))[i - HeaderLen];
      } else {
        assert f[i] == Checksum(Packet(f, None));
      }
    }
  }

  /** Replacing any single byte of a frame by a different byte makes it
      invalid, whatever length is then declared for it. */
  lemma SingleByteChangeInvalid(f: seq<int>, k: int, b: int, dl: Option<nat>)
    requires |f| >= 6 && AllBytes(f) && Valid(Packet(f, dl))
    requires 0 <= k < |f| && IsByte(b) && b != f[k]
    ensures !Valid(Packet(f[k := b], dl))
  {
    var n := |f| - 1;
    var g := f[k := b];
    if k < n {
      assert AllButLast(g) == AllButLast(f)[k := b];
      SumUpdate(AllButLast(f), k, b);
      var s, s' := Sum(AllButLast(f)), Sum(AllButLast(g));
      assert s' == s - f[k] + b;
      assert s % 256 != s' % 256 by {
        assert 0 < s' - s < 256 || -256 < s' - s < 0;
      }
    } else {
      assert AllButLast(g) == AllButLast(f);
    }
  }
}
