/**
 * The state a `HeatPump` object of mitsi.py keeps, as a value: the seven
 * tracked attributes with their `dirty` flag, and the bookkeeping of the
 * receive loop and the polling step. The `HeatPumps.HeatPump` class holds the
 * same state in fields; this module states what its operations do.
 */
module Device {
  import opened Wrappers
  import opened Dicts
  import opened Packets

  /** The tracked attributes, `HeatPump.attributes`. */
  datatype Attr = Power | Mode | Temp | Fan | Vane | Dir | RoomTemp

  /** The attributes a control frame can change: all but the room temperature. */
  type ControlField = a: Attr | a != RoomTemp witness Power

  /** The order in which `to_dict`, `from_dict` and `valid` visit the attributes. */
  const AttributeOrder: seq<Attr> := [Power, Mode, Temp, Fan, Vane, Dir, RoomTemp]

  /** The attribute's Python name, the key it has in a state dictionary. */
  function Name(a: Attr): string {
    match a
    case Power => "power"
    case Mode => "mode"
    case Temp => "temp"
    case Fan => "fan"
    case Vane => "vane"
    case Dir => "dir"
    case RoomTemp => "room_temp"
  }

  /** The values of the seven attributes. */
  datatype Attrs = Attrs(power: Value, mode: Value, temp: Value, fan: Value, vane: Value,
                         dir: Value, roomTemp: Value)
  {
    /** `getattr(self, a)`. */
    function Get(a: Attr): Value {
      match a
      case Power => power
      case Mode => mode
      case Temp => temp
      case Fan => fan
      case Vane => vane
      case Dir => dir
      case RoomTemp => roomTemp
    }

    /** The attributes with `a` replaced by `v`. */
    function With(a: Attr, v: Value): (r: Attrs)
      ensures r.Get(a) == v
      ensures forall b :: b != a ==> r.Get(b) == Get(b)
    {
      match a
      case Power => this.(power := v)
      case Mode => this.(mode := v)
      case Temp => this.(temp := v)
      case Fan => this.(fan := v)
      case Vane => this.(vane := v)
      case Dir => this.(dir := v)
      case RoomTemp => this.(roomTemp := v)
    }
  }

  /** The `valid` property: every attribute is set, that is, `to_dict` holds
      no None. */
  predicate AllSet(x: Attrs): (r: bool)
    ensures r <==> forall k :: k in Snapshot(x) ==> Snapshot(x)[k] != Nil
  {
    var m := Snapshot(x);
    assert forall k :: k in m ==> exists a: Attr :: k == Name(a) && m[k] == x.Get(a);
    forall a: Attr :: x.Get(a) != Nil
  }

  /** The dictionary `to_dict` returns: each attribute's name mapped to its value. */
  function Snapshot(x: Attrs): (m: map<string, Value>)
    ensures forall a: Attr :: Name(a) in m && m[Name(a)] == x.Get(a)
    ensures forall k :: k in m ==> exists a: Attr :: k == Name(a)
  {
    var m := map["power" := x.power, "mode" := x.mode, "temp" := x.temp, "fan" := x.fan,
                 "vane" := x.vane, "dir" := x.dir, "room_temp" := x.roomTemp];
    assert forall k :: k in m ==>
                         (k == Name(Power) || k == Name(Mode) || k == Name(Temp) || k == Name(Fan) ||
                          k == Name(Vane) || k == Name(Dir) || k == Name(RoomTemp));
    m
  }

  /** Everything a `HeatPump` object updates: its attributes, the `dirty` flag,
      `info_packet_index`, `last_send` (integer milliseconds), `current_packet`,
      `packet_history` and `wanted_state`. */
  datatype State = State(attrs: Attrs, dirty: bool, infoIndex: nat, lastSend: int,
                         current: Option<Packet>, history: map<int, Packet>,
                         wanted: map<string, Value>)

  /** `__setattr__` on a tracked attribute: the value is stored, and the object
      becomes dirty when the value differs from the one it replaces. */
  function Assign(s: State, a: Attr, v: Value): (r: State)
    ensures r.attrs.Get(a) == v
    ensures forall b :: b != a ==> r.attrs.Get(b) == s.attrs.Get(b)
    ensures r.dirty <==> s.dirty || s.attrs.Get(a) != v
    ensures r == s.(attrs := r.attrs, dirty := r.dirty)
  {
    s.(attrs := s.attrs.With(a, v), dirty := s.dirty || s.attrs.Get(a) != v)
  }

  /** `from_dict` overwrites an attribute only when the dictionary holds a
      truthy value for it. */
  predicate Supplied(d: map<string, Value>, a: Attr) {
    Name(a) in d && Truthy(d[Name(a)])
  }

  /** `from_dict` over the attributes of `order`, visited in order. */
  function FromDictOver(s: State, d: map<string, Value>, order: seq<Attr>): State {
    if order == [] then s
    else
      var s' := FromDictOver(s, d, order[..|order| - 1]);
      var a := order[|order| - 1];
      if Supplied(d, a) then Assign(s', a, d[Name(a)]) else s'
  }

  /** `from_dict(d)`. */
  function FromDict(s: State, d: map<string, Value>): State {
    FromDictOver(s, d, AttributeOrder)
  }

  /** The attributes `from_dict` changes over the first `k` attributes. */
  lemma {:induction false} FromDictOverPrefix(s: State, d: map<string, Value>, k: nat)
    requires k <= |AttributeOrder|
    ensures var r := FromDictOver(s, d, AttributeOrder[..k]);
      && r == s.(attrs := r.attrs, dirty := r.dirty)
      && (forall i :: 0 <= i < k ==>
            r.attrs.Get(AttributeOrder[i]) ==
              if Supplied(d, AttributeOrder[i]) then d[Name(AttributeOrder[i])] else s.attrs.Get(AttributeOrder[i]))
      && (forall i :: k <= i < |AttributeOrder| ==> r.attrs.Get(AttributeOrder[i]) == s.attrs.Get(AttributeOrder[i]))
      && (r.dirty <==> s.dirty || exists i :: 0 <= i < k && Supplied(d, AttributeOrder[i]) &&
                                               d[Name(AttributeOrder[i])] != s.attrs.Get(AttributeOrder[i]))
  {
    if k > 0 {
      FromDictOverPrefix(s, d, k - 1);
      assert AttributeOrder[..k][..k - 1] == AttributeOrder[..k - 1];
    }
  }

  /** `from_dict` overwrites exactly the attributes with a truthy value in the
      dictionary, sets `dirty` when one of them changes, and touches nothing else. */
  lemma FromDictEffect(s: State, d: map<string, Value>)
    ensures var r := FromDict(s, d);
      && r == s.(attrs := r.attrs, dirty := r.dirty)
      && (forall a: Attr :: r.attrs.Get(a) == if Supplied(d, a) then d[Name(a)] else s.attrs.Get(a))
      && (r.dirty <==> s.dirty || exists a: Attr :: Supplied(d, a) && d[Name(a)] != s.attrs.Get(a))
  {
    FromDictOverPrefix(s, d, |AttributeOrder|);
    assert AttributeOrder[..7] == AttributeOrder;
    var r := FromDict(s, d);
    forall a: Attr
      ensures r.attrs.Get(a) == if Supplied(d, a) then d[Name(a)] else s.attrs.Get(a)
    {
      assert a == AttributeOrder[IndexOf(a)];
    }
    if exists a: Attr :: Supplied(d, a) && d[Name(a)] != s.attrs.Get(a) {
      var a: Attr :| Supplied(d, a) && d[Name(a)] != s.attrs.Get(a);
      assert a == AttributeOrder[IndexOf(a)];
    }
  }

  /** The position of `a` in `AttributeOrder`. */
  function IndexOf(a: Attr): (i: nat)
    ensures i < |AttributeOrder| && AttributeOrder[i] == a
  {
    match a
    case Power => 0
    case Mode => 1
    case Temp => 2
    case Fan => 3
    case Vane => 4
    case Dir => 5
    case RoomTemp => 6
  }

  /** Feeding an object its own `to_dict` through `from_dict` changes nothing,
      not even `dirty`. */
  lemma FromOwnSnapshot(s: State)
    ensures FromDict(s, Snapshot(s.attrs)) == s
  {
    FromDictEffect(s, Snapshot(s.attrs));
    var r := FromDict(s, Snapshot(s.attrs));
    assert r.attrs == s.attrs by {
      assert forall a: Attr :: r.attrs.Get(a) == s.attrs.Get(a);
      assert r.attrs.power == r.attrs.Get(Power) && r.attrs.mode == r.attrs.Get(Mode);
      assert r.attrs.temp == r.attrs.Get(Temp) && r.attrs.fan == r.attrs.Get(Fan);
      assert r.attrs.vane == r.attrs.Get(Vane) && r.attrs.dir == r.attrs.Get(Dir);
      assert r.attrs.roomTemp == r.attrs.Get(RoomTemp);
    }
  }
}
