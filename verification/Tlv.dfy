/** BER-TLV data objects in a card's memory (src/driver/tlv_object.c, section 8.1 of ITU-T X.690). */
module Tlv {
  import opened Bytes
  import opened MemoryCard
  import opened IccSync

  /** A decoded object: where it starts, its tag, and its value as a range of the memory. */
  datatype Object = Object(address: nat, tag: nat, value: nat, length: nat) {
    function End(): nat { value + length }

    /** TLV_Object_GetRawLength. */
    function RawLength(): nat { length + Max(value - address, 0) }
  }

  /** The one byte at `at`, or nothing at or beyond the end of the data. */
  function Peek(mem: bytes, at: nat): Option<byte> {
    if at < |mem| then Some(mem[at]) else None
  }

  /** The tag field: its value and its length. */
  function TagField(mem: bytes, at: nat): (r: Option<(nat, nat)>)
    ensures r.Some? ==> 1 <= r.value.1 <= 2
  {
    match Peek(mem, at)
    case None => None
    case Some(b) =>
      if b % 32 != 31 then Some((b, 1))
      else match Peek(mem, at + 1)
        case None => None
        case Some(c) => Some((Word(b, c), 2))
  }

  /** The length field: its value and its length. */
  function LengthField(mem: bytes, at: nat): (r: Option<(nat, nat)>)
    ensures r.Some? ==> 1 <= r.value.1 <= 3
  {
    match Peek(mem, at)
    case None => None
    case Some(b) =>
      if b < 128 then Some((b, 1))
      else if b == 0x81 then
        match Peek(mem, at + 1)
        case None => None
        case Some(c) => Some((c, 2))
      else if b == 0x82 then
        if at + 2 < |mem| then Some((Word(mem[at + 1], mem[at + 2]), 3)) else None
      else None
  }

  /** The object that starts at an address. */
  function Decode(mem: bytes, address: nat): (r: Option<Object>)
    ensures r.Some? ==> r.value.address == address && address + 2 <= r.value.value && r.value.End() <= |mem|
  {
    match TagField(mem, address)
    case None => None
    case Some((tag, n)) =>
      match LengthField(mem, address + n)
      case None => None
      case Some((length, m)) =>
        var value := address + n + m;
        if value >= |mem| then None else Some(Object(address, tag, value, Min(length, |mem| - value)))
  }

  // ----- walking -----

  /** The objects found one after another from `at`, until one reaches `end`. */
  function Siblings(mem: bytes, at: nat, end: nat): seq<Object>
    decreases |mem| - at
  {
    match Decode(mem, at)
    case None => []
    case Some(o) => [o] + Rest(mem, o, end)
  }

  /** The objects after one of the walk. */
  function Rest(mem: bytes, o: Object, end: nat): seq<Object>
    requires o.address < o.End()
    decreases |mem| - o.address, 0
  {
    if o.End() < end && o.address < |mem| then Siblings(mem, o.End(), end) else []
  }

  /** The objects inside a constructed object. */
  function Children(mem: bytes, o: Object): seq<Object> {
    Siblings(mem, o.value, o.End())
  }

  /** Every object of a walk lies in the data, and each starts where the one before it ends. */
  lemma {:induction false} WalkAdvances(mem: bytes, at: nat, end: nat, k: nat)
    requires k < |Siblings(mem, at, end)|
    ensures var o := Siblings(mem, at, end)[k];
            && at + 2 * k <= o.address && o.address + 2 <= o.value && o.End() <= |mem|
            && o.address == if k == 0 then at else Siblings(mem, at, end)[k - 1].End()
    decreases k
  {
    if k > 0 {
      WalkAdvances(mem, Decode(mem, at).value.End(), end, k - 1);
    }
  }

  /** The children start inside their parent, unless the parent is empty: then the walk takes the object
      after it for a child. */
  lemma {:induction false} ChildrenStartInside(mem: bytes, o: Object)
    ensures (forall c | c in Children(mem, o) :: o.value <= c.address < o.End()) <==> o.length > 0 || Decode(mem, o.value).None?
  {
    var cs := Children(mem, o);
    if o.length > 0 {
      forall k | 0 <= k < |cs|
        ensures o.value <= cs[k].address < o.End()
      {
        WalkAdvances(mem, o.value, o.End(), k);
        StepsInside(mem, o.value, o.End(), k);
      }
    } else if Decode(mem, o.value).Some? {
      assert cs[0] in cs;
    }
  }

  /** Only the first object of a walk may start at or after its end. */
  lemma {:induction false} StepsInside(mem: bytes, at: nat, end: nat, k: nat)
    requires k < |Siblings(mem, at, end)|
    ensures k > 0 ==> Siblings(mem, at, end)[k].address < end
    decreases k
  {
    if k > 0 {
      var next := Decode(mem, at).value.End();
      if k == 1 {
        WalkAdvances(mem, next, end, 0);
      } else {
        StepsInside(mem, next, end, k - 1);
      }
    }
  }

  /** Only the last object of a walk may reach or pass its end. */
  lemma {:induction false} StepsEndInside(mem: bytes, at: nat, end: nat, k: nat)
    requires k + 1 < |Siblings(mem, at, end)|
    ensures Siblings(mem, at, end)[k].End() < end
    decreases k
  {
    if k > 0 {
      StepsEndInside(mem, Decode(mem, at).value.End(), end, k - 1);
    }
  }

  /** The children lie wholly inside their parent if and only if the last one does not end behind it: a length
      is only cut at the end of the memory. */
  lemma {:induction false} ChildrenInside(mem: bytes, o: Object)
    ensures var cs := Children(mem, o);
            (forall c | c in cs :: o.value <= c.address && c.End() <= o.End()) <==> cs == [] || cs[|cs| - 1].End() <= o.End()
  {
    var cs := Children(mem, o);
    if cs != [] {
      forall k | 0 <= k < |cs|
        ensures o.value <= cs[k].address && (k + 1 < |cs| ==> cs[k].End() < o.End())
      {
        WalkAdvances(mem, o.value, o.End(), k);
        if k + 1 < |cs| {
          StepsEndInside(mem, o.value, o.End(), k);
        }
      }
      assert cs[|cs| - 1] in cs;
    }
  }

  lemma {:induction false} ShortObject(mem: bytes, at: nat)
    requires at + 2 < |mem| && mem[at] % 32 != 31 && mem[at + 1] < 128
    ensures Decode(mem, at) == Some(Object(at, mem[at], at + 2, Min(mem[at + 1], |mem| - at - 2)))
  {
  }

  /** In 30 00 53 01 xx the empty sequence has the object behind it as a child. */
  lemma {:induction false} EmptyParent(mem: bytes) returns (o: Object, c: Object)
    requires |mem| == 5 && mem[0] == 0x30 && mem[1] == 0x00 && mem[2] == 0x53 && mem[3] == 0x01
    ensures Decode(mem, 0) == Some(o) && Children(mem, o) == [c] && o.length == 0 && c.address == o.End() && c.length == 1
  {
    ShortObject(mem, 0);
    ShortObject(mem, 2);
    o, c := Decode(mem, 0).value, Decode(mem, 2).value;
    assert Rest(mem, c, o.End()) == [];
  }

  /** In 30 03 53 04 and four more bytes the child ends three bytes behind its parent. */
  lemma {:induction false} OverlongChild(mem: bytes) returns (o: Object, c: Object)
    requires |mem| == 8 && mem[0] == 0x30 && mem[1] == 0x03 && mem[2] == 0x53 && mem[3] == 0x04
    ensures Decode(mem, 0) == Some(o) && Children(mem, o) == [c] && o.End() == 5 && c.address == o.value && c.End() == 8
  {
    ShortObject(mem, 0);
    ShortObject(mem, 2);
    o, c := Decode(mem, 0).value, Decode(mem, 2).value;
    assert Rest(mem, c, o.End()) == [];
  }

  /** The first object with a tag. */
  function FirstWith(os: seq<Object>, tag: nat): (r: Option<Object>)
    ensures r.None? ==> forall o | o in os :: o.tag != tag
  {
    if os == [] then None else if os[0].tag == tag then Some(os[0]) else FirstWith(os[1..], tag)
  }

  lemma {:induction false} FirstWithIsFirst(os: seq<Object>, tag: nat) returns (k: nat)
    requires FirstWith(os, tag).Some?
    ensures k < |os| && FirstWith(os, tag) == Some(os[k]) && os[k].tag == tag
    ensures forall j | 0 <= j < k :: os[j].tag != tag
  {
    if os[0].tag == tag {
      k := 0;
    } else {
      k := FirstWithIsFirst(os[1..], tag);
      k := k + 1;
    }
  }

  // ----- encoding -----

  predicate ValidTag(tag: nat) { if tag < 256 then tag % 32 != 31 else tag < 0x1_0000 && tag / 256 % 32 == 31 }

  function EncodeTag(tag: nat): bytes
    requires ValidTag(tag)
  {
    if tag < 256 then [tag] else [tag / 256, tag % 256]
  }

  function EncodeLength(n: nat): bytes
    requires n < 0x1_0000
  {
    if n < 128 then [n] else if n < 256 then [0x81, n] else [0x82, n / 256, n % 256]
  }

  datatype AnyItem = Item(tag: nat, content: bytes)

  predicate ValidItem(i: AnyItem) { ValidTag(i.tag) && 1 <= |i.content| < 0x1_0000 }

  type Item = i: AnyItem | ValidItem(i) witness Item(0, [0])

  function Encode(i: Item): bytes {
    EncodeTag(i.tag) + EncodeLength(|i.content|) + i.content
  }

  /** The bytes of an item. */
  lemma {:induction false} EncodeBytes(i: Item)
    ensures var tag := if i.tag < 256 then [i.tag] else [i.tag / 256, i.tag % 256];
            var n := |i.content|;
            Encode(i) == tag + (if n < 128 then [n] else if n < 256 then [0x81, n] else [0x82, n / 256, n % 256]) + i.content
  {
  }

  /** The memory holds these bytes at a place. */
  predicate Holds(mem: bytes, at: nat, s: bytes) {
    at + |s| <= |mem| && mem[at..at + |s|] == s
  }

  lemma {:induction false} HoldsParts(mem: bytes, at: nat, a: bytes, b: bytes)
    requires Holds(mem, at, a + b)
    ensures Holds(mem, at, a) && Holds(mem, at + |a|, b)
  {
    assert mem[at..at + |a|] == mem[at..at + |a + b|][..|a|];
    assert mem[at + |a|..at + |a| + |b|] == mem[at..at + |a + b|][|a|..];
  }

  /** What an object says: its tag and the bytes of its value. */
  predicate Says(mem: bytes, o: Object, i: Item) {
    o.tag == i.tag && o.End() <= |mem| && mem[o.value..o.End()] == i.content
  }

  /** Decoding an encoded item gives back its tag and its value. */
  lemma {:induction false} DecodeEncode(mem: bytes, at: nat, i: Item)
    requires Holds(mem, at, Encode(i))
    ensures var r := Decode(mem, at);
            r.Some? && r.value.address == at && r.value.End() == at + |Encode(i)| && Says(mem, r.value, i)
  {
    var t, l := EncodeTag(i.tag), EncodeLength(|i.content|);
    HoldsParts(mem, at, t + l, i.content);
    HoldsParts(mem, at, t, l);
    TagRoundTrip(mem, at, i.tag);
    LengthRoundTrip(mem, at + |t|, |i.content|);
  }

  lemma TagRoundTrip(mem: bytes, at: nat, tag: nat)
    requires ValidTag(tag) && Holds(mem, at, EncodeTag(tag))
    ensures TagField(mem, at) == Some((tag, |EncodeTag(tag)|))
  {
  }

  lemma LengthRoundTrip(mem: bytes, at: nat, n: nat)
    requires n < 0x1_0000 && Holds(mem, at, EncodeLength(n))
    ensures LengthField(mem, at) == Some((n, |EncodeLength(n)|))
  {
  }

  function EncodeAll(items: seq<Item>): bytes {
    if items == [] then [] else Encode(items[0]) + EncodeAll(items[1..])
  }

  predicate AllSay(mem: bytes, os: seq<Object>, items: seq<Item>) {
    |os| == |items| && forall k | 0 <= k < |os| :: Says(mem, os[k], items[k])
  }

  lemma AllSayCons(mem: bytes, o: Object, os: seq<Object>, items: seq<Item>)
    requires items != [] && Says(mem, o, items[0]) && AllSay(mem, os, items[1..])
    ensures AllSay(mem, [o] + os, items)
  {
  }

  lemma EncodedNotEmpty(items: seq<Item>)
    ensures EncodeAll(items) == [] <==> items == []
  {
  }

  /** The first of encoded items is decoded, and the walk goes on behind it, at `next`. */
  lemma {:induction false} FirstItem(mem: bytes, at: nat, items: seq<Item>, end: nat) returns (o: Object, next: nat)
    requires items != [] && Holds(mem, at, EncodeAll(items)) && end == at + |EncodeAll(items)|
    ensures Siblings(mem, at, end) == [o] + (if |items| > 1 then Siblings(mem, next, end) else [])
    ensures Says(mem, o, items[0]) && Holds(mem, next, EncodeAll(items[1..])) && end == next + |EncodeAll(items[1..])|
  {
    HoldsParts(mem, at, Encode(items[0]), EncodeAll(items[1..]));
    DecodeEncode(mem, at, items[0]);
    EncodedNotEmpty(items[1..]);
    o, next := Decode(mem, at).value, at + |Encode(items[0])|;
  }

  /** Walking over encoded items, up to their end, finds exactly those items in order. */
  lemma {:induction false} WalkFindsItems(mem: bytes, at: nat, items: seq<Item>, end: nat)
    requires items != [] && Holds(mem, at, EncodeAll(items)) && end == at + |EncodeAll(items)|
    ensures AllSay(mem, Siblings(mem, at, end), items)
    decreases |items|
  {
    var o, next := FirstItem(mem, at, items, end);
    if |items| > 1 {
      WalkFindsItems(mem, next, items[1..], end);
      AllSayCons(mem, o, Siblings(mem, next, end), items);
    } else {
      AllSayCons(mem, o, [], items);
    }
  }

  /** A constructed object around encoded items has exactly those items as its children. */
  lemma {:induction false} ChildrenOfEncoded(mem: bytes, at: nat, tag: nat, items: seq<Item>)
    requires items != [] && ValidTag(tag) && 1 <= |EncodeAll(items)| < 0x1_0000
    requires Holds(mem, at, Encode(Item(tag, EncodeAll(items))))
    ensures Decode(mem, at).Some? && AllSay(mem, Children(mem, Decode(mem, at).value), items)
  {
    DecodeEncode(mem, at, Item(tag, EncodeAll(items)));
    var o := Decode(mem, at).value;
    WalkFindsItems(mem, o.value, items, o.End());
  }

  // ----- reading objects from a card -----

  /** The callback through which objects are read: n bytes of the card, if they lie in its memory. */
  method GetData(card: Card, at: nat, n: nat) returns (r: Option<bytes>)
    requires card.Valid() && n > 0
    modifies card`active, card`pinNeeded, card.ifd`faults, card.ifd`powered, card.ifd`verified, card.ifd`readAt
    ensures card.Valid()
    ensures old(card.ifd.Healthy()) ==> card.ifd.Healthy() && (old(card.PinInv()) ==> card.PinInv())
    ensures r.Some? ==> at + n <= |card.ifd.mem| && r.value == card.ifd.mem[at..at + n]
    ensures old(card.ifd.Healthy()) && at + n <= |card.ifd.mem| ==> r.Some?
  {
    r := None;
    if at + n <= |card.ifd.mem| {
      var ret, data := card.Read(at, n);
      if ret == Ok {
        r := Some(data);
      }
    }
  }

  /** Reads the tag field as TLV_Object_New does. */
  method ReadTag(card: Card, at: nat) returns (r: Option<(nat, nat)>)
    requires card.Valid()
    modifies card`active, card`pinNeeded, card.ifd`faults, card.ifd`powered, card.ifd`verified, card.ifd`readAt
    ensures card.Valid()
    ensures old(card.ifd.Healthy()) ==> card.ifd.Healthy() && (old(card.PinInv()) ==> card.PinInv())
    ensures r.Some? || old(card.ifd.Healthy()) ==> r == TagField(card.ifd.mem, at)
  {
    r := None;
    var first := GetData(card, at, 1);
    if first.None? {
      return;
    }
    var b := first.value[0];
    if b % 32 == 31 {
      var second := GetData(card, at + 1, 1);
      if second.Some? {
        r := Some((Word(b, second.value[0]), 2));
      }
    } else {
      r := Some((b, 1));
    }
  }

  /** Reads the length field as TLV_Object_New does. */
  method ReadLength(card: Card, at: nat) returns (r: Option<(nat, nat)>)
    requires card.Valid()
    modifies card`active, card`pinNeeded, card.ifd`faults, card.ifd`powered, card.ifd`verified, card.ifd`readAt
    ensures card.Valid()
    ensures old(card.ifd.Healthy()) ==> card.ifd.Healthy() && (old(card.PinInv()) ==> card.PinInv())
    ensures r.Some? || old(card.ifd.Healthy()) ==> r == LengthField(card.ifd.mem, at)
  {
    r := None;
    var first := GetData(card, at, 1);
    if first.None? {
      return;
    }
    var b := first.value[0];
    if b < 128 {
      return Some((b, 1));
    }
    if b == 0x81 {
      var one := GetData(card, at + 1, 1);
      if one.Some? {
        r := Some((one.value[0], 2));
      }
    } else if b == 0x82 {
      var two := GetData(card, at + 1, 2);
      if two.Some? {
        r := Some((Word(two.value[0], two.value[1]), 3));
      }
    }
  }

  /** TLV_Object_New: whatever is found is really there, and on a healthy reader it is found. */
  method New(card: Card, address: nat) returns (r: Option<Object>)
    requires card.Valid()
    modifies card`active, card`pinNeeded, card.ifd`faults, card.ifd`powered, card.ifd`verified, card.ifd`readAt
    ensures card.Valid()
    ensures old(card.ifd.Healthy()) ==> card.ifd.Healthy() && (old(card.PinInv()) ==> card.PinInv())
    ensures r.Some? || old(card.ifd.Healthy()) ==> r == Decode(card.ifd.mem, address)
  {
    r := None;
    var tag := ReadTag(card, address);
    if tag.None? {
      return;
    }
    var i := tag.value.1;
    var length := ReadLength(card, address + i);
    if length.None? {
      return;
    }
    i := i + length.value.1;
    if address + i < |card.ifd.mem| {
      var value := address + i;
      r := Some(Object(address, tag.value.0, value, Min(length.value.0, |card.ifd.mem| - value)));
    }
  }

  /** TLV_Object_Shift: the object right after this one. */
  method Shift(card: Card, o: Object) returns (r: Option<Object>)
    requires card.Valid()
    modifies card`active, card`pinNeeded, card.ifd`faults, card.ifd`powered, card.ifd`verified, card.ifd`readAt
    ensures card.Valid()
    ensures old(card.ifd.Healthy()) ==> card.ifd.Healthy() && (old(card.PinInv()) ==> card.PinInv())
    ensures r.Some? || old(card.ifd.Healthy()) ==> r == Decode(card.ifd.mem, o.value + o.length)
  {
    r := New(card, o.value + o.length);
  }

  /** A decoded object lies in the memory. */
  predicate Placed(mem: bytes, o: Object) { o.address + 2 <= o.value && o.End() <= |mem| }

  /** The objects that iterating has still to give: all children, or those after the current one. */
  function Coming(mem: bytes, o: Object, current: Option<Object>): seq<Object>
    requires current.Some? ==> Placed(mem, current.value)
  {
    match current
    case None => Children(mem, o)
    case Some(c) => Rest(mem, c, o.End())
  }

  /** The coming objects are the one decoded at the next place and those after it. */
  lemma {:induction false} ComingUnfold(mem: bytes, o: Object, current: Option<Object>)
    requires current.Some? ==> Placed(mem, current.value)
    ensures var more := current.None? || current.value.End() < o.End();
            var next := Decode(mem, if current.None? then o.value else current.value.End());
            Coming(mem, o, current) == if more && next.Some? then [next.value] + Coming(mem, o, next) else []
  {
    var at := if current.None? then o.value else current.value.End();
    var next := Decode(mem, at);
    assert Siblings(mem, at, o.End()) == if next.Some? then [next.value] + Rest(mem, next.value, o.End()) else [];
  }

  /** TLV_Object_Iterate: gives the first of the coming objects. */
  method Iterate(card: Card, o: Object, current: Option<Object>) returns (next: Option<Object>)
    requires card.Valid() && (current.Some? ==> Placed(card.ifd.mem, current.value))
    modifies card`active, card`pinNeeded, card.ifd`faults, card.ifd`powered, card.ifd`verified, card.ifd`readAt
    ensures card.Valid()
    ensures old(card.ifd.Healthy()) ==> card.ifd.Healthy() && (old(card.PinInv()) ==> card.PinInv())
    ensures next.Some? ==> Placed(card.ifd.mem, next.value) && (current.Some? ==> current.value.address < next.value.address)
    ensures next.Some? ==> Coming(card.ifd.mem, o, current) == [next.value] + Coming(card.ifd.mem, o, next)
    ensures old(card.ifd.Healthy()) && next.None? ==> Coming(card.ifd.mem, o, current) == []
  {
    ComingUnfold(card.ifd.mem, o, current);
    next := None;
    if current.None? {
      next := New(card, o.value);
    } else if current.value.value + current.value.length < o.value + o.length {
      next := Shift(card, current.value);
    }
  }

  /** TLV_Object_GetObjectByTag: the first child with the tag. */
  method GetObjectByTag(card: Card, o: Object, tag: nat) returns (r: Option<Object>)
    requires card.Valid()
    modifies card`active, card`pinNeeded, card.ifd`faults, card.ifd`powered, card.ifd`verified, card.ifd`readAt
    ensures card.Valid()
    ensures old(card.ifd.Healthy()) ==> card.ifd.Healthy() && (old(card.PinInv()) ==> card.PinInv())
    ensures r.Some? || old(card.ifd.Healthy()) ==> r == FirstWith(Children(card.ifd.mem, o), tag)
    ensures r.Some? ==> Placed(card.ifd.mem, r.value)
  {
    ghost var mem := card.ifd.mem;
    ghost var found := FirstWith(Coming(mem, o, None), tag);
    r := Iterate(card, o, None);
    while r.Some? && r.value.tag != tag
      invariant card.Valid() && (r.Some? ==> Placed(mem, r.value))
      invariant old(card.ifd.Healthy()) ==> card.ifd.Healthy() && (old(card.PinInv()) ==> card.PinInv())
      invariant r.Some? ==> found == FirstWith([r.value] + Coming(mem, o, r), tag)
      invariant old(card.ifd.Healthy()) && r.None? ==> found == None
      decreases if r.Some? then |mem| + 1 - r.value.address else 0
    {
      FirstWithCons(r.value, Coming(mem, o, r), tag);
      r := Iterate(card, o, r);
    }
  }

  lemma FirstWithCons(o: Object, os: seq<Object>, tag: nat)
    ensures FirstWith([o] + os, tag) == if o.tag == tag then Some(o) else FirstWith(os, tag)
  {
  }

  /** TLV_Object_GetObjectBySec: the child with that number, counted from zero. */
  method GetObjectBySec(card: Card, o: Object, sec: nat) returns (r: Option<Object>)
    requires card.Valid()
    modifies card`active, card`pinNeeded, card.ifd`faults, card.ifd`powered, card.ifd`verified, card.ifd`readAt
    ensures card.Valid()
    ensures old(card.ifd.Healthy()) ==> card.ifd.Healthy() && (old(card.PinInv()) ==> card.PinInv())
    ensures r.Some? ==> sec < |Children(card.ifd.mem, o)| && r.value == Children(card.ifd.mem, o)[sec]
    ensures old(card.ifd.Healthy()) && r.None? ==> |Children(card.ifd.mem, o)| <= sec
  {
    ghost var mem, all := card.ifd.mem, Coming(card.ifd.mem, o, None);
    r := Iterate(card, o, None);
    var i := 0;
    while i < sec && r.Some?
      invariant card.Valid() && (r.Some? ==> Placed(mem, r.value))
      invariant old(card.ifd.Healthy()) ==> card.ifd.Healthy() && (old(card.PinInv()) ==> card.PinInv())
      invariant i <= sec
      invariant r.Some? ==> i < |all| && all[i] == r.value && all[i + 1..] == Coming(mem, o, r)
      invariant old(card.ifd.Healthy()) && r.None? ==> |all| <= i
    {
      ghost var left := Coming(mem, o, r);
      assert left != [] ==> all[i + 1] == left[0] && all[i + 2..] == left[1..];
      r := Iterate(card, o, r);
      i := i + 1;
    }
  }

  /** TLV_Object_GetValue: at most `room` bytes of the value. */
  method GetValue(card: Card, o: Object, room: nat) returns (r: Option<bytes>)
    requires card.Valid() && o.End() <= |card.ifd.mem|
    modifies card`active, card`pinNeeded, card.ifd`faults, card.ifd`powered, card.ifd`verified, card.ifd`readAt
    ensures card.Valid()
    ensures old(card.ifd.Healthy()) ==> card.ifd.Healthy() && (old(card.PinInv()) ==> card.PinInv())
    ensures r.Some? || old(card.ifd.Healthy()) ==> r == Some(card.ifd.mem[o.value..o.End()][..Min(room, o.length)])
  {
    var length := Min(room, o.length);
    if length == 0 {
      return Some([]);
    }
    r := GetData(card, o.value, length);
    assert card.ifd.mem[o.value..o.End()][..length] == card.ifd.mem[o.value..o.value + length];
  }

  /** Two byte strings agree as far as both go. */
  predicate Agree(a: bytes, b: bytes) {
    var n := Min(|a|, |b|);
    a[..n] == b[..n]
  }

  /** TLV_Object_CompareValue: compares as far as both go, and cuts the given value down to that. */
  method CompareValue(card: Card, o: Object, value: bytes) returns (same: bool, cut: bytes)
    requires card.Valid() && o.End() <= |card.ifd.mem|
    modifies card`active, card`pinNeeded, card.ifd`faults, card.ifd`powered, card.ifd`verified, card.ifd`readAt
    ensures card.Valid()
    ensures old(card.ifd.Healthy()) ==> card.ifd.Healthy() && (old(card.PinInv()) ==> card.PinInv())
    ensures cut == value[..Min(|value|, o.length)]
    ensures same ==> Agree(value, card.ifd.mem[o.value..o.End()])
    ensures old(card.ifd.Healthy()) ==> same == Agree(value, card.ifd.mem[o.value..o.End()])
  {
    var buffer := GetValue(card, o, |value|);
    cut := value[..Min(|value|, o.length)];
    same := buffer.Some? && buffer.value == cut;
  }
}
