/** `MyTag`, a packet tag carrying a vector of bytes (one slot per node)
    and an item count that sizes its serialised form. The ns-3
    `TagBuffer` it writes to and reads from is a byte sequence here. */
module Tag {
  import opened Types

  /** `int`, the type of `SetTagItems`'s argument and of the item count. */
  newtype I32 = x: int | -0x8000_0000 <= x < 0x8000_0000

  /** The conversion of a vector's `size ()` to `int`: the value modulo
      2^32, read as a two's-complement number. */
  function ToI32(x: nat): (r: I32)
    ensures 0 <= x < 0x8000_0000 ==> r as int == x
    ensures (r as int - x) % U32_LIMIT == 0
  {
    var m := x % U32_LIMIT;
    if m < 0x8000_0000 then m as I32 else (m - U32_LIMIT) as I32
  }

  /** The bytes `Serialize` writes for a value: its length truncated to
      one byte (`(uint8_t) size ()`), then the value's bytes in order. */
  function Encode(v: seq<U8>): seq<U8> {
    [(|v| % 0x100) as U8] + v
  }

  /** The buffer holds a length byte and at least that many bytes after
      it, so `Deserialize` can read them all. */
  predicate CanDecode(buf: seq<U8>) {
    |buf| >= 1 && |buf| >= 1 + buf[0] as int
  }

  /** The value `Deserialize` stores: as many bytes as the first byte
      says, taken from just after it. */
  function Decoded(buf: seq<U8>): seq<U8>
    requires CanDecode(buf)
  {
    buf[1..1 + buf[0] as int]
  }

  /** Reading back what was written, whatever follows it in the buffer,
      gives the value truncated to its length modulo 256: the whole value
      exactly when it has at most 255 bytes. */
  lemma DecodeEncode(v: seq<U8>, rest: seq<U8>)
    ensures CanDecode(Encode(v) + rest)
    ensures Decoded(Encode(v) + rest) == v[..|v| % 0x100]
    ensures Decoded(Encode(v) + rest) == v <==> |v| < 0x100
  {
    var b := Encode(v) + rest;
    assert b[0] as int == |v| % 0x100;
    assert b[1..1 + |v| % 0x100] == v[..|v| % 0x100];
    if |v| >= 0x100 {
      assert |v[..|v| % 0x100]| < |v|;
    }
  }

  /** Writing back what was read gives the bytes that were consumed. */
  lemma EncodeDecoded(buf: seq<U8>)
    requires CanDecode(buf)
    ensures Encode(Decoded(buf)) == buf[..1 + buf[0] as int]
  {
    var v := Decoded(buf);
    assert |v| == buf[0] as int && |v| % 0x100 == |v|;
    assert Encode(v)[0] == buf[0];
  }

  /** The item count plus one, as `uint32_t`, counts the bytes `Encode`
      writes, up to the same wrap-around modulo 2^32. */
  lemma {:induction false} ItemsCountEncoding(v: seq<U8>)
    ensures (ToI32(|v|) as int + 1) % U32_LIMIT == |Encode(v)| % U32_LIMIT
  {
    var x := |v|;
    var r := ToI32(x) as int;
    assert (r - x) % U32_LIMIT == 0;
    var q := (r - x) / U32_LIMIT;
    assert r + 1 == (x + 1) + q * U32_LIMIT;
    ModShift(x + 1, q);
  }

  lemma ModShift(a: int, q: int)
    ensures (a + q * U32_LIMIT) % U32_LIMIT == a % U32_LIMIT
  {
  }

  class MyTag {
    var simpleValue: seq<U8>
    var items: I32

    /** An empty byte vector; the initial item count is not modelled. */
    constructor ()
      ensures simpleValue == []
    {
      simpleValue := [];
    }

    /** `GetTagItems`: the item count plus one, converted to `uint32_t`; a
        count below -1 wraps round to the top of the unsigned range. */
    function GetTagItems(): (r: U32)
      reads this
      ensures items as int >= -1 ==> r as int == items as int + 1
      ensures items as int < -1 ==> r as int == items as int + 1 + U32_LIMIT
    {
      ((items as int + 1) % U32_LIMIT) as U32
    }

    method SetTagItems(maxItems: I32)
      modifies this`items
      ensures items == maxItems
    {
      items := maxItems;
    }

    /** The size reserved for the serialised tag is `GetTagItems ()`. While
        the item count is the one `SetSimpleValue` stores, it is the number
        of bytes `Serialize` writes, modulo 2^32. */
    function GetSerializedSize(): (r: U32)
      reads this
      ensures items == ToI32(|simpleValue|) ==> r as int == |Encode(simpleValue)| % U32_LIMIT
    {
      ItemsCountEncoding(simpleValue);
      GetTagItems()
    }

    /** Appends the length byte and then the value's bytes, one by one, to
        the buffer; nothing of the tag changes. */
    method Serialize(buf: seq<U8>) returns (out: seq<U8>)
      ensures out == buf + Encode(simpleValue)
    {
      out := buf + [(|simpleValue| % 0x100) as U8];
      var t := 0;
      while t < |simpleValue|
        invariant 0 <= t <= |simpleValue|
        invariant out == buf + [(|simpleValue| % 0x100) as U8] + simpleValue[..t]
      {
        out := out + [simpleValue[t]];
        t := t + 1;
      }
    }

    /** Reads the length byte and that many bytes after it, one by one, and
        makes them the value; the rest of the buffer is left unread. The
        item count is not touched, so the serialised size stays what the
        last `SetSimpleValue` or `SetTagItems` made it. */
    method Deserialize(buf: seq<U8>) returns (rest: seq<U8>)
      requires CanDecode(buf)
      modifies this`simpleValue
      ensures simpleValue == Decoded(buf)
      ensures rest == buf[1 + buf[0] as int..]
      ensures items == old(items)
    {
      var itemsToRead := buf[0] as int;
      var read: seq<U8> := [];
      var t := 0;
      while t < itemsToRead
        invariant 0 <= t <= itemsToRead
        invariant read == buf[1..1 + t]
      {
        read := read + [buf[1 + t]];
        t := t + 1;
      }
      simpleValue := read;
      rest := buf[1 + itemsToRead..];
    }

    /** Stores the vector and its size as the item count, so the serialised
        size is the number of bytes `Serialize` then writes (modulo 2^32). */
    method SetSimpleValue(value: seq<U8>)
      modifies this`simpleValue, this`items
      ensures simpleValue == value && items == ToI32(|value|)
      ensures GetSerializedSize() as int == |Encode(value)| % U32_LIMIT
    {
      simpleValue := value;
      SetTagItems(ToI32(|simpleValue|));
      ItemsCountEncoding(value);
    }

    /** A copy of the value: slot `t`, numbered from 1, holds what
        `GetSimpleValueByIndex (t)` returns. */
    function GetSimpleValue(): (r: seq<U8>)
      reads this
      ensures |r| == |simpleValue| &&
        forall t :: 1 <= t <= |r| ==> r[t - 1] == GetSimpleValueByIndex(t)
    {
      simpleValue
    }

    /** Slots are numbered from 1, so slot `index` is byte `index` of what
        `Serialize` writes, just after the length byte. */
    function GetSimpleValueByIndex(index: int): (r: U8)
      reads this
      requires 1 <= index <= |simpleValue|
      ensures r == Encode(simpleValue)[index]
    {
      simpleValue[index - 1]
    }

    /** Overwrites slot `index` (numbered from 1); the length, every other
        slot and the item count stay as they were. */
    method SetSimpleValueByIndex(index: int, value: U8)
      requires 1 <= index <= |simpleValue|
      modifies this`simpleValue
      ensures simpleValue == old(simpleValue)[index - 1 := value]
      ensures |simpleValue| == old(|simpleValue|)
      ensures GetSimpleValueByIndex(index) == value
      ensures forall t :: 1 <= t <= |simpleValue| && t != index ==>
        GetSimpleValueByIndex(t) == old(GetSimpleValueByIndex(t))
    {
      simpleValue := simpleValue[index - 1 := value];
    }
  }
}
