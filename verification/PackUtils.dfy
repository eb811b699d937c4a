/** Packed chunks (src/BryptMessage/PackUtils.hpp): integers in big-endian order and sized byte
    strings, appended to a growing buffer and read back with a moving cursor. */
module PackUtils {
  import opened Bytes
  import opened Positional

  // ---- The format ----

  /** The low-order `width` bytes, which is what the cast to the field's type keeps. */
  function Chunk(value: nat, width: nat): (bytes: seq<byte>)
    ensures |bytes| == width
  {
    Digits(256, value, width)
  }

  function SizedChunk(source: seq<byte>, width: nat): (bytes: seq<byte>)
    ensures |bytes| == width + |source|
  {
    Chunk(|source|, width) + source
  }

  /** What reading from the front of some bytes yields; a short read consumes nothing. */
  datatype Taken<+T> = Short | Taken(value: T, rest: seq<byte>)

  function TakeInteger(bytes: seq<byte>, width: nat): (r: Taken<nat>)
    ensures r.Taken? <==> width <= |bytes|
    ensures r.Taken? ==> r.rest == bytes[width..]
  {
    if |bytes| < width then Short
    else
      ValueBound(256, bytes[..width]);
      Taken(Value(256, bytes[..width]), bytes[width..])
  }

  function TakeBytes(bytes: seq<byte>, count: nat): Taken<seq<byte>> {
    if |bytes| < count then Short else Taken(bytes[..count], bytes[count..])
  }

  function TakeByte(bytes: seq<byte>): Taken<byte> {
    if bytes == [] then Short else Taken(bytes[0], bytes[1..])
  }

  lemma Widths()
    ensures Pow(256, 1) == 0x100 && Pow(256, 2) == 0x1_0000
    ensures Pow(256, 4) == 0x1_0000_0000
    ensures Pow(256, 8) == 0x1_0000_0000_0000_0000
  {
    assert Pow(256, 1) == 256 * Pow(256, 0);
    assert Pow(256, 2) == 256 * Pow(256, 1);
    PowAdd(256, 2, 2);
    PowAdd(256, 4, 4);
  }

  /** Reading an integer undoes packing it, and packing what was read gives the bytes back. */
  lemma TakeChunk(value: nat, width: nat, tail: seq<byte>)
    requires value < Pow(256, width)
    ensures TakeInteger(Chunk(value, width) + tail, width) == Taken(value, tail)
  {
    var bytes := Chunk(value, width) + tail;
    ValueOfDigits(256, value, width);
    assert bytes[..width] == Chunk(value, width) && bytes[width..] == tail;
  }

  lemma ChunkTaken(bytes: seq<byte>, width: nat)
    requires TakeInteger(bytes, width).Taken?
    ensures
      var r := TakeInteger(bytes, width);
      r.value < Pow(256, width) && bytes == Chunk(r.value, width) + r.rest
  {
    ValueBound(256, bytes[..width]);
    DigitsOfValue(256, bytes[..width]);
    assert bytes == bytes[..width] + bytes[width..];
  }

  lemma TakeFront(front: seq<byte>, tail: seq<byte>)
    ensures TakeBytes(front + tail, |front|) == Taken(front, tail)
  {
    assert (front + tail)[..|front|] == front && (front + tail)[|front|..] == tail;
  }

  lemma TakeOne(b: byte, tail: seq<byte>)
    ensures TakeByte([b] + tail) == Taken(b, tail)
  {
    assert ([b] + tail)[1..] == tail;
  }

  /** A chunk of one byte is that byte. */
  lemma ByteChunk(b: byte)
    ensures Chunk(b, 1) == [b]
  {
    assert Digits(256, b, 1) == Digits(256, b / 256, 0) + [b % 256];
  }

  // ---- Byte by byte ----

  /** The two, four or eight bytes at a place, as a number whose first byte counts most. */
  function TwoBytes(bytes: seq<byte>, at: nat): nat
    requires at + 2 <= |bytes|
  {
    bytes[at] as int * 0x100 + bytes[at + 1] as int
  }

  function FourBytes(bytes: seq<byte>, at: nat): nat
    requires at + 4 <= |bytes|
  {
    TwoBytes(bytes, at) * 0x1_0000 + TwoBytes(bytes, at + 2)
  }

  function EightBytes(bytes: seq<byte>, at: nat): nat
    requires at + 8 <= |bytes|
  {
    FourBytes(bytes, at) * 0x1_0000_0000 + FourBytes(bytes, at + 4)
  }

  /** Integers are read in big-endian order. */
  lemma IntegersAt(bytes: seq<byte>, at: nat)
    ensures at + 2 <= |bytes| ==> TakeInteger(bytes[at..], 2) == Taken(TwoBytes(bytes, at), bytes[at + 2..])
    ensures at + 4 <= |bytes| ==> TakeInteger(bytes[at..], 4) == Taken(FourBytes(bytes, at), bytes[at + 4..])
    ensures at + 8 <= |bytes| ==> TakeInteger(bytes[at..], 8) == Taken(EightBytes(bytes, at), bytes[at + 8..])
  {
    if at + 2 <= |bytes| { TwoBytesAt(bytes, at); }
    if at + 4 <= |bytes| { FourBytesAt(bytes, at); }
    if at + 8 <= |bytes| { EightBytesAt(bytes, at); }
  }

  lemma TwoBytesAt(bytes: seq<byte>, at: nat)
    requires at + 2 <= |bytes|
    ensures Value(256, bytes[at..at + 2]) == TwoBytes(bytes, at)
    ensures bytes[at..][..2] == bytes[at..at + 2] && bytes[at..][2..] == bytes[at + 2..]
  {
    var field := bytes[at..at + 2];
    assert field[..1] == [bytes[at]] && [bytes[at]][..0] == [];
    assert Value(256, field) == Value(256, field[..1]) * 256 + field[1];
    assert Value(256, [bytes[at]]) == Value(256, [bytes[at]][..0]) * 256 + bytes[at];
  }

  lemma FourBytesAt(bytes: seq<byte>, at: nat)
    requires at + 4 <= |bytes|
    ensures Value(256, bytes[at..at + 4]) == FourBytes(bytes, at)
    ensures bytes[at..][..4] == bytes[at..at + 4] && bytes[at..][4..] == bytes[at + 4..]
  {
    TwoBytesAt(bytes, at);
    TwoBytesAt(bytes, at + 2);
    Widths();
    ValueConcat(256, bytes[at..at + 2], bytes[at + 2..at + 4]);
    assert bytes[at..at + 2] + bytes[at + 2..at + 4] == bytes[at..at + 4];
  }

  lemma EightBytesAt(bytes: seq<byte>, at: nat)
    requires at + 8 <= |bytes|
    ensures Value(256, bytes[at..at + 8]) == EightBytes(bytes, at)
    ensures bytes[at..][..8] == bytes[at..at + 8] && bytes[at..][8..] == bytes[at + 8..]
  {
    FourBytesAt(bytes, at);
    FourBytesAt(bytes, at + 4);
    Widths();
    ValueConcat(256, bytes[at..at + 4], bytes[at + 4..at + 8]);
    assert bytes[at..at + 4] + bytes[at + 4..at + 8] == bytes[at..at + 8];
  }

  // ---- The buffer and the cursor ----

  /** A growing vector. An integer is stored through the address that the end of the vector had before it
      was enlarged, so it may only be packed into space that was reserved; bytes are inserted, and make
      room for themselves. */
  class Buffer {
    var data: seq<byte>
    var capacity: nat

    predicate Valid()
      reads this
    {
      |data| <= capacity
    }

    constructor ()
      ensures Valid() && data == [] && capacity == 0
    {
      data, capacity := [], 0;
    }

    method Reserve(size: nat)
      requires Valid()
      modifies `capacity
      ensures Valid() && capacity >= size && capacity >= old(capacity)
    {
      if capacity < size { capacity := size; }
    }

    method PackInteger(value: nat, width: nat)
      requires |data| + width <= capacity
      modifies `data
      ensures Valid() && data == old(data) + Chunk(value, width)
    {
      data := data + Chunk(value, width);
    }

    method PackByte(b: byte)
      requires |data| < capacity
      modifies `data
      ensures Valid() && data == old(data) + [b]
    {
      data := data + [b];
    }

    method PackBytes(source: seq<byte>)
      requires Valid()
      modifies this
      ensures Valid() && data == old(data) + source
      ensures capacity >= old(capacity)
    {
      Reserve(|data| + |source|);
      data := data + source;
    }

    method PackSized(source: seq<byte>, width: nat)
      requires |data| + width <= capacity
      modifies this
      ensures Valid() && data == old(data) + SizedChunk(source, width)
      ensures capacity >= old(capacity)
    {
      PackInteger(|source|, width);
      PackBytes(source);
    }
  }

  class Cursor {
    const data: seq<byte>
    var begin: nat

    ghost predicate Valid()
      reads this
    {
      begin <= |data|
    }

    /** The bytes between the cursor and the end. */
    ghost function Rest(): seq<byte>
      requires Valid()
      reads this
    {
      data[begin..]
    }

    constructor (data: seq<byte>)
      ensures Valid() && Rest() == data
    {
      this.data := data;
      begin := 0;
    }

    method UnpackInteger(width: nat) returns (value: Option<nat>)
      requires Valid()
      modifies this
      ensures Valid()
      ensures
        match TakeInteger(old(Rest()), width)
        case Short => value == None && Rest() == old(Rest())
        case Taken(v, rest) => value == Some(v) && Rest() == rest
    {
      if |data| - begin < width { return None; }
      ghost var rest := Rest();
      assert rest[..width] == data[begin..begin + width];
      ValueBound(256, data[begin..begin + width]);
      value := Some(Value(256, data[begin..begin + width]));
      begin := begin + width;
    }

    method UnpackByte() returns (value: Option<byte>)
      requires Valid()
      modifies this
      ensures Valid()
      ensures
        match TakeByte(old(Rest()))
        case Short => value == None && Rest() == old(Rest())
        case Taken(v, rest) => value == Some(v) && Rest() == rest
    {
      if |data| - begin < 1 { return None; }
      value := Some(data[begin]);
      begin := begin + 1;
    }

    method UnpackBytes(count: nat) returns (value: Option<seq<byte>>)
      requires Valid()
      modifies this
      ensures Valid()
      ensures
        match TakeBytes(old(Rest()), count)
        case Short => value == None && Rest() == old(Rest())
        case Taken(v, rest) => value == Some(v) && Rest() == rest
    {
      if |data| - begin < count { return None; }
      assert Rest()[..count] == data[begin..begin + count];
      value := Some(data[begin..begin + count]);
      begin := begin + count;
    }
  }
}
