/** The Z85 codec of src/Utilities/Z85.hpp (ZeroMQ RFC 32): four bytes become five characters. */
module Z85 {
  import opened Bytes
  import opened Positional

  const ENCODE_DIVISOR := 52200625      // 85^4
  const DECODE_DIVISOR := 0x100_0000    // 256^3
  const DECODED_BLOCK_MAXIMUM := 0xFFFF_FFFF
  const VALUE_UPPER_BOUND := 50529027    // DECODED_BLOCK_MAXIMUM / 85, which leaves no remainder

  // ---- Sizes ----

  function PaddingBytes(size: nat): (r: nat)
    ensures size + r == 4 * DecodedBlocks(size)
  {
    (4 - size % 4) % 4
  }

  /** The number of four byte blocks that hold `size` bytes. */
  function DecodedBlocks(size: nat): (n: nat)
    ensures size <= 4 * n < size + 4
  {
    (size + 3) / 4
  }

  function EncodedSize(size: nat): (r: nat)
    ensures r == 5 * DecodedBlocks(size)
  {
    (size + PaddingBytes(size)) * 5 / 4
  }

  function DecodedSize(size: nat): nat {
    size * 4 / 5
  }

  lemma DecodedSizeExact(n: nat)
    ensures DecodedSize(5 * n) == 4 * n
  {
  }

  // ---- Character tables ----

  /** The alphabet 0-9 a-z A-Z . - : + = ^ ! / * ? & < > ( ) [ ] { } @ % $ # */
  function EncodeMapping(digit: int): (c: byte)
    requires 0 <= digit < 85
    ensures 32 <= c < 128
  {
    if digit < 10 then digit + 48
    else if digit < 36 then digit - 10 + 97
    else if digit < 62 then digit - 36 + 65
    else match digit
      case 62 => 46 case 63 => 45 case 64 => 58 case 65 => 43 case 66 => 61 case 67 => 94
      case 68 => 33 case 69 => 47 case 70 => 42 case 71 => 63 case 72 => 38 case 73 => 60
      case 74 => 62 case 75 => 40 case 76 => 41 case 77 => 91 case 78 => 93 case 79 => 123
      case 80 => 125 case 81 => 64 case 82 => 37 case 83 => 36 case _ => 35
  }

  /** The alphabet of ZeroMQ RFC 32, which the table has to hold, in rows of ten. */
  const ALPHABET: seq<string> := [
    "0123456789", "abcdefghij", "klmnopqrst", "uvwxyzABCD", "EFGHIJKLMN",
    "OPQRSTUVWX", "YZ.-:+=^!/", "*?&<>()[]{", "}@%$#"
  ]

  lemma AlphabetIsStandard(digit: int)
    requires 0 <= digit < 85
    ensures EncodeMapping(digit) == ALPHABET[digit / 10][digit % 10] as int
  {
    hide EncodeMapping;
    if digit < 30 { FirstRows(digit); } else if digit < 60 { MiddleRows(digit); } else { LastRows(digit); }
  }

  lemma FirstRows(digit: int)
    requires 0 <= digit < 30
    ensures EncodeMapping(digit) == ALPHABET[digit / 10][digit % 10] as int
  {
  }

  lemma MiddleRows(digit: int)
    requires 30 <= digit < 60
    ensures EncodeMapping(digit) == ALPHABET[digit / 10][digit % 10] as int
  {
  }

  lemma LastRows(digit: int)
    requires 60 <= digit < 85
    ensures EncodeMapping(digit) == ALPHABET[digit / 10][digit % 10] as int
  {
  }

  /** The table is indexed by the character less 32; 0xFF marks a character outside the alphabet. */
  function DecodeMapping(index: int): (digit: byte)
    requires 0 <= index < 96
  {
    var c := index + 32;
    if 48 <= c < 58 then c - 48
    else if 97 <= c < 123 then c - 97 + 10
    else if 65 <= c < 91 then c - 65 + 36
    else match c
      case 46 => 62 case 45 => 63 case 58 => 64 case 43 => 65 case 61 => 66 case 94 => 67
      case 33 => 68 case 47 => 69 case 42 => 70 case 63 => 71 case 38 => 72 case 60 => 73
      case 62 => 74 case 40 => 75 case 41 => 76 case 91 => 77 case 93 => 78 case 123 => 79
      case 125 => 80 case 64 => 81 case 37 => 82 case 36 => 83 case 35 => 84 case _ => 0xFF
  }

  /** The character less 32, as an unsigned byte. */
  function TableIndex(c: byte): byte {
    (c as int - 32) % 256
  }

  /** The digit of a character, or None outside the alphabet. */
  function DigitOf(c: byte): (digit: Option<byte>)
    ensures digit.Some? ==> digit.value < 85 && EncodeMapping(digit.value) == c
  {
    var mapping := TableIndex(c);
    if mapping >= 96 || DecodeMapping(mapping) == 0xFF then None else Some(DecodeMapping(mapping))
  }

  lemma LookupIsDigit(c: byte)
    ensures TableIndex(c) >= 96 ==> DigitOf(c).None?
    ensures TableIndex(c) < 96 ==>
      var digit := DecodeMapping(TableIndex(c));
      if digit == 0xFF then DigitOf(c).None? else DigitOf(c) == Some(digit) && digit < 85
  {
  }

  lemma DigitOfEncodeMapping(digit: int)
    requires 0 <= digit < 85
    ensures DigitOf(EncodeMapping(digit)) == Some(digit)
  {
    assert DecodeMapping(EncodeMapping(digit) - 32) == digit;
  }

  /** The table, with its bound, has a digit for a byte exactly when the byte is one of the 85
      characters of the alphabet, and it is the digit of that character. */
  lemma TableLookup(c: byte)
    ensures TableIndex(c) < 96 && DecodeMapping(TableIndex(c)) != 0xFF
      <==> exists digit :: 0 <= digit < 85 && EncodeMapping(digit) == c
    ensures forall digit :: 0 <= digit < 85 && EncodeMapping(digit) == c ==> DecodeMapping(TableIndex(c)) == digit
  {
    LookupIsDigit(c);
    forall digit | 0 <= digit < 85 && EncodeMapping(digit) == c
      ensures DigitOf(c) == Some(digit)
    {
      DigitOfEncodeMapping(digit);
    }
    hide EncodeMapping, DecodeMapping, TableIndex;
    if DigitOf(c).Some? { assert EncodeMapping(DigitOf(c).value) == c; }
  }

  // ---- What the codec computes: every block is a change of base ----

  function Characters(digits: seq<int>): (text: Text)
    requires InBase(85, digits)
    ensures |text| == |digits|
  {
    seq(|digits|, i requires 0 <= i < |digits| => EncodeMapping(digits[i]))
  }

  predicate InAlphabet(text: Text) {
    forall i :: 0 <= i < |text| ==> DigitOf(text[i]).Some?
  }

  function DigitsOf(text: Text): (digits: seq<int>)
    requires InAlphabet(text)
    ensures |digits| == |text| && InBase(85, digits)
  {
    seq(|text|, i requires 0 <= i < |text| => DigitOf(text[i]).value)
  }

  function ZeroPadded(bytes: seq<byte>): (padded: seq<byte>)
    ensures |padded| == 4 * DecodedBlocks(|bytes|)
  {
    bytes + Zeros(PaddingBytes(|bytes|))
  }

  function EncodeBlock(block: seq<byte>): (text: Text)
    requires |block| == 4
    ensures |text| == 5
  {
    Characters(Digits(85, Value(256, block), 5))
  }

  /** The text of `n` blocks of four bytes. */
  function EncodeBlocks(bytes: seq<byte>, n: nat): (text: Text)
    requires |bytes| == 4 * n
    ensures |text| == 5 * n
  {
    if n == 0 then []
    else EncodeBlocks(bytes[..4 * n - 4], n - 1) + EncodeBlock(bytes[4 * n - 4..])
  }

  function Encoding(bytes: seq<byte>): (text: Text)
    ensures |text| == EncodedSize(|bytes|)
  {
    EncodeBlocks(ZeroPadded(bytes), DecodedBlocks(|bytes|))
  }

  /** A five character block is decodable when it denotes less than 2^32 - 1. */
  predicate AcceptsBlock(block: Text) {
    |block| == 5 && InAlphabet(block) && Value(85, DigitsOf(block)) < DECODED_BLOCK_MAXIMUM
  }

  function DecodeBlock(block: Text): (bytes: seq<byte>)
    requires AcceptsBlock(block)
    ensures |bytes| == 4
  {
    Digits(256, Value(85, DigitsOf(block)), 4)
  }

  /** Every one of the `n` blocks of the text is decodable. */
  predicate AcceptsBlocks(text: Text, n: nat)
    requires |text| == 5 * n
  {
    n == 0 || (AcceptsBlocks(text[..5 * n - 5], n - 1) && AcceptsBlock(text[5 * n - 5..]))
  }

  function DecodeBlocks(text: Text, n: nat): (bytes: seq<byte>)
    requires |text| == 5 * n && AcceptsBlocks(text, n)
    ensures |bytes| == 4 * n
  {
    if n == 0 then []
    else DecodeBlocks(text[..5 * n - 5], n - 1) + DecodeBlock(text[5 * n - 5..])
  }

  predicate Accepts(text: Text) {
    |text| >= 5 && |text| % 5 == 0 && AcceptsBlocks(text, |text| / 5)
  }

  function Decoding(text: Text): (bytes: seq<byte>)
    requires Accepts(text)
    ensures |bytes| == |text| / 5 * 4
  {
    DecodeBlocks(text, |text| / 5)
  }

  // ---- Writing one block ----

  function EncodeDivisorAt(k: nat): int {
    match k case 0 => 52200625 case 1 => 614125 case 2 => 7225 case 3 => 85 case 4 => 1 case _ => 0
  }

  function DecodeDivisorAt(k: nat): int {
    match k case 0 => 0x100_0000 case 1 => 0x1_0000 case 2 => 0x100 case 3 => 1 case _ => 0
  }

  lemma FiveDigits(value: nat)
    ensures Digits(85, value, 5) ==
      [value / 52200625 % 85, value / 614125 % 85, value / 7225 % 85, value / 85 % 85, value % 85]
  {
    var n1 := value / 85;
    var n2 := n1 / 85;
    var n3 := n2 / 85;
    var n4 := n3 / 85;
    assert n2 == value / 7225 && n3 == value / 614125 && n4 == value / 52200625;
    assert Digits(85, n4, 1) == [n4 % 85];
    assert Digits(85, n3, 2) == [n4 % 85, n3 % 85];
    assert Digits(85, n2, 3) == [n4 % 85, n3 % 85, n2 % 85];
    assert Digits(85, n1, 4) == [n4 % 85, n3 % 85, n2 % 85, n1 % 85];
  }

  lemma FourDigits(value: nat)
    ensures Digits(256, value, 4) ==
      [value / 0x100_0000 % 256, value / 0x1_0000 % 256, value / 0x100 % 256, value % 256]
  {
    var n1 := value / 256;
    var n2 := n1 / 256;
    var n3 := n2 / 256;
    assert n2 == value / 0x1_0000 && n3 == value / 0x100_0000;
    assert Digits(256, n3, 1) == [n3 % 256];
    assert Digits(256, n2, 2) == [n3 % 256, n2 % 256];
    assert Digits(256, n1, 3) == [n3 % 256, n2 % 256, n1 % 256];
  }

  /** Writes the five characters of a block value and returns the advanced write position. */
  method WriteZ85(destination: array<byte>, at: nat, value: uint32) returns (writable: nat)
    requires at + 5 <= destination.Length
    modifies destination
    ensures writable == at + 5
    ensures destination[..writable] == old(destination[..at]) + Characters(Digits(85, value, 5))
  {
    FiveDigits(value);
    writable := at;
    var divisor := ENCODE_DIVISOR;
    while divisor != 0
      invariant at <= writable <= at + 5 && divisor == EncodeDivisorAt(writable - at)
      invariant destination[..at] == old(destination[..at])
      invariant forall k :: 0 <= k < writable - at ==>
        destination[at + k] == EncodeMapping(Digits(85, value, 5)[k])
      decreases divisor
    {
      destination[writable] := EncodeMapping(value / divisor % 85);
      writable := writable + 1;
      divisor := divisor / 85;
    }
    assert destination[..writable] == destination[..at] + destination[at..writable];
  }

  method WriteBase256(destination: array<byte>, at: nat, value: uint32) returns (writable: nat)
    requires at + 4 <= destination.Length
    modifies destination
    ensures writable == at + 4
    ensures destination[..writable] == old(destination[..at]) + Digits(256, value, 4)
  {
    FourDigits(value);
    writable := at;
    var divisor := DECODE_DIVISOR;
    while divisor != 0
      invariant at <= writable <= at + 4 && divisor == DecodeDivisorAt(writable - at)
      invariant destination[..at] == old(destination[..at])
      invariant forall k :: 0 <= k < writable - at ==>
        destination[at + k] == Digits(256, value, 4)[k]
      decreases divisor
    {
      destination[writable] := value / divisor % 256;
      writable := writable + 1;
      divisor := divisor / 256;
    }
    assert destination[..writable] == destination[..at] + destination[at..writable];
  }

  // ---- The encoder ----

  /** One more byte of the block that starts at `start`. */
  lemma EncodeStep(bytes: seq<byte>, start: nat, i: nat)
    requires start <= i < |bytes| && i < start + 4
    ensures Value(256, bytes[start..i + 1]) == Value(256, bytes[start..i]) * 256 + bytes[i]
    ensures 0 <= Value(256, bytes[start..i + 1]) < 0x1_0000_0000
  {
    var block := bytes[start..i + 1];
    assert block[..|block| - 1] == bytes[start..i];
    ValueBound(256, block);
    PowMonotone(256, |block|, 4);
    assert Pow(256, 2) == 0x1_0000;
    assert Pow(256, 4) == 0x1_0000_0000;
  }

  lemma EncodeBlocksAppend(bytes: seq<byte>, n: nat, block: seq<byte>)
    requires |bytes| == 4 * n && |block| == 4
    ensures EncodeBlocks(bytes + block, n + 1) == EncodeBlocks(bytes, n) + EncodeBlock(block)
  {
    var all := bytes + block;
    assert all[..4 * n] == bytes && all[4 * n..] == block;
  }

  /** After `index` bytes: the first `n` blocks are encoded into `written` and `value` is the value
      of the bytes of the block that is being read. */
  ghost predicate Encoded(padded: seq<byte>, n: nat, index: nat, value: int, written: Text) {
    && 4 * n <= index < 4 * n + 4 && index <= |padded|
    && value == Value(256, padded[4 * n..index])
    && written == EncodeBlocks(padded[..4 * n], n)
  }

  predicate EndsDecodedBlock(index: nat) {
    index % 4 == 0
  }

  lemma EndOfDecodedBlock(n: nat, index: nat)
    requires 4 * n <= index <= 4 * n + 4
    ensures EndsDecodedBlock(index) <==> index == 4 * n || index == 4 * n + 4
    ensures index < 4 * n + 4 ==> DecodedBlocks(index) == if index == 4 * n then n else n + 1
  {
  }

  lemma EncodedStep(padded: seq<byte>, n: nat, index: nat, value: int, next: int, written: Text)
    requires Encoded(padded, n, index, value, written)
    requires index < |padded| && next == value * 256 + padded[index]
    ensures 4 * n <= index < 4 * n + 4 && |written| == 5 * n
    ensures 0 <= next < 0x1_0000_0000
    ensures EndsDecodedBlock(index + 1) ==>
      Encoded(padded, n + 1, index + 1, 0, written + Characters(Digits(85, next, 5)))
    ensures !EndsDecodedBlock(index + 1) ==> Encoded(padded, n, index + 1, next, written)
  {
    hide Value, Digits, Characters, EndsDecodedBlock;
    EndOfDecodedBlock(n, index + 1);
    EncodeStep(padded, 4 * n, index);
    if index + 1 == 4 * n + 4 {
      EncodeBlocksAppend(padded[..4 * n], n, padded[4 * n..index + 1]);
      assert padded[..4 * n] + padded[4 * n..index + 1] == padded[..4 * n + 4];
      assert padded[index + 1..index + 1] == [];
      EmptyValue();
    }
  }

  lemma EmptyValue()
    ensures Value(256, []) == 0 && Value(85, []) == 0
  {
  }

  lemma EncodedBounds(padded: seq<byte>, n: nat, index: nat, value: int, written: Text)
    requires Encoded(padded, n, index, value, written)
    ensures 4 * n <= index < 4 * n + 4 && |written| == 5 * n
  {
  }

  lemma EncodedAll(padded: seq<byte>, n: nat, value: int, written: Text)
    requires |padded| == 4 * n && Encoded(padded, n, 4 * n, value, written)
    ensures written == EncodeBlocks(padded, n)
  {
    assert padded[..4 * n] == padded;
  }

  lemma EncodedRoom(padded: seq<byte>, blocks: nat, n: nat, index: nat, value: int, written: Text)
    requires |padded| == 4 * blocks && index < |padded| && Encoded(padded, n, index, value, written)
    ensures |written| + 5 <= 5 * blocks
  {
    assert n < blocks;
  }

  /** Reads one byte, and writes the block that it completes. */
  method EncodeByte(ghost padded: seq<byte>, ghost blocks: nat, ghost n: nat, index: nat, value: uint32,
                    b: byte, destination: array<byte>, writable: nat)
    returns (ghost n': nat, value': uint32, writable': nat)
    requires index < |padded| && b == padded[index]
    requires |padded| == 4 * blocks && writable <= destination.Length == 5 * blocks
    requires Encoded(padded, n, index, value, destination[..writable])
    modifies destination
    ensures writable' <= destination.Length
    ensures Encoded(padded, n', index + 1, value', destination[..writable'])
  {
    hide Encoded, EndsDecodedBlock, Digits, Characters;
    ghost var next := value * 256 + b;
    EncodedStep(padded, n, index, value, next, destination[..writable]);
    EncodedRoom(padded, blocks, n, index, value, destination[..writable]);
    n', value', writable' := n, value * 256 + b, writable;
    if EndsDecodedBlock(index + 1) {
      writable' := WriteZ85(destination, writable, value');
      n', value' := n + 1, 0;
    }
  }

  /** Completes the last block with zeros and writes it. */
  method EncodePadding(ghost padded: seq<byte>, ghost n: nat, index: nat, value: uint32, padding: nat,
                       destination: array<byte>, writable: nat)
    requires 0 < padding && index + padding == |padded| == 4 * n + 4
    requires forall k :: index <= k < |padded| ==> padded[k] == 0
    requires writable <= destination.Length == 5 * n + 5
    requires Encoded(padded, n, index, value, destination[..writable])
    modifies destination
    ensures destination[..] == EncodeBlocks(padded, n + 1)
  {
    hide Encoded, EndsDecodedBlock, Digits, Characters;
    EncodedBounds(padded, n, index, value, destination[..writable]);
    ghost var before := destination[..writable];
    var at, carried := index, value;
    for i := 0 to padding
      invariant at == index + i && destination[..writable] == before
      invariant i < padding ==> Encoded(padded, n, at, carried, before)
      invariant i == padding ==>
        Encoded(padded, n + 1, at, 0, before + Characters(Digits(85, carried, 5)))
    {
      EndOfDecodedBlock(n, at + 1);
      assert padded[at] == 0;
      ghost var next: int := carried;
      EncodedStep(padded, n, at, carried, next * 256, before);
      at, carried := at + 1, carried * 256 + 0;
    }
    var end := WriteZ85(destination, writable, carried);
    EncodedAll(padded, n + 1, 0, destination[..end]);
    assert destination[..end] == destination[..];
  }

  /** Fails, without writing, exactly when the destination has the wrong size. */
  method EncodeInto(source: seq<byte>, destination: array<byte>) returns (ok: bool)
    modifies destination
    ensures ok <==> destination.Length == EncodedSize(|source|)
    ensures ok ==> destination[..] == Encoding(source)
    ensures !ok ==> destination[..] == old(destination[..])
  {
    var value: uint32 := 0;
    var padding := PaddingBytes(|source|);
    var writable: nat := 0;

    if destination.Length != EncodedSize(|source|) { return false; }

    ghost var padded, blocks, n: nat := ZeroPadded(source), DecodedBlocks(|source|), 0;
    assert Encoded(padded, 0, 0, 0, destination[..0]) by {
      EmptyValue();
      assert padded[..0] == [];
    }
    hide Encoded, EndsDecodedBlock, EncodedSize, PaddingBytes, DecodedBlocks;
    for i := 0 to |source|
      invariant writable <= destination.Length
      invariant Encoded(padded, n, i, value, destination[..writable])
    {
      n, value, writable := EncodeByte(padded, blocks, n, i, value, source[i], destination, writable);
    }

    EncodedBounds(padded, n, |source|, value, destination[..writable]);
    EndOfDecodedBlock(n, |source|);
    if !EndsDecodedBlock(|source|) {
      EncodePadding(padded, n, |source|, value, padding, destination, writable);
    } else {
      EncodedAll(padded, n, value, destination[..writable]);
      assert destination[..writable] == destination[..];
    }
    return true;
  }

  method Encode(source: seq<byte>) returns (text: Text)
    ensures text == Encoding(source)
  {
    var destination := new byte[EncodedSize(|source|)](_ => 0);
    var ok := EncodeInto(source, destination);
    if !ok { return []; }
    return destination[..];
  }

  // ---- The decoder ----

  /** One more character of the block that starts at `start`. */
  lemma DecodeStep(text: Text, start: nat, i: nat)
    requires start <= i < |text| && i < start + 5
    requires InAlphabet(text[start..i]) && DigitOf(text[i]).Some?
    ensures InAlphabet(text[start..i + 1])
    ensures Value(85, DigitsOf(text[start..i + 1]))
      == Value(85, DigitsOf(text[start..i])) * 85 + DigitOf(text[i]).value
    ensures 0 <= Value(85, DigitsOf(text[start..i]))
    ensures i < start + 3 ==> Value(85, DigitsOf(text[start..i + 1])) < VALUE_UPPER_BOUND
  {
    var block := text[start..i + 1];
    assert block[|block| - 1] == text[i];
    assert forall k :: 0 <= k < |block| - 1 ==> block[k] == text[start..i][k];
    assert DigitsOf(block)[..|block| - 1] == DigitsOf(text[start..i]);
    ValueBound(85, DigitsOf(text[start..i]));
    ValueBound(85, DigitsOf(block));
    if i < start + 3 {
      PowMonotone(85, |block|, 3);
      assert Pow(85, 2) == 7225;
      assert Pow(85, 3) == 614125;
    }
  }

  lemma AcceptsAppend(text: Text, n: nat, block: Text)
    requires |text| == 5 * n && |block| == 5
    ensures AcceptsBlocks(text + block, n + 1) <==> AcceptsBlocks(text, n) && AcceptsBlock(block)
    ensures AcceptsBlocks(text + block, n + 1) ==>
      DecodeBlocks(text + block, n + 1) == DecodeBlocks(text, n) + DecodeBlock(block)
  {
    var all := text + block;
    assert all[..5 * n] == text && all[5 * n..] == block;
  }

  lemma {:induction false} AcceptsEach(text: Text, n: nat, k: nat)
    requires |text| == 5 * n && AcceptsBlocks(text, n) && k < n
    ensures AcceptsBlock(text[5 * k..5 * k + 5])
  {
    if k == n - 1 {
      assert text[5 * k..5 * k + 5] == text[5 * n - 5..];
    } else {
      AcceptsEach(text[..5 * n - 5], n - 1, k);
      assert text[..5 * n - 5][5 * k..5 * k + 5] == text[5 * k..5 * k + 5];
    }
  }

  /** After `index` characters: the first `n` blocks are decoded into `written` and `value` is the
      value of the characters of the block that is being read. */
  ghost predicate Decoded(text: Text, n: nat, index: nat, value: int, written: seq<byte>) {
    && 5 * n <= index < 5 * n + 5 && index <= |text|
    && InAlphabet(text[5 * n..index])
    && 0 <= value == Value(85, DigitsOf(text[5 * n..index])) < VALUE_UPPER_BOUND
    && AcceptsBlocks(text[..5 * n], n)
    && written == DecodeBlocks(text[..5 * n], n)
  }

  predicate EndsEncodedBlock(index: nat) {
    index % 5 == 0
  }

  lemma EndOfEncodedBlock(n: nat, index: nat)
    requires 5 * n <= index <= 5 * n + 5
    ensures EndsEncodedBlock(index) <==> index == 5 * n || index == 5 * n + 5
  {
  }

  lemma RejectedCharacter(text: Text, blocks: nat, n: nat, index: nat)
    requires |text| == 5 * blocks && index < |text| && 5 * n <= index < 5 * n + 5
    requires DigitOf(text[index]).None?
    ensures !AcceptsBlocks(text, blocks)
  {
    assert text[5 * n..5 * n + 5][index - 5 * n] == text[index];
    if AcceptsBlocks(text, blocks) { AcceptsEach(text, blocks, n); }
  }

  /** A fourth character that reaches the bound leaves no acceptable fifth character. */
  lemma RejectedValue(text: Text, blocks: nat, n: nat)
    requires |text| == 5 * blocks && n < blocks
    requires InAlphabet(text[5 * n..5 * n + 4])
    requires Value(85, DigitsOf(text[5 * n..5 * n + 4])) >= VALUE_UPPER_BOUND
    ensures !AcceptsBlocks(text, blocks)
  {
    hide Value, DigitsOf, AcceptsBlocks;
    assert text[5 * n..5 * n + 5][4] == text[5 * n + 4];
    if AcceptsBlocks(text, blocks) {
      AcceptsEach(text, blocks, n);
      DecodeStep(text, 5 * n, 5 * n + 4);
    }
  }

  /** One round of the decoding loop, for every character that can follow. */
  lemma DecodedStep(text: Text, blocks: nat, n: nat, index: nat, value: int, next: int, written: seq<byte>)
    requires |text| == 5 * blocks && index < |text|
    requires Decoded(text, n, index, value, written)
    requires DigitOf(text[index]).Some? ==> next == value * 85 + DigitOf(text[index]).value
    ensures 0 <= value < VALUE_UPPER_BOUND && |written| + 4 <= 4 * blocks
    ensures DigitOf(text[index]).None? ==> !AcceptsBlocks(text, blocks)
    ensures DigitOf(text[index]).Some? ==> 0 <= next < DECODED_BLOCK_MAXIMUM
    ensures DigitOf(text[index]).Some? && EndsEncodedBlock(index + 1) ==>
      Decoded(text, n + 1, index + 1, 0, written + Digits(256, next, 4))
    ensures DigitOf(text[index]).Some? && !EndsEncodedBlock(index + 1) && next < VALUE_UPPER_BOUND ==>
      Decoded(text, n, index + 1, next, written)
    ensures DigitOf(text[index]).Some? && !EndsEncodedBlock(index + 1) && next >= VALUE_UPPER_BOUND ==>
      !AcceptsBlocks(text, blocks)
  {
    hide Value, DigitsOf, DigitOf, Digits, DecodeBlocks, AcceptsBlocks, EndsEncodedBlock;
    assert n < blocks;
    EndOfEncodedBlock(n, index + 1);
    if DigitOf(text[index]).None? {
      RejectedCharacter(text, blocks, n, index);
    } else {
      DecodeStep(text, 5 * n, index);
      if index + 1 == 5 * n + 5 {
        DecodedBlockStep(text, n);
        assert text[index + 1..index + 1] == [];
        EmptyValue();
        assert DigitsOf([]) == [];
      } else if next >= VALUE_UPPER_BOUND {
        assert index + 1 == 5 * n + 4;
        RejectedValue(text, blocks, n);
      }
    }
  }

  lemma DecodedBlockStep(text: Text, n: nat)
    requires 5 * n + 5 <= |text| && AcceptsBlocks(text[..5 * n], n)
    requires AcceptsBlock(text[5 * n..5 * n + 5])
    ensures AcceptsBlocks(text[..5 * n + 5], n + 1)
    ensures DecodeBlocks(text[..5 * n + 5], n + 1)
      == DecodeBlocks(text[..5 * n], n) + DecodeBlock(text[5 * n..5 * n + 5])
  {
    AcceptsAppend(text[..5 * n], n, text[5 * n..5 * n + 5]);
    assert text[..5 * n] + text[5 * n..5 * n + 5] == text[..5 * n + 5];
  }

  lemma DecodedNothing(text: Text)
    ensures Decoded(text, 0, 0, 0, [])
  {
    EmptyValue();
    assert text[..0] == [] && DigitsOf([]) == [];
  }

  /** Texts that are not made of whole blocks are rejected first. */
  lemma WholeBlocksOnly(text: Text)
    ensures
      var blocks := |text| / 5;
      if |text| < 5 || !EndsEncodedBlock(|text|) then !Accepts(text)
      else
        && |text| == 5 * blocks && DecodedSize(|text|) == 4 * blocks
        && (Accepts(text) <==> AcceptsBlocks(text, blocks))
        && (Accepts(text) ==> Decoding(text) == DecodeBlocks(text, blocks))
  {
    hide AcceptsBlocks, DecodeBlocks;
    DecodedSizeExact(|text| / 5);
  }

  lemma DecodedAll(text: Text, blocks: nat, n: nat, value: int, written: seq<byte>)
    requires |text| == 5 * blocks && Decoded(text, n, |text|, value, written)
    ensures AcceptsBlocks(text, blocks) && written == DecodeBlocks(text, blocks)
  {
    assert n == blocks && text[..5 * n] == text;
  }

  /** The body of the decoding loop; `ok` is false when the text has to be rejected. */
  method DecodeCharacter(source: Text, ghost blocks: nat, ghost n: nat, i: nat, value: uint32,
                         destination: array<byte>, writable: nat)
    returns (ok: bool, ghost n': nat, value': uint32, writable': nat)
    requires |source| == 5 * blocks && i < |source|
    requires writable <= destination.Length == 4 * blocks
    requires Decoded(source, n, i, value, destination[..writable])
    modifies destination
    ensures writable' <= destination.Length
    ensures ok ==> Decoded(source, n', i + 1, value', destination[..writable'])
    ensures !ok ==> !AcceptsBlocks(source, blocks)
  {
    hide TableIndex, EndsEncodedBlock, Decoded, Digits, DigitOf, DecodeMapping, AcceptsBlocks;
    LookupIsDigit(source[i]);
    ghost var next := value * 85 + DecodeMappingOr(TableIndex(source[i]));
    DecodedStep(source, blocks, n, i, value, next, destination[..writable]);
    ok, n', value', writable' := false, n, value * 85, writable;
    var mapping := TableIndex(source[i]);
    if mapping >= 96 { return; }
    var upperBound := DECODED_BLOCK_MAXIMUM - value';
    var digit := DecodeMapping(mapping);
    if digit == 0xFF || digit > upperBound { return; }
    value' := value' + digit;
    if EndsEncodedBlock(i + 1) {
      writable' := WriteBase256(destination, writable, value');
      n', value' := n + 1, 0;
    }
    ok := value' < VALUE_UPPER_BOUND;
  }

  function DecodeMappingOr(mapping: byte): byte {
    if mapping < 96 then DecodeMapping(mapping) else 0xFF
  }

  /** Decodes into a destination of the size the callers allocate; the contents of the
      destination are unspecified when the text is rejected. */
  method DecodeInto(source: Text, destination: array<byte>) returns (ok: bool)
    requires destination.Length == DecodedSize(|source|)
    modifies destination
    ensures ok <==> Accepts(source)
    ensures ok ==> destination[..] == Decoding(source)
  {
    hide Decoded, DecodedSize, AcceptsBlocks, Accepts, Decoding, DecodeBlocks, EndsEncodedBlock;
    var value: uint32 := 0;
    var writable: nat := 0;

    WholeBlocksOnly(source);
    if |source| < 5 || !EndsEncodedBlock(|source|) { return false; }

    ghost var blocks, n: nat := |source| / 5, 0;
    DecodedNothing(source);
    assert destination[..0] == [];
    for index := 0 to |source|
      invariant writable <= destination.Length
      invariant Decoded(source, n, index, value, destination[..writable])
    {
      ok, n, value, writable := DecodeCharacter(source, blocks, n, index, value, destination, writable);
      if !ok { return; }
    }

    DecodedAll(source, blocks, n, value, destination[..writable]);
    assert destination[..writable] == destination[..];
    return true;
  }

  method Decode(source: Text) returns (bytes: seq<byte>)
    ensures bytes == if Accepts(source) then Decoding(source) else []
  {
    var destination := new byte[DecodedSize(|source|)](_ => 0);
    var ok := DecodeInto(source, destination);
    if !ok { return []; }
    return destination[..];
  }

  // ---- Round trips ----

  const LAST_BLOCK: seq<byte> := [0xFF, 0xFF, 0xFF, 0xFF]

  lemma PowersOfTheBlock()
    ensures Pow(256, 4) == 0x1_0000_0000 && Pow(85, 5) == 4437053125
  {
    assert Pow(256, 2) == 0x1_0000;
    assert Pow(256, 4) == 256 * (256 * Pow(256, 2));
    assert Pow(85, 2) == 7225;
    assert Pow(85, 5) == 85 * (85 * (85 * Pow(85, 2)));
  }

  lemma BlockOfMaximum(block: seq<byte>)
    requires |block| == 4
    ensures 0 <= Value(256, block) <= DECODED_BLOCK_MAXIMUM
    ensures Value(256, block) == DECODED_BLOCK_MAXIMUM <==> block == LAST_BLOCK
  {
    ValueBound(256, block);
    PowersOfTheBlock();
    FourDigits(DECODED_BLOCK_MAXIMUM);
    DigitsOfValue(256, block);
    ValueOfDigits(256, DECODED_BLOCK_MAXIMUM, 4);
    assert Digits(256, DECODED_BLOCK_MAXIMUM, 4) == LAST_BLOCK;
  }

  lemma DigitsOfCharacters(digits: seq<int>)
    requires InBase(85, digits)
    ensures InAlphabet(Characters(digits)) && DigitsOf(Characters(digits)) == digits
  {
    forall i | 0 <= i < |digits|
      ensures DigitOf(Characters(digits)[i]) == Some(digits[i])
    {
      DigitOfEncodeMapping(digits[i]);
    }
  }

  /** The decoder takes back every encoded block but FF FF FF FF, whose value the guard on the
      fourth character shuts out. */
  lemma DecodeEncodeBlock(block: seq<byte>)
    requires |block| == 4
    ensures AcceptsBlock(EncodeBlock(block)) <==> block != LAST_BLOCK
    ensures block != LAST_BLOCK ==> DecodeBlock(EncodeBlock(block)) == block
  {
    hide Value, Digits, Characters, DigitsOf;
    BlockOfMaximum(block);
    PowersOfTheBlock();
    DigitsOfCharacters(Digits(85, Value(256, block), 5));
    ValueOfDigits(85, Value(256, block), 5);
    DigitsOfValue(256, block);
  }

  /** Byte by byte and character by character: in a block of four bytes and in its five characters the first
      one counts most. */
  lemma BlockDenotesNumber(block: seq<byte>)
    requires |block| == 4
    ensures
      var digits := DigitsOf(EncodeBlock(block));
      && |digits| == 5
      && digits[0] * 52200625 + digits[1] * 614125 + digits[2] * 7225 + digits[3] * 85 + digits[4]
         == block[0] as int * 0x100_0000 + block[1] as int * 0x1_0000 + block[2] as int * 0x100 + block[3] as int
  {
    ValueUnfolded(256, block, 4);
    hide Value, Digits, Characters, DigitsOf;
    BlockOfMaximum(block);
    PowersOfTheBlock();
    var digits := Digits(85, Value(256, block), 5);
    DigitsOfCharacters(digits);
    ValueOfDigits(85, Value(256, block), 5);
    ValueUnfolded(85, digits, 5);
  }

  lemma ValueUnfolded(base: int, ds: seq<int>, n: nat)
    requires |ds| == n
    ensures n == 4 ==> Value(base, ds) == ((ds[0] * base + ds[1]) * base + ds[2]) * base + ds[3]
    ensures n == 5 ==> Value(base, ds) == (((ds[0] * base + ds[1]) * base + ds[2]) * base + ds[3]) * base + ds[4]
  {
    if n == 4 || n == 5 {
      assert ds[..2][..1] == ds[..1] && ds[..3][..2] == ds[..2] && ds[..4][..3] == ds[..3] && ds[..1][..0] == [];
      assert Value(base, ds[..1]) == ds[0];
      assert Value(base, ds[..2]) == Value(base, ds[..1]) * base + ds[1];
      assert Value(base, ds[..3]) == Value(base, ds[..2]) * base + ds[2];
      if n == 4 { assert ds[..4] == ds; }
      assert Value(base, ds[..4]) == Value(base, ds[..3]) * base + ds[3];
    }
  }

  lemma EncodeDecodeBlock(text: Text)
    requires AcceptsBlock(text)
    ensures EncodeBlock(DecodeBlock(text)) == text
    ensures DecodeBlock(text) != LAST_BLOCK
  {
    hide Value, Digits;
    PowersOfTheBlock();
    ValueBound(85, DigitsOf(text));
    ValueOfDigits(256, Value(85, DigitsOf(text)), 4);
    DigitsOfValue(85, DigitsOf(text));
    assert Characters(DigitsOf(text)) == text;
    BlockOfMaximum(DecodeBlock(text));
  }

  /** No aligned block of the bytes is FF FF FF FF. */
  predicate Encodable(bytes: seq<byte>, n: nat)
    requires |bytes| == 4 * n
  {
    forall k :: 0 <= k < n ==> ByteBlock(bytes, k) != LAST_BLOCK
  }

  /** No aligned block of the padded bytes is FF FF FF FF. */
  predicate Clean(bytes: seq<byte>) {
    Encodable(ZeroPadded(bytes), DecodedBlocks(|bytes|))
  }

  function ByteBlock(bytes: seq<byte>, k: nat): (block: seq<byte>)
    requires 4 * k + 4 <= |bytes|
    ensures |block| == 4
  {
    bytes[4 * k..4 * k + 4]
  }

  lemma EncodableAppend(bytes: seq<byte>, n: nat, block: seq<byte>)
    requires |bytes| == 4 * n && |block| == 4
    ensures Encodable(bytes + block, n + 1) <==> Encodable(bytes, n) && block != LAST_BLOCK
  {
    var all := bytes + block;
    assert ByteBlock(all, n) == block;
    assert forall k :: 0 <= k < n ==> ByteBlock(all, k) == ByteBlock(bytes, k);
  }

  lemma EmptyBlocks()
    ensures EncodeBlocks([], 0) == [] && Encodable([], 0)
    ensures AcceptsBlocks([], 0) && DecodeBlocks([], 0) == []
  {
  }

  lemma {:induction false} DecodeEncodeBlocks(bytes: seq<byte>, n: nat)
    requires |bytes| == 4 * n
    ensures AcceptsBlocks(EncodeBlocks(bytes, n), n) <==> Encodable(bytes, n)
    ensures Encodable(bytes, n) ==> DecodeBlocks(EncodeBlocks(bytes, n), n) == bytes
  {
    hide AcceptsBlock, AcceptsBlocks, Encodable, EncodeBlock, EncodeBlocks, DecodeBlock, DecodeBlocks;
    EmptyBlocks();
    if n == 0 {
      assert bytes == [];
    } else {
      var front, block := bytes[..4 * n - 4], bytes[4 * n - 4..];
      assert bytes == front + block;
      DecodeEncodeBlocks(front, n - 1);
      DecodeEncodeBlock(block);
      EncodeBlocksAppend(front, n - 1, block);
      EncodableAppend(front, n - 1, block);
      AcceptsAppend(EncodeBlocks(front, n - 1), n - 1, EncodeBlock(block));
    }
  }

  lemma {:induction false} EncodeDecodeBlocks(text: Text, n: nat)
    requires |text| == 5 * n && AcceptsBlocks(text, n)
    ensures EncodeBlocks(DecodeBlocks(text, n), n) == text && Encodable(DecodeBlocks(text, n), n)
  {
    hide AcceptsBlock, AcceptsBlocks, Encodable, EncodeBlock, EncodeBlocks, DecodeBlock, DecodeBlocks;
    EmptyBlocks();
    if n == 0 {
      assert text == [];
    } else {
      var front, block := text[..5 * n - 5], text[5 * n - 5..];
      assert text == front + block;
      AcceptsAppend(front, n - 1, block);
      EncodeDecodeBlocks(front, n - 1);
      EncodeDecodeBlock(block);
      EncodeBlocksAppend(DecodeBlocks(front, n - 1), n - 1, DecodeBlock(block));
      EncodableAppend(DecodeBlocks(front, n - 1), n - 1, DecodeBlock(block));
    }
  }

  lemma BlocksOf(size: nat, n: nat)
    requires size == 5 * n
    ensures size % 5 == 0 && size / 5 == n
  {
  }

  /** Decoding an encoding: the text is accepted exactly when there is something to decode and no
      aligned block is FF FF FF FF, and then the bytes come back with their zero padding. */
  lemma DecodeEncode(bytes: seq<byte>)
    ensures Accepts(Encoding(bytes)) <==> bytes != [] && Clean(bytes)
    ensures Accepts(Encoding(bytes)) ==> Decoding(Encoding(bytes)) == ZeroPadded(bytes)
  {
    hide AcceptsBlocks, Encodable, EncodeBlocks, DecodeBlocks, DecodedBlocks, EncodedSize, ZeroPadded;
    DecodeEncodeBlocks(ZeroPadded(bytes), DecodedBlocks(|bytes|));
    BlocksOf(|Encoding(bytes)|, DecodedBlocks(|bytes|));
  }

  /** Encoding what was decoded: every accepted text is the encoding of its bytes. */
  lemma EncodeDecode(text: Text)
    requires Accepts(text)
    ensures Encoding(Decoding(text)) == text
  {
    hide AcceptsBlocks, EncodeBlocks, DecodeBlocks;
    var n := |text| / 5;
    EncodeDecodeBlocks(text, n);
    assert DecodedBlocks(4 * n) == n && ZeroPadded(Decoding(text)) == Decoding(text);
  }

  lemma MaximumCharacters(value: nat)
    requires value == DECODED_BLOCK_MAXIMUM
    ensures Characters(Digits(85, value, 5)) == [37, 110, 83, 99, 48]
  {
    FiveDigits(value);
    var digits := Digits(85, value, 5);
    hide Digits;
    assert digits == [82, 23, 54, 12, 0];
  }

  /** The rejected block is a legal one of RFC 32: four bytes FF encode to %nSc0. */
  lemma LastBlockIsLost(bytes: seq<byte>)
    requires bytes == LAST_BLOCK
    ensures Encoding(bytes) == [37, 110, 83, 99, 48]
    ensures !Accepts(Encoding(bytes))
  {
    assert ZeroPadded(bytes) == bytes && DecodedBlocks(|bytes|) == 1;
    hide Value, Digits, Characters, EncodeBlocks, DecodedBlocks, ZeroPadded, AcceptsBlocks;
    DecodeEncode(bytes);
    assert ByteBlock(bytes, 0) == bytes;
    BlockOfMaximum(bytes);
    MaximumCharacters(Value(256, bytes));
    EncodeBlocksAppend([], 0, bytes);
    EmptyBlocks();
    assert [] + bytes == bytes;
  }

  /** A text may be decoded in two pieces, cut between blocks. */
  lemma {:induction false} DecodeInPieces(first: Text, m: nat, second: Text, n: nat)
    requires |first| == 5 * m && |second| == 5 * n
    ensures AcceptsBlocks(first + second, m + n) <==> AcceptsBlocks(first, m) && AcceptsBlocks(second, n)
    ensures AcceptsBlocks(first + second, m + n) ==>
      DecodeBlocks(first + second, m + n) == DecodeBlocks(first, m) + DecodeBlocks(second, n)
    decreases n
  {
    hide AcceptsBlock, AcceptsBlocks, DecodeBlock, DecodeBlocks;
    EmptyBlocks();
    if n == 0 {
      assert second == [] && first + second == first;
    } else {
      var front, block := second[..5 * n - 5], second[5 * n - 5..];
      assert second == front + block && first + second == (first + front) + block;
      DecodeInPieces(first, m, front, n - 1);
      AcceptsAppend(first + front, m + n - 1, block);
      AcceptsAppend(front, n - 1, block);
    }
  }

  /** Bytes may be encoded in two pieces, cut between blocks. */
  lemma {:induction false} EncodeInPieces(first: seq<byte>, m: nat, second: seq<byte>, n: nat)
    requires |first| == 4 * m && |second| == 4 * n
    ensures EncodeBlocks(first + second, m + n) == EncodeBlocks(first, m) + EncodeBlocks(second, n)
    decreases n
  {
    hide EncodeBlock, EncodeBlocks;
    EmptyBlocks();
    if n == 0 {
      assert second == [] && first + second == first;
    } else {
      var front, block := second[..4 * n - 4], second[4 * n - 4..];
      assert second == front + block && first + second == (first + front) + block;
      EncodeInPieces(first, m, front, n - 1);
      EncodeBlocksAppend(first + front, m + n - 1, block);
      EncodeBlocksAppend(front, n - 1, block);
    }
  }

  lemma AcceptsAsBlocks(text: Text, n: nat)
    requires |text| == 5 * n
    ensures Accepts(text) <==> n > 0 && AcceptsBlocks(text, n)
    ensures Accepts(text) ==> Decoding(text) == DecodeBlocks(text, n)
  {
    hide AcceptsBlocks, DecodeBlocks;
    BlocksOf(|text|, n);
  }
}
