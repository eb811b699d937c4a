/** The two representations of a Brypt identifier (src/BryptIdentifier/BryptIdentifier.cpp): a
    nonzero 128 bit number, and the text bry0:<Base58 of 16 bytes and a 4 byte checksum>. */
module Identifier {
  import opened Bytes
  import opened Positional
  import Base58

  const PAYLOAD_SIZE: nat := 16
  const CHECKSUM_SIZE: nat := 4
  const MINIMUM_LENGTH: nat := 31
  const MAXIMUM_LENGTH: nat := 33

  const METADATA: Text := [98, 114, 121, 48, 58]    // bry0:

  /** The network representation that is reserved for the invalid identifier:
      bry0:11111111111111114fq2it. */
  const RESERVED: Text := METADATA + RESERVED_PAYLOAD

  const RESERVED_PAYLOAD: Text := Ones(16) + [52, 102, 113, 50, 105, 116]

  lemma TextsAreAscii(i: nat)
    ensures |METADATA| == 5 && |RESERVED| == 27
    ensures i < 5 ==> RESERVED[i] == METADATA[i] == "bry0:"[i] as int
    ensures 5 <= i < 21 ==> RESERVED[i] == '1' as int
    ensures 21 <= i < 27 ==> RESERVED[i] == "4fq2it"[i - 21] as int
  {
  }

  function Ones(n: nat): (text: Text)
    ensures |text| == n && forall i :: 0 <= i < n ==> text[i] == Base58.ONE
  {
    seq(n, _ => Base58.ONE)
  }

  /** SHAKE-128 cut to four bytes, for which any function with four byte results will do. */
  type Digest = seq<byte> -> seq<byte>

  ghost predicate IsDigest(digest: Digest) {
    forall bytes :: |digest(bytes)| == CHECKSUM_SIZE
  }

  predicate IsInternal(x: int) {
    0 <= x < 0x1_0000_0000_0000_0000_0000_0000_0000_0000
  }

  // ---- The two conversions ----

  function Payload(digest: Digest, x: nat): (buffer: seq<byte>)
    ensures |buffer| >= PAYLOAD_SIZE
  {
    var bytes: seq<byte> := Digits(256, x, PAYLOAD_SIZE);
    bytes + digest(bytes)
  }

  function Network(digest: Digest, x: nat): Text {
    METADATA + Base58.Encoding(Payload(digest, x))
  }

  /** The number a text stands for, or None. The code does not check that the text goes on after the
      metadata nor that it decodes to the four bytes of a checksum; such texts are None here. */
  function Internal(digest: Digest, text: Text): (x: Option<nat>) {
    if |text| <= |METADATA| || text[..|METADATA|] != METADATA then None
    else
      var buffer := Base58.Decoding(text[|METADATA|..]);
      if |buffer| < CHECKSUM_SIZE then None
      else
        var bytes, checksum := buffer[..|buffer| - CHECKSUM_SIZE], buffer[|buffer| - CHECKSUM_SIZE..];
        if digest(bytes) != checksum || |bytes| != PAYLOAD_SIZE then None
        else
          ValueBound(256, bytes);
          Some(Value(256, bytes))
  }

  method ConvertToNetworkRepresentation(digest: Digest, x: nat) returns (text: Text)
    requires IsInternal(x)
    ensures text == Network(digest, x)
  {
    var buffer: seq<byte> := Digits(256, x, PAYLOAD_SIZE);
    buffer := buffer + digest(buffer);
    text := Base58.Encode(buffer, METADATA);
  }

  method ConvertToInternalRepresentation(digest: Digest, text: Text) returns (x: Option<nat>)
    ensures x == Internal(digest, text)
  {
    if |text| <= |METADATA| || text[..|METADATA|] != METADATA { return None; }
    var buffer := Base58.Decode(text[|METADATA|..]);
    if |buffer| < CHECKSUM_SIZE { return None; }
    var bytes, checksum := buffer[..|buffer| - CHECKSUM_SIZE], buffer[|buffer| - CHECKSUM_SIZE..];
    if digest(bytes) != checksum { return None; }
    if |bytes| != PAYLOAD_SIZE { return None; }
    ValueBound(256, bytes);
    return Some(Value(256, bytes));
  }

  lemma PowersOf256()
    ensures Pow(256, 16) == 0x1_0000_0000_0000_0000_0000_0000_0000_0000
  {
    Base58.PowersOf256();
    PowAdd(256, 8, 8);
  }

  /** The network representation leads back to the number. */
  lemma RoundTrip(digest: Digest, x: nat)
    requires IsDigest(digest) && IsInternal(x)
    ensures Internal(digest, Network(digest, x)) == Some(x)
  {
    var text, buffer := Network(digest, x), Payload(digest, x);
    var bytes: seq<byte> := Digits(256, x, PAYLOAD_SIZE);
    Base58.DecodeEncode(buffer);
    assert text[..|METADATA|] == METADATA && text[|METADATA|..] == Base58.Encoding(buffer);
    assert buffer[..|buffer| - CHECKSUM_SIZE] == bytes;
    assert buffer[|buffer| - CHECKSUM_SIZE..] == digest(bytes);
    PowersOf256();
    ValueOfDigits(256, x, PAYLOAD_SIZE);
  }

  /** Of the texts that stand for a number exactly one is spelled in the alphabet: its network
      representation. (The decoder also reads characters outside the alphabet.) */
  lemma Canonical(digest: Digest, text: Text)
    requires Internal(digest, text).Some?
    ensures IsInternal(Internal(digest, text).value)
    ensures Base58.InAlphabet(text[|METADATA|..]) <==> text == Network(digest, Internal(digest, text).value)
  {
    var payload := text[|METADATA|..];
    var buffer := Base58.Decoding(payload);
    var bytes := buffer[..PAYLOAD_SIZE];
    var x := Internal(digest, text).value;
    PowersOf256();
    ValueBound(256, bytes);
    DigitsOfValue(256, bytes);
    assert Payload(digest, x) == buffer;
    assert text == METADATA + payload;
    assert Network(digest, x)[|METADATA|..] == Base58.Encoding(buffer);
    Base58.DecodeEncode(buffer);
    if Base58.InAlphabet(payload) { Base58.EncodeDecode(payload); }
  }

  // ---- The length of the text ----

  lemma FactorsBelow(a: nat, b: nat, c: nat, d: nat)
    requires a * b < c * d && d <= b && c >= 1 && b >= 1
    ensures a < c
  {
    if c <= a {
      MulMonotone(c, d, b);
      MulMonotone(b, c, a);
    }
  }

  lemma UpperBound(z: nat)
    requires z <= 19
    ensures Pow(256, 20 - z) < Pow(58, 28 - z)
  {
    Powers();
    PowAdd(256, 20 - z, z);
    PowAdd(58, 28 - z, z);
    PowBaseMonotone(58, 256, z);
    PowPositive(58, 28 - z);
    PowPositive(58, z);
    PowPositive(256, 20 - z);
    PowPositive(256, z);
    FactorsBelow(Pow(256, 20 - z), Pow(256, z), Pow(58, 28 - z), Pow(58, z));
  }

  lemma Powers()
    ensures Pow(256, 20) < Pow(58, 28)
    ensures Pow(58, 23) <= Pow(256, 17)
  {
    assert Pow(58, 2) == 3364;
    PowAdd(58, 2, 2);
    PowAdd(58, 1, 4);
    assert Pow(58, 1) == 58 * Pow(58, 0);
    Base58.PowersOf58();
    PowAdd(58, 11, 11);
    PowAdd(58, 22, 1);
    PowAdd(58, 23, 5);
    PowersOf256();
    PowAdd(256, 16, 1);
    PowAdd(256, 16, 4);
    assert Pow(256, 1) == 256 * Pow(256, 0);
    assert Pow(256, 2) == 256 * Pow(256, 1);
    PowAdd(256, 2, 2);
  }

  /** Between 31 and 33 characters of text mean 26 to 28 characters after the metadata. */
  lemma TextLength(buffer: seq<byte>)
    requires |buffer| == 20
    ensures
      var z := Base58.Leading(0, buffer);
      && z <= 19
      && |Base58.Encoding(buffer)| <= 28
      && (26 <= |Base58.Encoding(buffer)| <==> Value(256, buffer) >= Pow(58, 25 - z))
  {
    var z, value := Base58.Leading(0, buffer), Value(256, buffer);
    SignificantBytes(buffer);
    ValueBound(256, buffer[z..]);
    UpperBound(z);
    MinimalLength(58, value, 28 - z);
    MinimalLength(58, value, 25 - z);
  }

  lemma SignificantBytes(buffer: seq<byte>)
    requires buffer != []
    ensures
      var z := Base58.Leading(0, buffer);
      && z < |buffer|
      && Value(256, buffer) == Value(256, buffer[z..])
      && 0 <= Value(256, buffer)
  {
    var z := Base58.Leading(0, buffer);
    assert buffer == Zeros(z) + buffer[z..];
    Base58.ValueSkipsZeros(256, z, buffer[z..]);
    ValueBound(256, buffer);
  }

  /** A text has 31 to 33 characters exactly when its 20 bytes, with z zeros in front, denote at
      least 58^(25 - z). It never has more. */
  lemma Window(digest: Digest, x: nat)
    requires IsDigest(digest)
    ensures
      var z := Base58.Leading(0, Payload(digest, x));
      && z <= 19
      && |Network(digest, x)| <= MAXIMUM_LENGTH
      && (MINIMUM_LENGTH <= |Network(digest, x)| <==> Value(256, Payload(digest, x)) >= Pow(58, 25 - z))
  {
    TextLength(Payload(digest, x));
  }

  /** A number from 2^104 on has a nonzero byte among its top three. */
  lemma TopBytes(digest: Digest, x: nat)
    requires IsInternal(x) && x >= 0x1_00_0000_0000_0000_0000_0000_0000
    ensures Base58.Leading(0, Payload(digest, x)) <= 2
  {
    var buffer := Payload(digest, x);
    var bytes: seq<byte> := Digits(256, x, PAYLOAD_SIZE);
    var z := Base58.Leading(0, buffer);
    PowersOf256();
    ValueOfDigits(256, x, PAYLOAD_SIZE);
    PowerThirteen();
    assert forall i :: 0 <= i < PAYLOAD_SIZE ==> bytes[i] == buffer[i];
    if z >= 3 { ThreeZeros(bytes); }
  }

  lemma ThreeZeros(bytes: seq<byte>)
    requires |bytes| == PAYLOAD_SIZE && forall i :: 0 <= i < 3 ==> bytes[i] == 0
    ensures Value(256, bytes) < Pow(256, 13)
  {
    assert bytes == Zeros(3) + bytes[3..];
    Base58.ValueSkipsZeros(256, 3, bytes[3..]);
    ValueBound(256, bytes[3..]);
  }

  lemma PowerThirteen()
    ensures Pow(256, 13) == 0x1_00_0000_0000_0000_0000_0000_0000
  {
    Base58.PowersOf256();
    PowAdd(256, 8, 5);
    assert Pow(256, 2) == 0x1_0000;
    assert Pow(256, 5) == 256 * (256 * (256 * Pow(256, 2)));
  }

  /** 58^(25 - z) is at most 256^(19 - z) for these z. */
  lemma LowerBound(z: nat)
    requires z <= 2
    ensures Pow(58, 25 - z) <= Pow(256, 19 - z)
  {
    Powers();
    PowAdd(256, 17, 2 - z);
    PowAdd(58, 23, 2 - z);
    PowBaseMonotone(58, 256, 2 - z);
    PowPositive(58, 23);
    PowPositive(256, 2 - z);
    MulMonotone(Pow(58, 23), Pow(58, 2 - z), Pow(256, 2 - z));
    MulMonotone(Pow(256, 2 - z), Pow(58, 23), Pow(256, 17));
  }

  /** Every number whose top three bytes are not all zero has a text that the header parser takes. */
  lemma LargeIdentifiersFit(digest: Digest, x: nat)
    requires IsDigest(digest) && IsInternal(x)
    requires x >= 0x1_00_0000_0000_0000_0000_0000_0000
    ensures MINIMUM_LENGTH <= |Network(digest, x)| <= MAXIMUM_LENGTH
  {
    var buffer := Payload(digest, x);
    var z := Base58.Leading(0, buffer);
    Window(digest, x);
    TopBytes(digest, x);
    SignificantBytes(buffer);
    LeadingDigitBound(256, buffer[z..]);
    LowerBound(z);
  }

  /** There is an identifier whose text the header parser does not take: fifteen zero bytes are
      spelled with one character each, and what is left is too small to fill the text. */
  lemma SmallIdentifiersDoNotFit(digest: Digest, x: nat)
    requires IsDigest(digest) && x == 1
    ensures |Network(digest, x)| < MINIMUM_LENGTH
  {
    var buffer := Payload(digest, x);
    var bytes: seq<byte> := Digits(256, x, PAYLOAD_SIZE);
    DigitsOfOne(PAYLOAD_SIZE);
    hide Digits;
    assert bytes == Zeros(15) + [1];
    assert forall i :: 0 <= i < 15 ==> buffer[i] == bytes[i];
    assert buffer[15] == bytes[15];
    Window(digest, x);
    FifteenZeros(buffer);
  }

  lemma FifteenZeros(buffer: seq<byte>)
    requires |buffer| == 20 && buffer[15] != 0 && forall i :: 0 <= i < 15 ==> buffer[i] == 0
    ensures Base58.Leading(0, buffer) == 15 && Value(256, buffer) < Pow(58, 10)
  {
    SignificantBytes(buffer);
    ValueBound(256, buffer[15..]);
    SmallPowers();
  }

  lemma SmallPowers()
    ensures Pow(256, 5) < Pow(58, 10)
  {
    PowAdd(58, 5, 5);
    PowBaseStrict(256, 3364, 5);
    PowPow(58, 2, 5);
    assert Pow(58, 2) == 3364;
  }

  lemma {:induction false} DigitsOfOne(len: nat)
    requires len >= 1
    ensures Digits(256, 1, len) == Zeros(len - 1) + [1]
  {
    DigitsOfZero(len - 1);
  }

  lemma {:induction false} DigitsOfZero(len: nat)
    ensures Digits(256, 0, len) == Zeros(len)
  {
    if len > 0 { DigitsOfZero(len - 1); }
  }

  // ---- Containers ----

  datatype Container = Container(internal: nat, network: Text, valid: bool)

  const INVALID: Container := Container(0, RESERVED, false)

  /** Equality as the code defines it: two invalid identifiers are never equal. */
  predicate Same(a: Container, b: Container) {
    (a.valid || b.valid) && a.internal == b.internal
  }

  function FromInternal(digest: Digest, x: nat): Container {
    if x == 0 then INVALID else Container(x, Network(digest, x), true)
  }

  function FromNetwork(digest: Digest, text: Text): Container {
    if text == RESERVED then INVALID
    else match Internal(digest, text)
      case None => INVALID
      case Some(x) => Container(x, text, true)
  }

  /** What every constructor of the class establishes: a valid container is the one that its own
      text leads to, and an invalid one holds the reserved values. */
  ghost predicate WellFormed(digest: Digest, c: Container) {
    if c.valid then FromNetwork(digest, c.network) == c else c == INVALID
  }

  lemma ReservedLeading(payload: Text)
    requires |payload| > 17 && payload[16] != Base58.ONE
    requires forall i :: 0 <= i < 16 ==> payload[i] == Base58.ONE
    ensures Base58.Leading(Base58.ONE, payload) == 16
  {
    var n := Base58.Leading(Base58.ONE, payload);
  }

  lemma ZerosOfDecoding(text: Text)
    requires text != []
    ensures Base58.Leading(Base58.ONE, text) <= |Base58.Decoding(text)|
    ensures forall i :: 0 <= i < Base58.Leading(Base58.ONE, text) ==> Base58.Decoding(text)[i] == 0
  {
  }

  lemma ZeroPayload(digest: Digest, x: nat)
    requires IsInternal(x) && forall i :: 0 <= i < PAYLOAD_SIZE ==> Payload(digest, x)[i] == 0
    ensures x == 0
  {
    var bytes: seq<byte> := Digits(256, x, PAYLOAD_SIZE);
    assert bytes == Zeros(PAYLOAD_SIZE) by {
      assert forall i :: 0 <= i < PAYLOAD_SIZE ==> Payload(digest, x)[i] == bytes[i];
    }
    ValueOfZeros(256, PAYLOAD_SIZE);
    PowersOf256();
    ValueOfDigits(256, x, PAYLOAD_SIZE);
  }

  /** No number but zero has the reserved text. */
  lemma ReservedIsZero(digest: Digest, x: nat, reserved: Text)
    requires IsDigest(digest) && IsInternal(x)
    requires reserved == RESERVED_PAYLOAD
    requires Base58.Encoding(Payload(digest, x)) == reserved
    ensures x == 0
  {
    Base58.DecodeEncode(Payload(digest, x));
    ReservedLeading(reserved);
    ZerosOfDecoding(reserved);
    ZeroPayload(digest, x);
  }

  /** The reserved text never makes a valid container, nor does number 0; identifiers are the same exactly if
      their numbers are, and the invalid one is not even the same as itself. (A valid one whose text is another
      one for number 0 is the same as the invalid one.) */
  lemma SameIdentifiers(digest: Digest, x: nat, y: nat, c: Container)
    requires IsDigest(digest) && IsInternal(x) && IsInternal(y)
    ensures FromNetwork(digest, RESERVED) == FromInternal(digest, 0) == INVALID
    ensures Same(FromInternal(digest, x), FromInternal(digest, y)) <==> x == y != 0
    ensures Same(c, INVALID) <==> c.valid && c.internal == 0
    ensures FromInternal(digest, x).valid <==> x != 0
    ensures FromInternal(digest, x).internal == x
  {
  }

  lemma ContainersAreWellFormed(digest: Digest, x: nat, text: Text)
    requires IsDigest(digest) && IsInternal(x)
    ensures WellFormed(digest, FromInternal(digest, x))
    ensures WellFormed(digest, FromNetwork(digest, text))
  {
    RoundTrip(digest, x);
    if x != 0 && Network(digest, x) == RESERVED {
      assert Base58.Encoding(Payload(digest, x)) == Network(digest, x)[|METADATA|..] == RESERVED_PAYLOAD;
      ReservedIsZero(digest, x, RESERVED_PAYLOAD);
    }
  }
}
