/** The Base58 codec of src/Utilities/Base58.hpp: a big number is converted in place, digit by
    digit, in an array whose size is an estimate. */
module Base58 {
  import opened Bytes
  import opened Positional

  function ResultSize(size: nat): (r: nat)
    ensures r >= 1
  {
    size * 138 / 100 + 1
  }

  // ---- Character tables ----

  /** The alphabet 1-9 A-Z a-z without I, O and l. */
  function EncodeMapping(digit: int): (c: byte)
    requires 0 <= digit < 58
    ensures c < 128
  {
    if digit < 9 then digit + 49
    else if digit < 17 then digit - 9 + 65
    else if digit < 22 then digit - 17 + 74
    else if digit < 33 then digit - 22 + 80
    else if digit < 44 then digit - 33 + 97
    else digit - 44 + 109
  }

  /** 0xFF marks a character outside the alphabet. */
  function DecodeMapping(c: byte): (digit: byte)
    requires c < 128
  {
    if 49 <= c < 58 then c - 49
    else if 65 <= c < 73 then c - 65 + 9
    else if 74 <= c < 79 then c - 74 + 17
    else if 80 <= c < 91 then c - 80 + 22
    else if 97 <= c < 108 then c - 97 + 33
    else if 109 <= c < 123 then c - 109 + 44
    else 0xFF
  }

  /** The digits and letters but 0, I, O and l, in ASCII order, in rows of ten. */
  const ALPHABET: seq<string> := [
    "123456789A", "BCDEFGHJKL", "MNPQRSTUVW", "XYZabcdefg", "hijkmnopqr",
    "stuvwxyz"
  ]

  lemma AlphabetIsUsual(digit: int)
    requires 0 <= digit < 58
    ensures EncodeMapping(digit) == ALPHABET[digit / 10][digit % 10] as int
  {
  }

  const ONE: byte := 49    // the character of digit 0

  lemma MappingInverts(digit: int, c: byte)
    requires 0 <= digit && c < 128
    ensures digit < 58 ==> DecodeMapping(EncodeMapping(digit)) == digit
    ensures DecodeMapping(c) < 58 ==> EncodeMapping(DecodeMapping(c)) == c
    ensures DecodeMapping(c) == 0 <==> c == ONE
  {
  }

  // ---- What the codec computes ----

  /** How often `mark` is repeated at the front, not counting the last element. */
  function Leading(mark: int, s: seq<int>): (n: nat)
    ensures n <= |s| && (s != [] ==> n < |s|)
    ensures forall i :: 0 <= i < n ==> s[i] == mark
    ensures n + 1 < |s| ==> s[n] != mark
  {
    if |s| <= 1 || s[0] != mark then 0 else 1 + Leading(mark, s[1..])
  }

  /** The same number in another base, with a zero kept for every leading zero. */
  function Transcode(from: int, to: int, ds: seq<int>): (r: seq<int>)
    requires from >= 2 && to >= 2 && InBase(from, ds)
    ensures InBase(to, r) && r != []
  {
    ValueBound(from, ds);
    Zeros(Leading(0, ds)) + Minimal(to, Value(from, ds))
  }

  lemma LeadingZerosOf(n: nat, ds: seq<int>)
    requires ds != [] && (|ds| == 1 || ds[0] != 0)
    ensures Leading(0, Zeros(n) + ds) == n
  {
    var all, m := Zeros(n) + ds, Leading(0, Zeros(n) + ds);
    assert forall i :: 0 <= i < n ==> all[i] == 0;
    assert all[n] == ds[0];
  }

  lemma ValueSkipsZeros(base: int, n: nat, ds: seq<int>)
    ensures Value(base, Zeros(n) + ds) == Value(base, ds)
  {
    ValueConcat(base, Zeros(n), ds);
    ValueOfZeros(base, n);
  }

  /** Changing the base there and back is the identity, leading zeros included. */
  lemma TranscodeInverts(from: int, to: int, ds: seq<int>)
    requires from >= 2 && to >= 2 && InBase(from, ds) && ds != []
    ensures Transcode(to, from, Transcode(from, to, ds)) == ds
  {
    var n, value := Leading(0, ds), Value(from, ds);
    ValueBound(from, ds);
    var minimal := Minimal(to, value);
    LeadingZerosOf(n, minimal);
    ValueSkipsZeros(to, n, minimal);
    ValueOfMinimal(to, value);
    var tail := ds[n..];
    assert ds == Zeros(n) + tail;
    ValueSkipsZeros(from, n, tail);
    MinimalOfValue(from, tail);
  }

  function Characters(digits: seq<int>): (text: Text)
    requires InBase(58, digits)
    ensures |text| == |digits|
  {
    seq(|digits|, i requires 0 <= i < |digits| => EncodeMapping(digits[i]))
  }

  function Encoding(bytes: seq<byte>): (text: Text)
    requires bytes != []
    ensures text != []
  {
    Characters(Transcode(256, 58, bytes))
  }

  /** Every character has a digit, because only seven bits of it are looked at; characters
      outside the alphabet have digit 0xFF. */
  function DigitsOf(text: Text): (digits: seq<int>)
    ensures |digits| == |text| && InBase(256, digits)
  {
    seq(|text|, i requires 0 <= i < |text| => DecodeMapping(text[i] % 0x80))
  }

  /** Digits of up to 255 keep a base 58 number below 256^n. */
  lemma {:induction false} DecodeBound(ds: seq<int>)
    requires InBase(256, ds)
    ensures 0 <= Value(58, ds) < Pow(256, |ds|)
  {
    if |ds| > 0 {
      var front := ds[..|ds| - 1];
      DecodeBound(front);
      AppendDigitBound(256, Value(58, front), ds[|ds| - 1], Pow(256, |front|));
    }
  }

  function Decoding(text: Text): (bytes: seq<byte>)
    requires text != []
    ensures bytes != []
  {
    DecodeBound(DigitsOf(text));
    Zeros(Leading(ONE, text)) + Minimal(256, Value(58, DigitsOf(text)))
  }

  predicate InAlphabet(text: Text) {
    forall i :: 0 <= i < |text| ==> text[i] < 128 && DecodeMapping(text[i]) < 58
  }

  lemma DigitsInBase(text: Text)
    requires InAlphabet(text)
    ensures InBase(58, DigitsOf(text)) && Characters(DigitsOf(text)) == text
    ensures forall i :: 0 <= i < |text| ==> (DigitsOf(text)[i] == 0 <==> text[i] == ONE)
  {
    forall i | 0 <= i < |text|
      ensures DigitsOf(text)[i] < 58 && EncodeMapping(DigitsOf(text)[i]) == text[i]
      ensures DigitsOf(text)[i] == 0 <==> text[i] == ONE
    {
      MappingInverts(DigitsOf(text)[i], text[i]);
    }
  }

  lemma LeadingAgrees(text: Text, digits: seq<int>)
    requires |digits| == |text|
    requires forall i :: 0 <= i < |text| ==> (digits[i] == 0 <==> text[i] == ONE)
    ensures Leading(ONE, text) == Leading(0, digits)
  {
    var m, n := Leading(0, digits), Leading(ONE, text);
    assert forall i :: 0 <= i < n ==> digits[i] == 0;
    assert forall i :: 0 <= i < m ==> text[i] == ONE;
  }

  /** On strings over the alphabet the decoder, too, is a change of base. */
  lemma DecodingTranscodes(text: Text)
    requires text != [] && InAlphabet(text)
    ensures InBase(58, DigitsOf(text)) && Characters(DigitsOf(text)) == text
    ensures Decoding(text) == Transcode(58, 256, DigitsOf(text))
  {
    DigitsInBase(text);
    LeadingAgrees(text, DigitsOf(text));
  }

  lemma CharactersInAlphabet(digits: seq<int>)
    requires InBase(58, digits)
    ensures InAlphabet(Characters(digits)) && DigitsOf(Characters(digits)) == digits
  {
    forall i | 0 <= i < |digits|
      ensures DecodeMapping(Characters(digits)[i]) == digits[i]
    {
      MappingInverts(digits[i], 0);
    }
  }

  /** Every nonempty byte string survives, with all its leading zeros. */
  lemma DecodeEncode(bytes: seq<byte>)
    requires bytes != []
    ensures InAlphabet(Encoding(bytes))
    ensures Decoding(Encoding(bytes)) == bytes
  {
    CharactersInAlphabet(Transcode(256, 58, bytes));
    DecodingTranscodes(Encoding(bytes));
    TranscodeInverts(256, 58, bytes);
  }

  /** Every nonempty string over the alphabet is the encoding of what it decodes to. */
  lemma EncodeDecode(text: Text)
    requires text != [] && InAlphabet(text)
    ensures Encoding(Decoding(text)) == text
  {
    DecodingTranscodes(text);
    TranscodeInverts(58, 256, DigitsOf(text));
  }

  // ---- The conversion loops ----

  /** The number that digits denote when the least significant one comes first. */
  function Little(base: int, ds: seq<int>): int {
    if |ds| == 0 then 0
    else Little(base, ds[..|ds| - 1]) + ds[|ds| - 1] * Pow(base, |ds| - 1)
  }

  lemma {:induction false} LittleIsReversed(base: int, ds: seq<int>)
    ensures Value(base, Reversed(ds)) == Little(base, ds)
  {
    if |ds| > 0 {
      var front, last := ds[..|ds| - 1], ds[|ds| - 1];
      assert Reversed(ds) == [last] + Reversed(front);
      ValueConcat(base, [last], Reversed(front));
      assert [last][..0] == [];
      assert Value(base, [last]) == last;
      LittleIsReversed(base, front);
    }
  }

  lemma LittleSnoc(base: int, ds: seq<int>, n: nat)
    requires n < |ds|
    ensures Little(base, ds[..n + 1]) == Little(base, ds[..n]) + ds[n] * Pow(base, n)
  {
    assert ds[..n + 1][..n] == ds[..n];
  }

  lemma LittleBound(base: int, ds: seq<int>)
    requires base >= 2 && InBase(base, ds)
    ensures 0 <= Little(base, ds) < Pow(base, |ds|)
  {
    LittleIsReversed(base, ds);
    ValueBound(base, Reversed(ds));
  }

  /** One round of the inner loops: carry + digit * factor is spread over a digit and a carry. */
  lemma CarryStep(base: int, factor: int, low: int, lowNew: int, digit: int, carry: int, addend: int, p: int)
    requires base >= 2
    requires lowNew + carry * p == low * factor + addend
    ensures
      var sum := carry + digit * factor;
      lowNew + (sum % base) * p + (sum / base) * (base * p) == (low + digit * p) * factor + addend
  {
    var sum := carry + digit * factor;
    var q, r := sum / base, sum % base;
    DivModBounds(base, sum);
    assert q * (base * p) == (q * base) * p;
    assert r * p + (q * base) * p == sum * p;
    assert (digit * factor) * p == (digit * p) * factor;
    assert sum * p == carry * p + (digit * factor) * p;
    assert (low + digit * p) * factor == low * factor + (digit * p) * factor;
  }

  lemma CarryBound(base: int, factor: int, digit: int, carry: int)
    requires 2 <= base && 0 <= digit < base && 0 <= factor <= 256 && 0 <= carry < 256
    ensures 0 <= (carry + digit * factor) / base < 256
  {
    MulMonotone(digit, factor, 256);
    MulMonotone(digit, 0, factor);
    MulMonotone(256, digit, base - 1);
    var sum := carry + digit * factor;
    assert sum < 256 * base;
    DivModBounds(base, sum);
    var q := sum / base;
    if q >= 256 { MulMonotone(base, 256, q); }
    if q < 0 { MulMonotone(base, q, -1); }
  }

  /** Below `idx` the digits of `before` are multiplied and the byte is added, up to the carry. */
  ghost predicate Multiplied(base: int, factor: int, addend: int, before: seq<int>, now: seq<int>,
                             idx: nat, carry: int) {
    && |now| == |before| && idx <= |now| && InBase(base, now) && 0 <= carry < 256
    && (forall k :: idx <= k < |now| ==> now[k] == before[k])
    && Little(base, now[..idx]) + carry * Pow(base, idx) == Little(base, before[..idx]) * factor + addend
  }

  lemma MultipliedStep(base: int, factor: int, addend: int, before: seq<int>, now: seq<int>,
                       idx: nat, carry: int, sum: int)
    requires 2 <= base && 0 <= factor <= 256 && idx < |now|
    requires Multiplied(base, factor, addend, before, now, idx, carry)
    requires sum == carry + now[idx] * factor
    ensures 0 <= sum / base < 256 && 0 <= sum % base < base
    ensures Multiplied(base, factor, addend, before, now[idx := sum % base], idx + 1, sum / base)
  {
    CarryBound(base, factor, now[idx], carry);
    DivModBounds(base, sum);
    CarryStep(base, factor, Little(base, before[..idx]), Little(base, now[..idx]), now[idx], carry, addend,
              Pow(base, idx));
    LittleSnoc(base, before, idx);
    LittleSnoc(base, now[idx := sum % base], idx);
    assert now[idx := sum % base][..idx] == now[..idx];
  }

  /** Multiplies the first `length` digits by `factor` and adds a byte, in place; what does not fit
      is the carry. Encode calls it with (58, 256), Decode with (256, 58). */
  method MultiplyAdd(base: int, factor: int, digits: array<byte>, length: nat, addend: byte)
    returns (carry: byte)
    requires 2 <= base <= 256 && 0 <= factor <= 256 && length <= digits.Length
    requires InBase(base, digits[..])
    modifies digits
    ensures Multiplied(base, factor, addend, old(digits[..]), digits[..], length, carry)
  {
    carry := addend;
    ghost var before := digits[..];
    assert Multiplied(base, factor, addend, before, digits[..], 0, carry) by {
      assert before[..0] == [];
    }
    hide Multiplied;
    for idx := 0 to length
      invariant Multiplied(base, factor, addend, before, digits[..], idx, carry)
    {
      var sum: int := carry + digits[idx] * factor;
      MultipliedStep(base, factor, addend, before, digits[..], idx, carry, sum);
      digits[idx] := sum % base;
      carry := sum / base;
    }
  }

  /** The first `length` digits and the carry denote `total`, without a superfluous digit. */
  ghost predicate Carried(base: int, now: seq<int>, length: nat, carry: int, total: int) {
    && 1 <= length <= |now| && InBase(base, now) && 0 <= carry < 256
    && Little(base, now[..length]) + carry * Pow(base, length) == total < Pow(base, |now|)
    && (length == 1 || Pow(base, length - 1) <= total)
  }

  lemma CarriedStep(base: int, now: seq<int>, length: nat, carry: int, total: int)
    requires base >= 2 && Carried(base, now, length, carry, total) && carry != 0
    ensures length < |now|
    ensures 0 <= carry % base < base && 0 <= carry / base < carry
    ensures Carried(base, now[length := carry % base], length + 1, carry / base, total)
  {
    LittleBound(base, now[..length]);
    CarryFits(base, length, |now|, Little(base, now[..length]), carry, total);
    CarryParts(base, Little(base, now[..length]), carry, total, Pow(base, length));
    hide Pow, Little, Carried;
    CarriedOn(base, now, length, carry % base, carry / base, total);
  }

  lemma CarryParts(base: int, low: int, carry: int, total: int, p: int)
    requires base >= 2 && carry >= 1 && low + carry * p == total
    ensures 0 <= carry % base < base && 0 <= carry / base < carry
    ensures low + (carry % base) * p + (carry / base) * (base * p) == total
  {
    DivModBounds(base, carry);
    if carry >= base { DivideShrinks(base, carry); } else { DivModUnique(base, 0, carry); }
    CarryStep(base, 0, 0, low, 0, carry, total, p);
  }

  lemma CarriedOn(base: int, now: seq<int>, length: nat, digit: int, carry: int, total: int)
    requires 1 <= length < |now| && InBase(base, now) && 0 <= digit < base && 0 <= carry < 256
    requires Little(base, now[..length]) + digit * Pow(base, length) + carry * (base * Pow(base, length)) == total
    requires Pow(base, length) <= total < Pow(base, |now|)
    ensures Carried(base, now[length := digit], length + 1, carry, total)
  {
    var next := now[length := digit];
    assert Pow(base, length + 1) == base * Pow(base, length);
    hide Pow, Little;
    LittleSnoc(base, next, length);
    assert next[..length] == now[..length];
  }

  lemma CarryFits(base: int, length: nat, size: nat, low: int, carry: int, total: int)
    requires base >= 2 && carry >= 1 && low >= 0
    requires low + carry * Pow(base, length) == total < Pow(base, size)
    ensures Pow(base, length) <= total && length < size
  {
    PowPositive(base, length);
    MulMonotone(Pow(base, length), 1, carry);
    if length >= size { PowMonotone(base, size, length); }
  }

  /** Appends the digits of the carry; the bound on the total is what keeps the writes inside. */
  method AppendCarry(base: int, digits: array<byte>, length: nat, carry: byte, ghost total: int)
    returns (length': nat)
    requires 2 <= base <= 256
    requires Carried(base, digits[..], length, carry, total)
    modifies digits
    ensures Carried(base, digits[..], length', 0, total)
  {
    hide Carried;
    length' := length;
    var rest := carry;
    while rest != 0
      invariant Carried(base, digits[..], length', rest, total)
      decreases rest
    {
      CarriedStep(base, digits[..], length', rest, total);
      digits[length'] := rest % base;
      length' := length' + 1;
      rest := rest / base;
    }
  }

  lemma CarriedStart(base: int, size: nat)
    requires base >= 2 && size >= 1
    ensures Carried(base, Zeros(size), 1, 0, 0)
  {
    LittleSnoc(base, Zeros(size), 0);
    assert Zeros(size)[..0] == [];
    PowPositive(base, size);
  }

  lemma CarriedAgain(base: int, factor: int, addend: int, before: seq<int>, now: seq<int>,
                     length: nat, carry: int, total: int, total': int)
    requires base >= 2 && factor >= 1 && addend >= 0 && total >= 0
    requires Carried(base, before, length, 0, total)
    requires Multiplied(base, factor, addend, before, now, length, carry)
    requires total' == total * factor + addend < Pow(base, |now|)
    ensures Carried(base, now, length, carry, total')
  {
    MulMonotone(total, 1, factor);
  }

  lemma TopDigit(base: int, ds: seq<int>, total: int)
    requires base >= 2 && InBase(base, ds) && |ds| > 1 && Little(base, ds) >= Pow(base, |ds| - 1)
    ensures ds[|ds| - 1] != 0
  {
    LittleBound(base, ds[..|ds| - 1]);
  }

  lemma CarriedDone(base: int, now: seq<int>, length: nat, total: int)
    requires base >= 2 && total >= 0 && Carried(base, now, length, 0, total)
    ensures Reversed(now[..length]) == Minimal(base, total)
  {
    var ds := now[..length];
    assert InBase(base, ds) && length >= 1 && Little(base, ds) == total;
    assert length == 1 || total >= Pow(base, length - 1);
    hide Carried, Minimal;
    LittleIsReversed(base, ds);
    if length > 1 { TopDigit(base, ds, total); }
    hide Little, Value;
    MinimalOfValue(base, Reversed(ds));
  }

  /** The estimate is large enough: 256^n <= 58^(n * 138 / 100 + 1), because 256^8 < 58^11. */
  lemma EstimateSuffices(n: nat)
    ensures Pow(256, n) <= Pow(58, ResultSize(n))
  {
    var size := ResultSize(n);
    assert 11 * n <= 8 * size;
    assert Pow(256, 8) == 0x1_0000_0000_0000_0000 by { PowersOf256(); }
    assert Pow(58, 11) == 24986644000165537792 by { PowersOf58(); }
    PowBaseMonotone(Pow(256, 8), Pow(58, 11), n);
    PowPow(256, 8, n);
    PowPow(58, 11, n);
    PowMonotone(58, 11 * n, 8 * size);
    PowPow(256, n, 8);
    PowPow(58, size, 8);
    PowPositive(256, n);
    PowPositive(58, size);
    assert n * 8 == 8 * n && size * 8 == 8 * size;
    if Pow(58, size) < Pow(256, n) {
      PowBaseStrict(Pow(58, size), Pow(256, n), 8);
    }
  }

  lemma PowersOf256()
    ensures Pow(256, 8) == 0x1_0000_0000_0000_0000
  {
    PowAdd(256, 4, 4);
    PowAdd(256, 2, 2);
    assert Pow(256, 2) == 0x1_0000;
  }

  lemma PowersOf58()
    ensures Pow(58, 11) == 24986644000165537792
  {
    PowAdd(58, 2, 2);
    PowAdd(58, 4, 4);
    PowAdd(58, 8, 3);
    assert Pow(58, 2) == 3364;
    assert Pow(58, 3) == 58 * Pow(58, 2);
  }

  lemma ValueSnoc(base: int, ds: seq<int>, n: nat)
    requires n < |ds|
    ensures Value(base, ds[..n + 1]) == Value(base, ds[..n]) * base + ds[n]
  {
    assert ds[..n + 1][..n] == ds[..n];
  }

  lemma EncodeTotal(source: seq<byte>, i: nat)
    requires i < |source|
    ensures Value(256, source[..i + 1]) == Value(256, source[..i]) * 256 + source[i]
    ensures 0 <= Value(256, source[..i])
    ensures Value(256, source[..i + 1]) < Pow(58, ResultSize(|source|))
  {
    ValueSnoc(256, source, i);
    ValueBound(256, source[..i]);
    ValueBound(256, source[..i + 1]);
    PowMonotone(256, i + 1, |source|);
    EstimateSuffices(|source|);
  }

  /** Appends the encoding of a nonempty source to the destination. */
  method Encode(source: seq<byte>, prefix: Text) returns (destination: Text)
    requires source != []
    ensures destination == prefix + Encoding(source)
  {
    var size := ResultSize(|source|);
    var indicies := new byte[size](_ => 0);
    var length: nat := 1;
    CarriedStart(58, size);
    assert indicies[..] == Zeros(size) && source[..0] == [];
    for i := 0 to |source|
      invariant indicies.Length == size
      invariant Carried(58, indicies[..], length, 0, Value(256, source[..i]))
    {
      hide Value, Carried, Multiplied;
      EncodeTotal(source, i);
      assert InBase(58, indicies[..]) && length <= indicies.Length by {
        CarriedShape(58, indicies[..], length, 0, Value(256, source[..i]));
      }
      ghost var before := indicies[..];
      var carry := MultiplyAdd(58, 256, indicies, length, source[i]);
      CarriedAgain(58, 256, source[i], before, indicies[..], length, carry,
                   Value(256, source[..i]), Value(256, source[..i + 1]));
      length := AppendCarry(58, indicies, length, carry, Value(256, source[..i + 1]));
    }
    assert source[..|source|] == source;
    ValueBound(256, source);
    CarriedDone(58, indicies[..], length, Value(256, source));
    destination := WriteOut(source, indicies[..length], prefix);
  }

  lemma CarriedShape(base: int, now: seq<int>, length: nat, carry: int, total: int)
    requires Carried(base, now, length, carry, total)
    ensures InBase(base, now) && 1 <= length <= |now|
  {
  }

  lemma CharactersSnoc(digits: seq<int>, digit: int)
    requires InBase(58, digits) && 0 <= digit < 58
    ensures Characters(digits + [digit]) == Characters(digits) + [EncodeMapping(digit)]
  {
  }

  method WriteOut(source: seq<byte>, digits: seq<byte>, prefix: Text) returns (destination: Text)
    requires source != [] && InBase(58, digits)
    ensures destination == prefix + Characters(Zeros(Leading(0, source)) + Reversed(digits))
  {
    destination := prefix;
    var idx: nat := 0;
    hide Characters, EncodeMapping;
    assert Characters([]) == [] && Zeros(0) == [];
    while idx < |source| - 1 && source[idx] == 0
      invariant idx <= Leading(0, source)
      invariant destination == prefix + Characters(Zeros(idx))
    {
      assert Zeros(idx + 1) == Zeros(idx) + [0];
      CharactersSnoc(Zeros(idx), 0);
      destination := destination + [EncodeMapping(0)];
      idx := idx + 1;
    }
    ghost var written := Zeros(idx);
    for i := 0 to |digits|
      invariant destination == prefix + Characters(written + Reversed(digits)[..i])
    {
      assert written + Reversed(digits)[..i + 1]
        == written + Reversed(digits)[..i] + [digits[|digits| - i - 1]];
      CharactersSnoc(written + Reversed(digits)[..i], digits[|digits| - i - 1]);
      destination := destination + [EncodeMapping(digits[|digits| - i - 1])];
    }
    assert Reversed(digits)[..|digits|] == Reversed(digits);
  }

  lemma DecodeTotal(source: Text, i: nat)
    requires i < |source|
    ensures Value(58, DigitsOf(source)[..i + 1])
      == Value(58, DigitsOf(source)[..i]) * 58 + DecodeMapping(source[i] % 0x80)
    ensures 0 <= Value(58, DigitsOf(source)[..i])
    ensures Value(58, DigitsOf(source)[..i + 1]) < Pow(256, ResultSize(|source|))
  {
    ValueSnoc(58, DigitsOf(source), i);
    DecodeBound(DigitsOf(source)[..i]);
    DecodeBound(DigitsOf(source)[..i + 1]);
    PowMonotone(256, i + 1, ResultSize(|source|));
  }

  /** Every nonempty string decodes, whatever its characters are. */
  method Decode(source: Text) returns (bytes: seq<byte>)
    requires source != []
    ensures bytes == Decoding(source)
  {
    var size := ResultSize(|source|);
    var decoded := new byte[size](_ => 0);
    var length: nat := 1;
    ghost var digits := DigitsOf(source);
    CarriedStart(256, size);
    assert decoded[..] == Zeros(size) && digits[..0] == [];
    for i := 0 to |source|
      invariant decoded.Length == size
      invariant Carried(256, decoded[..], length, 0, Value(58, digits[..i]))
    {
      hide Value, Carried, Multiplied, DigitsOf;
      DecodeTotal(source, i);
      assert InBase(256, decoded[..]) && length <= decoded.Length by {
        CarriedShape(256, decoded[..], length, 0, Value(58, digits[..i]));
      }
      ghost var before := decoded[..];
      var digit := DecodeMapping(source[i] % 0x80);
      var carry := MultiplyAdd(256, 58, decoded, length, digit);
      CarriedAgain(256, 58, digit, before, decoded[..], length, carry,
                   Value(58, digits[..i]), Value(58, digits[..i + 1]));
      length := AppendCarry(256, decoded, length, carry, Value(58, digits[..i + 1]));
    }
    assert digits[..|source|] == digits;
    DecodeBound(digits);
    CarriedDone(256, decoded[..], length, Value(58, digits));
    bytes := Finish(source, decoded[..length]);
  }

  method Finish(source: Text, digits: seq<byte>) returns (bytes: seq<byte>)
    requires source != []
    ensures bytes == Zeros(Leading(ONE, source)) + Reversed(digits)
  {
    var decoded := digits;
    var idx: nat := 0;
    while idx < |source| - 1 && source[idx] == ONE
      invariant idx <= Leading(ONE, source)
      invariant decoded == digits + Zeros(idx)
    {
      decoded := decoded + [0];
      idx := idx + 1;
    }
    bytes := Reversed(decoded);
    assert bytes == Zeros(idx) + Reversed(digits);
  }
}
