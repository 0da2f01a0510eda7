/** The segmentation calculator `count` of SMSCounter: how many SMS parts a
    text needs under its encoding, and how much room the last part has left.
    A single SMS carries 160 septets or 70 UCS-2 characters; once a message
    is split, the 6-octet concatenation header of section 9.2.3.24.1 of
    3GPP TS 23.040 leaves 153 septets or 67 characters per part. */
module Segments {
  import opened Alphabet

  /** The object `count` returns; `perMessage` is the source's `per_message`. */
  datatype SmsCount = SmsCount(encoding: Encoding, length: nat, perMessage: nat, remaining: nat, messages: nat)

  const Gsm7BitLen := 160
  const Gsm7BitExLen := 160
  const Utf16Len := 70
  const Gsm7BitLenMultipart := 153
  const Gsm7BitExLenMultipart := 153
  const Utf16LenMultipart := 67

  function SinglePartLength(e: Encoding): nat {
    match e
    case Gsm7Bit => Gsm7BitLen
    case Gsm7BitEx => Gsm7BitExLen
    case Utf16 => Utf16Len
  }

  function MultipartLength(e: Encoding): nat {
    match e
    case Gsm7Bit => Gsm7BitLenMultipart
    case Gsm7BitEx => Gsm7BitExLenMultipart
    case Utf16 => Utf16LenMultipart
  }

  /** `(int) ceil($length / $perMessage)`, on integers. */
  function CeilDiv(a: nat, b: nat): (q: nat)
    requires b > 0
    ensures q * b >= a
    ensures q == 0 || (q - 1) * b < a
  {
    (a + b - 1) / b
  }

  /** What the two bounds of a ceiling division say about the quotient: it
      is 0 exactly for 0 units, at most 1 exactly when the units fit in one
      part, and the room left in the last part is less than a part. */
  lemma CeilingFacts(a: nat, b: nat, r: nat)
    requires b > 0
    requires r * b >= a
    requires r == 0 || (r - 1) * b < a
    ensures a <= b <==> r <= 1
    ensures a == 0 <==> r == 0
    ensures 0 <= b * r - a < b
  {
    if r >= 2 {
      assert (r - 1) * b == (r - 2) * b + b;
      assert (r - 2) * b >= 0;
    }
    assert b * r == r * b;
    if r > 0 {
      assert (r - 1) * b == r * b - b;
    }
  }

  /** Parts of `perMessage` units each for `length` units: `messages` is the
      least number of parts that hold the length, and `remaining` the room
      left in the last part, less than a whole part. */
  function Split(encoding: Encoding, length: nat, perMessage: nat): (r: SmsCount)
    requires perMessage > 0
    ensures r.encoding == encoding && r.length == length && r.perMessage == perMessage
    ensures r.remaining < perMessage
    ensures r.messages == 0 <==> length == 0
    ensures r.messages <= 1 <==> length <= perMessage
  {
    var messages := CeilDiv(length, perMessage);
    CeilingFacts(length, perMessage, messages);
    SmsCount(encoding, length, perMessage, perMessage * messages - length, messages)
  }

  /** The arithmetic half of `count`, once the encoding and the length in
      accounting units are known: the part size is the single-part size, or
      the multipart size once the length exceeds it; `messages` is the least
      number of such parts that hold the length; `remaining` is the room left
      in the last part, less than a whole part. The products are stated by
      `SegmentationArithmetic`. */
  function Segmentation(encoding: Encoding, length: nat): (r: SmsCount)
    ensures r.encoding == encoding && r.length == length
    ensures r.perMessage ==
              if length > SinglePartLength(encoding) then MultipartLength(encoding)
              else SinglePartLength(encoding)
    ensures r.remaining < r.perMessage
    ensures r.messages == 0 <==> length == 0
    ensures r.messages <= 1 <==> length <= SinglePartLength(encoding)
  {
    match encoding
    case Gsm7Bit =>
      if length > 160 then Split(encoding, length, 153) else Split(encoding, length, 160)
    case Gsm7BitEx =>
      if length > 160 then Split(encoding, length, 153) else Split(encoding, length, 160)
    case Utf16 =>
      if length > 70 then Split(encoding, length, 67) else Split(encoding, length, 70)
  }

  /** `messages` is the ceiling of `length` over `per_message`, and the room
      left in the last part closes the gap between the two. */
  lemma SegmentationArithmetic(encoding: Encoding, length: nat)
    ensures var r := Segmentation(encoding, length);
      && (r.messages - 1) * r.perMessage < length <= r.messages * r.perMessage
      && r.remaining + length == r.perMessage * r.messages
  {
    var r := Segmentation(encoding, length);
    CeilingFacts(length, r.perMessage, r.messages);
  }

  lemma MulMonotonic(a: int, b: int, c: nat)
    requires a <= b
    ensures a * c <= b * c
  {
  }

  /** A multipart length over `k` full parts needs more than `k` parts. */
  lemma MorePartsThan(e: Encoding, length: nat, k: nat)
    requires length > SinglePartLength(e) && length > k * MultipartLength(e)
    ensures Segmentation(e, length).messages > k
  {
    var r := Segmentation(e, length);
    SegmentationArithmetic(e, length);
    if r.messages <= k {
      MulMonotonic(r.messages, k, r.perMessage);
    }
  }

  /** A multipart length within `k` full parts needs at most `k` parts. */
  lemma AtMostParts(e: Encoding, length: nat, k: nat)
    requires length > SinglePartLength(e) && length <= k * MultipartLength(e)
    ensures Segmentation(e, length).messages <= k
  {
    var r := Segmentation(e, length);
    SegmentationArithmetic(e, length);
    if r.messages > k {
      MulMonotonic(k, r.messages - 1, r.perMessage);
    }
  }

  /** Models `count` on the code points `utf8ToUnicode` decodes from the text:
      the encoding `detectEncoding` picks; the length in accounting units (an
      extension character counts twice under GSM_7BIT_EX); and the parts as
      `Segmentation` computes them, so that no part is needed exactly for the
      empty text and a length over the single-part size needs at least two. */
  function Count(text: seq<int>): (r: SmsCount)
    ensures r.encoding == DetectEncoding(text).encoding
    ensures r.length == |text| + if r.encoding == Gsm7BitEx then |ExChars(text)| else 0
    ensures r == Segmentation(r.encoding, r.length)
    ensures r.messages == 0 <==> text == []
  {
    var detection := DetectEncoding(text);
    var encoding := detection.encoding;
    var length := |text| + if encoding == Gsm7BitEx then |detection.exChars| else 0;
    Segmentation(encoding, length)
  }

  /** Accounting units, character by character: an extension character costs
      two septets under GSM_7BIT_EX, every other code point one unit. */
  function Units(text: seq<int>, e: Encoding): nat
    decreases |text|
  {
    if text == [] then 0
    else (if e == Gsm7BitEx && IsAddedEx(text[0]) then 2 else 1) + Units(text[1..], e)
  }

  lemma {:induction false} UnitsOfExChars(text: seq<int>)
    ensures Units(text, Gsm7BitEx) == |text| + |ExChars(text)|
    ensures Units(text, Gsm7Bit) == |text| && Units(text, Utf16) == |text|
    decreases |text|
  {
    if text != [] {
      UnitsOfExChars(text[1..]);
    }
  }

  /** The `length` of `count` is the text's cost in accounting units. */
  lemma CountLengthIsUnits(text: seq<int>)
    ensures Count(text).length == Units(text, Count(text).encoding)
  {
    UnitsOfExChars(text);
  }

  /** The empty text needs no part at all. */
  lemma CountEmpty()
    ensures Count([]) == SmsCount(Gsm7Bit, 0, 160, 0, 0)
  {
  }

  /** Every character of the text is in the default alphabet and none is an
      extension character. */
  predicate PlainGsm(text: seq<int>) {
    forall i :: 0 <= i < |text| ==> InExMap(text[i]) && !IsAddedEx(text[i])
  }

  /** A text of default-alphabet characters only is counted as GSM_7BIT, one
      septet per character. */
  lemma CountPlainGsm(text: seq<int>)
    requires PlainGsm(text)
    ensures Count(text) == Segmentation(Gsm7Bit, |text|)
  {
    Classification(text);
  }

  /** A non-empty length that fits one part is sent as one part, with the
      rest of that part left over. */
  lemma SinglePart(e: Encoding, n: nat)
    requires 0 < n <= SinglePartLength(e)
    ensures Segmentation(e, n) == SmsCount(e, n, SinglePartLength(e), SinglePartLength(e) - n, 1)
  {
  }

  /** "a GSM Text" from the source's test suite. */
  lemma CountGsmText()
    ensures Count([97, 32, 71, 83, 77, 32, 84, 101, 120, 116]) == SmsCount(Gsm7Bit, 10, 160, 150, 1)
  {
    var text := [97, 32, 71, 83, 77, 32, 84, 101, 120, 116];
    forall i | 0 <= i < |text|
      ensures InExMap(text[i]) && !IsAddedEx(text[i])
    {
      PlainAscii(text[i]);
    }
    CountPlainGsm(text);
    SinglePart(Gsm7Bit, 10);
  }

  /** "a GSM +Text" from the source's test suite. */
  lemma CountGsmSymbols()
    ensures Count([97, 32, 71, 83, 77, 32, 43, 84, 101, 120, 116]) == SmsCount(Gsm7Bit, 11, 160, 149, 1)
  {
    var text := [97, 32, 71, 83, 77, 32, 43, 84, 101, 120, 116];
    forall i | 0 <= i < |text|
      ensures InExMap(text[i]) && !IsAddedEx(text[i])
    {
      PlainAscii(text[i]);
    }
    CountPlainGsm(text);
    SinglePart(Gsm7Bit, 11);
  }

  /** A line feed and a carriage return, both in the default alphabet. */
  lemma CountCarriageReturn()
    ensures Count([10, 13]) == SmsCount(Gsm7Bit, 2, 160, 158, 1)
  {
    var text := [10, 13];
    forall i | 0 <= i < |text|
      ensures InExMap(text[i]) && !IsAddedEx(text[i])
    {
      PlainAscii(text[i]);
    }
    CountPlainGsm(text);
    SinglePart(Gsm7Bit, 2);
  }

  /** A text with a character outside the merged map is counted as UTF16,
      one unit per character. */
  lemma CountUnicode(text: seq<int>, i: int)
    requires 0 <= i < |text| && !InExMap(text[i])
    ensures Count(text) == Segmentation(Utf16, |text|)
  {
    Classification(text);
  }

  /** The backtick is not in the merged map, so it alone makes a text UTF16. */
  lemma CountBacktick()
    ensures Count([96]) == SmsCount(Utf16, 1, 70, 69, 1)
  {
    BacktickOutside();
    CountUnicode([96], 0);
    SinglePart(Utf16, 1);
  }

  /** "1234567890" repeated, cut to `n` code points. */
  function Digits(n: nat): (r: seq<int>)
    ensures |r| == n
    ensures forall i :: 0 <= i < n ==> 48 <= r[i] <= 57
  {
    seq(n, i => 48 + (i + 1) % 10)
  }

  lemma DigitsAreGsm(n: nat)
    ensures forall i :: 0 <= i < n ==> InExMap(Digits(n)[i]) && !IsAddedEx(Digits(n)[i])
  {
    forall i | 0 <= i < n
      ensures InExMap(Digits(n)[i]) && !IsAddedEx(Digits(n)[i])
    {
      PlainAscii(Digits(n)[i]);
    }
  }

  /** Seventeen copies of "1234567890" need two 153-septet parts. */
  lemma CountGsmMultipart()
    ensures Count(Digits(170)) == SmsCount(Gsm7Bit, 170, 153, 136, 2)
  {
    DigitsAreGsm(170);
    CountPlainGsm(Digits(170));
    assert Segmentation(Gsm7Bit, 170) == SmsCount(Gsm7Bit, 170, 153, 136, 2);
  }

  /** A backtick followed by seventy digits needs two 67-character parts. */
  lemma CountUnicodeMultipart()
    ensures Count([96] + Digits(70)) == SmsCount(Utf16, 71, 67, 63, 2)
  {
    BacktickOutside();
    CountUnicode([96] + Digits(70), 0);
    assert Segmentation(Utf16, 71) == SmsCount(Utf16, 71, 67, 63, 2);
  }

  /** A run of digits is GSM_7BIT text, one septet per digit. */
  lemma CountDigits(n: nat)
    ensures Count(Digits(n)) == Segmentation(Gsm7Bit, n)
  {
    DigitsAreGsm(n);
    CountPlainGsm(Digits(n));
  }
}
