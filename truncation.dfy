/** The truncation engine `truncate` of SMSCounter: cut a text down to a
    prefix that fits in a given number of SMS parts, re-counting after every
    cut, since dropping characters can change the encoding. */
module Truncation {
  import opened Alphabet
  import opened Segments

  /** `mb_substr($str, 0, $n)` on code points: the first `n` of them, or the
      whole text when it is shorter. */
  function Prefix(s: seq<int>, n: nat): (r: seq<int>)
    ensures r <= s
    ensures |r| == if n < |s| then n else |s|
  {
    if n < |s| then s[..n] else s
  }

  /** The `$limit` the loop starts from: the single-part size of the text's
      encoding family, or its multipart size when more than two parts are
      allowed (a budget of exactly two starts from the single-part size). */
  function StartLimit(e: Encoding, limitSms: nat): (limit: nat)
    ensures limit == (if e == Utf16 then Utf16Len else Gsm7BitLen) <==> limitSms <= 2
  {
    if e == Utf16 then
      if limitSms > 2 then Utf16LenMultipart else Utf16Len
    else
      if limitSms > 2 then Gsm7BitLenMultipart else Gsm7BitLen
  }

  /** The two `if` blocks of `truncate` that pick the starting `$limit`. */
  method InitialLimit(encoding: Encoding, limitSms: nat) returns (limit: nat)
    ensures limit == StartLimit(encoding, limitSms)
  {
    if encoding == Utf16 {
      limit := Utf16Len;
      if limitSms > 2 {
        limit := Utf16LenMultipart;
      }
    }
    if encoding != Utf16 {
      limit := Gsm7BitLen;
      if limitSms > 2 {
        limit := Gsm7BitLenMultipart;
      }
    }
  }

  /** The number of code points `truncate` keeps with a given `$limit`. */
  function CutSize(limit: nat, limitSms: nat): nat {
    limit * limitSms
  }

  /** The cut the loop makes with a given `$limit` still needs too many parts. */
  predicate TooLong(str: seq<int>, limitSms: nat, limit: nat) {
    Count(Prefix(str, CutSize(limit, limitSms))).messages > limitSms
  }

  /** With a limit of 0 the cut leaves nothing, and the empty text needs no
      part, so the loop below always stops. */
  lemma ZeroFits(str: seq<int>, limitSms: nat)
    ensures Prefix(str, CutSize(0, limitSms)) == []
    ensures !TooLong(str, limitSms, 0) && CutFits(str, limitSms)(0)
  {
  }

  /** The fit test of the loop on a text: the cut with a given limit needs
      no more parts than allowed. */
  function CutFits(str: seq<int>, limitSms: nat): nat -> bool {
    (l: nat) => !TooLong(str, limitSms, l)
  }

  /** Where a count-down loop like the `do ... while` of `truncate` stops
      when it starts from `limit`: the first limit, counting down, that
      passes the test. Since the limit 0 passes, it always stops, and every
      limit above the stop fails. */
  function FirstFit(fits: nat -> bool, limit: nat): (stop: nat)
    requires fits(0)
    ensures stop <= limit && fits(stop)
    ensures forall l :: stop < l <= limit ==> !fits(l)
    decreases limit
  {
    if fits(limit) then limit else FirstFit(fits, limit - 1)
  }

  /** The first fit is the only limit that passes with every limit above it
      failing. */
  lemma FirstFitUnique(fits: nat -> bool, limit: nat, stop: nat)
    requires fits(0)
    requires stop <= limit
    requires forall l :: stop < l <= limit ==> !fits(l)
    requires fits(stop)
    ensures FirstFit(fits, limit) == stop
  {
    var first := FirstFit(fits, limit);
    assert !(stop < first) && !(first < stop);
  }

  lemma PrefixOfPrefix(s: seq<int>, a: nat, b: nat)
    requires b <= a
    ensures Prefix(Prefix(s, a), b) == Prefix(s, b)
  {
  }

  /** Cutting to a larger limit first does not change a later cut. */
  lemma CutBelow(str: seq<int>, limitSms: nat, limit: nat, l: nat)
    requires l <= limit
    ensures Prefix(Prefix(str, CutSize(limit, limitSms)), CutSize(l, limitSms)) == Prefix(str, CutSize(l, limitSms))
  {
    MulMonotonic(l, limit, limitSms);
    assert CutSize(l, limitSms) <= CutSize(limit, limitSms);
    PrefixOfPrefix(str, CutSize(limit, limitSms), CutSize(l, limitSms));
  }

  /** What `truncate` returns: the text itself when it fits; otherwise its
      cut at the first fitting limit, counting down from the starting one. */
  function Truncated(str: seq<int>, limitSms: nat): (r: seq<int>)
    ensures r <= str
    ensures Count(r).messages <= limitSms
    ensures Count(str).messages <= limitSms ==> r == str
  {
    var count := Count(str);
    if count.messages <= limitSms then str
    else
      ZeroFits(str, limitSms);
      Prefix(str, CutSize(FirstFit(CutFits(str, limitSms), StartLimit(count.encoding, limitSms)), limitSms))
  }

  /** A limit that fails the test is not where the count-down stops: the
      loop goes on from the limit below, towards the same first fit. */
  lemma FirstFitStep(fits: nat -> bool, limit: nat)
    requires fits(0) && !fits(limit)
    ensures limit > 0 && FirstFit(fits, limit) == FirstFit(fits, limit - 1)
  {
  }

  /** Models `truncate`, with `limitSms` a natural number. The loop cuts the
      text it has already cut, as the source does; every cut equals the cut
      of the original text with the same limit. */
  method Truncate(str: seq<int>, limitSms: nat) returns (r: seq<int>)
    ensures r == Truncated(str, limitSms)
  {
    var count := Count(str);
    if count.messages <= limitSms {
      return str;
    }
    var limit: int := InitialLimit(count.encoding, limitSms);
    ZeroFits(str, limitSms);
    ghost var first := FirstFit(CutFits(str, limitSms), limit);
    r := str;
    while true
      invariant limit >= 0
      invariant Prefix(r, CutSize(limit, limitSms)) == Prefix(str, CutSize(limit, limitSms))
      invariant FirstFit(CutFits(str, limitSms), limit) == first
      decreases limit
    {
      r := Prefix(r, CutSize(limit, limitSms));
      count := Count(r);
      limit := limit - 1;
      if count.messages <= limitSms {
        break;
      }
      FirstFitStep(CutFits(str, limitSms), limit + 1);
      CutBelow(str, limitSms, limit + 1, limit);
    }
  }

  /** A text cut to fit is left alone by a second truncation. */
  lemma TruncateIdempotent(str: seq<int>, limitSms: nat)
    ensures Truncated(Truncated(str, limitSms), limitSms) == Truncated(str, limitSms)
  {
  }

  /** With no part allowed, only the empty text is left. */
  lemma TruncateZeroBudget(str: seq<int>)
    ensures Truncated(str, 0) == []
  {
  }

  /** When a text does not fit and the first fitting limit below the
      starting one is `stop`, `truncate` keeps the cut at `stop`. */
  lemma TruncatedAt(str: seq<int>, limitSms: nat, stop: nat)
    requires Count(str).messages > limitSms
    requires stop <= StartLimit(Count(str).encoding, limitSms)
    requires forall l: nat :: stop < l <= StartLimit(Count(str).encoding, limitSms) ==> TooLong(str, limitSms, l)
    requires !TooLong(str, limitSms, stop)
    ensures Truncated(str, limitSms) == Prefix(str, CutSize(stop, limitSms))
  {
    ZeroFits(str, limitSms);
    FirstFitUnique(CutFits(str, limitSms), StartLimit(Count(str).encoding, limitSms), stop);
  }

  /** Every cut of a plain GSM text is GSM_7BIT, one septet per code point. */
  lemma PlainCut(t: seq<int>, n: nat)
    requires PlainGsm(t)
    ensures Count(Prefix(t, n)) == Segmentation(Gsm7Bit, |Prefix(t, n)|)
  {
    var r := Prefix(t, n);
    assert forall i :: 0 <= i < |r| ==> r[i] == t[i];
    CountPlainGsm(r);
  }

  /** A plain GSM text of more than 160 characters, like the Lorem ipsum text
      of the one-part test, keeps its first 160 with a budget of one part. */
  lemma TruncateGsmOnePart(t: seq<int>)
    requires PlainGsm(t) && |t| > 160
    ensures Truncated(t, 1) == t[..160]
  {
    CountPlainGsm(t);
    MorePartsThan(Gsm7Bit, |t|, 1);
    PlainCut(t, 160);
    SinglePart(Gsm7Bit, 160);
    TruncatedAt(t, 1, 160);
  }

  /** With two parts allowed, every cut above 306 characters of a longer
      plain GSM text needs three parts. */
  lemma GsmCutTooLong(t: seq<int>, l: nat)
    requires PlainGsm(t) && |t| > 306 && 153 < l <= 160
    ensures TooLong(t, 2, l)
  {
    PlainCut(t, l * 2);
    MorePartsThan(Gsm7Bit, |Prefix(t, l * 2)|, 2);
  }

  /** The cut to 306 characters fits in two parts. */
  lemma GsmCutFits(t: seq<int>)
    requires PlainGsm(t) && |t| > 306
    ensures !TooLong(t, 2, 153)
  {
    PlainCut(t, 306);
    AtMostParts(Gsm7Bit, 306, 2);
  }

  /** A budget of exactly two parts starts from the single-part size, 160,
      so the loop runs down from 320 characters to 306, two full 153-septet
      parts: a plain GSM text of more than 306 characters, like the text of
      the two-part test, keeps its first 306. */
  lemma TruncateGsmTwoParts(t: seq<int>)
    requires PlainGsm(t) && |t| > 306
    ensures Truncated(t, 2) == t[..306]
  {
    CountPlainGsm(t);
    MorePartsThan(Gsm7Bit, |t|, 2);
    forall l: nat | 153 < l <= 160
      ensures TooLong(t, 2, l)
    {
      GsmCutTooLong(t, l);
    }
    GsmCutFits(t);
    TruncatedAt(t, 2, 153);
  }

  /** A cut that keeps a character outside the merged map is UTF16, one
      unit per code point. */
  lemma UnicodeCut(t: seq<int>, i: nat, n: nat)
    requires i < |t| && i < n && !InExMap(t[i])
    ensures Count(Prefix(t, n)) == Segmentation(Utf16, |Prefix(t, n)|)
  {
    var r := Prefix(t, n);
    assert r[i] == t[i];
    CountUnicode(r, i);
  }

  /** A text of more than 70 code points with a character outside the map
      among its first 70, like the snowman text of the one-part test, keeps
      its first 70 with a budget of one part. */
  lemma TruncateUnicodeOnePart(t: seq<int>, i: nat)
    requires i < 70 < |t| && !InExMap(t[i])
    ensures Truncated(t, 1) == t[..70]
  {
    CountUnicode(t, i);
    MorePartsThan(Utf16, |t|, 1);
    UnicodeCut(t, i, 70);
    SinglePart(Utf16, 70);
    TruncatedAt(t, 1, 70);
  }

  /** With two parts allowed, every cut above 134 code points that keeps
      the character outside the map needs three UTF16 parts. */
  lemma UnicodeCutTooLong(t: seq<int>, i: nat, l: nat)
    requires i < 134 < |t| && !InExMap(t[i]) && 67 < l <= 70
    ensures TooLong(t, 2, l)
  {
    UnicodeCut(t, i, l * 2);
    MorePartsThan(Utf16, |Prefix(t, l * 2)|, 2);
  }

  /** The cut to 134 code points fits in two UTF16 parts. */
  lemma UnicodeCutFits(t: seq<int>, i: nat)
    requires i < 134 < |t| && !InExMap(t[i])
    ensures !TooLong(t, 2, 67)
  {
    UnicodeCut(t, i, 134);
    AtMostParts(Utf16, 134, 2);
  }

  /** With two parts allowed the UTF16 loop runs down from 140 code points to
      134, two full 67-character parts: a text of more than 134 code points
      with a character outside the map among its first 134, like the text
      of the two-part snowman test, keeps its first 134. */
  lemma TruncateUnicodeTwoParts(t: seq<int>, i: nat)
    requires i < 134 < |t| && !InExMap(t[i])
    ensures Truncated(t, 2) == t[..134]
  {
    CountUnicode(t, i);
    MorePartsThan(Utf16, |t|, 2);
    forall l: nat | 67 < l <= 70
      ensures TooLong(t, 2, l)
    {
      UnicodeCutTooLong(t, i, l);
    }
    UnicodeCutFits(t, i);
    TruncatedAt(t, 2, 67);
  }

  /** Digits with a snowman at the end need two UTF16 parts. */
  lemma DigitsThenSnowman()
    ensures Count(Digits(80) + [9731]).messages > 1
    ensures Count(Digits(80) + [9731]).encoding == Utf16
  {
    var text := Digits(80) + [9731];
    assert |text| == 81 && text[80] == 9731;
    SnowmanOutside();
    CountUnicode(text, 80);
    MorePartsThan(Utf16, 81, 1);
  }

  /** The cut to 70 code points of that text loses the snowman and fits. */
  lemma DigitsThenSnowmanCut()
    ensures Prefix(Digits(80) + [9731], 70) == Digits(70)
    ensures !TooLong(Digits(80) + [9731], 1, 70)
  {
    assert Prefix(Digits(80) + [9731], 70) == Digits(70);
    CountDigits(70);
    SinglePart(Gsm7Bit, 70);
  }

  /** The loop does not always find the longest prefix that fits: the cut
      to 70 code points drops the snowman and the text falls back to
      GSM_7BIT, so the loop stops at 70 digits although 80 digits, also a
      prefix of the input, fit in one part. */
  lemma TruncateNotLongest()
    ensures Truncated(Digits(80) + [9731], 1) == Digits(70)
    ensures Digits(80) <= Digits(80) + [9731] && Count(Digits(80)).messages == 1
  {
    DigitsThenSnowman();
    DigitsThenSnowmanCut();
    TruncatedAt(Digits(80) + [9731], 1, 70);
    CountDigits(80);
    SinglePart(Gsm7Bit, 80);
  }
}
