/** The hand-written UTF-8 conversion routines of SMSCounter: the decoder
    `utf8ToUnicode`, the single code point encoder `utf8Chr` and the sequence
    encoder `unicodeToUtf8`. They implement a subset of section 3 of RFC 3629:
    the decoder knows only the 1-, 2- and 3-byte forms and never checks that
    continuation bytes look like continuation bytes. */
module Utf8 {

  /** One octet of a PHP byte string. */
  type byte = b: int | 0 <= b < 256

  /** The local variables of `utf8ToUnicode` between two bytes: the code points
      emitted so far, the bytes of the pending multi-byte group and the length
      of that group. */
  datatype DecoderState = DecoderState(unicode: seq<int>, values: seq<byte>, lookingFor: int)
  {
    /** Either no group is pending (and `lookingFor` is back at 1), or a 2- or
        3-byte group has started and is not yet complete. */
    predicate Valid() {
      (values == [] && lookingFor == 1) ||
      ((lookingFor == 2 || lookingFor == 3) && 1 <= |values| < lookingFor)
    }
  }

  const Initial := DecoderState([], [], 1)

  /** The code point of a completed group: 4 + 6 + 6 payload bits for a
      3-byte group, 5 + 6 for a 2-byte group. */
  function GroupValue(values: seq<byte>, lookingFor: int): (n: int)
    requires (lookingFor == 2 || lookingFor == 3) && |values| == lookingFor
    ensures 0 <= n < (if lookingFor == 3 then 0x10000 else 0x800)
  {
    if lookingFor == 3 then
      (values[0] as int % 16) * 4096 + (values[1] as int % 64) * 64 + values[2] as int % 64
    else
      (values[0] as int % 32) * 64 + values[1] as int % 64
  }

  /** One iteration of the decoder's loop on byte `b`. An ASCII byte is emitted
      at once, even while a group is pending. A byte >= 128 joins the pending
      group; when it starts one, a lead byte below 224 announces a 2-byte group
      and any other lead byte (240 and above included) a 3-byte group. */
  function Step(st: DecoderState, b: byte): (r: DecoderState)
    requires st.Valid()
    ensures r.Valid()
    ensures b < 128 ==> r == st.(unicode := st.unicode + [b])
    ensures b >= 128 && st.values == [] && b < 224 ==> r == DecoderState(st.unicode, [b], 2)
    ensures b >= 128 && st.values == [] && b >= 224 ==> r == DecoderState(st.unicode, [b], 3)
    ensures b >= 128 && st.values != [] && |st.values| + 1 == st.lookingFor ==>
              r == DecoderState(st.unicode + [GroupValue(st.values + [b], st.lookingFor)], [], 1)
  {
    if b < 128 then
      st.(unicode := st.unicode + [b])
    else
      var lookingFor := if st.values == [] then (if b < 224 then 2 else 3) else st.lookingFor;
      var values := st.values + [b];
      if |values| == lookingFor then
        DecoderState(st.unicode + [GroupValue(values, lookingFor)], [], 1)
      else
        DecoderState(st.unicode, values, lookingFor)
  }

  /** Runs the decoder's loop from state `st` over `bytes`. */
  function Feed(st: DecoderState, bytes: seq<byte>): (r: DecoderState)
    requires st.Valid()
    ensures r.Valid()
    decreases |bytes|
  {
    if bytes == [] then st else Feed(Step(st, bytes[0]), bytes[1..])
  }

  /** What `utf8ToUnicode` returns: whatever was emitted once every byte has
      been read. A group still pending at the end is dropped. */
  function Decode(bytes: seq<byte>): (r: seq<int>)
    ensures |r| <= |bytes|
    ensures AllInBasicPlane(r)
  {
    FeedGrowth(Initial, bytes);
    FeedBelow(Initial, bytes);
    Feed(Initial, bytes).unicode
  }

  /** Models `utf8ToUnicode`, loop for loop. */
  method Utf8ToUnicode(str: seq<byte>) returns (unicode: seq<int>)
    ensures unicode == Decode(str)
  {
    unicode := [];
    var values: seq<byte> := [];
    var lookingFor := 1;
    var i := 0;
    while i < |str|
      invariant 0 <= i <= |str|
      invariant DecoderState(unicode, values, lookingFor).Valid()
      invariant Feed(DecoderState(unicode, values, lookingFor), str[i..]) == Feed(Initial, str)
    {
      var thisValue := str[i];
      assert str[i..][1..] == str[i + 1..];
      if thisValue < 128 {
        unicode := unicode + [thisValue];
      }
      if thisValue >= 128 {
        if |values| == 0 {
          lookingFor := if thisValue < 224 then 2 else 3;
        }
        values := values + [thisValue];
        if |values| == lookingFor {
          var number := if lookingFor == 3 then
              (values[0] as int % 16) * 4096 + (values[1] as int % 64) * 64 + values[2] as int % 64
            else
              (values[0] as int % 32) * 64 + values[1] as int % 64;
          unicode := unicode + [number];
          values := [];
          lookingFor := 1;
        }
      }
      i := i + 1;
    }
  }

  /** Feeding two pieces one after the other is feeding their concatenation. */
  lemma {:induction false} FeedConcat(st: DecoderState, a: seq<byte>, b: seq<byte>)
    requires st.Valid()
    ensures Feed(st, a + b) == Feed(Feed(st, a), b)
    decreases |a|
  {
    if a == [] {
      assert a + b == b;
    } else {
      assert (a + b)[0] == a[0];
      assert (a + b)[1..] == a[1..] + b;
      FeedConcat(Step(st, a[0]), a[1..], b);
    }
  }

  lemma Feed2(st: DecoderState, b0: byte, b1: byte)
    requires st.Valid()
    ensures Feed(st, [b0, b1]) == Step(Step(st, b0), b1)
  {
    assert [b0, b1][1..] == [b1];
    assert [b1][1..] == [];
    assert Feed(st, [b0, b1]) == Feed(Step(st, b0), [b1]);
    assert Feed(Step(st, b0), [b1]) == Feed(Step(Step(st, b0), b1), []);
  }

  lemma Feed3(st: DecoderState, b0: byte, b1: byte, b2: byte)
    requires st.Valid()
    ensures Feed(st, [b0, b1, b2]) == Step(Step(Step(st, b0), b1), b2)
  {
    assert [b0, b1, b2][1..] == [b1, b2];
    Feed2(Step(st, b0), b1, b2);
  }

  /** The decoder only ever appends to what it has emitted, and emits at most
      one code point per byte read (counting the bytes still pending). */
  lemma {:induction false} FeedGrowth(st: DecoderState, bytes: seq<byte>)
    requires st.Valid()
    ensures st.unicode <= Feed(st, bytes).unicode
    ensures |Feed(st, bytes).unicode| + |Feed(st, bytes).values| <= |st.unicode| + |st.values| + |bytes|
    decreases |bytes|
  {
    if bytes != [] {
      FeedGrowth(Step(st, bytes[0]), bytes[1..]);
    }
  }

  /** Every code point the decoder emits is below 65536: it has no 4-byte form. */
  lemma {:induction false} FeedBelow(st: DecoderState, bytes: seq<byte>)
    requires st.Valid()
    requires AllInBasicPlane(st.unicode)
    ensures AllInBasicPlane(Feed(st, bytes).unicode)
    decreases |bytes|
  {
    if bytes != [] {
      FeedBelow(Step(st, bytes[0]), bytes[1..]);
    }
  }

  /** Models `utf8Chr` on the Unicode code point range. The bitwise ORs of the
      source add, since their operands occupy disjoint bits: the lead byte
      carries a 0, 110, 1110 or 11110 prefix (1, 2, 3 or 4 bytes for code
      points below 128, 2048, 65536 and above) and every other byte is a
      10xxxxxx continuation byte holding six payload bits. */
  function Utf8Chr(c: int): (r: seq<byte>)
    requires 0 <= c < 0x110000
    ensures |r| == (if c < 128 then 1 else if c < 2048 then 2 else if c < 0x10000 then 3 else 4)
    ensures c < 128 ==> r == [c]
    ensures 128 <= c < 2048 ==> 192 <= r[0] < 224
    ensures 2048 <= c < 0x10000 ==> 224 <= r[0] < 240
    ensures 0x10000 <= c ==> 240 <= r[0] < 248
    ensures forall k :: 1 <= k < |r| ==> 128 <= r[k] < 192
  {
    if c < 128 then
      [c]
    else if c < 2048 then
      [192 + c / 64, 128 + c % 64]
    else if c < 0x10000 then
      [224 + c / 4096, 128 + c / 64 % 64, 128 + c % 64]
    else
      [240 + c / 262144, 128 + c / 4096 % 64, 128 + c / 64 % 64, 128 + c % 64]
  }

  predicate AllInUnicodeRange(s: seq<int>) {
    forall i :: 0 <= i < |s| ==> 0 <= s[i] < 0x110000
  }

  predicate AllInBasicPlane(s: seq<int>) {
    forall i :: 0 <= i < |s| ==> 0 <= s[i] < 0x10000
  }

  /** The string `unicodeToUtf8` builds: the encodings of the code points, in order. */
  function Encode(s: seq<int>): (r: seq<byte>)
    requires AllInUnicodeRange(s)
    ensures |s| <= |r| <= 4 * |s|
  {
    if s == [] then [] else Utf8Chr(s[0]) + Encode(s[1..])
  }

  lemma {:induction false} EncodeConcat(a: seq<int>, b: seq<int>)
    requires AllInUnicodeRange(a) && AllInUnicodeRange(b)
    ensures AllInUnicodeRange(a + b)
    ensures Encode(a + b) == Encode(a) + Encode(b)
    decreases |a|
  {
    if a == [] {
      assert a + b == b;
    } else {
      assert (a + b)[0] == a[0];
      assert (a + b)[1..] == a[1..] + b;
      EncodeConcat(a[1..], b);
    }
  }

  /** Models `unicodeToUtf8`: appends `utf8Chr` of each code point in turn. */
  method UnicodeToUtf8(codePoints: seq<int>) returns (str: seq<byte>)
    requires AllInUnicodeRange(codePoints)
    ensures str == Encode(codePoints)
  {
    str := [];
    var i := 0;
    while i < |codePoints|
      invariant 0 <= i <= |codePoints|
      invariant str == Encode(codePoints[..i])
    {
      assert codePoints[..i + 1] == codePoints[..i] + [codePoints[i]];
      EncodeConcat(codePoints[..i], [codePoints[i]]);
      str := str + Utf8Chr(codePoints[i]);
      i := i + 1;
    }
    assert codePoints[..i] == codePoints;
  }

  /** The payload bits of a 2-byte form put back together give the code point. */
  lemma TwoByteBits(c: int)
    requires 128 <= c < 2048
    ensures ((192 + c / 64) % 32) * 64 + (128 + c % 64) % 64 == c
  {
    assert (192 + c / 64) % 32 == c / 64;
    assert (128 + c % 64) % 64 == c % 64;
  }

  /** The payload bits of a 3-byte form put back together give the code point. */
  lemma ThreeByteBits(c: int)
    requires 2048 <= c < 0x10000
    ensures ((224 + c / 4096) % 16) * 4096 + ((128 + c / 64 % 64) % 64) * 64 + (128 + c % 64) % 64 == c
  {
    assert (224 + c / 4096) % 16 == c / 4096;
    assert (128 + c / 64 % 64) % 64 == c / 64 % 64;
    assert (128 + c % 64) % 64 == c % 64;
    assert (c / 64) / 64 == c / 4096;
    assert (c / 4096) * 64 + c / 64 % 64 == c / 64;
  }

  /** Decoding the encoding of one code point below 65536 emits exactly that
      code point and leaves no group pending. */
  lemma FeedUtf8Chr(st: DecoderState, c: int)
    requires st.values == [] && st.lookingFor == 1
    requires 0 <= c < 0x10000
    ensures Feed(st, Utf8Chr(c)) == DecoderState(st.unicode + [c], [], 1)
  {
    var bytes := Utf8Chr(c);
    if c < 128 {
      assert bytes[1..] == [];
    } else if c < 2048 {
      var b0: byte, b1: byte := 192 + c / 64, 128 + c % 64;
      assert bytes == [b0, b1];
      Feed2(st, b0, b1);
      TwoByteBits(c);
    } else {
      var b0: byte, b1: byte, b2: byte := 224 + c / 4096, 128 + c / 64 % 64, 128 + c % 64;
      assert bytes == [b0, b1, b2];
      Feed3(st, b0, b1, b2);
      ThreeByteBits(c);
    }
  }

  lemma {:induction false} FeedEncode(st: DecoderState, s: seq<int>)
    requires st.values == [] && st.lookingFor == 1
    requires AllInBasicPlane(s)
    ensures Feed(st, Encode(s)) == DecoderState(st.unicode + s, [], 1)
    decreases |s|
  {
    if s != [] {
      FeedConcat(st, Utf8Chr(s[0]), Encode(s[1..]));
      FeedUtf8Chr(st, s[0]);
      var st1 := DecoderState(st.unicode + [s[0]], [], 1);
      FeedEncode(st1, s[1..]);
      assert st.unicode + [s[0]] + s[1..] == st.unicode + s;
    }
  }

  /** Round trip: `utf8ToUnicode(unicodeToUtf8(s)) == s` for every sequence of
      code points below 65536. */
  lemma RoundTrip(s: seq<int>)
    requires AllInBasicPlane(s)
    ensures Decode(Encode(s)) == s
  {
    FeedEncode(Initial, s);
  }

  /** A lead byte below 224 completes after one more byte. */
  lemma TwoByteGroup(st: DecoderState, b0: byte, b1: byte)
    requires st.values == [] && st.lookingFor == 1
    requires 128 <= b0 < 224 && 128 <= b1
    ensures Feed(st, [b0, b1]) == DecoderState(st.unicode + [(b0 as int % 32) * 64 + b1 as int % 64], [], 1)
  {
    Feed2(st, b0, b1);
  }

  /** With a lead byte of 224 or above, two bytes are not enough and nothing
      is emitted; the third completes the group. */
  lemma ThreeByteGroup(st: DecoderState, b0: byte, b1: byte, b2: byte)
    requires st.values == [] && st.lookingFor == 1
    requires 224 <= b0 && 128 <= b1 && 128 <= b2
    ensures Feed(st, [b0, b1]) == DecoderState(st.unicode, [b0, b1], 3)
    ensures Feed(st, [b0, b1, b2]) ==
              DecoderState(st.unicode + [(b0 as int % 16) * 4096 + (b1 as int % 64) * 64 + b2 as int % 64], [], 1)
  {
    Feed2(st, b0, b1);
    Feed3(st, b0, b1, b2);
  }

  /** An ASCII byte inside a pending group is emitted at once, ahead of the
      group's code point. */
  lemma AsciiInsideGroup(st: DecoderState, b0: byte, a: byte, b1: byte)
    requires st.values == [] && st.lookingFor == 1
    requires 128 <= b0 < 224 && a < 128 && 128 <= b1
    ensures Feed(st, [b0, a, b1]).unicode == st.unicode + [a, (b0 as int % 32) * 64 + b1 as int % 64]
  {
    Feed3(st, b0, a, b1);
  }

  /** The 4-byte form is produced: U+1F60E is encoded as four bytes. */
  lemma AstralEncoded()
    ensures Encode([0x1F60E]) == [240, 159, 152, 142]
  {
    assert Encode([0x1F60E]) == Utf8Chr(0x1F60E) + Encode([]);
  }

  /** The 4-byte form is not understood: the decoder reads the first three
      bytes of U+1F60E as one 3-byte group (giving U+07D8) and drops the
      fourth as an unfinished 2-byte group. */
  lemma AstralNotRoundTripped()
    ensures Decode(Encode([0x1F60E])) == [0x7D8]
  {
    AstralEncoded();
    var bytes: seq<byte> := [240, 159, 152, 142];
    assert bytes == [240, 159, 152] + [142];
    FeedConcat(Initial, [240, 159, 152], [142]);
    Feed3(Initial, 240, 159, 152);
    var st := Feed(Initial, [240, 159, 152]);
    assert st == DecoderState([0x7D8], [], 1);
    assert [142 as byte][1..] == [];
    assert Feed(st, [142]) == Feed(Step(st, 142), []);
  }
}
