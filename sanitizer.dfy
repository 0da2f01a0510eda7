/** The sanitiser of SMSCounter: `replaceNonGsmChars`, `removeNonGsmChars`
    and `sanitizeToGSM`. Each code point outside the merged GSM map is either
    overwritten with the replacement's code point or deleted; everything else
    keeps its place and order. */
module Sanitizer {
  import opened Utf8
  import opened Filters
  import opened Alphabet

  datatype Option<T> = None | Some(value: T)

  /** PHP truthiness of a string: only "" and "0" are falsy. */
  predicate Truthy(s: seq<byte>) {
    s != [] && s != [48]
  }

  /** `array_pop(utf8ToUnicode($replacement))`. Popping an empty array gives
      null, which `utf8Chr` later turns into 0 through `intval`. */
  function ReplacementCodePoint(replacement: seq<byte>): (rc: int)
    ensures 0 <= rc < 0x10000
  {
    var u := Decode(replacement);
    if u == [] then 0 else u[|u| - 1]
  }

  /** The code points `replaceNonGsmChars` hands to `unicodeToUtf8`: with a
      truthy replacement, every code point outside the map is overwritten by
      the replacement's code point; otherwise it is unset, and `foreach` walks
      past the holes. */
  function Sanitized(chars: seq<int>, replacement: seq<byte>): (r: seq<int>)
    ensures AllInBasicPlane(chars) ==> AllInBasicPlane(r)
  {
    if Truthy(replacement) then
      Substitute(chars, InExMap, ReplacementCodePoint(replacement))
    else
      FilterIndices(chars, InExMap);
      Filter(chars, InExMap)
  }

  /** PHP's array after some `unset` calls, as a sequence of slots; `foreach`
      visits the slots still present, in order. */
  function Present(slots: seq<Option<int>>): seq<int>
    decreases |slots|
  {
    if slots == [] then []
    else (if slots[0].Some? then [slots[0].value] else []) + Present(slots[1..])
  }

  lemma {:induction false} PresentAllSome(slots: seq<Option<int>>)
    requires forall k :: 0 <= k < |slots| ==> slots[k].Some?
    ensures |Present(slots)| == |slots|
    ensures forall k :: 0 <= k < |slots| ==> Present(slots)[k] == slots[k].value
    decreases |slots|
  {
    if slots != [] {
      PresentAllSome(slots[1..]);
    }
  }

  /** Unsetting the keys of the elements that fail `p` and walking the rest
      is filtering. */
  lemma {:induction false} PresentFilter(chars: seq<int>, slots: seq<Option<int>>, p: int -> bool)
    requires |slots| == |chars|
    requires forall k :: 0 <= k < |chars| ==> slots[k] == if p(chars[k]) then Some(chars[k]) else None
    ensures Present(slots) == Filter(chars, p)
    decreases |chars|
  {
    if chars != [] {
      PresentFilter(chars[1..], slots[1..], p);
    }
  }

  /** Overwriting the keys of the elements that fail `p` and walking every
      slot is substitution. */
  lemma PresentSubstitute(chars: seq<int>, slots: seq<Option<int>>, p: int -> bool, v: int)
    requires |slots| == |chars|
    requires forall k :: 0 <= k < |chars| ==> slots[k] == if p(chars[k]) then Some(chars[k]) else Some(v)
    ensures Present(slots) == Substitute(chars, p, v)
  {
    PresentAllSome(slots);
  }

  /** The first loop of `replaceNonGsmChars`: the keys of the code points
      outside the merged map, in increasing order. */
  method OutsideKeys(allChars: seq<int>) returns (keys: seq<nat>)
    ensures forall k :: k in keys <==> 0 <= k < |allChars| && !InExMap(allChars[k])
  {
    keys := [];
    var key := 0;
    while key < |allChars|
      invariant 0 <= key <= |allChars|
      invariant forall k :: k in keys <==> 0 <= k < key && !InExMap(allChars[k])
    {
      if !InExMap(allChars[key]) {
        keys := keys + [key];
      }
      key := key + 1;
    }
  }

  /** The second loop of `replaceNonGsmChars`: every listed key gets `value`,
      which is either the replacement code point or a hole left by `unset`;
      every other slot is left alone. */
  method SetSlots(slots: seq<Option<int>>, keys: seq<nat>, value: Option<int>) returns (r: seq<Option<int>>)
    requires forall k :: k in keys ==> k < |slots|
    ensures |r| == |slots|
    ensures forall k :: 0 <= k < |slots| ==> r[k] == if k in keys then value else slots[k]
  {
    r := slots;
    var j := 0;
    while j < |keys|
      invariant 0 <= j <= |keys|
      invariant |r| == |slots|
      invariant forall k :: 0 <= k < |slots| ==> r[k] == if k in keys[..j] then value else slots[k]
    {
      assert keys[j] in keys;
      assert keys[..j + 1] == keys[..j] + [keys[j]];
      r := r[keys[j] := value];
      j := j + 1;
    }
    assert keys[..j] == keys;
  }

  /** Models `replaceNonGsmChars`. A replacement longer than one byte (PHP's
      `strlen` counts bytes, so any non-ASCII character is too long) gives
      `false`, here `None`; otherwise the result is the re-encoded text whose
      code points are `Sanitized`. */
  method ReplaceNonGsmChars(str: seq<byte>, replacement: seq<byte>) returns (r: Option<seq<byte>>)
    ensures r.None? <==> |replacement| > 1
    ensures r.Some? ==> r.value == Encode(Sanitized(Decode(str), replacement))
    ensures r.Some? ==> Decode(r.value) == Sanitized(Decode(str), replacement)
  {
    var allChars := Utf8ToUnicode(str);
    if |replacement| > 1 {
      return None;
    }
    var unicodeArray := Utf8ToUnicode(replacement);
    var replacementUnicode := if |unicodeArray| > 0 then unicodeArray[|unicodeArray| - 1] else 0;
    assert replacementUnicode == ReplacementCodePoint(replacement);
    var replacementArray := OutsideKeys(allChars);
    var slots: seq<Option<int>> := seq(|allChars|, k requires 0 <= k < |allChars| => Some(allChars[k]));
    if Truthy(replacement) {
      slots := SetSlots(slots, replacementArray, Some(replacementUnicode));
      PresentSubstitute(allChars, slots, InExMap, replacementUnicode);
    } else {
      slots := SetSlots(slots, replacementArray, None);
      PresentFilter(allChars, slots, InExMap);
    }
    assert Present(slots) == Sanitized(allChars, replacement);
    var out := UnicodeToUtf8(Present(slots));
    RoundTrip(Present(slots));
    r := Some(out);
  }

  /** Models `removeNonGsmChars`, which passes a null replacement: `strlen`
      of null is 0 and null is falsy, exactly as for the empty string. */
  method RemoveNonGsmChars(str: seq<byte>) returns (r: seq<byte>)
    ensures r == Encode(Sanitized(Decode(str), []))
    ensures Decode(r) == Filter(Decode(str), InExMap)
  {
    var res := ReplaceNonGsmChars(str, []);
    r := res.value;
  }

  /** Models `sanitizeToGSM`. The accent-folding table `removeAccents` is a
      parameter; whatever it does, what comes out is pure GSM text. */
  method SanitizeToGsm(str: seq<byte>, removeAccents: seq<byte> -> seq<byte>) returns (r: seq<byte>)
    ensures Decode(r) == Filter(Decode(removeAccents(str)), InExMap)
    ensures forall c :: c in Decode(r) ==> InExMap(c)
    ensures DetectEncoding(Decode(r)).encoding != Utf16
  {
    var folded := removeAccents(str);
    r := RemoveNonGsmChars(folded);
    FilterMembers(Decode(folded), InExMap);
    Classification(Decode(r));
  }

  /** Removal keeps exactly the code points of the map, in order: the output
      is all GSM, and a text that was all GSM comes back unchanged. */
  lemma RemovalKeepsGsm(chars: seq<int>)
    ensures forall c :: c in Sanitized(chars, []) ==> InExMap(c)
    ensures Sanitized(chars, []) == chars <==> forall i :: 0 <= i < |chars| ==> InExMap(chars[i])
  {
    FilterMembers(chars, InExMap);
    FilterAll(chars, InExMap);
  }

  /** Removing twice removes nothing more. */
  lemma RemovalIdempotent(chars: seq<int>)
    ensures Sanitized(Sanitized(chars, []), []) == Sanitized(chars, [])
  {
    var once := Filter(chars, InExMap);
    assert Sanitized(chars, []) == once;
    FilterMembers(chars, InExMap);
    FilterAll(once, InExMap);
  }

  /** With a truthy replacement the text keeps its length; each code point
      outside the map is replaced and every other one stays. */
  lemma ReplacementKeepsPositions(chars: seq<int>, replacement: seq<byte>, i: int)
    requires Truthy(replacement)
    requires 0 <= i < |chars|
    ensures |Sanitized(chars, replacement)| == |chars|
    ensures InExMap(chars[i]) ==> Sanitized(chars, replacement)[i] == chars[i]
    ensures !InExMap(chars[i]) ==> Sanitized(chars, replacement)[i] == ReplacementCodePoint(replacement)
  {
  }

  /** A one-byte replacement gives its own code point when it is ASCII; a
      lone byte of 128 or more decodes to nothing, so the text gets NUL
      characters, which are themselves outside the map. */
  lemma OneByteReplacement(b: byte)
    ensures b < 128 ==> ReplacementCodePoint([b]) == b
    ensures b >= 128 ==> ReplacementCodePoint([b]) == 0
    ensures !InExMap(0)
  {
    assert [b][1..] == [];
    assert Feed(Initial, [b]) == Feed(Step(Initial, b), []);
    NulOutside();
  }

  /** Removal keeps a text of digits, Latin letters, the space and the
      ASCII punctuation below `[` as it is. */
  lemma AsciiKept(s: seq<int>)
    requires forall i :: 0 <= i < |s| ==> 32 <= s[i] <= 90 || 97 <= s[i] <= 122
    ensures Sanitized(s, []) == s
  {
    forall i | 0 <= i < |s|
      ensures InExMap(s[i])
    {
      PlainAscii(s[i]);
    }
    RemovalKeepsGsm(s);
  }

  lemma RemovalVectorEnds()
    ensures Filter([225], InExMap) == [] && Filter([96], InExMap) == []
    ensures Filter([32, 241], InExMap) == [32, 241]
  {
    AAcuteOutside();
    BacktickOutside();
    PlainAscii(32);
    NTildeInside();
    assert [32, 241][1..] == [241];
  }

  /** The removal vector of the source's test suite, on code points, for
      any ASCII middle part such as its "no-unicode-remaining": a leading a
      with acute accent and a backtick are removed, the space and the n with
      tilde stay. */
  lemma RemovalVector(kept: seq<int>)
    requires forall i :: 0 <= i < |kept| ==> 32 <= kept[i] <= 90 || 97 <= kept[i] <= 122
    ensures Sanitized([225] + kept + [96, 32, 241], []) == kept + [32, 241]
  {
    AsciiKept(kept);
    RemovalVectorEnds();
    FilterConcat([96], [32, 241], InExMap);
    assert [96, 32, 241] == [96] + [32, 241];
    FilterConcat(kept, [96, 32, 241], InExMap);
    FilterConcat([225], kept + [96, 32, 241], InExMap);
    assert [225] + kept + [96, 32, 241] == [225] + (kept + [96, 32, 241]);
  }
}
