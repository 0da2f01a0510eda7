/** The alphabet tables of SMSCounter and its encoding classifier
    `detectEncoding`. The tables are the code points of the GSM 7-bit default
    alphabet (section 6.2.1 of 3GPP TS 23.038) and of the characters reached
    through its escape to the extension table (section 6.2.1.1), which cost
    two septets each. */
module Alphabet {
  import opened Filters

  /** `getGsm7bitMap`: the default alphabet, in the source's order and laid
      out row by row as the source lays it out. It already lists every
      extension character. */
  const Gsm7bitMap: seq<int> :=
    [10, 12, 13, 32, 33, 34, 35, 36] +
    [37, 38, 39, 40, 41, 42, 43, 44] +
    [45, 46, 47, 48, 49, 50, 51, 52] +
    [53, 54, 55, 56, 57, 58, 59, 60] +
    [61, 62, 63, 64, 65, 66, 67, 68] +
    [69, 70, 71, 72, 73, 74, 75, 76] +
    [77, 78, 79, 80, 81, 82, 83, 84] +
    [85, 86, 87, 88, 89, 90, 91, 92] +
    [93, 94, 95, 97, 98, 99, 100, 101] +
    [102, 103, 104, 105, 106, 107, 108] +
    [109, 110, 111, 112, 113, 114, 115] +
    [116, 117, 118, 119, 120, 121, 122] +
    [123, 124, 125, 126, 161, 163, 164] +
    [165, 167, 191, 196, 197, 198, 199] +
    [201, 209, 214, 216, 220, 223, 224] +
    [228, 229, 230, 232, 233, 236, 241] +
    [242, 246, 248, 249, 252, 915, 916] +
    [920, 923, 926, 928, 931, 934, 936] +
    [937, 8364]

  /** `getAddedGsm7bitExMap`: form feed, ^ { } \ [ ~ ] | and the euro sign. */
  const AddedGsm7bitExMap: seq<int> := [12, 91, 92, 93, 94, 123, 124, 125, 126, 8364]

  /** `getGsm7bitExMap`: the concatenation `array_merge` builds. */
  const Gsm7bitExMap: seq<int> := Gsm7bitMap + AddedGsm7bitExMap

  /** `in_array`: a scan of a table, here from its last entry back. */
  predicate InTable(table: seq<int>, c: int)
    decreases |table|
  {
    table != [] && (table[|table| - 1] == c || InTable(table[..|table| - 1], c))
  }

  /** The scan finds exactly the code points the table holds. */
  lemma {:induction false} InTableMembers(table: seq<int>, c: int)
    ensures InTable(table, c) <==> c in table
    decreases |table|
  {
    if table != [] {
      var front := table[..|table| - 1];
      InTableMembers(front, c);
      assert table == front + [table[|table| - 1]];
    }
  }

  predicate InExMap(c: int) {
    InTable(Gsm7bitExMap, c)
  }

  predicate OutsideExMap(c: int) {
    !InExMap(c)
  }

  predicate IsAddedEx(c: int) {
    InTable(AddedGsm7bitExMap, c)
  }

  /** Every extension character is already in the default alphabet table. */
  lemma AddedInBaseMap()
    ensures forall c :: IsAddedEx(c) ==> c in Gsm7bitMap
  {
    forall c | IsAddedEx(c)
      ensures c in Gsm7bitMap
    {
      InTableMembers(AddedGsm7bitExMap, c);
      assert c in [85, 86, 87, 88, 89, 90, 91, 92] + [93, 94, 95, 97, 98, 99, 100, 101] ||
             c in [123, 124, 125, 126, 161, 163, 164] || c == 12 || c == 8364;
    }
  }

  /** Merging in the extension characters adds nothing: as a set of code
      points the merged map is the default alphabet itself. */
  lemma ExMapIsBaseMap()
    ensures forall c :: InExMap(c) <==> c in Gsm7bitMap
  {
    AddedInBaseMap();
    forall c
      ensures InExMap(c) <==> c in Gsm7bitMap
    {
      InTableMembers(Gsm7bitExMap, c);
      InTableMembers(AddedGsm7bitExMap, c);
    }
  }

  /** Line feed, carriage return, the space, digits, Latin letters and the
      ASCII punctuation below `[` are default-alphabet characters that are not
      extension characters. */
  lemma PlainAscii(c: int)
    requires c == 10 || c == 13 || 32 <= c <= 90 || 97 <= c <= 122
    ensures InExMap(c) && !IsAddedEx(c)
  {
    MapByRows(c);
    InTableMembers(AddedGsm7bitExMap, c);
    if c < 61 {
      PlainAsciiLow(c);
    } else {
      PlainAsciiHigh(c);
    }
  }

  lemma PlainAsciiLow(c: int)
    requires c == 10 || c == 13 || 32 <= c < 61
    ensures InRows(c)
  {
    if c < 37 {
      assert c in [10, 12, 13, 32, 33, 34, 35, 36];
    } else if c < 45 {
      assert c in [37, 38, 39, 40, 41, 42, 43, 44];
    } else if c < 53 {
      assert c in [45, 46, 47, 48, 49, 50, 51, 52];
    } else {
      assert c in [53, 54, 55, 56, 57, 58, 59, 60];
    }
  }

  lemma PlainAsciiHigh(c: int)
    requires 61 <= c <= 90 || 97 <= c <= 122
    ensures InRows(c)
  {
    if c < 69 {
      assert c in [61, 62, 63, 64, 65, 66, 67, 68];
    } else if c < 77 {
      assert c in [69, 70, 71, 72, 73, 74, 75, 76];
    } else if c < 85 {
      assert c in [77, 78, 79, 80, 81, 82, 83, 84];
    } else if c < 93 {
      assert c in [85, 86, 87, 88, 89, 90, 91, 92];
    } else if c < 102 {
      assert c in [93, 94, 95, 97, 98, 99, 100, 101];
    } else if c < 109 {
      assert c in [102, 103, 104, 105, 106, 107, 108];
    } else if c < 116 {
      assert c in [109, 110, 111, 112, 113, 114, 115];
    } else {
      assert c in [116, 117, 118, 119, 120, 121, 122];
    }
  }

  /** Membership in the default alphabet table, row by row. */
  predicate InRows(v: int) {
    v in [10, 12, 13, 32, 33, 34, 35, 36] ||
    v in [37, 38, 39, 40, 41, 42, 43, 44] ||
    v in [45, 46, 47, 48, 49, 50, 51, 52] ||
    v in [53, 54, 55, 56, 57, 58, 59, 60] ||
    v in [61, 62, 63, 64, 65, 66, 67, 68] ||
    v in [69, 70, 71, 72, 73, 74, 75, 76] ||
    v in [77, 78, 79, 80, 81, 82, 83, 84] ||
    v in [85, 86, 87, 88, 89, 90, 91, 92] ||
    v in [93, 94, 95, 97, 98, 99, 100, 101] ||
    v in [102, 103, 104, 105, 106, 107, 108] ||
    v in [109, 110, 111, 112, 113, 114, 115] ||
    v in [116, 117, 118, 119, 120, 121, 122] ||
    v in [123, 124, 125, 126, 161, 163, 164] ||
    v in [165, 167, 191, 196, 197, 198, 199] ||
    v in [201, 209, 214, 216, 220, 223, 224] ||
    v in [228, 229, 230, 232, 233, 236, 241] ||
    v in [242, 246, 248, 249, 252, 915, 916] ||
    v in [920, 923, 926, 928, 931, 934, 936] ||
    v in [937, 8364]
  }

  /** The merged map holds exactly the code points of the rows of the
      default alphabet table. */
  lemma MapByRows(v: int)
    ensures InExMap(v) <==> InRows(v)
  {
    InTableMembers(Gsm7bitExMap, v);
    InTableMembers(AddedGsm7bitExMap, v);
    AddedInBaseMap();
  }

  /** NUL is outside the merged map. */
  lemma NulOutside()
    ensures !InExMap(0)
  {
    MapByRows(0);
  }

  /** The backtick is the one printable ASCII character outside the merged map. */
  lemma BacktickOutside()
    ensures !InExMap(96)
  {
    MapByRows(96);
  }

  /** Small a with acute accent is outside the merged map. */
  lemma AAcuteOutside()
    ensures !InExMap(225)
  {
    MapByRows(225);
  }

  /** Small n with tilde is in the default alphabet. */
  lemma NTildeInside()
    ensures InExMap(241)
  {
    MapByRows(241);
  }

  /** The snowman is outside the merged map. */
  lemma SnowmanOutside()
    ensures !InExMap(9731)
  {
    MapByRows(9731);
  }

  /** The three encodings the source names GSM_7BIT, GSM_7BIT_EX and UTF16. */
  datatype Encoding = Gsm7Bit | Gsm7BitEx | Utf16

  /** What `detectEncoding` gives back: its return value and what it leaves in
      its by-reference `$exChars` argument (the empty array `count` passes in,
      unless an extension character was found). */
  datatype Detection = Detection(encoding: Encoding, exChars: seq<int>)

  /** `array_diff($text, getGsm7bitExMap())`: the code points outside the
      merged map, each occurrence kept. */
  function NonGsmChars(text: seq<int>): seq<int> {
    Filter(text, OutsideExMap)
  }

  /** `array_intersect($text, getAddedGsm7bitExMap())`: the extension
      characters, each occurrence kept. */
  function ExChars(text: seq<int>): seq<int> {
    Filter(text, IsAddedEx)
  }

  /** `$exChars` holds every occurrence of every extension character of the
      text, and nothing else. */
  lemma ExCharsOccurrences(text: seq<int>, c: int)
    ensures multiset(ExChars(text))[c] == if IsAddedEx(c) then multiset(text)[c] else 0
  {
    FilterMultiplicity(text, IsAddedEx, c);
  }

  /** Models `detectEncoding`: the code points outside the merged map make
      the text UTF16; failing those, the extension characters make it
      GSM_7BIT_EX, and they are what is left in `$exChars`; otherwise the text
      is GSM_7BIT. `Classification` states what this means for the text. */
  function DetectEncoding(text: seq<int>): (r: Detection)
    ensures r.exChars == if r.encoding == Gsm7BitEx then ExChars(text) else []
  {
    var utf16Chars := NonGsmChars(text);
    if |utf16Chars| > 0 then
      Detection(Utf16, [])
    else
      var exChars := ExChars(text);
      if |exChars| > 0 then Detection(Gsm7BitEx, exChars)
      else Detection(Gsm7Bit, [])
  }

  /** The priority of `detectEncoding` is fixed: one code point outside the
      merged map makes the text UTF16, whatever else it holds; failing that,
      one extension character makes it GSM_7BIT_EX; otherwise (the empty text
      included) it is GSM_7BIT. */
  lemma Classification(text: seq<int>)
    ensures DetectEncoding(text).encoding == Utf16 <==> exists i :: 0 <= i < |text| && !InExMap(text[i])
    ensures DetectEncoding(text).encoding == Gsm7BitEx <==>
              (forall i :: 0 <= i < |text| ==> InExMap(text[i])) &&
              (exists i :: 0 <= i < |text| && IsAddedEx(text[i]))
    ensures DetectEncoding(text).encoding == Gsm7Bit <==>
              forall i :: 0 <= i < |text| ==> InExMap(text[i]) && !IsAddedEx(text[i])
    ensures text == [] ==> DetectEncoding(text).encoding == Gsm7Bit
  {
    FilterEmpty(text, OutsideExMap);
    FilterEmpty(text, IsAddedEx);
  }
}
