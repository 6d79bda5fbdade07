/** Classification of UTF-16 code units as Japanese kana and kanji, by
    fixed code-unit ranges, and the search for a Japanese character in a
    string. */
module JapaneseChars {
  import opened Prelude

  /** Hiragana: from U+3041 (small a) to U+309E (voiced iteration mark),
      the closed range between the literals 'ぁ' and 'ゞ'. */
  function IsHiragana(c: Char16): (r: bool)
    ensures r <==> 'ぁ' as int <= c <= 'ゞ' as int
  {
    0x3041 <= c <= 0x309E
  }

  /** Half-width katakana: from U+FF66 (wo) to U+FF9D (n), the closed
      range between 'ｦ' and 'ﾝ'. */
  function IsHalfWidthKatakana(c: Char16): (r: bool)
    ensures r <==> 'ｦ' as int <= c <= 'ﾝ' as int
  {
    0xFF66 <= c <= 0xFF9D
  }

  /** Full-width katakana: from U+30A1 (small a) to U+30FE (voiced
      iteration mark), the closed range between 'ァ' and 'ヾ'. */
  function IsFullWidthKatakana(c: Char16): (r: bool)
    ensures r <==> 'ァ' as int <= c <= 'ヾ' as int
  {
    0x30A1 <= c <= 0x30FE
  }

  /** Either width of katakana: two disjoint closed ranges. */
  function IsKatakana(c: Char16): (r: bool)
    ensures r <==> ('ｦ' as int <= c <= 'ﾝ' as int) || ('ァ' as int <= c <= 'ヾ' as int)
  {
    IsHalfWidthKatakana(c) || IsFullWidthKatakana(c)
  }

  /** Hiragana or katakana: the union of three closed ranges. */
  function IsKana(c: Char16): (r: bool)
    ensures r <==> ('ぁ' as int <= c <= 'ゞ' as int) || ('ｦ' as int <= c <= 'ﾝ' as int)
                   || ('ァ' as int <= c <= 'ヾ' as int)
  {
    IsHiragana(c) || IsKatakana(c)
  }

  /** Kanji: the CJK unified ideographs U+4E00 to U+9FA5 ('一' to '龥'),
      and the three ideographic marks U+3005 to U+3007 ('々' to '〇'). */
  function IsKanji(c: Char16): (r: bool)
    ensures r <==> ('一' as int <= c <= '龥' as int) || ('々' as int <= c <= '〇' as int)
  {
    (0x4E00 <= c <= 0x9FA5) || (0x3005 <= c <= 0x3007)
  }

  /** What the search looks for in each character. */
  predicate IsJapanese(c: Char16)
  {
    IsKana(c) || IsKanji(c)
  }

  /** The index of the first Japanese character of the string, if any. */
  function FirstJapanese(s: JString): (r: Option<nat>)
    ensures r.Some? ==> r.value < |s| && IsJapanese(s[r.value])
    ensures r.Some? ==> forall j :: 0 <= j < r.value ==> !IsJapanese(s[j])
    ensures r.None? ==> forall j :: 0 <= j < |s| ==> !IsJapanese(s[j])
    decreases |s|
  {
    if |s| == 0 then None
    else if IsJapanese(s[0]) then Some(0)
    else
      match FirstJapanese(s[1..])
      case None => None
      case Some(i) => Some(i + 1)
  }

  /** `hasContainsJapaneseCharacter`: scans the string and stops at the
      first kana or kanji. */
  method HasJapaneseCharacter(str: JString) returns (result: bool)
    ensures result <==> exists i :: 0 <= i < |str| && IsJapanese(str[i])
    ensures result <==> FirstJapanese(str).Some?
  {
    result := false;
    var i := 0;
    while i < |str|
      invariant 0 <= i <= |str| && !result
      invariant forall j :: 0 <= j < i ==> !IsJapanese(str[j])
    {
      if IsKana(str[i]) || IsKanji(str[i]) {
        result := true;
        break;
      }
      i := i + 1;
    }
  }

  /** The first Japanese character of a concatenation is the first of the
      left part, or else the first of the right part, shifted. */
  lemma {:induction false} FirstJapaneseAppend(a: JString, b: JString)
    ensures FirstJapanese(a + b) ==
      match FirstJapanese(a)
      case Some(i) => Some(i)
      case None =>
        match FirstJapanese(b)
        case None => None
        case Some(j) => Some(|a| + j)
    decreases |a|
  {
    if |a| > 0 {
      assert (a + b)[0] == a[0] && (a + b)[1..] == a[1..] + b;
      FirstJapaneseAppend(a[1..], b);
    } else {
      assert a + b == b;
    }
  }

  /** The four classes are pairwise disjoint, so a character is at most
      one of hiragana, half-width katakana, full-width katakana, kanji. */
  lemma ClassesDisjoint(c: Char16)
    ensures !(IsHiragana(c) && IsKatakana(c))
    ensures !(IsHalfWidthKatakana(c) && IsFullWidthKatakana(c))
    ensures !(IsKana(c) && IsKanji(c))
  {
  }
}
