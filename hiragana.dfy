/** Full-width katakana to hiragana (`katakanaToHiragana`).

    The source replaces every character of the class [U+30A1-U+30F6] by the
    character whose code is 0x60 lower, which is its hiragana counterpart
    U+3041..U+3096; every other character, such as the prolonged sound mark
    ー (U+30FC) or ヷ (U+30F7), is kept. */
module Hiragana {

  /** The class [ァ-ヶ] of the source's regular expression. */
  predicate IsConvertibleKatakana(c: char) {
    'ァ' <= c <= 'ヶ'
  }

  /** The hiragana block range that the conversion maps onto. */
  predicate IsHiraganaImage(c: char) {
    'ぁ' <= c <= 'ゖ'
  }

  function ToHiraganaChar(c: char): (r: char)
    ensures IsConvertibleKatakana(c) ==> r as int == c as int - 0x60 && IsHiraganaImage(r)
    ensures !IsConvertibleKatakana(c) ==> r == c
  {
    if IsConvertibleKatakana(c) then (c as int - 0x60) as char else c
  }

  /** The global `replace` over the text, one character at a time. */
  function KatakanaToHiragana(text: string): (r: string)
    ensures |r| == |text|
    ensures forall i :: 0 <= i < |text| ==>
      (if IsConvertibleKatakana(text[i]) then r[i] as int == text[i] as int - 0x60 else r[i] == text[i])
  {
    if text == [] then [] else [ToHiraganaChar(text[0])] + KatakanaToHiragana(text[1..])
  }

  predicate NoConvertibleKatakana(s: string) {
    forall i :: 0 <= i < |s| ==> !IsConvertibleKatakana(s[i])
  }

  /** No character of the class survives the conversion. */
  lemma NoKatakanaLeft(text: string)
    ensures NoConvertibleKatakana(KatakanaToHiragana(text))
  {
    var r := KatakanaToHiragana(text);
    forall i | 0 <= i < |r| ensures !IsConvertibleKatakana(r[i]) {
      if IsConvertibleKatakana(text[i]) {
        assert r[i] as int == text[i] as int - 0x60;
      }
    }
  }

  /** Text without characters of the class is returned unchanged. */
  lemma Identity(text: string)
    requires NoConvertibleKatakana(text)
    ensures KatakanaToHiragana(text) == text
  {
  }

  /** Converting twice is converting once. */
  lemma Idempotent(text: string)
    ensures KatakanaToHiragana(KatakanaToHiragana(text)) == KatakanaToHiragana(text)
  {
    NoKatakanaLeft(text);
    Identity(KatakanaToHiragana(text));
  }

  /** The conversion works character by character, so it distributes over
      concatenation. */
  lemma {:induction false} Append(a: string, b: string)
    ensures KatakanaToHiragana(a + b) == KatakanaToHiragana(a) + KatakanaToHiragana(b)
  {
    if a == [] {
      assert a + b == b;
    } else {
      assert (a + b)[0] == a[0];
      assert (a + b)[1..] == a[1..] + b;
      Append(a[1..], b);
    }
  }

  /** Characters just outside the class are kept: ゠ (U+30A0), ヷ (U+30F7),
      the middle dot ・ and the prolonged sound mark ー. */
  lemma BoundaryCharsKept()
    ensures KatakanaToHiragana("゠ヷ・ー") == "゠ヷ・ー"
  {
  }

  /** The two ends of the class map onto the two ends of the image. */
  lemma ClassEndsConverted()
    ensures KatakanaToHiragana("ァヶ") == "ぁゖ"
  {
  }
}
