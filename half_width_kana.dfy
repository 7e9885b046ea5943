/** Half-width to full-width katakana normalisation (`katakanaMap`,
    `hankakuKatakanaRegExp` and `hankakuKatakanaToZenkakuKatakana`).

    The source builds one regular expression whose alternation lists the
    table's keys in insertion order and replaces every match by the key's
    value; afterwards it replaces any remaining half-width voicing mark
    U+FF9E and semi-voicing mark U+FF9F by the standalone full-width marks
    U+309B and U+309C. */
module HalfWidthKana {
  import opened Results

  /** One key/value pair of the substitution table. */
  datatype Entry = Entry(key: string, value: string)

  // The table, in insertion order, in six groups of source lines.

  /** Voiced keys ｶﾞ to ﾄﾞ. The two-character keys come first so that the
      alternation tries them before any one-character key. */
  const VoicedKaToDo: seq<Entry> := [
    Entry("ｶﾞ", "ガ"), Entry("ｷﾞ", "ギ"), Entry("ｸﾞ", "グ"), Entry("ｹﾞ", "ゲ"), Entry("ｺﾞ", "ゴ"),
    Entry("ｻﾞ", "ザ"), Entry("ｼﾞ", "ジ"), Entry("ｽﾞ", "ズ"), Entry("ｾﾞ", "ゼ"), Entry("ｿﾞ", "ゾ"),
    Entry("ﾀﾞ", "ダ"), Entry("ﾁﾞ", "ヂ"), Entry("ﾂﾞ", "ヅ"), Entry("ﾃﾞ", "デ"), Entry("ﾄﾞ", "ド")
  ]

  /** Voiced keys ﾊﾞ to ﾎﾞ, semi-voiced keys ﾊﾟ to ﾎﾟ, then ｳﾞ, ﾜﾞ and ｦﾞ. */
  const VoicedHaToWo: seq<Entry> := [
    Entry("ﾊﾞ", "バ"), Entry("ﾋﾞ", "ビ"), Entry("ﾌﾞ", "ブ"), Entry("ﾍﾞ", "ベ"), Entry("ﾎﾞ", "ボ"),
    Entry("ﾊﾟ", "パ"), Entry("ﾋﾟ", "ピ"), Entry("ﾌﾟ", "プ"), Entry("ﾍﾟ", "ペ"), Entry("ﾎﾟ", "ポ"),
    Entry("ｳﾞ", "ヴ"), Entry("ﾜﾞ", "ヷ"), Entry("ｦﾞ", "ヺ")
  ]

  /** One-character keys ｱ to ｿ, in code-point order U+FF71..U+FF7F. */
  const LettersAToSo: seq<Entry> := [
    Entry("ｱ", "ア"), Entry("ｲ", "イ"), Entry("ｳ", "ウ"), Entry("ｴ", "エ"), Entry("ｵ", "オ"),
    Entry("ｶ", "カ"), Entry("ｷ", "キ"), Entry("ｸ", "ク"), Entry("ｹ", "ケ"), Entry("ｺ", "コ"),
    Entry("ｻ", "サ"), Entry("ｼ", "シ"), Entry("ｽ", "ス"), Entry("ｾ", "セ"), Entry("ｿ", "ソ")
  ]

  /** One-character keys ﾀ to ﾎ, in code-point order U+FF80..U+FF8E. */
  const LettersTaToHo: seq<Entry> := [
    Entry("ﾀ", "タ"), Entry("ﾁ", "チ"), Entry("ﾂ", "ツ"), Entry("ﾃ", "テ"), Entry("ﾄ", "ト"),
    Entry("ﾅ", "ナ"), Entry("ﾆ", "ニ"), Entry("ﾇ", "ヌ"), Entry("ﾈ", "ネ"), Entry("ﾉ", "ノ"),
    Entry("ﾊ", "ハ"), Entry("ﾋ", "ヒ"), Entry("ﾌ", "フ"), Entry("ﾍ", "ヘ"), Entry("ﾎ", "ホ")
  ]

  /** One-character keys ﾏ to ﾝ; all in code-point order U+FF8F..U+FF9D
      except ｦ (U+FF66), which sits between ﾜ and ﾝ. */
  const LettersMaToN: seq<Entry> := [
    Entry("ﾏ", "マ"), Entry("ﾐ", "ミ"), Entry("ﾑ", "ム"), Entry("ﾒ", "メ"), Entry("ﾓ", "モ"),
    Entry("ﾔ", "ヤ"), Entry("ﾕ", "ユ"), Entry("ﾖ", "ヨ"),
    Entry("ﾗ", "ラ"), Entry("ﾘ", "リ"), Entry("ﾙ", "ル"), Entry("ﾚ", "レ"), Entry("ﾛ", "ロ"),
    Entry("ﾜ", "ワ"), Entry("ｦ", "ヲ"), Entry("ﾝ", "ン")
  ]

  /** Small kana and the half-width punctuation: the rest of U+FF61..U+FF70. */
  const SmallKanaAndMarks: seq<Entry> := [
    Entry("ｧ", "ァ"), Entry("ｨ", "ィ"), Entry("ｩ", "ゥ"), Entry("ｪ", "ェ"), Entry("ｫ", "ォ"),
    Entry("ｯ", "ッ"), Entry("ｬ", "ャ"), Entry("ｭ", "ュ"), Entry("ｮ", "ョ"), Entry("･", "・"),
    Entry("｡", "。"), Entry("､", "、"), Entry("ｰ", "ー"), Entry("｢", "「"), Entry("｣", "」")
  ]

  /** The whole table in insertion order, which is also the order of the
      regular expression's alternatives. */
  const KatakanaMap: seq<Entry> :=
    VoicedKaToDo + VoicedHaToWo + LettersAToSo + LettersTaToHo + LettersMaToN + SmallKanaAndMarks

  /** Number of two-character keys at the head of the table. */
  const VoicedCount: nat := 28

  const HalfVoicedMark: char := 'ﾞ'         // U+FF9E
  const HalfSemiVoicedMark: char := 'ﾟ'     // U+FF9F
  const FullVoicedMark: char := '゛'        // U+309B
  const FullSemiVoicedMark: char := '゜'    // U+309C

  /** A character of the half-width katakana block U+FF61..U+FF9F. */
  predicate IsHalfWidthKana(c: char) {
    '｡' <= c <= 'ﾟ'
  }

  /** A half-width katakana other than the two voicing marks,
      U+FF61..U+FF9D: exactly the one-character keys of the table. */
  predicate IsHalfWidthLetter(c: char) {
    '｡' <= c <= 'ﾝ'
  }

  predicate IsHalfWidthMark(c: char) {
    c == HalfVoicedMark || c == HalfSemiVoicedMark
  }

  /** A letter that starts a two-character key. */
  predicate IsVoicedLead(c: char) {
    'ｶ' <= c <= 'ﾄ' || 'ﾊ' <= c <= 'ﾎ' || c == 'ｳ' || c == 'ﾜ' || c == 'ｦ'
  }

  /** A character of the CJK symbols, hiragana and katakana blocks. */
  predicate IsFullWidthKana(c: char) {
    '　' <= c <= 'ヿ'
  }

  predicate NoHalfWidthKana(s: string) {
    forall i :: 0 <= i < |s| ==> !IsHalfWidthKana(s[i])
  }

  // ---------------------------------------------------------------------
  // Facts about the literal table, one group at a time.

  lemma VoicedKaToDoShape()
    ensures |VoicedKaToDo| == 15
    ensures forall k :: 0 <= k < |VoicedKaToDo| ==>
      |VoicedKaToDo[k].key| == 2 && 'ｶ' <= VoicedKaToDo[k].key[0] <= 'ﾄ' && VoicedKaToDo[k].key[1] == HalfVoicedMark
    ensures forall k :: 0 <= k < |VoicedKaToDo| ==>
      |VoicedKaToDo[k].value| == 1 && IsFullWidthKana(VoicedKaToDo[k].value[0])
  {
  }

  lemma VoicedKaToDoDistinct()
    ensures forall k, l :: 0 <= k < l < |VoicedKaToDo| ==> VoicedKaToDo[k].key != VoicedKaToDo[l].key
  {
  }

  lemma VoicedHaToWoShape()
    ensures |VoicedHaToWo| == 13
    ensures forall k :: 0 <= k < |VoicedHaToWo| ==>
      |VoicedHaToWo[k].key| == 2 && IsHalfWidthMark(VoicedHaToWo[k].key[1]) &&
      ('ﾊ' <= VoicedHaToWo[k].key[0] <= 'ﾎ' || VoicedHaToWo[k].key[0] in "ｳﾜｦ")
    ensures forall k :: 0 <= k < |VoicedHaToWo| ==>
      |VoicedHaToWo[k].value| == 1 && IsFullWidthKana(VoicedHaToWo[k].value[0])
  {
  }

  lemma VoicedHaToWoDistinct()
    ensures forall k, l :: 0 <= k < l < |VoicedHaToWo| ==> VoicedHaToWo[k].key != VoicedHaToWo[l].key
  {
  }

  lemma LettersAToSoShape()
    ensures |LettersAToSo| == 15
    ensures forall k :: 0 <= k < |LettersAToSo| ==> LettersAToSo[k].key == [(0xFF71 + k) as char]
    ensures forall k :: 0 <= k < |LettersAToSo| ==>
      |LettersAToSo[k].value| == 1 && IsFullWidthKana(LettersAToSo[k].value[0])
  {
  }

  lemma LettersTaToHoShape()
    ensures |LettersTaToHo| == 15
    ensures forall k :: 0 <= k < |LettersTaToHo| ==> LettersTaToHo[k].key == [(0xFF80 + k) as char]
    ensures forall k :: 0 <= k < |LettersTaToHo| ==>
      |LettersTaToHo[k].value| == 1 && IsFullWidthKana(LettersTaToHo[k].value[0])
  {
  }

  lemma LettersMaToNShape()
    ensures |LettersMaToN| == 16
    ensures forall k :: 0 <= k < 14 ==> LettersMaToN[k].key == [(0xFF8F + k) as char]
    ensures LettersMaToN[14].key == "ｦ" && LettersMaToN[15].key == "ﾝ"
    ensures forall k :: 0 <= k < |LettersMaToN| ==>
      |LettersMaToN[k].value| == 1 && IsFullWidthKana(LettersMaToN[k].value[0])
  {
  }

  lemma SmallKanaAndMarksShape()
    ensures |SmallKanaAndMarks| == 15
    ensures forall k :: 0 <= k < |SmallKanaAndMarks| ==>
      |SmallKanaAndMarks[k].key| == 1 && '｡' <= SmallKanaAndMarks[k].key[0] <= 'ｰ' && SmallKanaAndMarks[k].key[0] != 'ｦ'
    ensures forall k :: 0 <= k < |SmallKanaAndMarks| ==>
      |SmallKanaAndMarks[k].value| == 1 && IsFullWidthKana(SmallKanaAndMarks[k].value[0])
  {
  }

  lemma SmallKanaAndMarksDistinct()
    ensures forall k, l :: 0 <= k < l < |SmallKanaAndMarks| ==> SmallKanaAndMarks[k].key != SmallKanaAndMarks[l].key
  {
  }

  /** Where entry `i` of the whole table lives in its group. */
  lemma EntryInGroup(i: nat)
    requires i < 89
    ensures |KatakanaMap| == 89
    ensures i < 15 ==> KatakanaMap[i] == VoicedKaToDo[i]
    ensures 15 <= i < 28 ==> KatakanaMap[i] == VoicedHaToWo[i - 15]
    ensures 28 <= i < 43 ==> KatakanaMap[i] == LettersAToSo[i - 28]
    ensures 43 <= i < 58 ==> KatakanaMap[i] == LettersTaToHo[i - 43]
    ensures 58 <= i < 74 ==> KatakanaMap[i] == LettersMaToN[i - 58]
    ensures 74 <= i ==> KatakanaMap[i] == SmallKanaAndMarks[i - 74]
  {
    VoicedKaToDoShape();
    VoicedHaToWoShape();
    LettersAToSoShape();
    LettersTaToHoShape();
    LettersMaToNShape();
    SmallKanaAndMarksShape();
  }

  /** The shape of one entry: the first `VoicedCount` keys pair a letter
      with a voicing mark, the others are one letter, and every value is a
      single full-width character. */
  lemma EntryShape(i: nat)
    requires i < |KatakanaMap|
    ensures |KatakanaMap| == 89
    ensures i < VoicedCount ==>
      |KatakanaMap[i].key| == 2 && IsVoicedLead(KatakanaMap[i].key[0]) && IsHalfWidthMark(KatakanaMap[i].key[1])
    ensures VoicedCount <= i ==> |KatakanaMap[i].key| == 1
    ensures IsHalfWidthLetter(KatakanaMap[i].key[0])
    ensures |KatakanaMap[i].value| == 1 && IsFullWidthKana(KatakanaMap[i].value[0])
  {
    assert |KatakanaMap| == 89 by { EntryInGroup(0); }
    EntryInGroup(i);
    if i < 15 {
      VoicedKaToDoShape();
    } else if i < 28 {
      VoicedHaToWoShape();
    } else if i < 43 {
      LettersAToSoShape();
    } else if i < 58 {
      LettersTaToHoShape();
    } else if i < 74 {
      LettersMaToNShape();
    } else {
      SmallKanaAndMarksShape();
    }
  }

  /** No two-character key occurs twice. */
  lemma VoicedKeyUnique(i: nat, j: nat)
    requires i < VoicedCount && j < VoicedCount
    requires KatakanaMap[i].key == KatakanaMap[j].key
    ensures i == j
  {
    EntryInGroup(i);
    EntryInGroup(j);
    VoicedKaToDoShape();
    VoicedHaToWoShape();
    VoicedKaToDoDistinct();
    VoicedHaToWoDistinct();
    assert KatakanaMap[i].key[0] == KatakanaMap[j].key[0];
  }

  /** No one-character key occurs twice. */
  lemma LetterKeyUnique(i: nat, j: nat)
    requires VoicedCount <= i < |KatakanaMap| && VoicedCount <= j < |KatakanaMap|
    requires KatakanaMap[i].key == KatakanaMap[j].key
    ensures i == j
  {
    EntryInGroup(i);
    EntryInGroup(j);
    LettersAToSoShape();
    LettersTaToHoShape();
    LettersMaToNShape();
    SmallKanaAndMarksShape();
    SmallKanaAndMarksDistinct();
    assert KatakanaMap[i].key[0] == KatakanaMap[j].key[0];
  }

  /** Every half-width letter U+FF61..U+FF9D is a one-character key. */
  lemma LetterIsKey(c: char) returns (i: nat)
    requires IsHalfWidthLetter(c)
    ensures VoicedCount <= i < |KatakanaMap| && KatakanaMap[i].key == [c]
  {
    if 'ｱ' <= c <= 'ｿ' {
      i := 28 + (c as int - 0xFF71);
      EntryInGroup(i);
      LettersAToSoShape();
    } else if 'ﾀ' <= c <= 'ﾎ' {
      i := 43 + (c as int - 0xFF80);
      EntryInGroup(i);
      LettersTaToHoShape();
    } else if 'ﾏ' <= c <= 'ﾜ' {
      i := 58 + (c as int - 0xFF8F);
      EntryInGroup(i);
      LettersMaToNShape();
    } else if c == 'ｦ' || c == 'ﾝ' {
      i := if c == 'ｦ' then 72 else 73;
      EntryInGroup(i);
      LettersMaToNShape();
    } else {
      var k :=
        if 'ｧ' <= c <= 'ｫ' then c as int - 0xFF67
        else if c == 'ｯ' then 5
        else if 'ｬ' <= c <= 'ｮ' then 6 + (c as int - 0xFF6C)
        else if c == '･' then 9
        else if c == '｡' then 10
        else if c == '､' then 11
        else if c == 'ｰ' then 12
        else if c == '｢' then 13
        else 14;
      assert SmallKanaAndMarks[k].key == [c];
      i := 74 + k;
      EntryInGroup(i);
    }
  }

  // ---------------------------------------------------------------------
  // The regular expression and the replacement.

  /** The alternative the regular expression picks at the head of `s`: the
      first table index, from `from` on, whose key is a prefix of `s`. */
  function FirstMatch(table: seq<Entry>, s: string, from: nat): (r: Option<nat>)
    requires from <= |table|
    ensures r.Some? ==> from <= r.value < |table| && table[r.value].key <= s
    ensures forall j :: from <= j < |table| && table[j].key <= s ==> r.Some? && r.value <= j
    decreases |table| - from
  {
    if from == |table| then None
    else if table[from].key <= s then Some(from)
    else FirstMatch(table, s, from + 1)
  }

  /** The global `replace` with the table's regular expression: scanning
      from the left, each match is replaced by its key's value and the scan
      resumes after the match; text where nothing matches is kept. */
  function ReplaceKana(s: string): (r: string)
    decreases |s|
  {
    if s == [] then []
    else
      match FirstMatch(KatakanaMap, s, 0)
      case Some(i) =>
        EntryShape(i);
        KatakanaMap[i].value + ReplaceKana(s[|KatakanaMap[i].key|..])
      case None => [s[0]] + ReplaceKana(s[1..])
  }

  /** A global `replace` of one character by another. */
  function ReplaceChar(s: string, from: char, to: char): (r: string)
    ensures |r| == |s|
    ensures forall i :: 0 <= i < |s| ==> r[i] == (if s[i] == from then to else s[i])
  {
    if s == [] then [] else [if s[0] == from then to else s[0]] + ReplaceChar(s[1..], from, to)
  }

  /** The two character passes: stray voicing marks, then stray
      semi-voicing marks. */
  function ReplaceMarks(s: string): string {
    ReplaceChar(ReplaceChar(s, HalfVoicedMark, FullVoicedMark), HalfSemiVoicedMark, FullSemiVoicedMark)
  }

  /** `hankakuKatakanaToZenkakuKatakana`: the table pass, then the two
      mark passes. */
  function ToFullWidthKatakana(text: string): string {
    ReplaceMarks(ReplaceKana(text))
  }

  // ---------------------------------------------------------------------
  // Properties.

  lemma ReplaceMarksAppend(a: string, b: string)
    ensures ReplaceMarks(a + b) == ReplaceMarks(a) + ReplaceMarks(b)
  {
    assert ReplaceMarks(a + b) == ReplaceMarks(a) + ReplaceMarks(b) by {
      var l, r, ab := ReplaceMarks(a), ReplaceMarks(b), ReplaceMarks(a + b);
      assert forall i :: 0 <= i < |ab| ==> ab[i] == (l + r)[i];
    }
  }

  /** The mark passes turn every half-width voicing mark into its
      full-width form and keep every other character. */
  lemma ReplaceMarksChars(s: string)
    ensures |ReplaceMarks(s)| == |s|
    ensures forall i :: 0 <= i < |s| ==>
      (ReplaceMarks(s)[i] ==
         if s[i] == HalfVoicedMark then FullVoicedMark
         else if s[i] == HalfSemiVoicedMark then FullSemiVoicedMark
         else s[i])
  {
  }

  /** A table value is one full-width character that the mark passes keep. */
  lemma ValueKeptByMarks(i: nat)
    requires i < |KatakanaMap|
    ensures |KatakanaMap[i].value| == 1 && !IsHalfWidthKana(KatakanaMap[i].value[0])
    ensures ReplaceMarks(KatakanaMap[i].value) == KatakanaMap[i].value
  {
    EntryShape(i);
    ReplaceMarksChars(KatakanaMap[i].value);
  }

  /** The table pass leaves no half-width letter behind; only stray voicing
      marks can remain. */
  lemma {:induction false} ReplaceKanaLeavesNoLetter(s: string)
    ensures forall i :: 0 <= i < |ReplaceKana(s)| ==> !IsHalfWidthLetter(ReplaceKana(s)[i])
    decreases |s|
  {
    if s != [] {
      match FirstMatch(KatakanaMap, s, 0)
      case Some(i) =>
        EntryShape(i);
        ReplaceKanaLeavesNoLetter(s[|KatakanaMap[i].key|..]);
      case None =>
        if IsHalfWidthLetter(s[0]) {
          var j := LetterIsKey(s[0]);
          assert false;
        }
        ReplaceKanaLeavesNoLetter(s[1..]);
    }
  }

  /** Text without half-width letters passes the table unchanged. */
  lemma {:induction false} ReplaceKanaIdentity(s: string)
    requires forall i :: 0 <= i < |s| ==> !IsHalfWidthLetter(s[i])
    ensures ReplaceKana(s) == s
    decreases |s|
  {
    if s != [] {
      match FirstMatch(KatakanaMap, s, 0)
      case Some(i) =>
        EntryShape(i);
        assert false;
      case None =>
        ReplaceKanaIdentity(s[1..]);
    }
  }

  /** Text with no half-width katakana at all is left unchanged; in
      particular full-width text and ASCII are. */
  lemma NormalizeIdentity(s: string)
    requires NoHalfWidthKana(s)
    ensures ToFullWidthKatakana(s) == s
  {
    ReplaceKanaIdentity(s);
    ReplaceMarksChars(s);
  }

  /** The result holds no half-width katakana: no table key and no
      half-width voicing mark survives. */
  lemma NormalizeLeavesNoHalfWidth(s: string)
    ensures NoHalfWidthKana(ToFullWidthKatakana(s))
  {
    ReplaceKanaLeavesNoLetter(s);
    MarksLeaveNoHalfWidth(ReplaceKana(s));
  }

  /** Once no half-width letter is left, the mark passes remove the rest of
      the half-width block. */
  lemma MarksLeaveNoHalfWidth(t: string)
    requires forall i :: 0 <= i < |t| ==> !IsHalfWidthLetter(t[i])
    ensures NoHalfWidthKana(ReplaceMarks(t))
  {
    ReplaceMarksChars(t);
  }

  /** Normalising twice is normalising once. */
  lemma NormalizeIdempotent(s: string)
    ensures ToFullWidthKatakana(ToFullWidthKatakana(s)) == ToFullWidthKatakana(s)
  {
    NormalizeLeavesNoHalfWidth(s);
    NormalizeIdentity(ToFullWidthKatakana(s));
  }

  /** One table step: when the first key matching the head of `key + rest`
      is `key` itself, `key` becomes its value and the rest is normalised
      on its own. */
  lemma MatchStep(i: nat, rest: string)
    requires i < |KatakanaMap|
    requires FirstMatch(KatakanaMap, KatakanaMap[i].key + rest, 0) == Some(i)
    ensures ToFullWidthKatakana(KatakanaMap[i].key + rest) == KatakanaMap[i].value + ToFullWidthKatakana(rest)
  {
    EntryShape(i);
    var s := KatakanaMap[i].key + rest;
    assert s[|KatakanaMap[i].key|..] == rest;
    assert ReplaceKana(s) == KatakanaMap[i].value + ReplaceKana(rest);
    ReplaceMarksAppend(KatakanaMap[i].value, ReplaceKana(rest));
    ValueKeptByMarks(i);
  }

  /** A two-character voiced or semi-voiced key is replaced as one unit by
      its single full-width character, whatever follows it. */
  lemma VoicedKeyIsAtomic(i: nat, rest: string)
    requires i < VoicedCount
    ensures |KatakanaMap[i].value| == 1
    ensures ToFullWidthKatakana(KatakanaMap[i].key + rest) == KatakanaMap[i].value + ToFullWidthKatakana(rest)
  {
    EntryShape(i);
    var s := KatakanaMap[i].key + rest;
    var m := FirstMatch(KatakanaMap, s, 0);
    assert KatakanaMap[i].key <= s;
    var j := m.value;
    EntryShape(j);
    assert KatakanaMap[j].key == s[..2] == KatakanaMap[i].key;
    VoicedKeyUnique(j, i);
    MatchStep(i, rest);
  }

  /** A one-character key not followed by a mark that would form a
      two-character key with it is replaced by its own value. */
  lemma LetterKeyReplaced(i: nat, rest: string)
    requires VoicedCount <= i < |KatakanaMap|
    requires forall j :: 0 <= j < VoicedCount ==> !(KatakanaMap[j].key <= KatakanaMap[i].key + rest)
    ensures ToFullWidthKatakana(KatakanaMap[i].key + rest) == KatakanaMap[i].value + ToFullWidthKatakana(rest)
  {
    EntryShape(i);
    var s := KatakanaMap[i].key + rest;
    var m := FirstMatch(KatakanaMap, s, 0);
    assert KatakanaMap[i].key <= s;
    var j := m.value;
    EntryShape(j);
    assert KatakanaMap[j].key == s[..1] == KatakanaMap[i].key;
    LetterKeyUnique(j, i);
    MatchStep(i, rest);
  }

  /** No key starts with anything but a half-width letter, so a character
      that is not one is never the head of a match. */
  lemma NoMatchAtNonLetter(s: string)
    requires s != [] && !IsHalfWidthLetter(s[0])
    ensures FirstMatch(KatakanaMap, s, 0) == None
    ensures ToFullWidthKatakana(s) == ReplaceMarks([s[0]]) + ToFullWidthKatakana(s[1..])
  {
    forall j | 0 <= j < |KatakanaMap| ensures !(KatakanaMap[j].key <= s) {
      EntryShape(j);
    }
    ReplaceMarksAppend([s[0]], ReplaceKana(s[1..]));
  }

  /** A voicing mark that is not part of a two-character key becomes the
      standalone full-width mark. */
  lemma StrayMarkReplaced(m: char, rest: string)
    requires IsHalfWidthMark(m)
    ensures ToFullWidthKatakana([m] + rest) ==
      [if m == HalfVoicedMark then FullVoicedMark else FullSemiVoicedMark] + ToFullWidthKatakana(rest)
  {
    var s := [m] + rest;
    assert s[1..] == rest;
    NoMatchAtNonLetter(s);
    ReplaceMarksChars([m]);
  }

  /** Any character outside the half-width block is copied as it is. */
  lemma OtherCharKept(c: char, rest: string)
    requires !IsHalfWidthKana(c)
    ensures ToFullWidthKatakana([c] + rest) == [c] + ToFullWidthKatakana(rest)
  {
    var s := [c] + rest;
    assert s[1..] == rest;
    NoMatchAtNonLetter(s);
    ReplaceMarksChars([c]);
  }

  /** Entry `i`, a one-character key, followed by text that cannot turn it
      into a two-character key: it is not a voiced lead, or no mark follows. */
  lemma LetterStep(i: nat, key: string, value: string, rest: string)
    requires VoicedCount <= i < |KatakanaMap| && KatakanaMap[i] == Entry(key, value) && |key| == 1
    requires !IsVoicedLead(key[0]) || rest == [] || !IsHalfWidthMark(rest[0])
    ensures ToFullWidthKatakana(key + rest) == value + ToFullWidthKatakana(rest)
  {
    EntryShape(i);
    forall j | 0 <= j < VoicedCount ensures !(KatakanaMap[j].key <= key + rest) {
      EntryShape(j);
    }
    LetterKeyReplaced(i, rest);
  }
}
