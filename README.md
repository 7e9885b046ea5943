# poc-yukkuri-cli-2 text-to-speech transcription core, in Dafny

`index.js` turns Japanese text into a phonetic string for the AquesTalk
speech synthesiser (`atk1.exe`). The pipeline has four steps:

1. It normalises half-width katakana to full-width katakana
   (`hankakuKatakanaToZenkakuKatakana`).
2. It hands the text to MeCab with the UniDic CSJ dictionary.
3. It splits MeCab's tabular output into rows (`splitToArray`) and turns
   each row into a record keyed by the UniDic column names (`parseMeCabResult`).
4. It reduces the records to one string of readings and punctuation, and
   converts the katakana in that string to hiragana (`parseForAtk`,
   `katakanaToHiragana`).

This project models these pure steps in Dafny and proves their properties.
The MeCab process and the synthesiser call are not modelled.

| file | module | models |
|---|---|---|
| `results.dfy` | `Results` | `Option` (for JavaScript's `undefined`) and `Result` (for a thrown error) |
| `half_width_kana.dfy` | `HalfWidthKana` | `katakanaMap`, `hankakuKatakanaRegExp`, `hankakuKatakanaToZenkakuKatakana` |
| `mecab_split.dfy` | `MeCabSplit` | `splitToArray`, with CRLF folding, `trim`, `split` and the quote removal it uses |
| `mecab_record.dfy` | `MeCabRecord` | `meCabColumns`, `parseMeCabResult` |
| `hiragana.dfy` | `Hiragana` | `katakanaToHiragana` |
| `atk_transcriber.dfy` | `AtkTranscriber` | `parseForAtk`, and steps 3 and 4 composed as `TextToSpeech` |

How the JavaScript constructs are modelled:

- **The regular expression over the table.** It is an alternation of the keys
  in insertion order, so it is modelled as `FirstMatch`: the first table entry
  whose key is a prefix of the remaining text.
- **Global `replace` calls.** Each is a recursive scan that resumes after
  every match.
- **Property reads that may be `undefined`.** These are `Option`s.
  `Array.prototype.join` writes `undefined` as nothing, so the join uses
  `GetOr("")`.
- **The thrown error in `splitToArray`.** A line without a tab has no feature
  field, so calling `split` on `undefined` throws. The model returns
  `Failure` with that line instead.
- **The `reduce` in `parseMeCabResult`.** It assigns one property per column.
  The model is the method `BuildRecord`: a loop that updates a map, proved
  equal to the declarative record `ColumnRecord`.

Behaviour of the code that is easy to misread, which the model keeps:

- **Choosing `orth`.** When there is no `kana` entry, the code uses `word` even
  if an `orth` entry exists.
- **Empty `kana` and no `orth`.** When `kana` is present but empty and `orth`
  is missing, the code yields `undefined`, which the join drops.
- **Quotes.** The code deletes every double quote in a value, not only the
  surrounding ones.
- **The `EOS` line.** The code drops the last line without checking that it
  is the `EOS` sentinel.
- **`trim` over the whole output.** A line whose surface form is an
  ideographic space (U+3000) at the very start of the output loses that space
  and the tab after it, because `trim` removes both. The first line is then
  left without a tab, and `splitToArray` throws (`LeadingSpaceTokenLost`).

## Model

| member | source | states |
|---|---|---|
| HalfWidthKana.KatakanaMap | index.js:13-33 | The 89-entry table in insertion order, as the six source-line groups concatenated; its shape is given by EntryInGroup, EntryShape, VoicedKeyUnique, LetterKeyUnique and LetterIsKey |
| HalfWidthKana.VoicedKaToDoShape | index.js:14-16 | The 15 keys ｶﾞ..ﾄﾞ are each a lead letter in ｶ..ﾄ followed by ﾞ, and each maps to one full-width character |
| HalfWidthKana.VoicedKaToDoDistinct | index.js:14-16 | The keys ｶﾞ..ﾄﾞ are pairwise distinct |
| HalfWidthKana.VoicedHaToWoShape | index.js:17-19 | The 13 keys ﾊﾞ..ｦﾞ are each a voiced lead followed by ﾞ or ﾟ, and each maps to one full-width character |
| HalfWidthKana.VoicedHaToWoDistinct | index.js:17-19 | The keys ﾊﾞ..ｦﾞ are pairwise distinct |
| HalfWidthKana.LettersAToSoShape | index.js:20-22 | Key k of ｱ..ｿ is the single character U+FF71+k, and its value is one full-width character |
| HalfWidthKana.LettersTaToHoShape | index.js:23-25 | Key k of ﾀ..ﾎ is the single character U+FF80+k, and its value is one full-width character |
| HalfWidthKana.LettersMaToNShape | index.js:26-29 | The keys ﾏ..ﾜ are U+FF8F+k, then come ｦ and ﾝ; each is one character mapped to one full-width character |
| HalfWidthKana.SmallKanaAndMarksShape | index.js:30-32 | The small kana and the half-width punctuation are single letters of U+FF61..U+FF70 other than ｦ, each mapped to one full-width character |
| HalfWidthKana.SmallKanaAndMarksDistinct | index.js:30-32 | The keys of the small kana and punctuation group are pairwise distinct |
| HalfWidthKana.EntryInGroup | index.js:13-33 | The table has 89 entries, and entry i is the matching element of its source-line group |
| HalfWidthKana.EntryShape | index.js:13-33 | The first 28 keys are a voiced lead and a voicing mark, the rest are one half-width letter, and every value is one full-width kana |
| HalfWidthKana.VoicedKeyUnique | index.js:14-19 | No two-character key occurs twice |
| HalfWidthKana.LetterKeyUnique | index.js:20-32 | No one-character key occurs twice |
| HalfWidthKana.LetterIsKey | index.js:20-32 | Every half-width letter U+FF61..U+FF9D is a one-character key of the table |
| HalfWidthKana.FirstMatch | index.js:35 | The chosen alternative is the first key in insertion order that prefixes the text, and it is None only if no key does |
| HalfWidthKana.ReplaceKana | index.js:35-42 | The `replace` with the table's regular expression: at each position the first matching key is replaced by its value and the scan resumes after it. Specified by MatchStep, VoicedKeyIsAtomic, LetterKeyReplaced, LetterStep, NoMatchAtNonLetter, ReplaceKanaLeavesNoLetter and ReplaceKanaIdentity |
| HalfWidthKana.ReplaceMarks | index.js:42 | The two `replace` calls for ﾞ and ﾟ. Specified by ReplaceMarksChars and ReplaceMarksAppend |
| HalfWidthKana.ToFullWidthKatakana | index.js:42 | `hankakuKatakanaToZenkakuKatakana`: the table pass, then the mark passes. Specified by VoicedKeyIsAtomic, LetterKeyReplaced, LetterStep, StrayMarkReplaced, OtherCharKept, NormalizeLeavesNoHalfWidth, NormalizeIdentity and NormalizeIdempotent |
| HalfWidthKana.ReplaceChar | index.js:42 | Global replacement of one character keeps the length and changes exactly the occurrences of that character |
| HalfWidthKana.ReplaceMarksAppend | index.js:42 | The ﾞ/ﾟ passes distribute over concatenation |
| HalfWidthKana.ReplaceMarksChars | index.js:42 | The ﾞ/ﾟ passes turn ﾞ into ゛ and ﾟ into ゜ and keep every other character |
| HalfWidthKana.ValueKeptByMarks | index.js:13-33 | Every table value is one character outside the half-width block, so the ﾞ/ﾟ passes leave it unchanged |
| HalfWidthKana.ReplaceKanaLeavesNoLetter | index.js:35-42 | After the table pass no half-width letter remains |
| HalfWidthKana.ReplaceKanaIdentity | index.js:42 | Text without half-width letters passes the table pass unchanged |
| HalfWidthKana.NormalizeIdentity | index.js:42 | Text without half-width katakana comes out of the normaliser unchanged |
| HalfWidthKana.NormalizeLeavesNoHalfWidth | index.js:42 | The normaliser's result holds no half-width katakana: no key, no ﾞ and no ﾟ |
| HalfWidthKana.MarksLeaveNoHalfWidth | index.js:42 | Once no half-width letter is left, the ﾞ/ﾟ passes remove all remaining half-width katakana |
| HalfWidthKana.NormalizeIdempotent | index.js:42 | Normalising twice gives the same result as normalising once |
| HalfWidthKana.MatchStep | index.js:35-42 | When entry i is the first match at the head, the normaliser emits its value and continues after the key |
| HalfWidthKana.VoicedKeyIsAtomic | index.js:14-19 | A two-character voiced key becomes its single full-width character, whatever follows it |
| HalfWidthKana.LetterKeyReplaced | index.js:20-42 | A one-character key that no voiced key overrides becomes its value |
| HalfWidthKana.NoMatchAtNonLetter | index.js:35-42 | No alternative matches at a non-letter, and that character passes only through the ﾞ/ﾟ passes |
| HalfWidthKana.StrayMarkReplaced | index.js:42 | A ﾞ or ﾟ that is not part of a key becomes ゛ or ゜ |
| HalfWidthKana.OtherCharKept | index.js:42 | A character outside the half-width block is copied unchanged |
| HalfWidthKana.LetterStep | index.js:20-42 | A one-character key whose next character cannot form a voiced key with it becomes its value |
| MeCabSplit.CrlfToLf | index.js:138 | `replace(/\r\n/g, '\n')`, a left-to-right scan. Specified by CrlfToLfKeepsLineFeeds, CrlfToLfIdentity, CrlfToLfWhitespace, CrlfToLfJoin and LoneCrKept |
| MeCabSplit.CrlfToLfKeepsLineFeeds | index.js:138 | Folding CRLF to LF keeps the number of line feeds |
| MeCabSplit.CrlfToLfIdentity | index.js:138 | Text without CR is unchanged by the fold |
| MeCabSplit.CrlfToLfWhitespace | index.js:138 | Whitespace-only text stays whitespace-only after the fold |
| MeCabSplit.CrlfToLfJoin | index.js:138 | Lines joined by CRLF fold to the same lines joined by LF |
| MeCabSplit.LoneCrKept | index.js:138 | A CR not followed by LF survives the fold |
| MeCabSplit.LeadingWhitespace | index.js:138 | The length of the leading ECMAScript whitespace: all of it is whitespace and the next character is not |
| MeCabSplit.ContentEnd | index.js:138 | The end of the text before its trailing ECMAScript whitespace |
| MeCabSplit.Trim | index.js:138 | `trim()`. Specified by TrimIsSlice, TrimWhitespace, TrimTrailing and TrimStripsLeading |
| MeCabSplit.TrimIsSlice | index.js:138 | `trim` returns the slice between maximal whitespace prefix and suffix, and that slice starts and ends with non-whitespace |
| MeCabSplit.TrimWhitespace | index.js:138 | Whitespace-only text trims to the empty string |
| MeCabSplit.TrimTrailing | index.js:138 | Trimming content that starts and ends with non-whitespace, followed by whitespace, gives back the content |
| MeCabSplit.Split | index.js:138 | `split` yields one more piece than there are separators, no piece contains the separator, and joining the pieces restores the text |
| MeCabSplit.SplitJoin | index.js:138 | Splitting pieces joined by the separator returns those pieces |
| MeCabSplit.SplitPlain | index.js:141 | Text without the separator splits into itself alone |
| MeCabSplit.SplitAfterPlain | index.js:141 | A separator-free head followed by the separator is the first piece |
| MeCabSplit.SplitHead | index.js:141 | The first piece is the text before the first separator |
| MeCabSplit.RemoveQuotes | index.js:142 | Deleting quotes leaves no double quote, removes exactly as many characters as there were quotes, and keeps quote-free text unchanged |
| MeCabSplit.RemoveQuotesAppend | index.js:142 | Quote deletion distributes over concatenation |
| MeCabSplit.SplitLine | index.js:140-143 | A line parses if and only if it has a tab. Otherwise the error is that line. A parsed row has 2 + (commas in the feature field) entries, starts with the text before the first tab, and has no quotes in its values |
| MeCabSplit.SplitLineOf | index.js:141-143 | `word TAB field [TAB ...]` gives `[word]` followed by the field's comma-separated values without quotes, and anything after a second tab is ignored |
| MeCabSplit.SplitRows | index.js:140-144 | All lines parse if and only if every line has a tab, and then row i is line i parsed, in order |
| MeCabSplit.SplitRowsFailsAt | index.js:140-144 | The failure names the first line without a tab |
| MeCabSplit.Lines | index.js:138 | After folding and trimming, the line count is the number of LF plus one |
| MeCabSplit.SplitToArray | index.js:137-145 | On success the number of rows is the line count minus one, because the pop drops the last line |
| MeCabSplit.EmptyOutput | index.js:137-145 | Empty or whitespace-only output gives no rows and no failure |
| MeCabSplit.LeadingWhitespaceSkip | index.js:138 | The leading-whitespace count of whitespace followed by text is the whitespace's length plus that of the text |
| MeCabSplit.TrimStripsLeading | index.js:138 | Any whitespace in front of content starting with non-whitespace is removed by `trim` |
| MeCabSplit.LeadingSpaceTokenLost | index.js:137-145 | Well-formed output whose first line is an ideographic space, a tab and a feature field fails with that feature field as the error, because `trim` also strips the tab |
| MeCabSplit.OutputParts | index.js:137-145 | Well-formed MeCab output has lines free of CR and LF, with non-whitespace at both ends of the text |
| MeCabSplit.ParsesOutput | index.js:137-145 | LF-terminated MeCab output with a final sentinel line parses to exactly its token lines, each split, in order, and never fails |
| MeCabSplit.ParsesCrlfOutput | index.js:137-145 | The same output with CRLF line ends parses to the same rows |
| MeCabSplit.DropsLastLine | index.js:139 | The last line is dropped whatever it contains |
| MeCabSplit.TrimmedOutput | index.js:138 | Trimming such output removes exactly the final line feed |
| MeCabSplit.OutputLines | index.js:138 | Such output with LF line ends has exactly its lines |
| MeCabSplit.CrlfOutputLines | index.js:138 | Such output with CRLF line ends has exactly its lines |
| MeCabSplit.CrlfOutputNormalised | index.js:138 | CRLF-joined CR-free lines with a final CRLF fold to the LF-joined lines with a final LF |
| MeCabRecord.ColumnsShape | index.js:64-96 | There are 30 column names, each starting with a lower-case letter |
| MeCabRecord.ColumnPositions | index.js:64-96 | word is column 0, orth is column 9, goshu is column 13 and kana is column 21 |
| MeCabRecord.ColumnsDistinct | index.js:64-96 | The column names are pairwise distinct |
| MeCabRecord.MeCabColumns | index.js:64-96 | The 30 column names in order. Specified by ColumnsShape, ColumnPositions and ColumnsDistinct |
| MeCabRecord.DecimalString | index.js:154 | `String(index)` is non-empty, all digits, and has no leading zero |
| MeCabRecord.DecimalRoundTrip | index.js:154 | Reading `String(index)` back as a number gives the index |
| MeCabRecord.DecimalInjective | index.js:154 | Different indices give different decimal strings |
| MeCabRecord.KeyName | index.js:154 | `meCabColumns[index] ?? String(index)`. Specified by KeyNameInjective, KeyNamesInjective and ExtraColumnKey |
| MeCabRecord.KeyNameInjective | index.js:154 | Different columns get different keys, named or decimal |
| MeCabRecord.KeyNamesInjective | index.js:154 | The key function is injective on all column indices |
| MeCabRecord.ColumnRecord | index.js:153-157 | Each column's value is stored under its key, and there is no other entry |
| MeCabRecord.RecordOfEntries | index.js:153-157 | Any map with exactly those entries is the row's record |
| MeCabRecord.ColumnRecordSnoc | index.js:155 | Assigning one more column adds exactly its entry |
| MeCabRecord.ColumnRecordStep | index.js:155 | One step of the reduce extends the record of the first i columns to the first i+1 |
| MeCabRecord.ColumnPresent | index.js:153-157 | Column i has an entry if and only if i is less than the row length, and the entry holds column i |
| MeCabRecord.KanaField | index.js:153-157 | A record has `kana` if and only if its row has more than 21 columns, and then holds column 21 |
| MeCabRecord.OrthGoshuWordFields | index.js:153-157 | orth, goshu and word are present exactly for rows longer than 9, 13 and 0 columns, and hold those columns |
| MeCabRecord.ExtraColumnKey | index.js:154 | Column 30 is stored under the key "30" |
| MeCabRecord.RecordSize | index.js:153-157 | A record has exactly one entry per column |
| MeCabRecord.BuildRecord | index.js:153-157 | The reduce loop over a row yields exactly the row's record |
| MeCabRecord.ParseMeCabResult | index.js:153-157 | The `map` loop yields one record per row, in row order, each the row's record, so it equals the closed form Records(rows) |
| Hiragana.ToHiraganaChar | index.js:165 | A character in ァ..ヶ is lowered by 0x60 into ぁ..ゖ, and any other character is kept |
| Hiragana.KatakanaToHiragana | index.js:165 | The length is kept; each character in U+30A1..U+30F6 becomes itself minus 0x60, and every other character is kept |
| Hiragana.NoKatakanaLeft | index.js:165 | No character of U+30A1..U+30F6 survives |
| Hiragana.Identity | index.js:165 | Text without such characters is unchanged |
| Hiragana.Idempotent | index.js:165 | Converting twice gives the same result as converting once |
| Hiragana.Append | index.js:165 | The conversion distributes over concatenation |
| Hiragana.BoundaryCharsKept | index.js:165 | ゠, ヷ, ・ and ー, which lie just outside the class, are kept |
| Hiragana.ClassEndsConverted | index.js:165 | ァ and ヶ, the ends of the class, become ぁ and ゖ |
| AtkTranscriber.Fragment | index.js:174-184 | The `map` callback: for 記号, the symbol fragment of orth, and otherwise the reading fragment. Specified by SymbolCases, SymbolIgnoresKana, KanaWins, NoKanaUsesWord, EmptyKanaWithoutOrthVanishes and RowFragment |
| AtkTranscriber.ReadingFragment | index.js:182-184 | Non-empty kana; else orth when kana is present and orth is not ""; else word. Specified by KanaWins, NoKanaUsesWord, EmptyKanaWithoutOrthVanishes and RowFragment |
| AtkTranscriber.RawText | index.js:174-185 | `map(...).join('')`, writing a missing fragment as nothing. Specified by RawTextAppend and EmptyKanaWithoutOrthVanishes |
| AtkTranscriber.SymbolFragment | index.js:176-179 | A symbol's fragment is 、。, "," , one of 。？,;/+ or nothing. 、。 comes only from ！, and "," only from 、「」『』 or "," itself. Any other non-empty result is orth itself |
| AtkTranscriber.ParseForAtk | index.js:173-191 | The spoken text holds no convertible katakana and is as long as the joined fragments |
| AtkTranscriber.SymbolCases | index.js:176-179 | ！ gives 、。; 、「」『』 give ","; 。？,;/+ are kept; any other or missing orth gives nothing |
| AtkTranscriber.SymbolIgnoresKana | index.js:175-180 | A symbol's fragment does not depend on its kana entry, whether changed or removed |
| AtkTranscriber.KanaWins | index.js:182 | For a non-symbol, a non-empty kana is the fragment |
| AtkTranscriber.NoKanaUsesWord | index.js:182-184 | For a non-symbol without kana, the fragment is word even when orth exists |
| AtkTranscriber.EmptyKanaWithoutOrthVanishes | index.js:183-185 | Empty kana and no orth give `undefined`, which the join writes as nothing |
| AtkTranscriber.RowFragment | index.js:153-185 | For a record built from a row, the fragment is always defined. It is the symbol fragment of column 9 when column 13 is 記号. Otherwise it is column 21 if non-empty, else column 9 if the row has kana and column 9 is non-empty, else column 0 |
| AtkTranscriber.RawTextAppend | index.js:174-185 | The joined fragments distribute over concatenation of record lists |
| AtkTranscriber.ParseForAtkAppend | index.js:173-191 | Transcribing concatenated record lists concatenates their transcriptions |
| AtkTranscriber.KonnichihaExample | index.js:182-186 | Kana コンニチハ is spoken as こんにちは |
| AtkTranscriber.ArigatouExample | index.js:153-186 | A row whose column 21 is アリガトー is spoken as ありがとー |
| AtkTranscriber.ExclamationExample | index.js:176-186 | The symbol ！ is spoken as 、。 |
| AtkTranscriber.TextToSpeech | index.js:201-203 | From MeCab's raw output, the pipeline succeeds exactly when splitting succeeds, keeps the split error otherwise, and yields the transcription of the rows' records |

## Left out

- `callMeCab` (index.js:51-61) spawns MeCab, writes to its standard input and
  collects its standard output. Process I/O is outside the model.
  `TextToSpeech` therefore starts from MeCab's raw output.
- The asynchronous entry point (index.js:194-212) is not modelled. It reads
  the command-line argument, runs `atk1.exe` and prints results, which is
  process I/O. Its data flow after MeCab (201-203) is `TextToSpeech`.
- The `console.log` calls in `parseForAtk` (index.js:187-189) print and change
  nothing. They are not modelled.
- `atk1.cs` (the AquesTalk wrapper) and the `memos` scripts are not part of
  this model.
- Concrete strings are not pushed through the normaliser. Evaluating
  `ToFullWidthKatakana` on literal text unfolds the 89-entry table search at
  every character. The general lemmas carry those facts instead:
  `VoicedKeyIsAtomic`, `LetterStep`, `StrayMarkReplaced` and `OtherCharKept`.
- MeCabRecord.ParseMeCabResult: a JavaScript object's key order and its
  prototype are not modelled. A record is a finite map from key to value.
- Strings are sequences of Unicode scalar values rather than UTF-16 code
  units. Every character the core inspects is in the Basic Multilingual
  Plane, so this changes none of the results above.
