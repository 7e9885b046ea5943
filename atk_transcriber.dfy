/** `parseForAtk`: parsed MeCab results to the text AquesTalk speaks.

    For each record the source picks a fragment: for a symbol (`goshu` is
    記号) a fixed pause or punctuation chosen by the written form `orth`,
    ignoring any reading; otherwise the katakana reading `kana` when it is
    non-empty, else `orth`, else the surface form `word`. The fragments are
    joined with `join('')`, which writes a missing (`undefined`) fragment as
    nothing, and the joined text is converted to hiragana. */
module AtkTranscriber {
  import opened Results
  import opened MeCabSplit
  import opened MeCabRecord
  import opened Hiragana

  const SymbolGoshu: string := "記号"

  /** Symbols AquesTalk reads as a comma-length pause. */
  const PauseSymbols: seq<string> := ["、", "「", "」", "『", "』"]

  /** Symbols AquesTalk accepts as they are. */
  const KeptSymbols: seq<string> := ["。", "？", ",", ";", "/", "+"]

  /** A property read: `None` when the record has no such key. */
  function Lookup(rec: Record, key: string): Option<string> {
    if key in rec then Some(rec[key]) else None
  }

  /** The fragment of a symbol, chosen by its written form alone: every
      result is a symbol AquesTalk accepts, or nothing. */
  function SymbolFragment(orth: Option<string>): (r: string)
    ensures r == "、。" || r == "," || r == "" || r in KeptSymbols
    ensures r == "、。" <==> orth == Some("！")
    ensures r == "," <==> orth.Some? && (orth.value in PauseSymbols || orth.value == ",")
    ensures r !in ["", "、。", ","] ==> orth == Some(r)
  {
    if orth == Some("！") then "、。"
    else if orth.Some? && orth.value in PauseSymbols then ","
    else if orth.Some? && orth.value in KeptSymbols then orth.value
    else ""
  }

  /** The fragment of a word that is not a symbol. */
  function ReadingFragment(rec: Record): Option<string> {
    var kana := Lookup(rec, "kana");
    if kana.Some? && kana.value != "" then kana
    else if kana.Some? && Lookup(rec, "orth") != Some("") then Lookup(rec, "orth")
    else Lookup(rec, "word")
  }

  /** The callback of the source's `map`. */
  function Fragment(rec: Record): Option<string> {
    if Lookup(rec, "goshu") == Some(SymbolGoshu) then Some(SymbolFragment(Lookup(rec, "orth")))
    else ReadingFragment(rec)
  }

  /** `map(...).join('')`. */
  function RawText(records: seq<Record>): string {
    if records == [] then "" else Fragment(records[0]).GetOr("") + RawText(records[1..])
  }

  /** `parseForAtk`: the joined fragments in hiragana. No convertible
      katakana is left, and the conversion keeps the length. */
  function ParseForAtk(records: seq<Record>): (r: string)
    ensures NoConvertibleKatakana(r)
    ensures |r| == |RawText(records)|
  {
    NoKatakanaLeft(RawText(records));
    KatakanaToHiragana(RawText(records))
  }

  // ---------------------------------------------------------------------
  // Symbols.

  /** The four kinds of symbol. */
  lemma SymbolCases(orth: string)
    ensures orth == "！" ==> SymbolFragment(Some(orth)) == "、。"
    ensures orth in PauseSymbols ==> SymbolFragment(Some(orth)) == ","
    ensures orth in KeptSymbols ==> SymbolFragment(Some(orth)) == orth
    ensures orth != "！" && orth !in PauseSymbols && orth !in KeptSymbols ==> SymbolFragment(Some(orth)) == ""
    ensures SymbolFragment(None) == ""
  {
  }

  /** A symbol's reading plays no part: changing or removing `kana` keeps
      its fragment. */
  lemma SymbolIgnoresKana(rec: Record, kana: string)
    requires Lookup(rec, "goshu") == Some(SymbolGoshu)
    ensures Fragment(rec["kana" := kana]) == Fragment(rec)
    ensures Fragment(rec - {"kana"}) == Fragment(rec)
  {
    assert Lookup(rec["kana" := kana], "goshu") == Lookup(rec, "goshu");
    assert Lookup(rec["kana" := kana], "orth") == Lookup(rec, "orth");
    assert Lookup(rec - {"kana"}, "goshu") == Lookup(rec, "goshu");
    assert Lookup(rec - {"kana"}, "orth") == Lookup(rec, "orth");
  }

  // ---------------------------------------------------------------------
  // Words.

  /** A non-empty reading wins over the written and the surface form. */
  lemma KanaWins(rec: Record)
    requires Lookup(rec, "goshu") != Some(SymbolGoshu)
    requires "kana" in rec && rec["kana"] != ""
    ensures Fragment(rec) == Some(rec["kana"])
  {
  }

  /** With no reading at all, the surface form is used, even when there is
      a written form. */
  lemma NoKanaUsesWord(rec: Record)
    requires Lookup(rec, "goshu") != Some(SymbolGoshu)
    requires "kana" !in rec
    ensures Fragment(rec) == Lookup(rec, "word")
  {
  }

  /** An empty reading with no written form gives `undefined`, which the
      join writes as nothing. */
  lemma EmptyKanaWithoutOrthVanishes(rec: Record)
    requires Lookup(rec, "goshu") != Some(SymbolGoshu)
    requires "kana" in rec && rec["kana"] == "" && "orth" !in rec
    ensures Fragment(rec) == None
    ensures ParseForAtk([rec]) == ""
  {
    assert RawText([rec]) == "" + RawText([]);
  }

  /** For a record built from a MeCab row, every field the choice reads is
      present whenever it is consulted, so the fragment is always a column
      of the row (or a fixed symbol). */
  lemma RowFragment(row: seq<string>)
    requires |row| > 0
    ensures Fragment(ColumnRecord(row)) == Some(
      if |row| > 13 && row[13] == SymbolGoshu then SymbolFragment(Some(row[9]))
      else if |row| > 21 && row[21] != "" then row[21]
      else if |row| > 21 && row[9] != "" then row[9]
      else row[0])
  {
    KanaField(row);
    OrthGoshuWordFields(row);
  }

  // ---------------------------------------------------------------------
  // The whole text.

  lemma {:induction false} RawTextAppend(a: seq<Record>, b: seq<Record>)
    ensures RawText(a + b) == RawText(a) + RawText(b)
  {
    if a == [] {
      assert a + b == b;
    } else {
      assert (a + b)[0] == a[0];
      assert (a + b)[1..] == a[1..] + b;
      RawTextAppend(a[1..], b);
    }
  }

  /** Transcribing a concatenation is concatenating the transcriptions. */
  lemma ParseForAtkAppend(a: seq<Record>, b: seq<Record>)
    ensures ParseForAtk(a + b) == ParseForAtk(a) + ParseForAtk(b)
  {
    RawTextAppend(a, b);
    Hiragana.Append(RawText(a), RawText(b));
  }

  /** The reading コンニチハ is spoken as こんにちは. */
  lemma KonnichihaExample(rec: Record)
    requires Lookup(rec, "goshu") != Some(SymbolGoshu)
    requires "kana" in rec && rec["kana"] == "コンニチハ"
    ensures ParseForAtk([rec]) == "こんにちは"
  {
    assert RawText([rec]) == "コンニチハ" + RawText([]);
  }

  /** A MeCab row for ありがとう whose reading column holds アリガトー is
      spoken as ありがとー: the prolonged sound mark is kept. */
  lemma ArigatouExample(row: seq<string>)
    requires |row| > 21 && row[13] != SymbolGoshu && row[21] == "アリガトー"
    ensures ParseForAtk([ColumnRecord(row)]) == "ありがとー"
  {
    RowFragment(row);
    assert RawText([ColumnRecord(row)]) == "アリガトー" + RawText([]);
  }

  /** ！ becomes a pause followed by a full stop. */
  lemma ExclamationExample(rec: Record)
    requires Lookup(rec, "goshu") == Some(SymbolGoshu)
    requires "orth" in rec && rec["orth"] == "！"
    ensures ParseForAtk([rec]) == "、。"
  {
    assert RawText([rec]) == "、。" + RawText([]);
  }

  // ---------------------------------------------------------------------
  // The pipeline after MeCab.

  /** From MeCab's raw output to the text to speak: split, build the
      records, transcribe. A line without a tab stops the pipeline. */
  method TextToSpeech(rawMeCabResult: string) returns (r: Result<string, string>)
    ensures r.Success? <==> SplitToArray(rawMeCabResult).Success?
    ensures r.Failure? ==> r.error == SplitToArray(rawMeCabResult).error
    ensures r.Success? ==> r.value == ParseForAtk(Records(SplitToArray(rawMeCabResult).value))
  {
    var rows := SplitToArray(rawMeCabResult);
    if rows.Failure? {
      return Failure(rows.error);
    }
    var records := ParseMeCabResult(rows.value);
    return Success(ParseForAtk(records));
  }
}
