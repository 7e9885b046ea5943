/** `meCabColumns` and `parseMeCabResult`: rows of MeCab fields to records.

    Each row becomes an object whose key for column `i` is the `i`-th name
    of the column table when there is one and otherwise the decimal string
    of `i`. The source builds the object with a `reduce` that assigns one
    property per column; the model is a loop over the columns that updates
    a map, specified by the map that pairs each column's key with its
    value. */
module MeCabRecord {

  /** The column names of the UniDic feature layout, position by position;
      position 0 is the surface form, which the row puts first. */
  const MeCabColumns: seq<string> := [
    "word", "pos1", "pos2", "pos3", "pos4", "cType", "cForm", "lForm", "lemma", "orth",
    "pron", "orthBase", "pronBase", "goshu", "iType", "iForm", "fType", "fForm", "iConType", "fConType",
    "type", "kana", "kanaBase", "form", "formBase", "aType", "aConType", "aModType", "lid", "lemmaId"
  ]

  const ColumnCount: nat := 30

  lemma ColumnsShape()
    ensures |MeCabColumns| == ColumnCount
    ensures forall i :: 0 <= i < |MeCabColumns| ==> MeCabColumns[i] != [] && 'a' <= MeCabColumns[i][0] <= 'z'
  {
  }

  /** The positions the transcription reads. */
  lemma ColumnPositions()
    ensures MeCabColumns[0] == "word" && MeCabColumns[9] == "orth"
    ensures MeCabColumns[13] == "goshu" && MeCabColumns[21] == "kana"
  {
  }

  lemma ColumnsDistinct()
    ensures forall i, j :: 0 <= i < j < |MeCabColumns| ==> MeCabColumns[i] != MeCabColumns[j]
  {
  }

  // ---------------------------------------------------------------------
  // `String(index)` for the columns beyond the table.

  function DigitChar(d: nat): char
    requires d < 10
  {
    ('0' as int + d) as char
  }

  predicate IsDigit(c: char) {
    '0' <= c <= '9'
  }

  /** The decimal notation of `n`, without leading zeros. */
  function DecimalString(n: nat): (r: string)
    ensures r != [] && forall i :: 0 <= i < |r| ==> IsDigit(r[i])
    ensures r[0] == '0' ==> n == 0
  {
    if n < 10 then [DigitChar(n)] else DecimalString(n / 10) + [DigitChar(n % 10)]
  }

  /** The number a string of digits denotes. */
  function DecimalValue(s: string): nat
    requires forall i :: 0 <= i < |s| ==> IsDigit(s[i])
  {
    if s == [] then 0 else 10 * DecimalValue(s[..|s| - 1]) + DigitValue(s[|s| - 1])
  }

  function DigitValue(c: char): (d: nat)
    requires IsDigit(c)
    ensures d < 10
  {
    c as int - '0' as int
  }

  /** Reading the notation back gives the number. */
  lemma {:induction false} DecimalRoundTrip(n: nat)
    ensures DecimalValue(DecimalString(n)) == n
  {
    if n >= 10 {
      DecimalRoundTrip(n / 10);
      var s := DecimalString(n);
      assert s[..|s| - 1] == DecimalString(n / 10);
    }
  }

  lemma DecimalInjective(m: nat, n: nat)
    requires DecimalString(m) == DecimalString(n)
    ensures m == n
  {
    DecimalRoundTrip(m);
    DecimalRoundTrip(n);
  }

  // ---------------------------------------------------------------------
  // Keys and records.

  /** `meCabColumns[index] ?? String(index)`. */
  function KeyName(i: nat): string {
    if i < |MeCabColumns| then MeCabColumns[i] else DecimalString(i)
  }

  /** Different columns get different keys: the names are distinct, they
      start with a letter where the decimal strings start with a digit, and
      the decimal strings are distinct. */
  lemma KeyNameInjective(i: nat, j: nat)
    requires KeyName(i) == KeyName(j)
    ensures i == j
  {
    ColumnsShape();
    ColumnsDistinct();
    if i >= ColumnCount && j >= ColumnCount {
      DecimalInjective(i, j);
    }
  }

  lemma KeyNamesInjective()
    ensures forall i: nat, j: nat :: KeyName(i) == KeyName(j) ==> i == j
  {
    forall i: nat, j: nat | KeyName(i) == KeyName(j) ensures i == j {
      KeyNameInjective(i, j);
    }
  }

  /** A parsed result: property name to field value. */
  type Record = map<string, string>

  /** The object `parseMeCabResult` builds for one row: one entry per
      column, under that column's key, holding that column's value, and no
      other entry. */
  function ColumnRecord(row: seq<string>): (rec: Record)
    ensures forall i :: 0 <= i < |row| ==> KeyName(i) in rec && rec[KeyName(i)] == row[i]
    ensures forall k :: k in rec ==> exists i :: 0 <= i < |row| && KeyName(i) == k
  {
    KeyNamesInjective();
    map i | 0 <= i < |row| :: KeyName(i) := row[i]
  }

  /** A map with one entry per column of `row`, under that column's key,
      and no other entry, is the row's record. */
  lemma RecordOfEntries(rec: Record, row: seq<string>)
    requires forall i :: 0 <= i < |row| ==> KeyName(i) in rec && rec[KeyName(i)] == row[i]
    requires forall k :: k in rec ==> exists i :: 0 <= i < |row| && KeyName(i) == k
    ensures rec == ColumnRecord(row)
  {
    var c := ColumnRecord(row);
    forall k | k in rec ensures k in c && rec[k] == c[k] {
      var i :| 0 <= i < |row| && KeyName(i) == k;
    }
    forall k | k in c ensures k in rec {
      var i :| 0 <= i < |row| && KeyName(i) == k;
    }
  }

  /** Adding a column adds exactly its entry. */
  lemma ColumnRecordSnoc(row: seq<string>, value: string)
    ensures ColumnRecord(row + [value]) == ColumnRecord(row)[KeyName(|row|) := value]
  {
    var ext := row + [value];
    var l := ColumnRecord(row)[KeyName(|row|) := value];
    forall i | 0 <= i < |ext| ensures KeyName(i) in l && l[KeyName(i)] == ext[i] {
      if i < |row| {
        assert ext[i] == row[i];
        if KeyName(i) == KeyName(|row|) {
          KeyNameInjective(i, |row|);
        }
      }
    }
    forall k | k in l ensures exists i :: 0 <= i < |ext| && KeyName(i) == k {
      if k != KeyName(|row|) {
        var i :| 0 <= i < |row| && KeyName(i) == k;
        assert 0 <= i < |ext| && KeyName(i) == k;
      } else {
        assert 0 <= |row| < |ext| && KeyName(|row|) == k;
      }
    }
    RecordOfEntries(l, ext);
  }

  lemma ColumnRecordStep(row: seq<string>, i: nat)
    requires i < |row|
    ensures ColumnRecord(row[..i + 1]) == ColumnRecord(row[..i])[KeyName(i) := row[i]]
  {
    assert row[..i + 1] == row[..i] + [row[i]];
    ColumnRecordSnoc(row[..i], row[i]);
  }

  /** Column `i` has an entry exactly when the row is long enough. */
  lemma ColumnPresent(row: seq<string>, i: nat)
    ensures KeyName(i) in ColumnRecord(row) <==> i < |row|
    ensures i < |row| ==> ColumnRecord(row)[KeyName(i)] == row[i]
  {
    if KeyName(i) in ColumnRecord(row) {
      var j :| 0 <= j < |row| && KeyName(j) == KeyName(i);
      KeyNameInjective(i, j);
    }
  }

  /** Rows shorter than 22 columns have no `kana` entry; longer ones hold
      column 21 there. */
  lemma KanaField(row: seq<string>)
    ensures "kana" in ColumnRecord(row) <==> |row| > 21
    ensures |row| > 21 ==> ColumnRecord(row)["kana"] == row[21]
  {
    ColumnPositions();
    ColumnPresent(row, 21);
  }

  /** The `orth`, `goshu` and `word` entries, likewise. */
  lemma OrthGoshuWordFields(row: seq<string>)
    ensures "orth" in ColumnRecord(row) <==> |row| > 9
    ensures |row| > 9 ==> ColumnRecord(row)["orth"] == row[9]
    ensures "goshu" in ColumnRecord(row) <==> |row| > 13
    ensures |row| > 13 ==> ColumnRecord(row)["goshu"] == row[13]
    ensures "word" in ColumnRecord(row) <==> |row| > 0
    ensures |row| > 0 ==> ColumnRecord(row)["word"] == row[0]
  {
    ColumnPositions();
    ColumnPresent(row, 9);
    ColumnPresent(row, 13);
    ColumnPresent(row, 0);
  }

  /** Columns past the table are keyed by their index. */
  lemma ExtraColumnKey(row: seq<string>)
    requires |row| > 30
    ensures KeyName(30) == "30"
    ensures "30" in ColumnRecord(row) && ColumnRecord(row)["30"] == row[30]
  {
    assert DecimalString(30) == DecimalString(3) + [DigitChar(0)];
  }

  /** Exactly one entry per column. */
  lemma {:induction false} RecordSize(row: seq<string>)
    ensures |ColumnRecord(row)| == |row|
    decreases |row|
  {
    if row == [] {
      assert ColumnRecord(row) == map[];
    } else {
      var init := row[..|row| - 1];
      assert row == init + [row[|row| - 1]];
      RecordSize(init);
      ColumnRecordSnoc(init, row[|row| - 1]);
      ColumnPresent(init, |init|);
    }
  }

  // ---------------------------------------------------------------------
  // The loops.

  /** The `reduce` over one row: one assignment per column, in order. */
  method BuildRecord(row: seq<string>) returns (rec: Record)
    ensures rec == ColumnRecord(row)
  {
    rec := map[];
    var i := 0;
    assert row[..0] == [];
    while i < |row|
      invariant 0 <= i <= |row|
      invariant rec == ColumnRecord(row[..i])
    {
      ColumnRecordStep(row, i);
      rec := rec[KeyName(i) := row[i]];
      i := i + 1;
    }
    assert row[..|row|] == row;
  }

  /** One record per row, in row order: what `parseMeCabResult` yields. */
  function Records(rows: seq<seq<string>>): seq<Record> {
    seq(|rows|, i requires 0 <= i < |rows| => ColumnRecord(rows[i]))
  }

  /** `parseMeCabResult`: one record per row, in row order. */
  method ParseMeCabResult(rows: seq<seq<string>>) returns (records: seq<Record>)
    ensures |records| == |rows|
    ensures forall i :: 0 <= i < |rows| ==> records[i] == ColumnRecord(rows[i])
    ensures records == Records(rows)
  {
    records := [];
    var i := 0;
    while i < |rows|
      invariant 0 <= i <= |rows|
      invariant |records| == i
      invariant forall j :: 0 <= j < i ==> records[j] == ColumnRecord(rows[j])
    {
      var rec := BuildRecord(rows[i]);
      records := records + [rec];
      i := i + 1;
    }
  }
}
