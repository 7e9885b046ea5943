/** `splitToArray`: MeCab's textual output to rows of strings.

    The source turns every CRLF into LF, trims the text with JavaScript's
    `String.prototype.trim`, splits it into lines at LF, drops the last line
    (MeCab's `EOS` terminator, which is not checked), and splits each line
    at its first tab into the surface form and the feature field; the
    feature field is split at commas and every double quote is deleted from
    each part. A line without a tab makes the source throw, because the
    feature field is then `undefined`; the model returns `Failure` with that
    line. */
module MeCabSplit {
  import opened Results

  // ---------------------------------------------------------------------
  // Counting and joining, the vocabulary of the contracts below.

  function Count(s: string, c: char): nat {
    if s == [] then 0 else (if s[0] == c then 1 else 0) + Count(s[1..], c)
  }

  lemma {:induction false} CountAppend(a: string, b: string, c: char)
    ensures Count(a + b, c) == Count(a, c) + Count(b, c)
  {
    if a == [] {
      assert a + b == b;
    } else {
      assert (a + b)[1..] == a[1..] + b;
      CountAppend(a[1..], b, c);
    }
  }

  lemma {:induction false} CountZero(s: string, c: char)
    ensures Count(s, c) == 0 <==> c !in s
  {
    if s != [] {
      CountZero(s[1..], c);
      assert s == [s[0]] + s[1..];
    }
  }

  /** The parts with `sep` between each pair, as `Array.prototype.join`. */
  function Join(parts: seq<string>, sep: string): string {
    if parts == [] then ""
    else if |parts| == 1 then parts[0]
    else parts[0] + sep + Join(parts[1..], sep)
  }

  lemma JoinSnoc(parts: seq<string>, last: string, sep: string)
    requires parts != []
    ensures Join(parts + [last], sep) == Join(parts, sep) + sep + last
    decreases |parts|
  {
    if |parts| > 1 {
      assert (parts + [last])[1..] == parts[1..] + [last];
      JoinSnoc(parts[1..], last, sep);
    }
  }

  // ---------------------------------------------------------------------
  // `replace(/\r\n/g, '\n')`.

  /** Scanning from the left, each CR LF pair becomes one LF; a CR that is
      not followed by LF is kept. */
  function CrlfToLf(s: string): (r: string)
    decreases |s|
  {
    if |s| >= 2 && s[0] == '\r' && s[1] == '\n' then "\n" + CrlfToLf(s[2..])
    else if s == [] then []
    else [s[0]] + CrlfToLf(s[1..])
  }

  /** The conversion keeps the number of line feeds, so the line count. */
  lemma {:induction false} CrlfToLfKeepsLineFeeds(s: string)
    ensures Count(CrlfToLf(s), '\n') == Count(s, '\n')
    decreases |s|
  {
    if |s| >= 2 && s[0] == '\r' && s[1] == '\n' {
      CrlfToLfKeepsLineFeeds(s[2..]);
      CountAppend("\n", CrlfToLf(s[2..]), '\n');
      assert s[1..][1..] == s[2..];
    } else if s != [] {
      CrlfToLfKeepsLineFeeds(s[1..]);
      CountAppend([s[0]], CrlfToLf(s[1..]), '\n');
    }
  }

  /** Text without CR is left unchanged. */
  lemma {:induction false} CrlfToLfIdentity(s: string)
    requires '\r' !in s
    ensures CrlfToLf(s) == s
    decreases |s|
  {
    if s != [] {
      CrlfToLfIdentity(s[1..]);
      assert s == [s[0]] + s[1..];
    }
  }

  /** Text of only whitespace stays whitespace. */
  lemma {:induction false} CrlfToLfWhitespace(s: string)
    requires forall i :: 0 <= i < |s| ==> IsJsWhitespace(s[i])
    ensures forall i :: 0 <= i < |CrlfToLf(s)| ==> IsJsWhitespace(CrlfToLf(s)[i])
    decreases |s|
  {
    if |s| >= 2 && s[0] == '\r' && s[1] == '\n' {
      CrlfToLfWhitespace(s[2..]);
    } else if s != [] {
      CrlfToLfWhitespace(s[1..]);
    }
  }

  lemma {:induction false} CrlfToLfPlainPrefix(p: string, t: string)
    requires '\r' !in p
    ensures CrlfToLf(p + t) == p + CrlfToLf(t)
    decreases |p|
  {
    if p != [] {
      assert (p + t)[1..] == p[1..] + t;
      CrlfToLfPlainPrefix(p[1..], t);
    } else {
      assert p + t == t;
    }
  }

  /** Lines joined with CR LF read back as the same lines joined with LF,
      provided no line holds a CR of its own. */
  lemma CrlfToLfPair(t: string)
    ensures CrlfToLf("\r\n" + t) == "\n" + CrlfToLf(t)
  {
    assert ("\r\n" + t)[2..] == t;
  }

  lemma {:induction false} CrlfToLfJoin(lines: seq<string>)
    requires forall i :: 0 <= i < |lines| ==> '\r' !in lines[i]
    ensures CrlfToLf(Join(lines, "\r\n")) == Join(lines, "\n")
    decreases |lines|
  {
    if |lines| == 1 {
      CrlfToLfIdentity(lines[0]);
    } else if |lines| > 1 {
      var tail := Join(lines[1..], "\r\n");
      assert Join(lines, "\r\n") == lines[0] + ("\r\n" + tail);
      CrlfToLfPlainPrefix(lines[0], "\r\n" + tail);
      CrlfToLfPair(tail);
      CrlfToLfJoin(lines[1..]);
      assert Join(lines, "\n") == lines[0] + ("\n" + Join(lines[1..], "\n"));
    }
  }

  /** A CR that is not directly followed by LF survives, even in front of
      a CR LF pair. */
  lemma LoneCrKept()
    ensures CrlfToLf("\r\r\n") == "\r\n"
  {
  }

  // ---------------------------------------------------------------------
  // `trim()`.

  /** ECMAScript's WhiteSpace and LineTerminator code points, the set that
      `String.prototype.trim` removes. */
  predicate IsJsWhitespace(c: char) {
    c == '\t' || c == '\U{000B}' || c == '\U{000C}' || c == ' ' || c == '\U{00A0}' ||
    c == '\U{1680}' || '\U{2000}' <= c <= '\U{200A}' || c == '\U{202F}' || c == '\U{205F}' ||
    c == '\U{3000}' || c == '\U{FEFF}' ||
    c == '\n' || c == '\r' || c == '\U{2028}' || c == '\U{2029}'
  }

  predicate AllWhitespace(s: string) {
    forall i :: 0 <= i < |s| ==> IsJsWhitespace(s[i])
  }

  /** The number of whitespace characters `s` starts with. */
  function LeadingWhitespace(s: string): (k: nat)
    ensures k <= |s|
    ensures forall i :: 0 <= i < k ==> IsJsWhitespace(s[i])
    ensures k == |s| || !IsJsWhitespace(s[k])
  {
    if s != [] && IsJsWhitespace(s[0]) then 1 + LeadingWhitespace(s[1..]) else 0
  }

  /** The length of `s` without its trailing whitespace. */
  function ContentEnd(s: string): (k: nat)
    ensures k <= |s|
    ensures forall i :: k <= i < |s| ==> IsJsWhitespace(s[i])
    ensures k == 0 || !IsJsWhitespace(s[k - 1])
  {
    if s != [] && IsJsWhitespace(s[|s| - 1]) then ContentEnd(s[..|s| - 1]) else |s|
  }

  /** `trim()`: the slice between the leading and the trailing whitespace. */
  function Trim(s: string): string {
    var t := s[LeadingWhitespace(s)..];
    t[..ContentEnd(t)]
  }

  lemma TrimSlice(s: string)
    ensures LeadingWhitespace(s) + |Trim(s)| <= |s|
    ensures Trim(s) == s[LeadingWhitespace(s)..LeadingWhitespace(s) + |Trim(s)|]
  {
    var k := LeadingWhitespace(s);
    assert Trim(s) == s[k..][..ContentEnd(s[k..])];
  }

  lemma TrimSuffix(s: string)
    ensures forall i :: LeadingWhitespace(s) + |Trim(s)| <= i < |s| ==> IsJsWhitespace(s[i])
  {
    var k := LeadingWhitespace(s);
    var t := s[k..];
    assert |Trim(s)| == ContentEnd(t);
    forall i | k + ContentEnd(t) <= i < |s| ensures IsJsWhitespace(s[i]) {
      assert s[i] == t[i - k];
    }
  }

  lemma TrimEnds(s: string)
    ensures Trim(s) != [] ==> !IsJsWhitespace(Trim(s)[0]) && !IsJsWhitespace(Trim(s)[|Trim(s)| - 1])
  {
    var t := s[LeadingWhitespace(s)..];
    assert Trim(s) == t[..ContentEnd(t)];
  }

  /** The trimmed text is the slice of `s` between a whitespace prefix and a
      whitespace suffix, and it neither starts nor ends with whitespace. */
  lemma TrimIsSlice(s: string)
    ensures var k := LeadingWhitespace(s);
      var e := k + |Trim(s)|;
      e <= |s| && Trim(s) == s[k..e] &&
      (forall i :: 0 <= i < k ==> IsJsWhitespace(s[i])) &&
      (forall i :: e <= i < |s| ==> IsJsWhitespace(s[i])) &&
      (k < e ==> !IsJsWhitespace(s[k]) && !IsJsWhitespace(s[e - 1]))
  {
    TrimSlice(s);
    TrimSuffix(s);
    TrimEnds(s);
  }

  /** Whitespace-only text trims to nothing. */
  lemma TrimWhitespace(s: string)
    requires AllWhitespace(s)
    ensures Trim(s) == ""
  {
  }

  /** Text that starts and ends with a non-whitespace character, followed
      by whitespace, trims to that text. */
  lemma TrimTrailing(t: string, tail: string)
    requires t != [] && !IsJsWhitespace(t[0]) && !IsJsWhitespace(t[|t| - 1])
    requires AllWhitespace(tail)
    ensures Trim(t + tail) == t
  {
    var s := t + tail;
    assert LeadingWhitespace(s) == 0;
    assert s[0..] == s;
    assert !IsJsWhitespace(s[|t| - 1]);
    assert forall i :: |t| <= i < |s| ==> s[i] == tail[i - |t|];
    assert ContentEnd(s) == |t|;
    assert s[..|t|] == t;
  }

  // ---------------------------------------------------------------------
  // `split(sep)` with a one-character separator.

  /** The pieces between the separators: one more piece than separators,
      none holding the separator, and they join back to `s`. */
  function Split(s: string, sep: char): (r: seq<string>)
    ensures |r| == Count(s, sep) + 1
    ensures forall i :: 0 <= i < |r| ==> sep !in r[i]
    ensures Join(r, [sep]) == s
  {
    if s == [] then [""]
    else if s[0] == sep then
      var rest := Split(s[1..], sep);
      assert Join([""] + rest, [sep]) == [sep] + Join(rest, [sep]) by {
        assert ([""] + rest)[1..] == rest;
      }
      [""] + rest
    else
      var rest := Split(s[1..], sep);
      var r := [[s[0]] + rest[0]] + rest[1..];
      assert Join(r, [sep]) == [s[0]] + Join(rest, [sep]) by {
        assert r[1..] == rest[1..];
      }
      r
  }

  /** Splitting undoes joining, for pieces free of the separator. */
  lemma {:induction false} SplitJoin(parts: seq<string>, sep: char)
    requires parts != []
    requires forall i :: 0 <= i < |parts| ==> sep !in parts[i]
    ensures Split(Join(parts, [sep]), sep) == parts
    decreases |parts|
  {
    if |parts| == 1 {
      SplitPlain(parts[0], sep);
    } else {
      SplitJoin(parts[1..], sep);
      SplitAfterPlain(parts[0], Join(parts[1..], [sep]), sep);
      assert Join(parts, [sep]) == parts[0] + ([sep] + Join(parts[1..], [sep]));
      assert parts == [parts[0]] + parts[1..];
    }
  }

  lemma {:induction false} SplitPlain(w: string, sep: char)
    requires sep !in w
    ensures Split(w, sep) == [w]
    decreases |w|
  {
    if w != [] {
      SplitPlain(w[1..], sep);
      assert w == [w[0]] + w[1..];
    }
  }

  /** A separator-free head, then a separator: the head is the first piece
      and the rest splits on its own. */
  lemma {:induction false} SplitAfterPlain(w: string, t: string, sep: char)
    requires sep !in w
    ensures Split(w + ([sep] + t), sep) == [w] + Split(t, sep)
    decreases |w|
  {
    if w == [] {
      assert w + ([sep] + t) == [sep] + t;
      assert ([sep] + t)[1..] == t;
    } else {
      assert (w + ([sep] + t))[1..] == w[1..] + ([sep] + t);
      SplitAfterPlain(w[1..], t, sep);
      assert w == [w[0]] + w[1..];
    }
  }

  /** The first piece is the text before the first separator. */
  lemma {:induction false} SplitHead(w: string, t: string, sep: char)
    requires sep !in w
    requires t == [] || t[0] == sep
    ensures Split(w + t, sep)[0] == w
    decreases |w|
  {
    if w == [] {
      assert w + t == t;
    } else {
      assert (w + t)[1..] == w[1..] + t;
      SplitHead(w[1..], t, sep);
      assert w == [w[0]] + w[1..];
    }
  }

  // ---------------------------------------------------------------------
  // `value.replace(/"/g, '')`.

  /** Deletes every double quote and keeps every other character, in
      order. */
  function RemoveQuotes(s: string): (r: string)
    ensures '"' !in r
    ensures |r| == |s| - Count(s, '"')
    ensures '"' !in s ==> r == s
  {
    if s == [] then []
    else if s[0] == '"' then RemoveQuotes(s[1..])
    else [s[0]] + RemoveQuotes(s[1..])
  }

  lemma {:induction false} RemoveQuotesAppend(a: string, b: string)
    ensures RemoveQuotes(a + b) == RemoveQuotes(a) + RemoveQuotes(b)
  {
    if a == [] {
      assert a + b == b;
    } else {
      assert (a + b)[1..] == a[1..] + b;
      RemoveQuotesAppend(a[1..], b);
    }
  }

  // ---------------------------------------------------------------------
  // One line and all lines.

  /** One line: the text before the first tab, then the feature field
      (between the first and the second tab) split at commas with the
      quotes removed. Without a tab the feature field is missing. */
  function SplitLine(line: string): (r: Result<seq<string>, string>)
    ensures r.Success? <==> '\t' in line
    ensures r.Failure? ==> r.error == line
    ensures r.Success? ==>
      |r.value| == 2 + Count(Split(line, '\t')[1], ',') &&
      r.value[0] == Split(line, '\t')[0] &&
      forall i :: 1 <= i < |r.value| ==> '"' !in r.value[i]
  {
    CountZero(line, '\t');
    var parts := Split(line, '\t');
    if |parts| < 2 then Failure(line)
    else
      var values := Split(parts[1], ',');
      Success([parts[0]] + seq(|values|, i requires 0 <= i < |values| => RemoveQuotes(values[i])))
  }

  /** A line `word TAB field [TAB ...]` gives `[word] ++ field's values`;
      whatever follows a second tab is ignored. */
  lemma SplitLineOf(word: string, field: string, tail: string)
    requires '\t' !in word && '\t' !in field
    requires tail == [] || tail[0] == '\t'
    ensures var values := Split(field, ',');
      SplitLine(word + ("\t" + (field + tail))) ==
        Success([word] + seq(|values|, i requires 0 <= i < |values| => RemoveQuotes(values[i])))
    ensures SplitLine(word + ("\t" + (field + tail))).Success?
    ensures |SplitLine(word + ("\t" + (field + tail))).value| == 2 + Count(field, ',')
  {
    var line := word + ("\t" + (field + tail));
    SplitAfterPlain(word, field + tail, '\t');
    SplitHead(field, tail, '\t');
    assert Split(line, '\t')[1] == field;
  }

  /** Every line through `SplitLine`, stopping at the first line without a
      tab as the source's exception does. */
  function SplitRows(lines: seq<string>): (r: Result<seq<seq<string>>, string>)
    ensures r.Success? <==> forall i :: 0 <= i < |lines| ==> '\t' in lines[i]
    ensures r.Success? ==>
      |r.value| == |lines| && forall i :: 0 <= i < |lines| ==> r.value[i] == SplitLine(lines[i]).value
  {
    if lines == [] then Success([])
    else
      match SplitLine(lines[0])
      case Failure(e) => Failure(e)
      case Success(row) =>
        match SplitRows(lines[1..])
        case Failure(e) =>
          Failure(e)
        case Success(rows) =>
          assert forall i :: 1 <= i < |lines| ==> lines[i] == lines[1..][i - 1];
          Success([row] + rows)
  }

  /** The error names the first line without a tab. */
  lemma {:induction false} SplitRowsFailsAt(lines: seq<string>, k: nat)
    requires k < |lines| && '\t' !in lines[k]
    requires forall j :: 0 <= j < k ==> '\t' in lines[j]
    ensures SplitRows(lines) == Failure(lines[k])
    decreases k
  {
    if k > 0 {
      SplitRowsFailsAt(lines[1..], k - 1);
    }
  }

  /** The lines of the normalised, trimmed text. */
  function Lines(raw: string): (r: seq<string>)
    ensures |r| == Count(Trim(CrlfToLf(raw)), '\n') + 1
  {
    Split(Trim(CrlfToLf(raw)), '\n')
  }

  /** `splitToArray`: every line except the last, split. */
  function SplitToArray(raw: string): (r: Result<seq<seq<string>>, string>)
    ensures r.Success? ==> |r.value| == Count(Trim(CrlfToLf(raw)), '\n')
  {
    var lines := Lines(raw);
    SplitRows(lines[..|lines| - 1])
  }

  /** Empty or whitespace-only output gives no rows. */
  lemma EmptyOutput(raw: string)
    requires AllWhitespace(raw)
    ensures SplitToArray(raw) == Success([])
  {
    CrlfToLfWhitespace(raw);
    TrimWhitespace(CrlfToLf(raw));
  }

  /** MeCab's output shape: lines each holding a tab, then a last line,
      none of them holding a line break, with no whitespace at either end
      of the whole text. */
  predicate IsMeCabOutput(lines: seq<string>, last: string) {
    (forall i :: 0 <= i < |lines| ==> '\t' in lines[i] && '\n' !in lines[i] && '\r' !in lines[i]) &&
    last != [] && '\n' !in last && '\r' !in last &&
    !IsJsWhitespace(last[|last| - 1]) &&
    (lines + [last])[0] != [] && !IsJsWhitespace((lines + [last])[0][0])
  }

  /** The parts of such output, the last line included, hold no line
      break and start and end with non-whitespace. */
  lemma OutputParts(lines: seq<string>, last: string)
    requires IsMeCabOutput(lines, last)
    ensures var all := lines + [last];
      all[0] != [] && all[|all| - 1] != [] &&
      !IsJsWhitespace(all[0][0]) && !IsJsWhitespace(all[|all| - 1][|all[|all| - 1]| - 1]) &&
      forall i :: 0 <= i < |all| ==> '\r' !in all[i] && '\n' !in all[i]
  {
    var all := lines + [last];
    forall i | 0 <= i < |all| ensures '\r' !in all[i] && '\n' !in all[i] {
      if i < |lines| {
        assert all[i] == lines[i];
      }
    }
  }

  /** Well-formed output ending in a line feed: the rows are the lines
      before the last, split, in order, and the last line is dropped
      whatever it says. */
  lemma ParsesOutput(lines: seq<string>, last: string)
    requires IsMeCabOutput(lines, last)
    ensures SplitToArray(Join(lines + [last], "\n") + "\n") == SplitRows(lines)
    ensures SplitRows(lines).Success?
  {
    var raw := Join(lines + [last], "\n") + "\n";
    assert Lines(raw) == lines + [last] by {
      OutputParts(lines, last);
      OutputLines(lines + [last]);
    }
    DropsLastLine(raw, lines, last);
  }

  /** The same output with Windows line ends parses the same. */
  lemma ParsesCrlfOutput(lines: seq<string>, last: string)
    requires IsMeCabOutput(lines, last)
    ensures SplitToArray(Join(lines + [last], "\r\n") + "\r\n") == SplitRows(lines)
    ensures SplitRows(lines).Success?
  {
    var raw := Join(lines + [last], "\r\n") + "\r\n";
    assert Lines(raw) == lines + [last] by {
      OutputParts(lines, last);
      CrlfOutputLines(lines + [last]);
    }
    DropsLastLine(raw, lines, last);
  }

  /** Whatever the last line says, it is dropped without being looked at:
      the rows come from the lines before it. */
  lemma DropsLastLine(raw: string, lines: seq<string>, last: string)
    requires Lines(raw) == lines + [last]
    ensures SplitToArray(raw) == SplitRows(lines)
  {
    var all := lines + [last];
    assert all[..|all| - 1] == lines;
  }

  /** Trimming such output removes exactly the final line feed. */
  lemma TrimmedOutput(all: seq<string>)
    requires all != [] && all[0] != [] && all[|all| - 1] != []
    requires !IsJsWhitespace(all[0][0]) && !IsJsWhitespace(all[|all| - 1][|all[|all| - 1]| - 1])
    ensures Trim(Join(all, "\n") + "\n") == Join(all, "\n")
  {
    JoinFirst(all, "\n");
    JoinLast(all, "\n");
    TrimTrailing(Join(all, "\n"), "\n");
  }

  lemma OutputLines(all: seq<string>)
    requires all != [] && all[0] != [] && all[|all| - 1] != []
    requires !IsJsWhitespace(all[0][0]) && !IsJsWhitespace(all[|all| - 1][|all[|all| - 1]| - 1])
    requires forall i :: 0 <= i < |all| ==> '\r' !in all[i] && '\n' !in all[i]
    ensures Lines(Join(all, "\n") + "\n") == all
  {
    var lf := Join(all, "\n") + "\n";
    JoinAvoids(all, "\n", '\r');
    assert '\r' !in lf;
    CrlfToLfIdentity(lf);
    TrimmedOutput(all);
    SplitJoin(all, '\n');
  }

  lemma CrlfOutputLines(all: seq<string>)
    requires all != [] && all[0] != [] && all[|all| - 1] != []
    requires !IsJsWhitespace(all[0][0]) && !IsJsWhitespace(all[|all| - 1][|all[|all| - 1]| - 1])
    requires forall i :: 0 <= i < |all| ==> '\r' !in all[i] && '\n' !in all[i]
    ensures Lines(Join(all, "\r\n") + "\r\n") == all
  {
    CrlfOutputNormalised(all);
    TrimmedOutput(all);
    SplitJoin(all, '\n');
  }

  /** CR LF line ends normalise to the LF ones. */
  lemma CrlfOutputNormalised(all: seq<string>)
    requires all != []
    requires forall i :: 0 <= i < |all| ==> '\r' !in all[i]
    ensures CrlfToLf(Join(all, "\r\n") + "\r\n") == Join(all, "\n") + "\n"
  {
    var ext := all + [""];
    forall i | 0 <= i < |ext| ensures '\r' !in ext[i] {
      if i < |all| {
        assert ext[i] == all[i];
      }
    }
    JoinSnoc(all, "", "\r\n");
    JoinSnoc(all, "", "\n");
    assert Join(ext, "\r\n") == Join(all, "\r\n") + "\r\n";
    assert Join(ext, "\n") == Join(all, "\n") + "\n";
    CrlfToLfJoin(ext);
  }

  /** A character outside every part and the separator is not in the
      joined text. */
  lemma {:induction false} JoinAvoids(parts: seq<string>, sep: string, c: char)
    requires forall i :: 0 <= i < |parts| ==> c !in parts[i]
    requires c !in sep
    ensures c !in Join(parts, sep)
    decreases |parts|
  {
    if |parts| > 1 {
      JoinAvoids(parts[1..], sep, c);
    }
  }

  /** The joined text starts with the first part's first character. */
  lemma JoinFirst(parts: seq<string>, sep: string)
    requires parts != [] && parts[0] != []
    ensures Join(parts, sep) != [] && Join(parts, sep)[0] == parts[0][0]
  {
  }

  /** The joined text ends with the last part's last character. */
  lemma {:induction false} JoinLast(parts: seq<string>, sep: string)
    requires parts != [] && parts[|parts| - 1] != []
    ensures var t := Join(parts, sep);
      t != [] && t[|t| - 1] == parts[|parts| - 1][|parts[|parts| - 1]| - 1]
    decreases |parts|
  {
    if |parts| > 1 {
      JoinLast(parts[1..], sep);
    }
  }

  // ---------------------------------------------------------------------
  // `trim` runs over the whole output.

  lemma {:induction false} LeadingWhitespaceSkip(ws: string, t: string)
    requires AllWhitespace(ws)
    ensures LeadingWhitespace(ws + t) == |ws| + LeadingWhitespace(t)
    decreases |ws|
  {
    if ws == [] {
      assert ws + t == t;
    } else {
      assert (ws + t)[0] == ws[0];
      assert (ws + t)[1..] == ws[1..] + t;
      LeadingWhitespaceSkip(ws[1..], t);
    }
  }

  /** Leading whitespace in front of content is stripped, whatever it is. */
  lemma TrimStripsLeading(ws: string, t: string)
    requires AllWhitespace(ws)
    requires t != [] && !IsJsWhitespace(t[0])
    ensures Trim(ws + t) == Trim(t)
  {
    LeadingWhitespaceSkip(ws, t);
    assert (ws + t)[|ws|..] == t;
    assert t[LeadingWhitespace(t)..] == t;
  }

  /** The lines of output with a leading ideographic space and tab are the
      lines without them. */
  lemma LinesAfterLeadingSpace(all: seq<string>)
    requires all != [] && all[0] != [] && all[|all| - 1] != []
    requires !IsJsWhitespace(all[0][0]) && !IsJsWhitespace(all[|all| - 1][|all[|all| - 1]| - 1])
    requires forall i :: 0 <= i < |all| ==> '\r' !in all[i] && '\n' !in all[i]
    ensures Lines("\U{3000}\t" + (Join(all, "\n") + "\n")) == all
  {
    var x := Join(all, "\n") + "\n";
    OutputLines(all);
    JoinAvoids(all, "\n", '\r');
    JoinFirst(all, "\n");
    assert x[0] == all[0][0];
    LeadingSpaceTrimmed(x);
  }

  lemma LeadingSpaceTrimmed(x: string)
    requires x != [] && !IsJsWhitespace(x[0]) && '\r' !in x
    ensures Trim(CrlfToLf("\U{3000}\t" + x)) == Trim(CrlfToLf(x))
  {
    CrlfToLfIdentity(x);
    CrlfToLfPlainPrefix("\U{3000}\t", x);
    TrimStripsLeading("\U{3000}\t", x);
  }

  /** A first token whose surface form is an ideographic space (U+3000) is
      a line `　 TAB feature`. `trim` strips the space and the tab along with
      it, so the first line is left without a tab and the whole output
      fails, however well formed the rest is. */
  lemma LeadingSpaceTokenLost(feature: string, lines: seq<string>, last: string)
    requires feature != [] && !IsJsWhitespace(feature[0])
    requires '\t' !in feature && '\n' !in feature && '\r' !in feature
    requires IsMeCabOutput(lines, last)
    ensures SplitToArray("\U{3000}\t" + (Join([feature] + (lines + [last]), "\n") + "\n")) == Failure(feature)
  {
    var rest := lines + [last];
    var all := [feature] + rest;
    OutputParts(lines, last);
    forall i | 0 <= i < |all| ensures '\r' !in all[i] && '\n' !in all[i] {
      if i > 0 {
        assert all[i] == rest[i - 1];
      }
    }
    assert all[|all| - 1] == rest[|rest| - 1];
    LinesAfterLeadingSpace(all);
    SplitRowsFailsAt(all[..|all| - 1], 0);
  }
}
