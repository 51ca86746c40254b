/** The CSV export: a header row, then one row per stored decision. */
module CsvExport {
  import opened Strings
  import opened Review

  /** The header row. */
  const Header: seq<string> := ["shamrock_id", "usfoods_id"]

  // ---------------------------------------------------------------------------
  // Key order

  predicate IsLeast(k: int, s: set<int>) {
    k in s && forall j :: j in s ==> k <= j
  }

  lemma NonEmptyHasElement(s: set<int>)
    requires s != {}
    ensures exists x :: x in s
  {
    if forall x :: x !in s {
      assert false;
    }
  }

  lemma {:induction false} HasLeast(s: set<int>)
    requires s != {}
    ensures exists k :: IsLeast(k, s)
    decreases |s|
  {
    NonEmptyHasElement(s);
    var x :| x in s;
    var rest := s - {x};
    if rest == {} {
      forall j | j in s ensures x <= j {
        assert j !in rest;
      }
      assert IsLeast(x, s);
    } else {
      HasLeast(rest);
      var y :| IsLeast(y, rest);
      var k := if x < y then x else y;
      forall j | j in s ensures k <= j {
        if j != x {
          assert j in rest;
        }
      }
      assert IsLeast(k, s);
    }
  }

  /** The least element of a non-empty set of ids. */
  function MinOf(s: set<int>): (k: int)
    requires s != {}
    ensures IsLeast(k, s)
  {
    HasLeast(s);
    var k :| IsLeast(k, s);
    k
  }

  lemma PrependLeast(k: int, rest: seq<int>, s: set<int>)
    requires IsLeast(k, s)
    requires |rest| == |s - {k}|
    requires forall x :: x in rest <==> x in s - {k}
    requires forall i, j :: 0 <= i < j < |rest| ==> rest[i] < rest[j]
    ensures |[k] + rest| == |s|
    ensures forall x :: x in [k] + rest <==> x in s
    ensures forall i, j :: 0 <= i < j < |[k] + rest| ==> ([k] + rest)[i] < ([k] + rest)[j]
  {
    var r := [k] + rest;
    assert |s - {k}| == |s| - 1;
    forall i, j | 0 <= i < j < |r| ensures r[i] < r[j] {
      assert r[j] == rest[j - 1];
      if i == 0 {
        assert rest[j - 1] in s - {k};
      } else {
        assert r[i] == rest[i - 1];
      }
    }
    forall x ensures x in r <==> x in s {
      assert x in r <==> x == k || x in rest;
    }
  }

  /** `Object.keys(matches)` for integer keys: every key once, ascending. */
  function SortedKeys(s: set<int>): (r: seq<int>)
    ensures |r| == |s|
    ensures forall k :: k in r <==> k in s
    ensures forall i, j :: 0 <= i < j < |r| ==> r[i] < r[j]
    decreases |s|
  {
    if s == {} then []
    else
      var k := MinOf(s);
      var rest := SortedKeys(s - {k});
      PrependLeast(k, rest, s);
      [k] + rest
  }

  // ---------------------------------------------------------------------------
  // Rows

  /** The second column: `null` joins as the empty string, a candidate id as
      its decimal text, so the column tells the two decisions apart. */
  function Cell(d: Decision): (c: string)
    ensures c == "" <==> d == NoMatch
  {
    match d
    case NoMatch => ""
    case MatchedTo(cand) => Decimal(cand)
  }

  /** `row` has two cells, the first parsing to `k` and the second decoding
      to `d`. */
  predicate ReadsBack(row: seq<string>, k: int, d: Decision) {
    |row| == 2 && ParseDecimal(row[0]) == k && DecodeCell(row[1]) == d
  }

  /** One row `[id, matches[id]]` per key in `keys`, in that order. */
  function DataRows(keys: seq<int>, m: map<int, Decision>): (rows: seq<seq<string>>)
    requires forall k :: k in keys ==> k in m
    ensures |rows| == |keys|
    ensures forall i :: 0 <= i < |keys| ==> rows[i] == [Decimal(keys[i]), Cell(m[keys[i]])]
    ensures forall i :: 0 <= i < |rows| ==> ReadsBack(rows[i], keys[i], m[keys[i]])
  {
    TextsDecode();
    seq(|keys|, i requires 0 <= i < |keys| => [Decimal(keys[i]), Cell(m[keys[i]])])
  }

  /** The rows of the export: the header, then one row per key of the map in
      ascending id order. */
  function CsvRows(m: map<int, Decision>): (rows: seq<seq<string>>)
    ensures |rows| == |m| + 1 && rows[0] == Header
  {
    [Header] + DataRows(SortedKeys(m.Keys), m)
  }

  /** Data row `i` is the row of the `i`-th smallest key. */
  lemma RowAt(m: map<int, Decision>, i: int)
    requires 1 <= i <= |m|
    ensures var keys := SortedKeys(m.Keys);
            keys[i - 1] in m && CsvRows(m)[i] == [Decimal(keys[i - 1]), Cell(m[keys[i - 1]])]
  {
    KeyAt(m, i);
    RowOfKey(m, SortedKeys(m.Keys), i);
  }

  lemma KeyAt(m: map<int, Decision>, i: int)
    requires 1 <= i <= |m|
    ensures var keys := SortedKeys(m.Keys); |keys| == |m| && keys[i - 1] in m
  {
  }

  lemma RowOfKey(m: map<int, Decision>, keys: seq<int>, i: int)
    requires keys == SortedKeys(m.Keys)
    requires 1 <= i <= |m| && |keys| == |m| && keys[i - 1] in m
    ensures CsvRows(m)[i] == [Decimal(keys[i - 1]), Cell(m[keys[i - 1]])]
  {
    var data := DataRows(keys, m);
    assert CsvRows(m) == [Header] + data;
  }

  /** Every decided id gets a row holding its decision. */
  lemma DecidedIdHasRow(m: map<int, Decision>, k: int)
    requires k in m
    ensures exists i :: 1 <= i < |CsvRows(m)| && CsvRows(m)[i] == [Decimal(k), Cell(m[k])]
  {
    var keys := SortedKeys(m.Keys);
    var p :| 0 <= p < |keys| && keys[p] == k;
    RowAt(m, p + 1);
  }

  /** Every data row is the row of a decided id. */
  lemma RowsComeFromDecisions(m: map<int, Decision>, i: int)
    requires 1 <= i <= |m|
    ensures exists j :: j in m && CsvRows(m)[i] == [Decimal(j), Cell(m[j])]
  {
    RowAt(m, i);
  }

  /** The rows run in strictly ascending id order, so no id has two rows. */
  lemma RowsAscending(m: map<int, Decision>, i: int, j: int)
    requires 1 <= i < j <= |m|
    ensures ParseDecimal(CsvRows(m)[i][0]) < ParseDecimal(CsvRows(m)[j][0])
  {
    var keys := SortedKeys(m.Keys);
    RowAt(m, i);
    RowAt(m, j);
    DecimalRoundTrip(keys[i - 1]);
    DecimalRoundTrip(keys[j - 1]);
  }

  /** A pending id (no entry in the map) gets no row. */
  lemma PendingIdHasNoRow(m: map<int, Decision>, k: int)
    requires k !in m
    ensures forall i :: 1 <= i < |CsvRows(m)| ==> CsvRows(m)[i][0] != Decimal(k)
  {
    var keys := SortedKeys(m.Keys);
    forall i | 1 <= i < |CsvRows(m)| ensures CsvRows(m)[i][0] != Decimal(k) {
      RowAt(m, i);
      if CsvRows(m)[i][0] == Decimal(k) {
        DecimalInjective(keys[i - 1], k);
      }
    }
  }

  // ---------------------------------------------------------------------------
  // Reading the rows back

  /** The decision a second column stands for. */
  function DecodeCell(c: string): Decision {
    if c == "" then NoMatch else MatchedTo(ParseDecimal(c))
  }

  /** The map a list of data rows stands for (later rows win; rows of any
      other width are skipped). */
  function DecodeRows(rows: seq<seq<string>>): map<int, Decision> {
    if rows == [] then map[]
    else
      var last := rows[|rows| - 1];
      var m := DecodeRows(rows[..|rows| - 1]);
      if |last| == 2 then m[ParseDecimal(last[0]) := DecodeCell(last[1])] else m
  }

  /** Both columns read back to what was written. */
  lemma TextsDecode()
    ensures forall k :: ParseDecimal(Decimal(k)) == k
    ensures forall d :: DecodeCell(Cell(d)) == d
  {
    forall k ensures ParseDecimal(Decimal(k)) == k {
      DecimalRoundTrip(k);
    }
    forall d ensures DecodeCell(Cell(d)) == d {
      CellRoundTrip(d);
    }
  }

  lemma CellRoundTrip(d: Decision)
    ensures DecodeCell(Cell(d)) == d
  {
    if d.MatchedTo? {
      DecimalRoundTrip(d.cand);
    }
  }

  lemma {:induction false} DecodeDataRows(keys: seq<int>, m: map<int, Decision>)
    requires forall k :: k in keys ==> k in m
    ensures forall k :: k in DecodeRows(DataRows(keys, m)) <==> k in keys
    ensures forall k :: k in DecodeRows(DataRows(keys, m)) ==> DecodeRows(DataRows(keys, m))[k] == m[k]
    decreases |keys|
  {
    if keys != [] {
      var n := |keys| - 1;
      var init := keys[..n];
      var rows := DataRows(keys, m);
      DecodeDataRows(init, m);
      assert rows[..n] == DataRows(init, m);
      assert rows[n] == [Decimal(keys[n]), Cell(m[keys[n]])];
      DecimalRoundTrip(keys[n]);
      CellRoundTrip(m[keys[n]]);
      var before := DecodeRows(DataRows(init, m));
      assert DecodeRows(rows) == before[keys[n] := m[keys[n]]];
      assert forall k :: k in keys <==> k in init || k == keys[n];
    }
  }

  lemma DecodeAllKeys(keys: seq<int>, m: map<int, Decision>)
    requires forall k :: k in keys <==> k in m
    ensures DecodeRows(DataRows(keys, m)) == m
  {
    DecodeDataRows(keys, m);
    var back := DecodeRows(DataRows(keys, m));
    forall k ensures k in back <==> k in m {
    }
    assert back.Keys == m.Keys;
    forall k | k in back ensures back[k] == m[k] {
    }
    assert back == m;
  }

  /** The data rows determine the map they were made from. */
  lemma CsvRowsRoundTrip(m: map<int, Decision>)
    ensures DecodeRows(CsvRows(m)[1..]) == m
  {
    var keys := SortedKeys(m.Keys);
    assert CsvRows(m)[1..] == DataRows(keys, m);
    DecodeAllKeys(keys, m);
  }

  // ---------------------------------------------------------------------------
  // The text

  /** `rows.map(r => r.join(","))`: the header line first, and each line
      splits at its commas back into its row. */
  function CsvLinesOf(m: map<int, Decision>): (lines: seq<string>)
    ensures |lines| == |m| + 1
    ensures lines[0] == "shamrock_id,usfoods_id"
    ensures forall i :: 0 <= i < |lines| ==> SplitOn(lines[i], ',') == CsvRows(m)[i]
  {
    var rows := CsvRows(m);
    RowsSplitBack(m);
    HeaderLine();
    seq(|rows|, i requires 0 <= i < |rows| => JoinWith(rows[i], ","))
  }

  /** The exported text: the lines joined with newlines. Splitting it at its
      newlines gives the lines back, and reading it gives the map back. */
  function ExportCsv(m: map<int, Decision>): (text: string)
    ensures CountChar(text, '\n') == |m|
    ensures "shamrock_id,usfoods_id" <= text
    ensures SplitOn(text, '\n') == CsvLinesOf(m)
    ensures DecodeCsv(text) == m
  {
    CsvTextShape(m);
    TextRoundTrip(m);
    JoinWith(CsvLinesOf(m), "\n")
  }

  /** A reader for the exported text: split it into lines, drop the header
      line, split each line at its commas and decode the rows. */
  function DecodeCsv(text: string): map<int, Decision> {
    DecodeRows(SplitCells(SplitOn(text, '\n')[1..]))
  }

  /** Each line split at its commas. */
  function SplitCells(lines: seq<string>): (rows: seq<seq<string>>)
    ensures |rows| == |lines|
    ensures forall i :: 0 <= i < |lines| ==> rows[i] == SplitOn(lines[i], ',')
  {
    seq(|lines|, i requires 0 <= i < |lines| => SplitOn(lines[i], ','))
  }

  lemma HeaderLine()
    ensures JoinWith(Header, ",") == "shamrock_id,usfoods_id"
  {
    assert Header[1..] == ["usfoods_id"];
  }

  lemma NoCommaInDecimal(n: int)
    ensures ',' !in Decimal(n)
  {
    var d := Decimal(n);
    forall p | 0 <= p < |d| ensures d[p] != ',' {
    }
  }

  /** No cell of the export holds a comma. */
  lemma CellsHaveNoComma(m: map<int, Decision>, i: int)
    requires 0 <= i < |CsvRows(m)|
    ensures |CsvRows(m)[i]| == 2
    ensures forall j :: 0 <= j < |CsvRows(m)[i]| ==> ',' !in CsvRows(m)[i][j]
  {
    var row := CsvRows(m)[i];
    if i == 0 {
      assert row == ["shamrock_id", "usfoods_id"];
      assert ',' !in "shamrock_id" && ',' !in "usfoods_id";
    } else {
      var keys := SortedKeys(m.Keys);
      RowAt(m, i);
      NoCommaInDecimal(keys[i - 1]);
      if m[keys[i - 1]].MatchedTo? {
        NoCommaInDecimal(m[keys[i - 1]].cand);
      }
    }
  }

  /** Every row joined with commas splits back into that row. */
  lemma RowsSplitBack(m: map<int, Decision>)
    ensures forall i :: 0 <= i < |CsvRows(m)| ==> SplitOn(JoinWith(CsvRows(m)[i], ","), ',') == CsvRows(m)[i]
  {
    var rows := CsvRows(m);
    forall i | 0 <= i < |rows| ensures SplitOn(JoinWith(rows[i], [',']), ',') == rows[i] {
      CellsHaveNoComma(m, i);
      SplitOnJoin(rows[i], ',');
    }
  }

  /** The text splits at its newlines back into its lines. */
  lemma TextLines(m: map<int, Decision>)
    ensures SplitOn(JoinWith(CsvLinesOf(m), "\n"), '\n') == CsvLinesOf(m)
  {
    var lines := CsvLinesOf(m);
    forall i | 0 <= i < |lines| ensures '\n' !in lines[i] {
      LineHasNoNewline(m, i);
    }
    SplitOnJoin(lines, '\n');
  }

  /** Splitting the lines after the header at their commas gives the data
      rows. */
  lemma LinesGiveDataRows(m: map<int, Decision>, lines: seq<string>, rows: seq<seq<string>>)
    requires lines == CsvLinesOf(m) && rows == CsvRows(m)
    ensures SplitCells(lines[1..]) == rows[1..]
  {
    var back := SplitCells(lines[1..]);
    forall i | 0 <= i < |back| ensures back[i] == rows[1..][i] {
      assert lines[1..][i] == lines[i + 1];
    }
  }

  /** The text reads back to the map. */
  lemma TextRoundTrip(m: map<int, Decision>)
    ensures SplitOn(JoinWith(CsvLinesOf(m), "\n"), '\n') == CsvLinesOf(m)
    ensures DecodeCsv(JoinWith(CsvLinesOf(m), "\n")) == m
  {
    var lines := CsvLinesOf(m);
    TextLines(m);
    LinesGiveDataRows(m, lines, CsvRows(m));
    CsvRowsRoundTrip(m);
  }

  function CountChar(s: string, c: char): nat {
    if s == [] then 0 else (if s[0] == c then 1 else 0) + CountChar(s[1..], c)
  }

  lemma {:induction false} CountCharConcat(s: string, t: string, c: char)
    ensures CountChar(s + t, c) == CountChar(s, c) + CountChar(t, c)
  {
    if s == [] {
      assert s + t == t;
    } else {
      assert (s + t)[1..] == s[1..] + t;
      CountCharConcat(s[1..], t, c);
    }
  }

  lemma {:induction false} CountCharAbsent(s: string, c: char)
    requires c !in s
    ensures CountChar(s, c) == 0
  {
    if s != [] {
      CountCharAbsent(s[1..], c);
    }
  }

  /** Joining lines free of `c` with the one-character separator `c` puts
      exactly one `c` between consecutive lines. */
  lemma {:induction false} JoinCountsSeparators(lines: seq<string>, c: char)
    requires |lines| >= 1
    requires forall i :: 0 <= i < |lines| ==> c !in lines[i]
    ensures CountChar(JoinWith(lines, [c]), c) == |lines| - 1
  {
    CountCharAbsent(lines[0], c);
    if |lines| > 1 {
      JoinCountsSeparators(lines[1..], c);
      CountCharConcat(lines[0], [c], c);
      CountCharConcat(lines[0] + [c], JoinWith(lines[1..], [c]), c);
    }
  }

  /** A character that is in no part and not in the separator is not in
      the join. */
  lemma {:induction false} JoinAvoids(parts: seq<string>, sep: string, c: char)
    requires c !in sep && forall i :: 0 <= i < |parts| ==> c !in parts[i]
    ensures c !in JoinWith(parts, sep)
  {
    if |parts| > 1 {
      JoinAvoids(parts[1..], sep, c);
      assert JoinWith(parts, sep) == parts[0] + sep + JoinWith(parts[1..], sep);
    }
  }

  lemma NoNewlineInDecimal(n: int)
    ensures '\n' !in Decimal(n)
  {
    var d := Decimal(n);
    forall p | 0 <= p < |d| ensures d[p] != '\n' {
    }
  }

  /** No line of the export contains a newline of its own. */
  lemma LineHasNoNewline(m: map<int, Decision>, i: int)
    requires 0 <= i < |CsvLinesOf(m)|
    ensures '\n' !in CsvLinesOf(m)[i]
  {
    var rows := CsvRows(m);
    assert CsvLinesOf(m)[i] == JoinWith(rows[i], ",");
    if i == 0 {
      assert rows[0] == ["shamrock_id", "usfoods_id"];
    } else {
      var keys := SortedKeys(m.Keys);
      RowAt(m, i);
      NoNewlineInDecimal(keys[i - 1]);
      if m[keys[i - 1]].MatchedTo? {
        NoNewlineInDecimal(m[keys[i - 1]].cand);
      }
    }
    JoinAvoids(rows[i], ",", '\n');
  }

  /** The export has one line per stored decision after the header line,
      which comes first. */
  lemma CsvTextShape(m: map<int, Decision>)
    ensures CountChar(JoinWith(CsvLinesOf(m), "\n"), '\n') == |m|
    ensures "shamrock_id,usfoods_id" <= JoinWith(CsvLinesOf(m), "\n")
  {
    var lines := CsvLinesOf(m);
    assert lines[0] == JoinWith(Header, ",");
    assert JoinWith(Header, ",") == "shamrock_id,usfoods_id" by {
      assert Header[1..] == ["usfoods_id"];
    }
    JoinStartsWithFirst(lines, "\n");
    forall i | 0 <= i < |lines| ensures '\n' !in lines[i] {
      LineHasNoNewline(m, i);
    }
    JoinCountsSeparators(lines, '\n');
  }

  // ---------------------------------------------------------------------------
  // Worked example: item 1 matched to candidate 10, item 2 refused, item 3
  // still pending.

  lemma ExampleKeys(m: map<int, Decision>)
    requires m == map[1 := MatchedTo(10), 2 := NoMatch]
    ensures SortedKeys(m.Keys) == [1, 2]
  {
    var keys := SortedKeys(m.Keys);
    assert m.Keys == {1, 2};
    assert 1 in keys && 2 in keys && |keys| == 2;
  }

  lemma ExampleRows(m: map<int, Decision>)
    requires m == map[1 := MatchedTo(10), 2 := NoMatch]
    ensures CsvRows(m) == [Header, ["1", "10"], ["2", ""]]
  {
    ExampleKeys(m);
    RowAt(m, 1);
    RowAt(m, 2);
    assert Decimal(10) == "10" by {
      assert NatDigits(10) == NatDigits(1) + [DigitChar(0)];
    }
  }

  lemma JoinTwo(a: string, b: string, sep: string)
    ensures JoinWith([a, b], sep) == a + sep + b
  {
    assert [a, b][1..] == [b];
  }

  lemma JoinThree(a: string, b: string, c: string, sep: string)
    ensures JoinWith([a, b, c], sep) == a + sep + b + sep + c
  {
    assert [a, b, c][1..] == [b, c];
    JoinTwo(b, c, sep);
  }

  /** The lines of the example, with the literals passed in so that the
      solver does not unfold the recursive definitions over them. */
  lemma ExampleLines(m: map<int, Decision>, h: string, l1: string, l2: string)
    requires m == map[1 := MatchedTo(10), 2 := NoMatch]
    requires h == "shamrock_id,usfoods_id" && l1 == "1,10" && l2 == "2,"
    ensures CsvLinesOf(m) == [h, l1, l2]
  {
    ExampleRows(m);
    var rows := CsvRows(m);
    var lines := CsvLinesOf(m);
    assert lines[1] == JoinWith(rows[1], ",");
    JoinTwo("1", "10", ",");
    assert lines[1] == l1;
    assert lines[2] == JoinWith(rows[2], ",");
    JoinTwo("2", "", ",");
    assert lines[2] == l2;
    assert |lines| == 3 && lines[0] == h;
  }

  /** The export of the example: the header line, "1,10", "2," and no line
      for item 3. */
  lemma CsvExample(m: map<int, Decision>, h: string, l1: string, l2: string)
    requires m == map[1 := MatchedTo(10), 2 := NoMatch]
    requires h == "shamrock_id,usfoods_id" && l1 == "1,10" && l2 == "2,"
    ensures CsvLinesOf(m) == [h, l1, l2]
    ensures ExportCsv(m) == h + "\n" + l1 + "\n" + l2
  {
    ExampleLines(m, h, l1, l2);
    JoinThree(h, l1, l2, "\n");
  }
}
