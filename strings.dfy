/** The string operations the matcher and the CSV export rely on: lower-casing,
    splitting on `/[\s,-]+/`, substring search, joining and the decimal
    rendering of integer ids. */
module Strings {

  // ---------------------------------------------------------------------------
  // Character classes

  /** The characters matched by `\s` in an ECMAScript regular expression: the
      WhiteSpace code points (tab, vertical tab, form feed, space, no-break
      space, byte order mark and the other space separators) and the
      LineTerminator code points (line feed, carriage return, line and
      paragraph separators). */
  predicate IsWhiteSpace(c: char) {
    c == '\t' || c == '\n' || c == '\U{000B}' || c == '\U{000C}' || c == '\r'
    || c == ' ' || c == '\U{00A0}' || c == '\U{1680}'
    || ('\U{2000}' <= c <= '\U{200A}')
    || c == '\U{2028}' || c == '\U{2029}' || c == '\U{202F}' || c == '\U{205F}'
    || c == '\U{3000}' || c == '\U{FEFF}'
  }

  /** A character of the class `[\s,-]` that separates query pieces. */
  predicate IsSeparator(c: char) {
    IsWhiteSpace(c) || c == ',' || c == '-'
  }

  predicate NoSeparator(w: string) {
    forall j :: 0 <= j < |w| ==> !IsSeparator(w[j])
  }

  // ---------------------------------------------------------------------------
  // Case mapping (ASCII letters only)

  function LowerChar(c: char): (d: char)
    ensures 'A' <= c <= 'Z' ==> 'a' <= d <= 'z' && d as int == c as int + 32
    ensures !('A' <= c <= 'Z') ==> d == c
  {
    if 'A' <= c <= 'Z' then (c as int + 32) as char else c
  }

  function UpperChar(c: char): (d: char)
    ensures 'a' <= c <= 'z' ==> 'A' <= d <= 'Z' && d as int == c as int - 32
    ensures !('a' <= c <= 'z') ==> d == c
  {
    if 'a' <= c <= 'z' then (c as int - 32) as char else c
  }

  /** `s.toLowerCase()`, restricted to the ASCII letters. */
  function Lower(s: string): (r: string)
    ensures |r| == |s|
    ensures forall i :: 0 <= i < |s| ==> !('A' <= r[i] <= 'Z')
    ensures forall i :: 0 <= i < |s| && !('A' <= s[i] <= 'Z') ==> r[i] == s[i]
  {
    seq(|s|, i requires 0 <= i < |s| => LowerChar(s[i]))
  }

  /** `s.toUpperCase()`, restricted to the ASCII letters. */
  function Upper(s: string): string {
    seq(|s|, i requires 0 <= i < |s| => UpperChar(s[i]))
  }

  /** Lower-casing forgets every earlier change of case. */
  lemma LowerForgetsCase(s: string)
    ensures Lower(Lower(s)) == Lower(s)
    ensures Lower(Upper(s)) == Lower(s)
  {
    assert forall i :: 0 <= i < |s| ==> Lower(Lower(s))[i] == Lower(s)[i];
    assert forall i :: 0 <= i < |s| ==> Lower(Upper(s))[i] == Lower(s)[i];
  }

  /** `s` holds no ASCII capital letter. */
  predicate NoCapital(s: string) {
    s == [] || (!('A' <= s[0] <= 'Z') && NoCapital(s[1..]))
  }

  /** Lower-casing leaves a string without capitals unchanged. */
  lemma {:induction false} LowerWithoutCapitals(s: string)
    requires NoCapital(s)
    ensures Lower(s) == s
  {
    if s != [] {
      LowerWithoutCapitals(s[1..]);
      assert forall i :: 1 <= i < |s| ==> Lower(s)[i] == Lower(s[1..])[i - 1];
    }
  }

  /** Lower-casing works character by character, so it distributes over
      concatenation. */
  lemma LowerConcat(a: string, b: string)
    ensures Lower(a + b) == Lower(a) + Lower(b)
  {
    assert forall i :: 0 <= i < |a + b| ==> Lower(a + b)[i] == (Lower(a) + Lower(b))[i];
  }

  // ---------------------------------------------------------------------------
  // Substring search

  /** `w` occurs in `b` starting at index `i`. */
  predicate OccursAt(b: string, w: string, i: int) {
    0 <= i && i + |w| <= |b| && b[i..i + |w|] == w
  }

  /** `b.includes(w)`. */
  predicate Contains(b: string, w: string)
    decreases |b|
  {
    w <= b || (b != [] && Contains(b[1..], w))
  }

  lemma {:induction false} OccurrenceGivesContains(b: string, w: string, i: int)
    requires OccursAt(b, w, i)
    ensures Contains(b, w)
    decreases i
  {
    if i == 0 {
      assert w <= b;
    } else {
      assert b[1..][i - 1..i - 1 + |w|] == b[i..i + |w|];
      OccurrenceGivesContains(b[1..], w, i - 1);
    }
  }

  lemma {:induction false} ContainsGivesOccurrence(b: string, w: string) returns (i: int)
    requires Contains(b, w)
    ensures OccursAt(b, w, i)
    decreases |b|
  {
    if w <= b {
      i := 0;
    } else {
      var j := ContainsGivesOccurrence(b[1..], w);
      assert b[1..][j..j + |w|] == b[j + 1..j + 1 + |w|];
      i := j + 1;
    }
  }

  /** `Contains` finds exactly the occurrences of `w` in `b`. */
  lemma ContainsIffOccurs(b: string, w: string)
    ensures Contains(b, w) <==> exists i :: OccursAt(b, w, i)
  {
    if Contains(b, w) {
      var i := ContainsGivesOccurrence(b, w);
    } else {
      forall i | OccursAt(b, w, i) ensures false {
        OccurrenceGivesContains(b, w, i);
      }
    }
  }

  /** The empty string occurs in every string, so `b.includes("")` holds. */
  lemma ContainsEmpty(b: string)
    ensures Contains(b, "")
  {
    assert "" <= b;
  }

  // ---------------------------------------------------------------------------
  // Splitting on runs of separators

  /** Drops the maximal run of separators at the front of `s`. */
  function DropSeparators(s: string): (r: string)
    ensures |r| <= |s| && r == s[|s| - |r|..]
    ensures r == [] || !IsSeparator(r[0])
    ensures forall i :: 0 <= i < |s| - |r| ==> IsSeparator(s[i])
    ensures s != [] && IsSeparator(s[0]) ==> |r| < |s|
  {
    if s != [] && IsSeparator(s[0]) then DropSeparators(s[1..]) else s
  }

  /** `s.split(/[\s,-]+/)`: the pieces between maximal runs of separators.
      A leading or trailing run yields an empty piece at that end, and the
      empty string splits into one empty piece. */
  function Split(s: string): (r: seq<string>)
    ensures |r| >= 1
    decreases |s|
  {
    if s == [] then [""]
    else if IsSeparator(s[0]) then [""] + Split(DropSeparators(s))
    else
      var rest := Split(s[1..]);
      [[s[0]] + rest[0]] + rest[1..]
  }

  /** No piece of a split contains a separator. */
  lemma {:induction false} SplitPiecesHaveNoSeparator(s: string)
    ensures forall i :: 0 <= i < |Split(s)| ==> NoSeparator(Split(s)[i])
    decreases |s|
  {
    if s == [] {
    } else if IsSeparator(s[0]) {
      SplitPiecesHaveNoSeparator(DropSeparators(s));
    } else {
      SplitPiecesHaveNoSeparator(s[1..]);
      var rest := Split(s[1..]);
      assert NoSeparator(rest[0]);
      assert NoSeparator([s[0]] + rest[0]);
    }
  }

  /** The characters of `s` that are not separators, in order. */
  function RemoveSeparators(s: string): string {
    if s == [] then []
    else (if IsSeparator(s[0]) then [] else [s[0]]) + RemoveSeparators(s[1..])
  }

  /** The concatenation of a list of strings. */
  function Concat(ws: seq<string>): string {
    if ws == [] then [] else ws[0] + Concat(ws[1..])
  }

  lemma {:induction false} RemoveSeparatorsOfRun(s: string)
    ensures RemoveSeparators(s) == RemoveSeparators(DropSeparators(s))
    decreases |s|
  {
    if s != [] && IsSeparator(s[0]) {
      RemoveSeparatorsOfRun(s[1..]);
    }
  }

  lemma ConcatCons(w: string, ws: seq<string>)
    ensures Concat([w] + ws) == w + Concat(ws)
  {
    assert ([w] + ws)[1..] == ws;
  }

  /** Splitting loses the separators and nothing else: the pieces, put back
      together, are the input with its separators removed. */
  lemma {:induction false} SplitKeepsText(s: string)
    ensures Concat(Split(s)) == RemoveSeparators(s)
    decreases |s|
  {
    if s == [] {
    } else if IsSeparator(s[0]) {
      SplitKeepsText(DropSeparators(s));
      RemoveSeparatorsOfRun(s);
      ConcatCons("", Split(DropSeparators(s)));
    } else {
      var rest := Split(s[1..]);
      SplitKeepsText(s[1..]);
      assert rest == [rest[0]] + rest[1..];
      ConcatCons(rest[0], rest[1..]);
      ConcatCons([s[0]] + rest[0], rest[1..]);
      assert RemoveSeparators(s) == [s[0]] + RemoveSeparators(s[1..]);
      assert Concat(Split(s)) == [s[0]] + rest[0] + Concat(rest[1..]);
    }
  }

  // ---------------------------------------------------------------------------
  // Joining

  /** `parts.join(sep)`. */
  function JoinWith(parts: seq<string>, sep: string): string {
    if parts == [] then ""
    else if |parts| == 1 then parts[0]
    else parts[0] + sep + JoinWith(parts[1..], sep)
  }

  lemma {:induction false} JoinStartsWithFirst(parts: seq<string>, sep: string)
    requires |parts| >= 1
    ensures parts[0] <= JoinWith(parts, sep)
  {
    if |parts| > 1 {
      assert JoinWith(parts, sep) == parts[0] + (sep + JoinWith(parts[1..], sep));
    }
  }

  /** `s.split(c)` for a one-character separator: the pieces between the
      occurrences of `c`, empty pieces included, so `""` gives `[""]`. */
  function SplitOn(s: string, c: char): (r: seq<string>)
    ensures |r| >= 1
    ensures forall i :: 0 <= i < |r| ==> c !in r[i]
    ensures |r| <= |s| + 1
    decreases |s|
  {
    if s == [] then [""]
    else if s[0] == c then [""] + SplitOn(s[1..], c)
    else
      var rest := SplitOn(s[1..], c);
      [[s[0]] + rest[0]] + rest[1..]
  }

  /** A prefix free of `c` extends the first piece. */
  lemma {:induction false} SplitOnWord(w: string, s: string, c: char)
    requires c !in w
    ensures SplitOn(w + s, c) == [w + SplitOn(s, c)[0]] + SplitOn(s, c)[1..]
    decreases |w|
  {
    if w == [] {
      assert w + s == s;
      assert w + SplitOn(s, c)[0] == SplitOn(s, c)[0];
    } else {
      assert (w + s)[0] == w[0] && (w + s)[1..] == w[1..] + s;
      SplitOnWord(w[1..], s, c);
      assert [w[0]] + (w[1..] + SplitOn(s, c)[0]) == w + SplitOn(s, c)[0];
    }
  }

  /** Splitting at `c` undoes joining with `c`, for parts free of `c`. */
  lemma {:induction false} SplitOnJoin(parts: seq<string>, c: char)
    requires |parts| >= 1
    requires forall i :: 0 <= i < |parts| ==> c !in parts[i]
    ensures SplitOn(JoinWith(parts, [c]), c) == parts
    decreases |parts|
  {
    if |parts| == 1 {
      SplitOnWord(parts[0], "", c);
      assert parts[0] + "" == parts[0];
    } else {
      var tail := JoinWith(parts[1..], [c]);
      SplitOnJoin(parts[1..], c);
      assert SplitOn([c] + tail, c) == [""] + parts[1..] by {
        assert ([c] + tail)[1..] == tail;
      }
      assert JoinWith(parts, [c]) == parts[0] + ([c] + tail);
      SplitOnWord(parts[0], [c] + tail, c);
      assert parts[0] + "" == parts[0];
      assert [parts[0]] + parts[1..] == parts;
    }
  }

  /** A separator-free prefix becomes the start of the first piece. */
  lemma {:induction false} SplitAfterWord(w: string, s: string)
    requires NoSeparator(w)
    ensures Split(w + s) == [w + Split(s)[0]] + Split(s)[1..]
    decreases |w|
  {
    if w == [] {
      assert w + s == s;
      assert w + Split(s)[0] == Split(s)[0];
      assert [Split(s)[0]] + Split(s)[1..] == Split(s);
    } else {
      var ws := w + s;
      assert ws[0] == w[0] && !IsSeparator(ws[0]);
      assert ws[1..] == w[1..] + s;
      assert NoSeparator(w[1..]) by {
        forall j | 0 <= j < |w[1..]| ensures !IsSeparator(w[1..][j]) {
          assert w[1..][j] == w[j + 1];
        }
      }
      SplitAfterWord(w[1..], s);
      var rest := Split(ws[1..]);
      assert Split(ws) == [[ws[0]] + rest[0]] + rest[1..];
      assert rest[0] == w[1..] + Split(s)[0] && rest[1..] == Split(s)[1..];
      assert [w[0]] + (w[1..] + Split(s)[0]) == w + Split(s)[0];
    }
  }

  /** A run made only of separators is dropped whole. */
  lemma {:induction false} DropRun(r: string, s: string)
    requires forall j :: 0 <= j < |r| ==> IsSeparator(r[j])
    requires s == [] || !IsSeparator(s[0])
    ensures DropSeparators(r + s) == s
    decreases |r|
  {
    if r == [] {
      assert r + s == s;
    } else {
      assert (r + s)[1..] == r[1..] + s;
      DropRun(r[1..], s);
    }
  }

  /** A word followed by a run of separators becomes a piece of its own. */
  lemma SplitRun(r: string, s: string)
    requires r != [] && forall j :: 0 <= j < |r| ==> IsSeparator(r[j])
    requires s == [] || !IsSeparator(s[0])
    ensures Split(r + s) == [""] + Split(s)
  {
    DropRun(r, s);
    assert (r + s)[0] == r[0];
  }

  lemma SplitWordThenRun(w: string, r: string, s: string)
    requires NoSeparator(w) && r != []
    requires forall j :: 0 <= j < |r| ==> IsSeparator(r[j])
    requires s == [] || !IsSeparator(s[0])
    ensures Split(w + r + s) == [w] + Split(s)
  {
    var t := r + s;
    assert w + r + s == w + t;
    SplitRun(r, s);
    SplitAfterWord(w, t);
    var st := Split(t);
    assert st[0] == "" && st[1..] == Split(s);
    assert w + st[0] == w;
  }

  /** Splitting undoes joining with a single space, for non-empty pieces that
      hold no separator. */
  lemma {:induction false} SplitJoinRoundTrip(ws: seq<string>)
    requires |ws| >= 1
    requires forall i :: 0 <= i < |ws| ==> ws[i] != "" && NoSeparator(ws[i])
    ensures Split(JoinWith(ws, " ")) == ws
    decreases |ws|
  {
    if |ws| == 1 {
      SplitAfterWord(ws[0], "");
      assert ws[0] + "" == ws[0];
    } else {
      var tail := JoinWith(ws[1..], " ");
      SplitJoinRoundTrip(ws[1..]);
      JoinStartsWithFirst(ws[1..], " ");
      assert tail[0] == ws[1][0];
      assert DropSeparators(" " + tail) == tail by {
        assert (" " + tail)[1..] == tail;
      }
      assert Split(" " + tail) == [""] + ws[1..];
      assert JoinWith(ws, " ") == ws[0] + (" " + tail);
      SplitAfterWord(ws[0], " " + tail);
      assert ws[0] + "" == ws[0];
      assert [ws[0]] + ws[1..] == ws;
    }
  }

  // ---------------------------------------------------------------------------
  // Decimal rendering of integers

  function DigitChar(d: nat): char
    requires d < 10
  {
    ('0' as int + d) as char
  }

  predicate IsDigit(c: char) {
    '0' <= c <= '9'
  }

  /** The decimal digits of `n`, without leading zeros. */
  function NatDigits(n: nat): (r: string)
    ensures r != [] && forall i :: 0 <= i < |r| ==> IsDigit(r[i])
    ensures r[0] == '0' ==> r == "0"
  {
    if n < 10 then [DigitChar(n)] else NatDigits(n / 10) + [DigitChar(n % 10)]
  }

  /** `String(n)` for an integer `n`: its decimal digits, after a minus sign
      when `n` is negative. */
  function Decimal(n: int): (r: string)
    ensures r != []
    ensures forall i :: 0 <= i < |r| ==> IsDigit(r[i]) || (i == 0 && r[i] == '-')
    ensures r[0] == '-' <==> n < 0
    ensures r[0] == '-' ==> |r| > 1 && r[1] != '0'
    ensures r[0] == '0' ==> r == "0"
  {
    if n < 0 then "-" + NatDigits(-n) else NatDigits(n)
  }

  function ParseDigits(s: string): int {
    if s == [] then 0
    else ParseDigits(s[..|s| - 1]) * 10 + (s[|s| - 1] as int - '0' as int)
  }

  /** Reads back a decimal integer, with an optional leading minus sign. */
  function ParseDecimal(s: string): int {
    if s != [] && s[0] == '-' then -ParseDigits(s[1..]) else ParseDigits(s)
  }

  lemma {:induction false} ParseNatDigits(n: nat)
    ensures ParseDigits(NatDigits(n)) == n
  {
    if n >= 10 {
      ParseNatDigits(n / 10);
      var s := NatDigits(n);
      assert s[..|s| - 1] == NatDigits(n / 10);
    }
  }

  /** Reading a rendered integer gives that integer back. */
  lemma DecimalRoundTrip(n: int)
    ensures ParseDecimal(Decimal(n)) == n
  {
    if n < 0 {
      ParseNatDigits(-n);
      assert Decimal(n)[1..] == NatDigits(-n);
    } else {
      ParseNatDigits(n);
    }
  }

  /** Distinct integers render as distinct strings. */
  lemma DecimalInjective(m: int, n: int)
    requires Decimal(m) == Decimal(n)
    ensures m == n
  {
    DecimalRoundTrip(m);
    DecimalRoundTrip(n);
  }
}
