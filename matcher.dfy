/** The fuzzy matcher: a containment score between a primary description and
    a candidate description, and the shortlist of best-scoring candidates. */
module Matcher {
  import opened Strings
  import opened Catalog

  /** The shortlist keeps at most this many candidates. */
  const MaxSuggestions: nat := 5

  // ---------------------------------------------------------------------------
  // Scoring

  /** The query pieces: the lower-cased query split on runs of `[\s,-]`. */
  function Tokens(a: string): (r: seq<string>)
    ensures |r| >= 1
    ensures forall i :: 0 <= i < |r| ==> NoSeparator(r[i])
    ensures Concat(r) == RemoveSeparators(Lower(a))
  {
    SplitPiecesHaveNoSeparator(Lower(a));
    SplitKeepsText(Lower(a));
    Split(Lower(a))
  }

  /** One point for each piece of `ws` (empty and repeated pieces included)
      that occurs in `b`. */
  function CountContained(ws: seq<string>, b: string): (n: nat)
    ensures n <= |ws|
  {
    if ws == [] then 0
    else CountContained(ws[..|ws| - 1], b) + (if Contains(b, ws[|ws| - 1]) then 1 else 0)
  }

  /** The score of candidate text `b` against query `a`. */
  function Score(a: string, b: string): (n: nat)
    ensures n <= |Tokens(a)|
  {
    CountContained(Tokens(a), Lower(b))
  }

  /** The scoring loop: lower-case both strings, then add one for every
      query piece the candidate contains. */
  method ScoreMatch(a: string, b: string) returns (score: nat)
    ensures score == Score(a, b)
  {
    var lowerA := Lower(a);
    var lowerB := Lower(b);
    var words := Split(lowerA);
    score := 0;
    var i := 0;
    while i < |words|
      invariant 0 <= i <= |words|
      invariant score == CountContained(words[..i], lowerB)
    {
      assert words[..i + 1][..i] == words[..i];
      if Contains(lowerB, words[i]) {
        score := score + 1;
      }
      i := i + 1;
    }
    assert words[..i] == words;
  }

  /** Every piece scores, or the score falls short of the piece count. */
  lemma {:induction false} CountAllIff(ws: seq<string>, b: string)
    ensures CountContained(ws, b) == |ws| <==> forall i :: 0 <= i < |ws| ==> Contains(b, ws[i])
  {
    if ws != [] {
      var init := ws[..|ws| - 1];
      CountAllIff(init, b);
      assert forall i :: 0 <= i < |init| ==> init[i] == ws[i];
    }
  }

  /** A score of zero means no piece occurs in the candidate. */
  lemma {:induction false} CountZeroIff(ws: seq<string>, b: string)
    ensures CountContained(ws, b) == 0 <==> forall i :: 0 <= i < |ws| ==> !Contains(b, ws[i])
  {
    if ws != [] {
      var init := ws[..|ws| - 1];
      CountZeroIff(init, b);
      assert forall i :: 0 <= i < |init| ==> init[i] == ws[i];
    }
  }

  /** Scores of two runs of pieces add up: a piece repeated in the query is
      counted once for every repetition. */
  lemma {:induction false} CountConcat(ws: seq<string>, vs: seq<string>, b: string)
    ensures CountContained(ws + vs, b) == CountContained(ws, b) + CountContained(vs, b)
    decreases |vs|
  {
    if vs == [] {
      assert ws + vs == ws;
    } else {
      var init := vs[..|vs| - 1];
      CountConcat(ws, init, b);
      assert (ws + vs)[..|ws + vs| - 1] == ws + init;
    }
  }

  /** The score lies between zero and the number of query pieces, and reaches
      each bound exactly when all, respectively none, of the pieces occur in
      the lower-cased candidate. */
  lemma ScoreBounds(a: string, b: string)
    ensures Score(a, b) <= |Tokens(a)|
    ensures Score(a, b) == |Tokens(a)| <==>
              forall i :: 0 <= i < |Tokens(a)| ==> Contains(Lower(b), Tokens(a)[i])
    ensures Score(a, b) == 0 <==>
              forall i :: 0 <= i < |Tokens(a)| ==> !Contains(Lower(b), Tokens(a)[i])
  {
    CountAllIff(Tokens(a), Lower(b));
    CountZeroIff(Tokens(a), Lower(b));
  }

  /** Changing the case of either argument leaves the score unchanged. */
  lemma ScoreIgnoresCase(a: string, b: string)
    ensures Score(Upper(a), b) == Score(a, b)
    ensures Score(Lower(a), b) == Score(a, b)
    ensures Score(a, Upper(b)) == Score(a, b)
    ensures Score(a, Lower(b)) == Score(a, b)
  {
    LowerForgetsCase(a);
    LowerForgetsCase(b);
  }

  lemma CountTwo(w: string, v: string, b: string)
    ensures CountContained([w, v], b)
            == (if Contains(b, w) then 1 else 0) + (if Contains(b, v) then 1 else 0)
  {
    assert [w, v][..1] == [w];
    assert [w][..0] == [];
  }

  /** An empty piece always scores a point, so a separator in front of a
      query adds one point against every candidate (unless the query already
      starts with a separator, whose run the new one merely extends). */
  lemma {:induction false} LeadingSeparatorAddsPoint(a: string, b: string)
    requires a == [] || !IsSeparator(a[0])
    ensures Tokens(" " + a) == [""] + Tokens(a)
    ensures Score(" " + a, b) == Score(a, b) + 1
  {
    var la := Lower(a);
    var q := " " + la;
    LowerConcat(" ", a);
    assert Lower(" ") == " ";
    assert Lower(" " + a) == q;
    assert la == [] || !IsSeparator(la[0]) by {
      if la != [] {
        assert la[0] == LowerChar(a[0]);
      }
    }
    assert q != [] && IsSeparator(q[0]);
    assert q[1..] == la;
    assert DropSeparators(q) == DropSeparators(la) == la;
    assert Split(q) == [""] + Split(la);
    ContainsEmpty(Lower(b));
    assert CountContained([""], Lower(b)) == 1 by {
      assert [""][..0] == [];
    }
    CountConcat([""], Tokens(a), Lower(b));
  }

  /** A repeated query word counts once per repetition. */
  lemma RepeatedWordScoresTwice(w: string, b: string)
    requires w != [] && NoSeparator(w) && Lower(w) == w
    requires Contains(Lower(b), w)
    ensures Score(w + " " + w, b) == 2
  {
    SplitJoinRoundTrip([w, w]);
    assert JoinWith([w, w], " ") == w + " " + w by {
      assert [w, w][1..] == [w];
    }
    var q := w + " " + w;
    assert Lower(q) == q by {
      assert forall i :: 0 <= i < |w| ==> LowerChar(w[i]) == w[i] by {
        assert forall i :: 0 <= i < |w| ==> Lower(w)[i] == LowerChar(w[i]);
      }
      assert forall i :: 0 <= i < |q| ==> Lower(q)[i] == q[i];
    }
    assert Tokens(q) == [w, w];
    CountTwo(w, w, Lower(b));
  }

  // ---------------------------------------------------------------------------
  // Ranking

  /** A candidate with its score, as `findBestMatches` builds them. */
  datatype Scored = Scored(item: Item, score: nat)

  /** `items.map(u => ({ item: u, score: scoreMatch(desc, u.description) }))` */
  function ScoreAll(desc: string, items: seq<Item>): seq<Scored> {
    seq(|items|, i requires 0 <= i < |items| => Scored(items[i], Score(desc, items[i].description)))
  }

  /** `scored.filter(s => s.score > 0)` */
  function Positive(s: seq<Scored>): (r: seq<Scored>)
    ensures forall x :: x in r <==> x in s && x.score > 0
  {
    if s == [] then []
    else (if s[0].score > 0 then [s[0]] else []) + Positive(s[1..])
  }

  /** Non-increasing scores. */
  predicate Sorted(s: seq<Scored>) {
    forall i, j :: 0 <= i < j < |s| ==> s[i].score >= s[j].score
  }

  /** The entries of `s` with score `k`, in their order in `s`. */
  function WithScore(s: seq<Scored>, k: nat): seq<Scored> {
    if s == [] then []
    else (if s[0].score == k then [s[0]] else []) + WithScore(s[1..], k)
  }

  lemma {:induction false} WithScoreConcat(s: seq<Scored>, t: seq<Scored>, k: nat)
    ensures WithScore(s + t, k) == WithScore(s, k) + WithScore(t, k)
  {
    if s == [] {
      assert s + t == t;
    } else {
      var st := s + t;
      assert st != [] && st[0] == s[0] && st[1..] == s[1..] + t;
      var head := if s[0].score == k then [s[0]] else [];
      assert WithScore(st, k) == head + WithScore(s[1..] + t, k);
      assert WithScore(s, k) == head + WithScore(s[1..], k);
      WithScoreConcat(s[1..], t, k);
      assert head + (WithScore(s[1..], k) + WithScore(t, k))
             == (head + WithScore(s[1..], k)) + WithScore(t, k);
    }
  }

  lemma WithScoreSingle(y: Scored, k: nat)
    ensures WithScore([y], k) == if y.score == k then [y] else []
  {
    assert [y][1..] == [];
  }

  /** Inserts `x` in front of every entry of a sorted `t` that it does not
      score below, so that it lands before the equal-score entries. */
  function Insert(x: Scored, t: seq<Scored>): seq<Scored> {
    if t == [] || x.score >= t[0].score then [x] + t
    else [t[0]] + Insert(x, t[1..])
  }

  /** The descending stable sort `scored.sort((a, b) => b.score - a.score)`,
      as an insertion sort. */
  function SortDesc(s: seq<Scored>): seq<Scored> {
    if s == [] then [] else Insert(s[0], SortDesc(s[1..]))
  }

  lemma {:induction false} InsertPermutes(x: Scored, t: seq<Scored>)
    ensures multiset(Insert(x, t)) == multiset([x] + t)
  {
    if !(t == [] || x.score >= t[0].score) {
      InsertPermutes(x, t[1..]);
      assert t == [t[0]] + t[1..];
    }
  }

  lemma {:induction false} InsertSorted(x: Scored, t: seq<Scored>)
    requires Sorted(t)
    ensures Sorted(Insert(x, t))
  {
    if t == [] || x.score >= t[0].score {
    } else {
      InsertSorted(x, t[1..]);
      InsertPermutes(x, t[1..]);
      var r := Insert(x, t[1..]);
      forall j | 0 <= j < |r| ensures t[0].score >= r[j].score {
        assert r[j] in multiset(r);
        assert r[j] == x || r[j] in t[1..];
      }
    }
  }

  lemma {:induction false} InsertStable(x: Scored, t: seq<Scored>, k: nat)
    requires Sorted(t)
    ensures WithScore(Insert(x, t), k) == WithScore([x] + t, k)
  {
    if t == [] || x.score >= t[0].score {
    } else {
      var t0, rest := t[0], t[1..];
      assert t == [t0] + rest;
      assert Sorted(rest) by {
        assert forall i :: 0 <= i < |rest| ==> rest[i] == t[i + 1];
      }
      InsertStable(x, rest, k);
      assert Insert(x, t) == [t0] + Insert(x, rest);
      WithScoreConcat([t0], Insert(x, rest), k);
      WithScoreConcat([x], rest, k);
      WithScoreConcat([x], t, k);
      WithScoreConcat([t0], rest, k);
      WithScoreSingle(x, k);
      WithScoreSingle(t0, k);
      var wx, wt, wr := WithScore([x], k), WithScore([t0], k), WithScore(rest, k);
      assert wx == [] || wt == [];
      assert wt + (wx + wr) == wx + (wt + wr);
    }
  }

  /** The sort returns a non-increasing permutation of its input that keeps
      equal-score entries in their input order. */
  lemma {:induction false} SortDescIsStableSort(s: seq<Scored>)
    ensures Sorted(SortDesc(s))
    ensures multiset(SortDesc(s)) == multiset(s)
    ensures forall k: nat :: WithScore(SortDesc(s), k) == WithScore(s, k)
  {
    if s != [] {
      SortDescIsStableSort(s[1..]);
      InsertSorted(s[0], SortDesc(s[1..]));
      InsertPermutes(s[0], SortDesc(s[1..]));
      assert s == [s[0]] + s[1..];
      forall k: nat ensures WithScore(SortDesc(s), k) == WithScore(s, k) {
        InsertStable(s[0], SortDesc(s[1..]), k);
        WithScoreConcat([s[0]], SortDesc(s[1..]), k);
        WithScoreConcat([s[0]], s[1..], k);
      }
    }
  }

  lemma {:induction false} PositiveKeepsScore(s: seq<Scored>, k: nat)
    requires k > 0
    ensures WithScore(Positive(s), k) == WithScore(s, k)
  {
    if s != [] {
      PositiveKeepsScore(s[1..], k);
      WithScoreConcat(if s[0].score > 0 then [s[0]] else [], Positive(s[1..]), k);
    }
  }

  /** Every candidate with a positive score, best first, ties in catalogue
      order. */
  function Ranked(desc: string, items: seq<Item>): (r: seq<Scored>)
    ensures Sorted(r)
    ensures multiset(r) == multiset(Positive(ScoreAll(desc, items)))
  {
    SortDescIsStableSort(Positive(ScoreAll(desc, items)));
    SortDesc(Positive(ScoreAll(desc, items)))
  }

  /** Every ranked entry is a catalogue record with its own positive score,
      and the ranking is sorted. */
  lemma RankedEntries(desc: string, items: seq<Item>)
    ensures Sorted(Ranked(desc, items))
    ensures forall x :: x in Ranked(desc, items) ==>
              x.score > 0 && x.item in items && x.score == Score(desc, x.item.description)
  {
    var scored := ScoreAll(desc, items);
    SortDescIsStableSort(Positive(scored));
    forall x | x in Ranked(desc, items)
      ensures x.score > 0 && x.item in items && x.score == Score(desc, x.item.description)
    {
      assert x in multiset(Positive(scored));
      assert x in scored;
      var i :| 0 <= i < |scored| && scored[i] == x;
      assert x.item == items[i];
    }
  }

  /** `findBestMatches`: the first `MaxSuggestions` entries of the ranking.
      Each entry carries a positive score, is a catalogue record with its own
      score, and the shortlist is in non-increasing score order. */
  function FindBestMatches(desc: string, items: seq<Item>): (r: seq<Scored>)
    ensures |r| <= MaxSuggestions
    ensures forall i :: 0 <= i < |r| ==>
              r[i].score > 0 && r[i].item in items
              && r[i].score == Score(desc, r[i].item.description)
    ensures Sorted(r)
  {
    var all := Ranked(desc, items);
    RankedEntries(desc, items);
    all[..if |all| < MaxSuggestions then |all| else MaxSuggestions]
  }

  /** The ranking lists every positively scored candidate (as often as it
      appears in the catalogue), sorted, and candidates with equal scores in
      catalogue order; the shortlist is its prefix, and is all of it when it
      has at most `MaxSuggestions` entries. */
  lemma RankedIsStableSortOfPositive(desc: string, items: seq<Item>)
    ensures Sorted(Ranked(desc, items))
    ensures multiset(Ranked(desc, items)) == multiset(Positive(ScoreAll(desc, items)))
    ensures forall k: nat :: k > 0 ==>
              WithScore(Ranked(desc, items), k) == WithScore(ScoreAll(desc, items), k)
    ensures FindBestMatches(desc, items) <= Ranked(desc, items)
    ensures |Ranked(desc, items)| <= MaxSuggestions ==>
              FindBestMatches(desc, items) == Ranked(desc, items)
  {
    var s := Positive(ScoreAll(desc, items));
    SortDescIsStableSort(s);
    forall k: nat | k > 0
      ensures WithScore(Ranked(desc, items), k) == WithScore(ScoreAll(desc, items), k)
    {
      PositiveKeepsScore(ScoreAll(desc, items), k);
    }
  }

  /** No candidate left off the shortlist outscores one on it: a catalogue
      record with a positive score is on the shortlist, or the shortlist is
      full and every entry on it scores at least as much. */
  lemma NoOmittedCandidateOutscores(desc: string, items: seq<Item>, u: Item)
    requires u in items && Score(desc, u.description) > 0
    ensures var r := FindBestMatches(desc, items);
            (exists i :: 0 <= i < |r| && r[i].item == u)
            || (|r| == MaxSuggestions
                && forall i :: 0 <= i < |r| ==> r[i].score >= Score(desc, u.description))
  {
    var all := Ranked(desc, items);
    var r := FindBestMatches(desc, items);
    var x := Scored(u, Score(desc, u.description));
    var scored := ScoreAll(desc, items);
    var p :| 0 <= p < |items| && items[p] == u;
    assert scored[p] == x;
    assert x in Positive(scored);
    RankedIsStableSortOfPositive(desc, items);
    assert x in multiset(all);
    var j :| 0 <= j < |all| && all[j] == x;
    if j >= |r| {
      assert |r| == MaxSuggestions;
      forall i | 0 <= i < |r| ensures r[i].score >= x.score {
        assert r[i] == all[i];
      }
    } else {
      assert r[j] == all[j];
    }
  }

  // ---------------------------------------------------------------------------
  // A worked example
  //
  // The example's strings reach these lemmas as parameters fixed by a
  // `requires q == "..."` rather than as literals written into the calls:
  // applied to a literal, `Split`, `Lower` and `Contains` are unfolded
  // character by character, which costs the solver far more than the
  // step-by-step proofs below.

  lemma ExampleLower(q: string)
    requires q == "Fresh Tomato, diced"
    ensures Lower(q) == "fresh tomato, diced"
  {
    var l := "fresh tomato, diced";
    forall i | 0 <= i < |l| ensures Lower(q)[i] == l[i] {
    }
  }

  lemma ExampleSplitLast(d: string)
    requires d == "diced"
    ensures Split(d) == [d]
  {
    SplitAfterWord(d, "");
    assert d + "" == d;
  }

  lemma ExampleSplitTail(t: string)
    requires t == "tomato, diced"
    ensures Split(t) == ["tomato", "diced"]
  {
    ExampleSplitLast("diced");
    assert t == "tomato" + ", " + "diced";
    SplitWordThenRun("tomato", ", ", "diced");
  }

  lemma ExampleSplitHead(t: string)
    requires t == "tomato, diced"
    ensures Split("fresh" + " " + t) == ["fresh"] + Split(t)
  {
    assert NoSeparator("fresh");
    SplitWordThenRun("fresh", " ", t);
  }

  lemma ExampleTokens(q: string)
    requires q == "Fresh Tomato, diced"
    ensures Tokens(q) == ["fresh", "tomato", "diced"]
  {
    ExampleLower(q);
    var l := Lower(q);
    assert l == "fresh" + " " + "tomato, diced";
    ExampleSplitHead("tomato, diced");
    ExampleSplitTail("tomato, diced");
  }

  lemma CountThree(u: string, v: string, w: string, b: string)
    ensures CountContained([u, v, w], b)
            == (if Contains(b, u) then 1 else 0) + (if Contains(b, v) then 1 else 0)
               + (if Contains(b, w) then 1 else 0)
  {
    assert [u, v, w][..2] == [u, v];
    CountTwo(u, v, b);
  }

  lemma ExampleLowerPieces(a: string, b: string)
    requires NoCapital(a) && NoCapital(b)
    ensures Lower(a + b) == a + b
  {
    LowerWithoutCapitals(a);
    LowerWithoutCapitals(b);
    LowerConcat(a, b);
  }

  lemma ExampleLowerHead(u: string)
    requires u == "diced tomato"
    ensures Lower(u) == u
  {
    ExampleLowerPieces("diced ", "tomato");
    assert u == "diced " + "tomato";
  }

  lemma ExampleLowerTail(v: string)
    requires v == " fresh pack"
    ensures Lower(v) == v
  {
    ExampleLowerPieces(" fresh", " pack");
    assert v == " fresh" + " pack";
  }

  lemma ExampleLowerFirst(b: string)
    requires b == "diced tomato fresh pack"
    ensures Lower(b) == b
  {
    var u, v := b[..12], b[12..];
    ExampleLowerHead(u);
    ExampleLowerTail(v);
    LowerConcat(u, v);
    assert b == u + v;
  }

  lemma ExampleLowerSecond(b: string)
    requires b == "canned corn"
    ensures Lower(b) == b
  {
    ExampleLowerPieces("canned", " corn");
    assert b == "canned" + " corn";
  }

  lemma ExampleWordsInFirst(b: string)
    requires b == "diced tomato fresh pack"
    ensures Contains(b, "fresh") && Contains(b, "tomato") && Contains(b, "diced")
  {
    assert b[13..18] == "fresh" && b[6..12] == "tomato" && b[0..5] == "diced";
    OccurrenceGivesContains(b, "fresh", 13);
    OccurrenceGivesContains(b, "tomato", 6);
    OccurrenceGivesContains(b, "diced", 0);
  }

  lemma ExampleAllWordsOccur(q: string, b: string)
    requires q == "Fresh Tomato, diced" && b == "diced tomato fresh pack"
    ensures Score(q, b) == 3
  {
    ExampleTokens(q);
    ExampleLowerFirst(b);
    ExampleWordsInFirst(b);
    CountThree("fresh", "tomato", "diced", b);
  }

  lemma AbsentFirstChar(b: string, w: string)
    requires w != [] && forall i :: 0 <= i < |b| ==> b[i] != w[0]
    ensures !Contains(b, w)
  {
    ContainsIffOccurs(b, w);
    forall i | 0 <= i < |b| ensures !OccursAt(b, w, i) {
      if i + |w| <= |b| {
        assert b[i..i + |w|][0] == b[i];
      }
    }
  }

  lemma ExampleNoDiced(b: string)
    requires b == "canned corn"
    ensures !Contains(b, "diced")
  {
    ContainsIffOccurs(b, "diced");
    forall i | 0 <= i < |b| ensures !OccursAt(b, "diced", i) {
      if i + 5 <= |b| {
        assert i == 0 || i == 1 || i == 2 || i == 3 || i == 4 || i == 5 || i == 6;
        if i == 5 {
          assert b[i..i + 5][1] == ' ';
        } else {
          assert b[i..i + 5][0] == b[i] != 'd';
        }
      }
    }
  }

  lemma ExampleNoWordOccurs(q: string, b: string)
    requires q == "Fresh Tomato, diced" && b == "canned corn"
    ensures Score(q, b) == 0
  {
    ExampleTokens(q);
    ExampleLowerSecond(b);
    AbsentFirstChar(b, "fresh");
    AbsentFirstChar(b, "tomato");
    ExampleNoDiced(b);
    CountThree("fresh", "tomato", "diced", b);
  }

  /** The query "Fresh Tomato, diced" against the candidates "diced tomato
      fresh pack" (id 10) and "canned corn" (id 11): all three words occur
      in the first, none in the second, so the shortlist is the first alone,
      with score 3. */
  lemma ShortlistExample(q: string, b1: string, b2: string)
    requires q == "Fresh Tomato, diced"
    requires b1 == "diced tomato fresh pack" && b2 == "canned corn"
    ensures Score(q, b1) == 3 && Score(q, b2) == 0
    ensures FindBestMatches(q, [Item(10, b1), Item(11, b2)]) == [Scored(Item(10, b1), 3)]
  {
    ExampleAllWordsOccur(q, b1);
    ExampleNoWordOccurs(q, b2);
    var items := [Item(10, b1), Item(11, b2)];
    var x := Scored(Item(10, b1), 3);
    var y := Scored(Item(11, b2), 0);
    assert ScoreAll(q, items) == [x, y];
    assert Positive([y]) == [] by {
      assert [y][1..] == [];
    }
    assert Positive([x, y]) == [x] by {
      assert [x, y][0] == x && [x, y][1..] == [y];
    }
    assert SortDesc([x]) == [x] by {
      assert [x][1..] == [];
    }
  }
}
