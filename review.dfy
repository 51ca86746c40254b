/** The review store: one decision per primary id, the filter that picks the
    rows to show, the counters shown above the list and the view of one row. */
module Review {
  import opened Catalog
  import opened Matcher

  /** A stored decision: `null` (no match) or the id of a candidate record.
      A primary id with no entry at all is pending. */
  datatype Decision = NoMatch | MatchedTo(cand: int)

  /** `matches[id]`: nothing (`undefined`) when the id has no entry. */
  function Status(m: map<int, Decision>, id: int): (st: Option<Decision>)
    ensures st.None? <==> id !in m
    ensures st.Some? ==> id in m && st.value == m[id]
  {
    if id in m then Some(m[id]) else None
  }

  // ---------------------------------------------------------------------------
  // Filtering

  /** The four filter buttons. */
  datatype Filter = All | MatchedOnly | PendingOnly | NoMatchOnly

  /** JavaScript truthiness of `matches[id]`: `undefined`, `null` and the
      number 0 are falsy. */
  predicate Truthy(st: Option<Decision>) {
    st.Some? && st.value.MatchedTo? && st.value.cand != 0
  }

  /** Whether a row with status `st` survives the three early returns of the
      rendering loop under filter `f`. */
  predicate Visible(f: Filter, st: Option<Decision>) {
    match f
    case All => true
    case MatchedOnly => Truthy(st)
    case PendingOnly => st == None
    case NoMatchOnly => st == Some(NoMatch)
  }

  /** The items of `items`, in order, whose status satisfies `keep`. */
  function Select(items: seq<Item>, m: map<int, Decision>, keep: Option<Decision> -> bool): (r: seq<Item>)
    ensures |r| <= |items|
    ensures forall x :: x in r <==> x in items && keep(Status(m, x.id))
  {
    if items == [] then []
    else (if keep(Status(m, items[0].id)) then [items[0]] else []) + Select(items[1..], m, keep)
  }

  /** The rows drawn under filter `f`, in catalogue order. */
  function Shown(f: Filter, items: seq<Item>, m: map<int, Decision>): (r: seq<Item>)
    ensures forall x :: x in r <==> x in items && Visible(f, Status(m, x.id))
    ensures IsSubsequence(r, items)
  {
    SelectIsSubsequence(items, m, st => Visible(f, st));
    Select(items, m, st => Visible(f, st))
  }

  /** `a` is `b` with some elements left out, the rest in the same order. */
  predicate IsSubsequence(a: seq<Item>, b: seq<Item>)
    decreases |b|
  {
    if a == [] then true
    else if b == [] then false
    else if a[0] == b[0] then IsSubsequence(a[1..], b[1..])
    else IsSubsequence(a, b[1..])
  }

  lemma {:induction false} SubsequenceDropsHead(a: seq<Item>, b: seq<Item>)
    requires IsSubsequence(a, b) && a != []
    ensures IsSubsequence(a[1..], b)
    decreases |a| + |b|, 0
  {
    assert b != [];
    assert [b[0]] + b[1..] == b;
    if a[0] == b[0] {
      SubsequenceWeaken(a[1..], b[1..], b[0]);
    } else {
      SubsequenceDropsHead(a, b[1..]);
      SubsequenceWeaken(a[1..], b[1..], b[0]);
    }
  }

  /** A subsequence of `b` is also one of `b` with an element put in front. */
  lemma {:induction false} SubsequenceWeaken(a: seq<Item>, b: seq<Item>, x: Item)
    requires IsSubsequence(a, b)
    ensures IsSubsequence(a, [x] + b)
    decreases |a| + |b|, 1
  {
    assert ([x] + b)[1..] == b;
    if a != [] && a[0] == x {
      SubsequenceDropsHead(a, b);
    }
  }

  /** Filtering keeps the catalogue order: the rows shown are the primary
      items with some left out, in their original order. */
  lemma {:induction false} SelectIsSubsequence(items: seq<Item>, m: map<int, Decision>, keep: Option<Decision> -> bool)
    ensures IsSubsequence(Select(items, m, keep), items)
  {
    if items != [] {
      var rest := Select(items[1..], m, keep);
      var r := Select(items, m, keep);
      SelectIsSubsequence(items[1..], m, keep);
      if keep(Status(m, items[0].id)) {
        assert r == [items[0]] + rest;
        assert r[0] == items[0] && r[1..] == rest;
      } else {
        assert r == rest;
        SubsequenceWeaken(rest, items[1..], items[0]);
        assert [items[0]] + items[1..] == items;
      }
    }
  }

  /** What each filter shows: "all" every item, "pending" exactly the items
      with no entry, "nomatch" exactly the items whose entry is `null`, and
      "matched" exactly the items matched to a candidate id other than 0;
      in every case in catalogue order. */
  lemma FilterMeaning(items: seq<Item>, m: map<int, Decision>, x: Item)
    ensures Shown(All, items, m) == items
    ensures x in Shown(PendingOnly, items, m) <==> x in items && x.id !in m
    ensures x in Shown(NoMatchOnly, items, m) <==> x in items && x.id in m && m[x.id] == NoMatch
    ensures x in Shown(MatchedOnly, items, m) <==>
              x in items && x.id in m && m[x.id].MatchedTo? && m[x.id].cand != 0
    ensures forall f :: IsSubsequence(Shown(f, items, m), items)
  {
    ShowAllIsIdentity(items, m);
    forall f ensures IsSubsequence(Shown(f, items, m), items) {
      SelectIsSubsequence(items, m, st => Visible(f, st));
    }
  }

  lemma {:induction false} ShowAllIsIdentity(items: seq<Item>, m: map<int, Decision>)
    ensures Shown(All, items, m) == items
  {
    if items != [] {
      ShowAllIsIdentity(items[1..], m);
      assert [items[0]] + items[1..] == items;
    }
  }

  // ---------------------------------------------------------------------------
  // Counters

  /** The four numbers shown above the list. */
  datatype Counts = Counts(total: int, matched: int, noMatch: int, pending: int)

  /** The counters as the page computes them: `matched` is the number of keys
      in the map, null-valued ones included, `noMatch` the number of primary
      items whose entry is `null`, and `pending` subtracts both from `total`. */
  function UpdateCounts(items: seq<Item>, m: map<int, Decision>): (c: Counts)
    ensures c.total == |items| && c.matched == |m|
    ensures 0 <= c.noMatch <= c.total
    ensures c.pending == c.total - c.matched - c.noMatch
  {
    var matched := |m|;
    var total := |items|;
    var noMatch := |Shown(NoMatchOnly, items, m)|;
    Counts(total, matched, noMatch, total - matched - noMatch)
  }

  /** The number of primary items carrying id `id`. */
  function Occurrences(items: seq<Item>, id: int): nat {
    if items == [] then 0
    else (if items[0].id == id then 1 else 0) + Occurrences(items[1..], id)
  }

  /** Writing decision `d` under `id` moves the no-match count by the number
      of primary items with that id: down if the old entry was `null`, up if
      the new one is. */
  lemma {:induction false} NoMatchAfterWrite(items: seq<Item>, m: map<int, Decision>, id: int, d: Decision)
    ensures |Shown(NoMatchOnly, items, m[id := d])|
            == |Shown(NoMatchOnly, items, m)|
               - (if Status(m, id) == Some(NoMatch) then Occurrences(items, id) else 0)
               + (if d == NoMatch then Occurrences(items, id) else 0)
  {
    if items != [] {
      NoMatchAfterWrite(items[1..], m, id, d);
    }
  }

  /** After the map is emptied nothing is matched or refused and every
      primary item counts as pending. */
  lemma {:induction false} CountsAfterClear(items: seq<Item>)
    ensures UpdateCounts(items, map[]) == Counts(|items|, 0, 0, |items|)
  {
    NoNullEntries(items, map[]);
  }

  lemma {:induction false} NoNullEntries(items: seq<Item>, m: map<int, Decision>)
    requires forall k :: k in m ==> m[k] != NoMatch
    ensures Shown(NoMatchOnly, items, m) == []
  {
    if items != [] {
      NoNullEntries(items[1..], m);
    }
  }

  /** Marking a pending item (whose id occurs once among the primary items)
      as no-match raises `matched` and `noMatch` by one each, and so lowers
      `pending` by two. */
  lemma MarkNoMatchLowersPendingByTwo(items: seq<Item>, m: map<int, Decision>, id: int)
    requires id !in m && Occurrences(items, id) == 1
    ensures var before, after := UpdateCounts(items, m), UpdateCounts(items, m[id := NoMatch]);
            after.total == before.total
            && after.matched == before.matched + 1
            && after.noMatch == before.noMatch + 1
            && after.pending == before.pending - 2
  {
    NoMatchAfterWrite(items, m, id, NoMatch);
  }

  /** Matching a pending item raises `matched` by one and lowers `pending`
      by one; re-matching an item marked no-match (whose id occurs once)
      lowers `noMatch` by one and raises `pending` by one. */
  lemma SelectMatchCounts(items: seq<Item>, m: map<int, Decision>, id: int, c: int)
    requires id !in m || (m[id] == NoMatch && Occurrences(items, id) == 1)
    ensures var before, after := UpdateCounts(items, m), UpdateCounts(items, m[id := MatchedTo(c)]);
            after.total == before.total
            && (id !in m ==> after.matched == before.matched + 1
                             && after.noMatch == before.noMatch
                             && after.pending == before.pending - 1)
            && (id in m ==> after.matched == before.matched
                            && after.noMatch == before.noMatch - 1
                            && after.pending == before.pending + 1)
  {
    NoMatchAfterWrite(items, m, id, MatchedTo(c));
  }

  /** `pending` goes below zero once a refused item is counted twice: one
      primary item marked no-match shows a pending count of -1. */
  lemma PendingGoesNegative()
    ensures var items, m := [Item(1, "tomato")], map[1 := NoMatch];
            UpdateCounts(items, m) == Counts(1, 1, 1, -1)
            && Shown(PendingOnly, items, m) == []
  {
  }

  /** The entry is a match, to whatever candidate id. */
  predicate IsMatched(st: Option<Decision>) {
    st.Some? && st.value.MatchedTo?
  }

  /** The filter the page evidently means: "matched" shows every matched
      item, whatever the candidate id. */
  predicate VisibleIntended(f: Filter, st: Option<Decision>) {
    if f == MatchedOnly then IsMatched(st) else Visible(f, st)
  }

  function ShownIntended(f: Filter, items: seq<Item>, m: map<int, Decision>): seq<Item> {
    Select(items, m, st => VisibleIntended(f, st))
  }

  /** Under the intended filter every primary item shows under exactly one
      of "matched", "pending" and "nomatch". */
  lemma IntendedFiltersPartition(items: seq<Item>, m: map<int, Decision>, x: Item)
    requires x in items
    ensures var inMatched, inPending, inNoMatch :=
              x in ShownIntended(MatchedOnly, items, m),
              x in ShownIntended(PendingOnly, items, m),
              x in ShownIntended(NoMatchOnly, items, m);
            (inMatched && !inPending && !inNoMatch)
            || (!inMatched && inPending && !inNoMatch)
            || (!inMatched && !inPending && inNoMatch)
  {
  }

  /** As written, an item matched to candidate id 0 is falsy and so shows
      under none of "matched", "pending" and "nomatch", only under "all". */
  lemma MatchToZeroHidden()
    ensures var items, m := [Item(1, "tomato")], map[1 := MatchedTo(0)];
            Shown(MatchedOnly, items, m) == []
            && Shown(PendingOnly, items, m) == []
            && Shown(NoMatchOnly, items, m) == []
            && Shown(All, items, m) == items
            && ShownIntended(MatchedOnly, items, m) == items
  {
  }

  /** The counters the page evidently means: `matched` counts only the
      primary items matched to a candidate and `pending` the primary items
      with no entry, so that the three add up to the total. */
  function IntendedCounts(items: seq<Item>, m: map<int, Decision>): (c: Counts)
    ensures c.total == |items| == c.matched + c.noMatch + c.pending
    ensures 0 <= c.matched && 0 <= c.noMatch && 0 <= c.pending
    ensures c.pending == |Shown(PendingOnly, items, m)|
    ensures c.noMatch == UpdateCounts(items, m).noMatch
  {
    var matched := |ShownIntended(MatchedOnly, items, m)|;
    var noMatch := |Shown(NoMatchOnly, items, m)|;
    var pending := |Shown(PendingOnly, items, m)|;
    PartitionSizes(items, m);
    Counts(|items|, matched, noMatch, pending)
  }

  lemma {:induction false} PartitionSizes(items: seq<Item>, m: map<int, Decision>)
    ensures |ShownIntended(MatchedOnly, items, m)|
            + |Shown(NoMatchOnly, items, m)| + |Shown(PendingOnly, items, m)| == |items|
  {
    if items != [] {
      PartitionSizes(items[1..], m);
    }
  }

  // ---------------------------------------------------------------------------
  // The right-hand side of one row

  /** What a row offers: a shortlist of candidates to pick from (pending), a
      "No Match" tag, or a tag for the matched candidate, whose lookup may
      find nothing. */
  datatype RowView = Suggestions(best: seq<Scored>) | NoMatchTag | MatchedTag(candidate: Option<Item>)

  /** The row for `item`: pending items get the shortlist for their
      description, refused items the no-match tag, and matched items the
      first candidate record carrying the stored id, if any. */
  function ViewOf(item: Item, m: map<int, Decision>, candidates: seq<Item>): (v: RowView)
    ensures v.Suggestions? <==> item.id !in m
    ensures v.Suggestions? ==> |v.best| <= MaxSuggestions && Sorted(v.best)
                               && forall i :: 0 <= i < |v.best| ==> v.best[i].score > 0 && v.best[i].item in candidates
    ensures v.NoMatchTag? <==> item.id in m && m[item.id] == NoMatch
    ensures v.MatchedTag? && v.candidate.Some? ==>
              item.id in m && m[item.id] == MatchedTo(v.candidate.value.id) && v.candidate.value in candidates
    ensures v == MatchedTag(None) <==>
              item.id in m && m[item.id].MatchedTo?
              && forall i :: 0 <= i < |candidates| ==> candidates[i].id != m[item.id].cand
    ensures v.Suggestions? ==> v.best == FindBestMatches(item.description, candidates)
    ensures v.MatchedTag? ==> item.id in m && m[item.id].MatchedTo?
                              && v.candidate == FindById(candidates, m[item.id].cand)
  {
    match Status(m, item.id)
    case None => Suggestions(FindBestMatches(item.description, candidates))
    case Some(NoMatch) => NoMatchTag
    case Some(MatchedTo(c)) => MatchedTag(FindById(candidates, c))
  }

  // ---------------------------------------------------------------------------
  // The store

  /** The page's module-level state: the two catalogues, loaded once, the
      decision map and the current filter. */
  class ReviewStore {
    const primary: seq<Item>
    const candidates: seq<Item>
    var matches: map<int, Decision>
    var filterState: Filter

    /** Page start-up once both catalogues are loaded: the saved decisions,
        when storage held any, else an empty map; the filter starts at "all". */
    constructor (primary: seq<Item>, candidates: seq<Item>, saved: Option<map<int, Decision>>)
      ensures this.primary == primary && this.candidates == candidates
      ensures matches == (if saved.Some? then saved.value else map[])
      ensures filterState == All
    {
      this.primary := primary;
      this.candidates := candidates;
      matches := if saved.Some? then saved.value else map[];
      filterState := All;
    }

    function CurrentCounts(): Counts
      reads this
    {
      UpdateCounts(primary, matches)
    }

    /** The rows drawn under the current filter, with what each offers. */
    function Rows(): (rows: seq<(Item, RowView)>)
      reads this
      ensures |rows| == |Shown(filterState, primary, matches)|
      ensures forall i :: 0 <= i < |rows| ==>
                rows[i].0 == Shown(filterState, primary, matches)[i]
                && rows[i].1 == ViewOf(rows[i].0, matches, candidates)
      ensures forall x :: (exists i :: 0 <= i < |rows| && rows[i].0 == x) <==>
                x in primary && Visible(filterState, Status(matches, x.id))
      ensures forall i :: 0 <= i < |rows| ==>
                (rows[i].1.Suggestions? <==> rows[i].0.id !in matches)
                && (rows[i].1.Suggestions? ==>
                      rows[i].1.best == FindBestMatches(rows[i].0.description, candidates))
    {
      var shown, m, cands := Shown(filterState, primary, matches), matches, candidates;
      seq(|shown|, i requires 0 <= i < |shown| => (shown[i], ViewOf(shown[i], m, cands)))
    }

    /** Records that `primaryId` matches `candidateId`, whatever it held
        before; every other entry and the filter stay as they were. */
    method SelectMatch(primaryId: int, candidateId: int)
      modifies this
      ensures matches == old(matches)[primaryId := MatchedTo(candidateId)]
      ensures forall k :: k != primaryId ==> Status(matches, k) == Status(old(matches), k)
      ensures filterState == old(filterState)
    {
      matches := matches[primaryId := MatchedTo(candidateId)];
    }

    /** Records that `id` has no match, whatever it held before; every other
        entry and the filter stay as they were. */
    method MarkNoMatch(id: int)
      modifies this
      ensures matches == old(matches)[id := NoMatch]
      ensures forall k :: k != id ==> Status(matches, k) == Status(old(matches), k)
      ensures filterState == old(filterState)
      ensures old(id !in matches) && Occurrences(primary, id) == 1 ==>
                CurrentCounts().pending == old(CurrentCounts().pending) - 2
    {
      ghost var before := matches;
      matches := matches[id := NoMatch];
      if id !in before && Occurrences(primary, id) == 1 {
        MarkNoMatchLowersPendingByTwo(primary, before, id);
      }
    }

    /** The reset button: when the user confirms, every decision is dropped,
        so nothing is matched or refused and every item is pending. */
    method ClearSavedProgress(confirmed: bool)
      modifies this
      ensures matches == if confirmed then map[] else old(matches)
      ensures confirmed ==> CurrentCounts() == Counts(|primary|, 0, 0, |primary|)
      ensures filterState == old(filterState)
    {
      if confirmed {
        matches := map[];
        CountsAfterClear(primary);
      }
    }

    /** Import: the parsed file replaces the whole map, with no merge. */
    method ImportMatches(imported: map<int, Decision>)
      modifies this
      ensures matches == imported
      ensures filterState == old(filterState)
    {
      matches := imported;
    }

    method SetFilter(f: Filter)
      modifies this
      ensures filterState == f && matches == old(matches)
    {
      filterState := f;
    }
  }

  /** Decisions are last-write-wins: matching an item and then refusing it
      leaves it refused, exactly as if it had only been refused. */
  method MatchThenRefuse(store: ReviewStore, id: int, cand: int)
    modifies store
    ensures store.matches == old(store.matches)[id := NoMatch]
    ensures store.CurrentCounts() == UpdateCounts(store.primary, old(store.matches)[id := NoMatch])
  {
    store.SelectMatch(id, cand);
    store.MarkNoMatch(id);
  }
}
