/**
 * The chooser's list: the catalog filtered by the search query, one row per
 * match with the current language marked, or a single "no results" row.
 */
module ChooserList {
  import opened Text
  import opened Sequences

  /** The search field's value, trimmed and lower-cased. */
  function NormalizeQuery(value: string): string
  {
    Lower(Trim(value))
  }

  /** The loop's test: an empty query keeps every language, otherwise the lower-cased name must contain it. */
  predicate Matches(lang: string, q: string)
  {
    q == [] || Includes(Lower(lang), q)
  }

  /** The languages that match `q`, in catalog order. */
  function FilterLangs(langs: seq<string>, q: string): seq<string>
  {
    if langs == [] then []
    else
      var last := langs[|langs| - 1];
      FilterLangs(langs[..|langs| - 1], q) + (if Matches(last, q) then [last] else [])
  }

  /** The positions of the matching languages, ascending. */
  function MatchPositions(langs: seq<string>, q: string): seq<nat>
  {
    if langs == [] then []
    else
      var n := |langs| - 1;
      MatchPositions(langs[..n], q) + (if Matches(langs[n], q) then [n] else [])
  }

  /** A row of the rendered list. */
  datatype Row = Item(lang: string, selected: bool) | NoResults

  /** One item per language, marked when it equals `selected`. */
  function ItemRows(langs: seq<string>, selected: string): seq<Row>
  {
    seq(|langs|, i requires 0 <= i < |langs| => Item(langs[i], langs[i] == selected))
  }

  /** What `_renderLangChooserList` leaves in the list element. */
  function ListRows(langs: seq<string>, q: string, selected: string): seq<Row>
  {
    var items := ItemRows(FilterLangs(langs, q), selected);
    if |items| == 0 then [NoResults] else items
  }

  /** The languages of the item rows, in order. */
  function Shown(rows: seq<Row>): seq<string>
  {
    if rows == [] then []
    else (if rows[0].Item? then [rows[0].lang] else []) + Shown(rows[1..])
  }

  /** How many placeholder rows there are. */
  function Placeholders(rows: seq<Row>): nat
  {
    if rows == [] then 0 else (if rows[0].NoResults? then 1 else 0) + Placeholders(rows[1..])
  }

  /** How many item rows are marked selected. */
  function SelectedCount(rows: seq<Row>): nat
  {
    if rows == [] then 0
    else (if rows[0].Item? && rows[0].selected then 1 else 0) + SelectedCount(rows[1..])
  }

  /**
   * The list rendering loop: walks the catalog, appends an item for each
   * match and counts them, then appends the placeholder if nothing matched.
   */
  method BuildRows(langs: seq<string>, q: string, selected: string) returns (rows: seq<Row>)
    ensures rows == ListRows(langs, q, selected)
  {
    rows := [];
    var count := 0;
    for i := 0 to |langs|
      invariant rows == ItemRows(FilterLangs(langs[..i], q), selected)
      invariant count == |rows|
    {
      var lang := langs[i];
      assert langs[..i + 1][..i] == langs[..i];
      if q != [] && !Includes(Lower(lang), q) {
        continue;
      }
      rows := rows + [Item(lang, lang == selected)];
      count := count + 1;
    }
    assert langs[..|langs|] == langs;
    if count == 0 {
      rows := rows + [NoResults];
    }
  }

  // ---------------------------------------------------------------- the filter

  /** The result is the catalog's matching entries, taken from ascending positions: an order-preserving subsequence. */
  lemma {:induction false} FilterIsSubsequence(langs: seq<string>, q: string)
    ensures IsEmbedding(MatchPositions(langs, q), FilterLangs(langs, q), langs)
    ensures forall i :: 0 <= i < |langs| ==> (i in MatchPositions(langs, q) <==> Matches(langs[i], q))
  {
    if langs != [] {
      var n := |langs| - 1;
      var init := langs[..n];
      FilterIsSubsequence(init, q);
      var idx, a := MatchPositions(init, q), FilterLangs(init, q);
      assert forall k :: 0 <= k < |idx| ==> idx[k] < n;
      forall i | 0 <= i < n ensures (i in MatchPositions(langs, q) <==> Matches(langs[i], q)) {
        assert langs[i] == init[i];
      }
    }
  }

  /** A language occurs in the result as often as in the catalog when it matches, and not at all otherwise. */
  lemma {:induction false} FilterCount(langs: seq<string>, q: string, x: string)
    ensures multiset(FilterLangs(langs, q))[x] == if Matches(x, q) then multiset(langs)[x] else 0
    ensures x in FilterLangs(langs, q) <==> x in langs && Matches(x, q)
  {
    if langs != [] {
      var n := |langs| - 1;
      FilterCount(langs[..n], q, x);
      assert langs == langs[..n] + [langs[n]];
    }
    assert x in FilterLangs(langs, q) <==> x in multiset(FilterLangs(langs, q));
    assert x in langs <==> x in multiset(langs);
  }

  /** Every shown language contains the normalised query as a substring. */
  lemma FilterMatchesSubstring(langs: seq<string>, q: string, x: string)
    requires x in FilterLangs(langs, q)
    ensures exists i :: OccursAt(Lower(x), q, i)
  {
    FilterCount(langs, q, x);
    IncludesIffOccurs(Lower(x), q);
    if q == [] {
      assert OccursAt(Lower(x), q, 0);
    }
  }

  lemma {:induction false} FilterEmptyQuery(langs: seq<string>)
    ensures FilterLangs(langs, []) == langs
  {
    if langs != [] {
      FilterEmptyQuery(langs[..|langs| - 1]);
    }
  }

  /** An empty or whitespace-only search shows the whole catalog. */
  lemma BlankQueryShowsAll(langs: seq<string>, value: string)
    requires forall i :: 0 <= i < |value| ==> IsJsWhitespace(value[i])
    ensures NormalizeQuery(value) == []
    ensures FilterLangs(langs, NormalizeQuery(value)) == langs
  {
    TrimIsEmptyIffBlank(value);
    FilterEmptyQuery(langs);
  }

  // ---------------------------------------------------------------- the rows

  lemma {:induction false} ItemRowsShape(langs: seq<string>, selected: string)
    ensures Shown(ItemRows(langs, selected)) == langs
    ensures Placeholders(ItemRows(langs, selected)) == 0
    ensures SelectedCount(ItemRows(langs, selected)) == multiset(langs)[selected]
  {
    if langs != [] {
      ItemRowsShape(langs[1..], selected);
      assert ItemRows(langs, selected)[1..] == ItemRows(langs[1..], selected);
      assert langs == [langs[0]] + langs[1..];
    }
  }

  /** The items are exactly the matches, and there is one placeholder row exactly when nothing matches. */
  lemma ListRowsShape(langs: seq<string>, q: string, selected: string)
    ensures Shown(ListRows(langs, q, selected)) == FilterLangs(langs, q)
    ensures Placeholders(ListRows(langs, q, selected)) == if FilterLangs(langs, q) == [] then 1 else 0
  {
    ItemRowsShape(FilterLangs(langs, q), selected);
  }

  /**
   * Only an item equal to the current language is marked, and in a catalog
   * without repetitions exactly one item is marked when that language is shown.
   */
  lemma SelectionMark(langs: seq<string>, q: string, selected: string)
    ensures forall r :: r in ListRows(langs, q, selected) && r.Item? && r.selected ==> r.lang == selected
    ensures Distinct(langs) ==>
              SelectedCount(ListRows(langs, q, selected)) == if selected in FilterLangs(langs, q) then 1 else 0
  {
    var shown := FilterLangs(langs, q);
    ItemRowsShape(shown, selected);
    FilterCount(langs, q, selected);
    if Distinct(langs) {
      DistinctCount(langs, selected);
    }
    assert selected in shown <==> selected in multiset(shown);
  }

  /** The list shown on opening, with an empty query, lists the whole catalog. */
  lemma OpenListShowsCatalog(langs: seq<string>, selected: string)
    ensures Shown(ListRows(langs, NormalizeQuery(""), selected)) == langs
  {
    BlankQueryShowsAll(langs, "");
    ListRowsShape(langs, [], selected);
  }

}
