/**
 * `JSEScraper.fetch_tables` once the page is in hand: pick the tables by their
 * position on the weekly quotes page and name them. The page's tables come in
 * document order, each with what `pd.read_html` made of it (`None` when
 * parsing it raised, which the method's handler turns into `None` as well).
 */
module Scraper {
  import opened Wrappers
  import opened Frames

  /** The market indices, the ordinary share quotes and the preference share
      quotes sit first, third and fifth on the page. */
  const IndicesKey: string := "Table 1"
  const OrdinaryKey: string := "Table 3"
  const PreferenceKey: string := "Table 5"

  /** The fewest tables the page must hold. */
  const RequiredTables: nat := 5

  /** What the parser may hand over: well-formed tables. */
  predicate ParsedWellFormed(page: seq<Option<Dataset>>) {
    forall k :: 0 <= k < |page| && page[k].Some? ==> WellFormed(page[k].value)
  }

  /** The table set: indices as parsed; both quote tables cleaned. Either all
      three tables or nothing: fewer than five tables on the page, or a table
      at position 0, 2 or 4 that does not parse, gives `None`. */
  function FetchTables(page: seq<Option<Dataset>>): (r: Option<map<string, Dataset>>)
    requires ParsedWellFormed(page)
    ensures |page| < RequiredTables ==> r == None
    ensures r.Some? <==> |page| >= RequiredTables && page[0].Some? && page[2].Some? && page[4].Some?
    ensures r.Some? ==> r.value.Keys == {IndicesKey, OrdinaryKey, PreferenceKey}
    ensures r.Some? ==> r.value[IndicesKey] == page[0].value
    ensures r.Some? ==> r.value[OrdinaryKey] == Clean(page[2].value) && r.value[PreferenceKey] == Clean(page[4].value)
  {
    if |page| < RequiredTables then None
    else if page[0].None? || page[2].None? || page[4].None? then None
    else Some(map[IndicesKey := page[0].value,
                  OrdinaryKey := Clean(page[2].value),
                  PreferenceKey := Clean(page[4].value)])
  }

  /** The tables at positions 1 and 3, and any after position 4, play no part. */
  lemma FetchIgnoresOtherPositions(page: seq<Option<Dataset>>, other: seq<Option<Dataset>>)
    requires ParsedWellFormed(page) && ParsedWellFormed(other)
    requires |page| >= RequiredTables && |other| >= RequiredTables
    requires page[0] == other[0] && page[2] == other[2] && page[4] == other[4]
    ensures FetchTables(page) == FetchTables(other)
  {
  }

  /** Every table fetched is well formed and the quote tables hold no
      "Unnamed" column, while they keep every row they were parsed with. */
  lemma FetchedQuotesAreClean(page: seq<Option<Dataset>>, key: string, l: Label)
    requires ParsedWellFormed(page)
    requires FetchTables(page).Some? && key in {OrdinaryKey, PreferenceKey}
    requires l in FetchTables(page).value[key].columns
    ensures WellFormed(FetchTables(page).value[key])
    ensures !IsUnnamed(l)
    ensures |FetchTables(page).value[key].rows| == |page[if key == OrdinaryKey then 2 else 4].value.rows|
  {
    var src := page[if key == OrdinaryKey then 2 else 4].value;
    CleanRemovesExactlyUnnamed(src, l);
  }
}
