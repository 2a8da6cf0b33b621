/**
 * The dashboard's `main`: the tables the scraper fetched feed the analyser's
 * market-wide table.
 */
module Dashboard {
  import opened Wrappers
  import opened Frames
  import opened Scraper
  import opened Analyzer

  /** The market-wide table the summary ranks: the default keys always find
      both quote tables, and the stack holds all their rows; when the cleaned
      tables share their labels, ordinary shares come first. */
  lemma CombineFetchedQuotes(page: seq<Option<Dataset>>)
    requires ParsedWellFormed(page) && FetchTables(page).Some?
    ensures var t := FetchTables(page).value;
            var c := CombineTables(t, DefaultKeys);
            && c.Success?
            && |c.value.rows| == |page[2].value.rows| + |page[4].value.rows|
            && (Clean(page[2].value).columns == Clean(page[4].value).columns ==>
                  c.value.rows == Clean(page[2].value).rows + Clean(page[4].value).rows)
  {
    var t := FetchTables(page).value;
    assert DefaultKeys == [OrdinaryKey, PreferenceKey];
    CombineTwoTables(t, OrdinaryKey, PreferenceKey);
  }
}
