/**
 * The scraper's entry point: collect the records under the two limits, then write them
 * out and return the file name, or None when no file was produced.
 */
module Scraper {
  import opened Wrappers
  import opened Catalogue
  import opened Pagination
  import opened Writer

  /**
   * One run over `catalogue`, with `writeSucceeds` standing for whether writing the CSV
   * file succeeds. `output` is what the write step does to the file system.
   */
  method ScrapeBookDetailsWithDualLimits(catalogue: seq<CataloguePage>, writeSucceeds: bool)
    returns (file: Option<string>, output: SaveOutcome)
    ensures output == Save(Expected(catalogue).records, writeSucceeds)
    ensures file.Some? <==> Expected(catalogue).records != [] && writeSucceeds
    ensures file.Some? ==> file.value == OutputFileName
  {
    var run := CollectRecords(catalogue);
    output := Save(run.records, writeSucceeds);
    file := if output.Saved? then Some(output.fileName) else None;
  }
}
