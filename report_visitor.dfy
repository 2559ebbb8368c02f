/** `gitlab.renue.report.JsonReportVisitor`: collects the results of the searches, in the
    order they are visited, and writes them as one JSON document whose result objects each
    take one line. The output file path only serves `writeToFile`, which is not part of
    this model. */
module ReportJsonVisitor {
  import opened JsonText

  /** One result object on a single line. */
  function Entry(r: SearchResult): string {
    "    {\"search\": \"" + EscapedOrNull(r.search) + "\", "
    + "\"result\": " + ListText(r.result) + ", "
    + "\"time\": " + IntText(r.time) + "}"
  }

  /** The object takes exactly one line: none of its parts holds a line break. */
  lemma EntryOneLine(r: SearchResult)
    ensures '\n' !in Entry(r)
    ensures Entry(r)[|Entry(r)| - 1] == '}'
  {
    var q := EscapedOrNull(r.search);
    if r.search.Some? {
      EscapedNoBreak(r.search.value);
    } else {
      assert '\n' !in q by { assert q == "null"; }
    }
    ListTextShape(r.result);
    IntTextValue(r.time);
    EntryLayout(r);
  }

  /** The object's text as its fixed pieces around the query, the list and the time; no
      fixed piece holds a line break. */
  lemma EntryLayout(r: SearchResult)
    ensures Entry(r) == "    {\"search\": \"" + EscapedOrNull(r.search) + "\", \"result\": "
                       + ListText(r.result) + ", \"time\": " + IntText(r.time) + "}"
    ensures '\n' !in "    {\"search\": \"" && '\n' !in "\", \"result\": " && '\n' !in ", \"time\": "
  {
    assert "\", " + "\"result\": " == "\", \"result\": ";
    assert ", " + "\"time\": " == ", \"time\": ";
  }

  /** The result objects for `results`, in order. */
  function Entries(results: seq<SearchResult>): (es: seq<string>)
    ensures |es| == |results|
  {
    seq(|results|, i requires 0 <= i < |results| => Entry(results[i]))
  }

  /** One more visited result adds one more object at the end and leaves the others. */
  lemma EntriesAppend(results: seq<SearchResult>, r: SearchResult)
    ensures Entries(results + [r]) == Entries(results) + [Entry(r)]
  {
  }

  class JsonReportVisitor {
    const initTime: int
    var results: seq<SearchResult>

    constructor(initTime: int)
      ensures this.initTime == initTime && results == []
    {
      this.initTime := initTime;
      results := [];
    }

    /** Appends `result` to the collected results. */
    method Visit(result: SearchResult)
      modifies this
      ensures results == old(results) + [result]
    {
      results := results + [result];
    }

    /** The report: the header with `initTime`, one object per collected result in visit
        order, a comma after every object but the last, and the footer. */
    method ToJson() returns (json: string)
      ensures json == Document(initTime, Entries(results))
    {
      json := "{\n  \"initTime\": " + IntText(initTime) + ",\n  \"result\": [\n";
      ghost var entries := Entries(results);
      for i := 0 to |results|
        invariant json == Header(initTime) + Lines(entries, i)
      {
        var result := results[i];
        var search := EscapeJson(result.search);
        var line := "    {\"search\": \"" + search + "\", "
                    + "\"result\": " + ListText(result.result) + ", "
                    + "\"time\": " + IntText(result.time) + "}";
        assert line == Entry(result) == entries[i];
        var comma := if i < |results| - 1 then "," else "";
        LinesStep(Header(initTime), entries, i);
        json := json + line + comma + "\n";
      }
      json := json + "  ]\n}";
    }
  }
}
