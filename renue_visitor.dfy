/** `gitlab.renue.JsonReportVisitor`: collects the results of the searches, in the order
    they are visited, and writes them as one JSON document whose result objects are spread
    over five lines each. The start time is 0 until it is set. The output file path only
    serves `writeToFile`, which is not part of this model. */
module RenueJsonVisitor {
  import opened JsonText

  /** One result object over five lines (the last line break is added by the caller). */
  function Entry(r: SearchResult): string {
    "    {\n"
    + "      \"search\": \"" + EscapedOrNull(r.search) + "\",\n"
    + "      \"result\": " + ListText(r.result) + ",\n"
    + "      \"time\": " + IntText(r.time) + "\n"
    + "    }"
  }

  /** The object spreads over exactly five lines: its text holds four line breaks, all
      of them from the layout, since none of its parts holds one. */
  lemma EntryFiveLines(r: SearchResult)
    ensures multiset(Entry(r))['\n'] == 4
  {
    var q := EscapedOrNull(r.search);
    if r.search.Some? {
      EscapedNoBreak(r.search.value);
    } else {
      assert '\n' !in q by { assert q == "null"; }
    }
    ListTextShape(r.result);
    IntTextValue(r.time);
    var p1 := "      \"search\": \"" + q + "\",";
    var p2 := "      \"result\": " + ListText(r.result) + ",";
    var p3 := "      \"time\": " + IntText(r.time);
    assert '\n' !in p1 && '\n' !in p2 && '\n' !in p3;
    EntryLayout(r);
    CountBreaks("    {", p1, p2, p3, "    }");
  }

  /** The object's text regrouped line by line. */
  lemma EntryLayout(r: SearchResult)
    ensures Entry(r) == "    {" + "\n" + ("      \"search\": \"" + EscapedOrNull(r.search) + "\",") + "\n"
                       + ("      \"result\": " + ListText(r.result) + ",") + "\n"
                       + ("      \"time\": " + IntText(r.time)) + "\n" + "    }"
  {
    assert "    {\n" == "    {" + "\n";
    assert "\",\n" == "\"," + "\n";
    assert ",\n" == "," + "\n";
  }

  /** Five line-break-free pieces, separated by line breaks, hold four of them. */
  lemma CountBreaks(p0: string, p1: string, p2: string, p3: string, p4: string)
    requires '\n' !in p0 && '\n' !in p1 && '\n' !in p2 && '\n' !in p3 && '\n' !in p4
    ensures multiset(p0 + "\n" + p1 + "\n" + p2 + "\n" + p3 + "\n" + p4)['\n'] == 4
  {
    assert multiset(p0)['\n'] == 0 && multiset(p1)['\n'] == 0 && multiset(p2)['\n'] == 0;
    assert multiset(p3)['\n'] == 0 && multiset(p4)['\n'] == 0;
    assert multiset("\n")['\n'] == 1;
  }

  /** The result objects for `results`, in order. */
  function Entries(results: seq<SearchResult>): (es: seq<string>)
    ensures |es| == |results|
  {
    seq(|results|, i requires 0 <= i < |results| => Entry(results[i]))
  }

  /** One more visited result adds one more object at the end and leaves the others. */
  lemma EntriesAppend(results: seq<SearchResult>, r: SearchResult)
    ensures Entries(results + [r]) == Entries(results) + [Entry(r)]
  {
  }

  /** The three lines of the opening, written one at a time, make up the header. */
  lemma RenueHeader(initTime: int)
    ensures "{\n" + "  \"initTime\": " + IntText(initTime) + ",\n" + "  \"result\": [\n" == Header(initTime)
  {
    assert "{\n" + "  \"initTime\": " == "{\n  \"initTime\": ";
    assert ",\n" + "  \"result\": [\n" == ",\n  \"result\": [\n";
  }

  class JsonReportVisitor {
    var initTime: int
    var results: seq<SearchResult>

    constructor()
      ensures initTime == 0 && results == []
    {
      initTime := 0;
      results := [];
    }

    /** Overwrites the start time and nothing else. */
    method SetInitTime(initTime: int)
      modifies this
      ensures this.initTime == initTime && results == old(results)
    {
      this.initTime := initTime;
    }

    /** Appends `result` to the collected results. */
    method Visit(result: SearchResult)
      modifies this
      ensures results == old(results) + [result] && initTime == old(initTime)
    {
      results := results + [result];
    }

    /** The report: the header with `initTime`, one object per collected result in visit
        order, a comma after every object but the last, and the footer. */
    method ToJson() returns (json: string)
      ensures json == Document(initTime, Entries(results))
    {
      json := "{\n";
      json := json + "  \"initTime\": " + IntText(initTime) + ",\n";
      json := json + "  \"result\": [\n";
      RenueHeader(initTime);
      ghost var entries := Entries(results);
      for i := 0 to |results|
        invariant json == Header(initTime) + Lines(entries, i)
      {
        var result := results[i];
        var search := EscapeJson(result.search);
        var line := "    {\n"
                    + "      \"search\": \"" + search + "\",\n"
                    + "      \"result\": " + ListText(result.result) + ",\n"
                    + "      \"time\": " + IntText(result.time) + "\n"
                    + "    }";
        assert line == Entry(result) == entries[i];
        var comma := if i < |results| - 1 then "," else "";
        LinesStep(Header(initTime), entries, i);
        json := json + line + comma + "\n";
      }
      ghost var body := json;
      json := json + "  ]\n";
      json := json + "}";
      assert "  ]\n" + "}" == Footer();
      assert json == body + Footer();
    }
  }
}
