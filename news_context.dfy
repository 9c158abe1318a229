/** The two places in news_app.py that number the search results from 1:
    the context text handed to the analysts (`get_search_context`) and the
    reference table shown under the report. */
module NewsContext {
  import opened Values
  import opened Text

  /** One search result, a dictionary read with `.get('url')` and
      `.get('content')`. */
  datatype SearchResult = SearchResult(url: Field<string>, content: Field<string>)

  /** What the search call gives back: the results, or the text of the
      exception it raised. */
  datatype SearchOutcome = Found(results: seq<SearchResult>) | Failed(message: string)

  /** The triple `(context_text, results, cofacts_txt)`. */
  datatype Context = Context(text: string, results: seq<SearchResult>, cofacts: string)

  /** `'-' * 20`. */
  const Rule := "--------------------"
  const LatestNews := "【Latest News】(Use [Source X])\n"
  const TableHeader := "| ID | Domain | Title | Link |\n|:---:|:---|:---|:---|\n"

  // ---------------------------------------------------------------------
  // The context text

  /** The fact-check block, when the fact-check text is non-empty. */
  function CofactsPart(cofacts: string): string
  {
    if cofacts != "" then cofacts + "\n" + Rule + "\n" else ""
  }

  /** The history block, when an earlier report is given and non-empty. */
  function HistoryPart(history: Option<string>): string
  {
    if history.Some? && history.value != "" then "【History】\n" + Take(history.value, 1000) + "...\n\n" else ""
  }

  /** The text in front of the numbered sources. */
  function ContextHead(cofacts: string, history: Option<string>): string
  {
    CofactsPart(cofacts) + HistoryPart(history) + LatestNews
  }

  /** The label of the `i`-th result (counting from 0). */
  function SourceLabel(i: nat): string
  {
    "Source " + NatToString(i + 1) + ": "
  }

  /** `f"Source {i+1}: {res.get('url')} | {str(res.get('content'))[:1000]}\n"`. */
  function SourceLine(i: nat, res: SearchResult): string
  {
    SourceLabel(i) + ShowStr(res.url, "None") + " | " + Take(ShowStr(res.content, "None"), 1000) + "\n"
  }

  /** The source lines of `rs`, numbered in list order. */
  function SourcesText(rs: seq<SearchResult>): string
  {
    if rs == [] then "" else SourcesText(rs[..|rs| - 1]) + SourceLine(|rs| - 1, rs[|rs| - 1])
  }

  /** `get_search_context` after the search: on an exception the error text
      and no results; otherwise the assembled text, the results and the
      fact-check text. The search itself and the fact-check lookup are
      inputs. */
  method GetSearchContext(outcome: SearchOutcome, cofacts: string, history: Option<string>) returns (c: Context)
    ensures outcome.Failed? ==> c == Context("Error: " + outcome.message, [], "")
    ensures outcome.Found? ==>
              c == Context(ContextHead(cofacts, history) + SourcesText(outcome.results), outcome.results, cofacts)
  {
    match outcome
    case Failed(msg) =>
      c := Context("Error: " + msg, [], "");
    case Found(results) =>
      var text := "";
      if cofacts != "" {
        text := cofacts + "\n" + Rule + "\n";
      }
      assert text == CofactsPart(cofacts);
      if history.Some? && history.value != "" {
        text := text + ("【History】\n" + Take(history.value, 1000) + "...\n\n");
      }
      assert text == CofactsPart(cofacts) + HistoryPart(history);
      text := text + LatestNews;
      text := AppendSources(text, results);
      c := Context(text, results, cofacts);
  }

  /** The loop of `get_search_context` over the results. */
  method AppendSources(head: string, results: seq<SearchResult>) returns (text: string)
    ensures text == head + SourcesText(results)
  {
    text := head;
    for i := 0 to |results|
      invariant text == head + SourcesText(results[..i])
    {
      SourcesSnoc(results, i);
      Regroup(head, SourcesText(results[..i]), SourceLine(i, results[i]));
      text := text + SourceLine(i, results[i]);
    }
    assert results[..|results|] == results;
  }

  lemma {:induction false} SourcesSnoc(results: seq<SearchResult>, i: nat)
    requires i < |results|
    ensures SourcesText(results[..i + 1]) == SourcesText(results[..i]) + SourceLine(i, results[i])
  {
    assert results[..i + 1][..i] == results[..i];
  }

  /** Reading the number after "Source " gives back `i + 1`. */
  lemma {:induction false} SourceNumberRoundTrip(i: nat, res: SearchResult)
    ensures StartsWith(SourceLine(i, res), "Source ")
    ensures var rest := SourceLine(i, res)[7..];
            forall k :: 0 <= k < |LeadingDigits(rest)| ==> IsDigit(LeadingDigits(rest)[k])
    ensures DigitsValue(LeadingDigits(SourceLine(i, res)[7..])) == i + 1
  {
    SourceNumber(i, res);
    assert SourceLine(i, res)[..7] == "Source ";
    DigitsValueOfNatToString(i + 1);
  }

  /** Different positions get different labels. */
  lemma {:induction false} SourceLabelsDistinct(i: nat, j: nat)
    ensures SourceLabel(i) == SourceLabel(j) ==> i == j
  {
    DropHead("Source ", NatToString(i + 1), ": ");
    DropHead("Source ", NatToString(j + 1), ": ");
    LeadingDigitsOfDigits(NatToString(i + 1), ": ");
    LeadingDigitsOfDigits(NatToString(j + 1), ": ");
    NatToStringInjective(i + 1, j + 1);
  }

  /** A source line shows at most 1000 characters of the content, and they
      are its first ones; the history block likewise shows at most 1000
      characters of the earlier report. */
  lemma {:induction false} ContentCapped(i: nat, res: SearchResult, history: Option<string>)
    ensures var c := ShowStr(res.content, "None");
            var shown := Take(c, 1000);
            |shown| <= 1000 && StartsWith(c, shown)
            && SourceLine(i, res) == SourceLabel(i) + ShowStr(res.url, "None") + " | " + shown + "\n"
    ensures history.Some? && history.value != "" ==>
              var shown := Take(history.value, 1000);
              |shown| <= 1000 && StartsWith(history.value, shown)
              && HistoryPart(history) == "【History】\n" + shown + "...\n\n"
    ensures history.None? || history.value == "" ==> HistoryPart(history) == ""
  {
  }

  /** The source lines come in list order: the text for the first `k`
      results followed by the line of result `k` starts the whole text. */
  lemma {:induction false} SourcesInOrder(rs: seq<SearchResult>, k: nat)
    requires k < |rs|
    decreases |rs|
    ensures StartsWith(SourcesText(rs), SourcesText(rs[..k]) + SourceLine(k, rs[k]))
  {
    var p := SourcesText(rs[..k]) + SourceLine(k, rs[k]);
    if k == |rs| - 1 {
      assert SourcesText(rs) == p;
    } else {
      var front := rs[..|rs| - 1];
      assert front[..k] == rs[..k] && front[k] == rs[k];
      SourcesInOrder(front, k);
      assert SourcesText(rs) == SourcesText(front) + SourceLine(|rs| - 1, rs[|rs| - 1]);
      PrefixKept(SourcesText(front), SourceLine(|rs| - 1, rs[|rs| - 1]), |p|);
    }
  }

  // ---------------------------------------------------------------------
  // The reference table

  /** `s.get('content', '')[:60].replace("\n", " ").replace("|", " ") + "..."`;
      a null content makes the slice raise, which `None` stands for. */
  function TitleCell(content: Field<string>): Option<string>
  {
    match content
    case Null => None
    case Missing => Some(ShortTitle(""))
    case Present(s) => Some(ShortTitle(s))
  }

  function ShortTitle(s: string): string
  {
    ReplaceChar(ReplaceChar(Take(s, 60), '\n', ' '), '|', ' ') + "..."
  }

  /** One row of the table. */
  function TableRow(i: nat, domain: string, title: string, url: Field<string>): string
  {
    "| **" + NatToString(i + 1) + RowCells(domain, title, url)
  }

  /** The row after its number. */
  function RowCells(domain: string, title: string, url: Field<string>): string
  {
    "** | `" + domain + "` | " + title + " | [Link](" + ShowStr(url, "None") + ") |\n"
  }

  /** The rows of `sources`, or `None` when one of them has a null content. */
  function TableRows(sources: seq<SearchResult>, domainOf: Field<string> -> string): Option<string>
  {
    if sources == [] then Some("")
    else
      var front := TableRows(sources[..|sources| - 1], domainOf);
      var last := sources[|sources| - 1];
      var title := TitleCell(last.content);
      if front.None? || title.None? then None
      else Some(front.value + TableRow(|sources| - 1, domainOf(last.url), title.value, last.url))
  }

  /** The reference table (`md_table`): the header, then one row per source;
      `domainOf` is `get_domain_name`. */
  method ReferenceTable(sources: seq<SearchResult>, domainOf: Field<string> -> string) returns (r: Option<string>)
    ensures r.Some? <==> TableRows(sources, domainOf).Some?
    ensures r.Some? ==> r.value == TableHeader + TableRows(sources, domainOf).value
  {
    var rows := "";
    assert sources[..0] == [];
    for i := 0 to |sources|
      invariant TableRows(sources[..i], domainOf) == Some(rows)
    {
      var s := sources[i];
      var title := TitleCell(s.content);
      TableRowsStep(sources, i, domainOf);
      if title.None? {
        PrefixFailure(sources, i + 1, domainOf);
        return None;
      }
      rows := rows + TableRow(i, domainOf(s.url), title.value, s.url);
    }
    assert sources[..|sources|] == sources;
    r := Some(TableHeader + rows);
  }

  /** The rows of the first `i + 1` sources extend those of the first `i`. */
  lemma {:induction false} TableRowsStep(sources: seq<SearchResult>, i: nat, domainOf: Field<string> -> string)
    requires i < |sources| && TableRows(sources[..i], domainOf).Some?
    ensures var s := sources[i];
            var title := TitleCell(s.content);
            TableRows(sources[..i + 1], domainOf)
              == if title.None? then None
                 else Some(TableRows(sources[..i], domainOf).value + TableRow(i, domainOf(s.url), title.value, s.url))
  {
    assert sources[..i + 1][..i] == sources[..i];
    assert sources[..i + 1][i] == sources[i];
  }

  /** A title cell holds no `|` and no line break, shows at most 60
      characters of the content, and ends with "...". */
  lemma {:induction false} TitleClean(content: Field<string>)
    ensures TitleCell(content).Some? <==> !content.Null?
    ensures TitleCell(content).Some? ==>
              var t := TitleCell(content).value;
              '|' !in t && '\n' !in t && |t| <= 63 && t[|t| - 3..] == "..."
  {
    if !content.Null? {
      var s := if content.Present? then content.value else "";
      var a := ReplaceChar(ReplaceChar(Take(s, 60), '\n', ' '), '|', ' ');
      assert '\n' !in a;
      assert (a + "...")[|a|..] == "...";
    }
  }

  /** A null content anywhere stops the table. */
  lemma {:induction false} NullStopsTable(sources: seq<SearchResult>, i: nat, domainOf: Field<string> -> string)
    requires i < |sources| && sources[i].content.Null?
    decreases |sources|
    ensures TableRows(sources, domainOf).None?
  {
    if i < |sources| - 1 {
      var front := sources[..|sources| - 1];
      assert front[i] == sources[i];
      NullStopsTable(front, i, domainOf);
    }
  }

  /** A failing prefix makes the whole table fail. */
  lemma {:induction false} PrefixFailure(sources: seq<SearchResult>, n: nat, domainOf: Field<string> -> string)
    requires n <= |sources| && TableRows(sources[..n], domainOf).None?
    decreases |sources| - n
    ensures TableRows(sources, domainOf).None?
  {
    if n == |sources| {
      assert sources[..n] == sources;
    } else {
      var longer := sources[..n + 1];
      assert longer[..n] == sources[..n];
      PrefixFailure(sources, n + 1, domainOf);
    }
  }

  /** Without null contents the table is built, one row per source. */
  lemma {:induction false} NoNullBuildsTable(sources: seq<SearchResult>, domainOf: Field<string> -> string)
    requires forall i :: 0 <= i < |sources| ==> !sources[i].content.Null?
    decreases |sources|
    ensures TableRows(sources, domainOf).Some?
  {
    if sources != [] {
      var front := sources[..|sources| - 1];
      assert forall i :: 0 <= i < |front| ==> front[i] == sources[i];
      NoNullBuildsTable(front, domainOf);
    }
  }

  /** The table and the context text number the same list the same way:
      row `i` and source line `i` both carry the number `i + 1`. */
  lemma {:induction false} RowNumberMatchesSource(i: nat, domain: string, title: string, res: SearchResult)
    ensures StartsWith(TableRow(i, domain, title, res.url), "| **")
    ensures var row := TableRow(i, domain, title, res.url);
            LeadingDigits(row[4..]) == LeadingDigits(SourceLine(i, res)[7..]) == NatToString(i + 1)
  {
    RowNumber(i, domain, title, res.url);
    SourceNumber(i, res);
  }

  lemma {:induction false} RowNumber(i: nat, domain: string, title: string, url: Field<string>)
    ensures StartsWith(TableRow(i, domain, title, url), "| **")
    ensures LeadingDigits(TableRow(i, domain, title, url)[4..]) == NatToString(i + 1)
  {
    var d := NatToString(i + 1);
    var row := TableRow(i, domain, title, url);
    var tail := RowCells(domain, title, url);
    DropHead("| **", d, tail);
    assert tail[0] == '*';
    LeadingDigitsOfDigits(d, tail);
  }

  lemma {:induction false} SourceNumber(i: nat, res: SearchResult)
    ensures LeadingDigits(SourceLine(i, res)[7..]) == NatToString(i + 1)
  {
    var d := NatToString(i + 1);
    var line := SourceLine(i, res);
    var rest := ": " + ShowStr(res.url, "None") + " | " + Take(ShowStr(res.content, "None"), 1000) + "\n";
    assert line == "Source " + (d + rest);
    DropHead("Source ", d, rest);
    LeadingDigitsOfDigits(d, rest);
  }
}
