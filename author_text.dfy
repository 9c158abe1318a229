/** The three ways academic_app.py writes out an author list: in the
    paper lines of the analysis prompt (`format_paper`), in the evolution
    table (`get_auth_display`) and in the bibliography (the author HTML). */
module AuthorText {
  import opened Values
  import opened Text
  import opened Papers

  // ---------------------------------------------------------------------
  // format_paper

  /** `[a.get('name', '?') for a in authors]` as the argument of
      `", ".join`: a null name makes the join raise. */
  function JoinNames(authors: seq<Author>): (r: Option<seq<string>>)
    ensures r.Some? <==> forall i :: 0 <= i < |authors| ==> !authors[i].name.Null?
    ensures r.Some? ==> |r.value| == |authors|
                        && forall i :: 0 <= i < |authors| ==> r.value[i] == ShowStr(authors[i].name, "?")
  {
    if authors == [] then Some([])
    else
      var rest := JoinNames(authors[1..]);
      assert forall i :: 1 <= i < |authors| ==> authors[i] == authors[1..][i - 1];
      if authors[0].name.Null? || rest.None? then None
      else Some([ShowStr(authors[0].name, "?")] + rest.value)
  }

  /** `auth_str`: "Unknown", all names joined, or the first and the last
      three; `None` where the join raises. */
  function AuthorsLine(authors: seq<Author>): Option<string>
  {
    if authors == [] then Some("Unknown")
    else if |authors| <= 4 then
      match JoinNames(authors)
      case None => None
      case Some(names) => Some(Join(names, ", "))
    else
      match JoinNames(authors[|authors| - 3..])
      case None => None
      case Some(last3) => Some("First:" + ShowStr(authors[0].name, "?") + " ... Last3:" + Join(last3, ", "))
  }

  /** The line `format_paper(p, code)` returns, or `None` where it raises. */
  function FormatPaper(p: Paper, code: string): Option<string>
  {
    match AuthorsLine(AuthorsOf(p))
    case None => None
    case Some(a) => Some(HeadColumn(p, code) + "|" + (" " + a + " ") + "|" + CitedColumn(p))
  }

  /** The text of a paper line before its first '|'. */
  function HeadColumn(p: Paper, code: string): string
  {
    "[" + code + "] " + ShowStr(p.title, "Unknown Title") + " (" + ShowInt(p.year, "N/A") + ") "
  }

  /** The text of a paper line after its last '|'. */
  function CitedColumn(p: Paper): string
  {
    " Cited:" + ShowInt(p.citationCount, "0")
  }

  /** The author line fails exactly when a name it joins is null: any name
      for up to four authors, one of the last three for more (the first
      name is printed by an f-string, which shows a null as "None"). */
  lemma {:induction false} AuthorsLineFails(authors: seq<Author>)
    ensures AuthorsLine(authors).None? <==>
            if |authors| <= 4 then exists i :: 0 <= i < |authors| && authors[i].name.Null?
            else exists i :: |authors| - 3 <= i < |authors| && authors[i].name.Null?
  {
    if |authors| > 4 {
      var last3 := authors[|authors| - 3..];
      assert forall i :: |authors| - 3 <= i < |authors| ==> authors[i] == last3[i - (|authors| - 3)];
    }
  }

  /** Up to four authors are all listed, in order: read back with
      `split(',')`, the line gives every name (after the first with the
      separator's space in front), provided no name holds a comma. */
  lemma {:induction false} ShortAuthorsReadBack(authors: seq<Author>)
    requires 1 <= |authors| <= 4
    requires forall i :: 0 <= i < |authors| ==> !authors[i].name.Null? && ',' !in ShowStr(authors[i].name, "?")
    ensures AuthorsLine(authors).Some?
    ensures var names := JoinNames(authors).value;
            Split(AuthorsLine(authors).value, ',') == [names[0]] + Prefixed(names[1..])
            && forall i :: 0 <= i < |authors| ==> names[i] == ShowStr(authors[i].name, "?")
  {
    SplitCommaJoin(JoinNames(authors).value);
  }

  /** No authors give "Unknown"; more than four give the first name and the
      last three, each shown as `a.get('name', '?')` shows it, in the frame
      "First:… ... Last3:…, …, …". */
  lemma {:induction false} AuthorsLineText(authors: seq<Author>)
    ensures authors == [] ==> AuthorsLine(authors) == Some("Unknown")
    ensures var n := |authors|;
            n > 4 && !authors[n - 3].name.Null? && !authors[n - 2].name.Null? && !authors[n - 1].name.Null? ==>
              AuthorsLine(authors) == Some("First:" + ShowStr(authors[0].name, "?") + " ... Last3:"
                                           + ShowStr(authors[n - 3].name, "?") + ", "
                                           + ShowStr(authors[n - 2].name, "?") + ", "
                                           + ShowStr(authors[n - 1].name, "?"))
  {
    var n := |authors|;
    if n > 4 && !authors[n - 3].name.Null? && !authors[n - 2].name.Null? && !authors[n - 1].name.Null? {
      var last3 := authors[n - 3..];
      assert last3[0] == authors[n - 3] && last3[1] == authors[n - 2] && last3[2] == authors[n - 1];
      assert JoinNames(last3).Some?;
      var names := JoinNames(last3).value;
      var x, y, z := ShowStr(authors[n - 3].name, "?"), ShowStr(authors[n - 2].name, "?"), ShowStr(authors[n - 1].name, "?");
      assert names == [x, y, z];
      assert names[1..] == [y, z] && names[1..][1..] == [z];
      JoinHead(names, ", ");
      JoinHead(names[1..], ", ");
      JoinHead(names[1..][1..], ", ");
      assert Join(names, ", ") == x + ", " + (y + ", " + z);
      var head := "First:" + ShowStr(authors[0].name, "?") + " ... Last3:";
      assert AuthorsLine(authors) == Some(head + Join(names, ", "));
      Regroup(x + ", ", y + ", ", z);
      Regroup(x, ", ", y + ", " + z);
      Regroup(head, x + ", " + y + ", ", z);
      Regroup(head, x + ", " , y + ", ");
      Regroup(head + (x + ", "), y, ", ");
      Regroup(head, x, ", ");
      Regroup(head + x + ", ", y, ", ");
      assert head + Join(names, ", ") == head + x + ", " + y + ", " + z;
      assert AuthorsLine(authors).value == head + x + ", " + y + ", " + z;
    }
  }

  /** With more than four authors, those between the first and the last
      three never show: two such lists that agree on those four authors'
      names give the same line. */
  lemma {:induction false} LongAuthorsShowEnds(a: seq<Author>, b: seq<Author>)
    requires |a| > 4 && |b| > 4
    requires a[0].name == b[0].name
    requires a[|a| - 3].name == b[|b| - 3].name && a[|a| - 2].name == b[|b| - 2].name
    requires a[|a| - 1].name == b[|b| - 1].name
    ensures AuthorsLine(a) == AuthorsLine(b)
  {
    var la := a[|a| - 3..];
    var lb := b[|b| - 3..];
    assert la[0] == a[|a| - 3] && la[1] == a[|a| - 2] && la[2] == a[|a| - 1];
    assert lb[0] == b[|b| - 3] && lb[1] == b[|b| - 2] && lb[2] == b[|b| - 1];
    JoinNamesByName(la, lb);
  }

  /** The join depends on the names only. */
  lemma {:induction false} JoinNamesByName(a: seq<Author>, b: seq<Author>)
    requires |a| == |b| && forall i :: 0 <= i < |a| ==> a[i].name == b[i].name
    ensures JoinNames(a) == JoinNames(b)
  {
    var ja := JoinNames(a);
    var jb := JoinNames(b);
    if ja.Some? {
      assert ja.value == jb.value;
    }
  }

  lemma {:induction false} IntToStringNoBar(n: int)
    ensures '|' !in IntToString(n)
  {
    var s := NatToString(if n < 0 then -n else n);
    assert forall i :: 0 <= i < |s| ==> IsDigit(s[i]);
  }

  /** A paper line read back with `split('|')` gives its three columns:
      code, title and year; the authors; the citation count (as long as
      the code, the title and the names hold no '|'). */
  lemma {:induction false} FormatPaperColumns(p: Paper, code: string)
    requires FormatPaper(p, code).Some?
    requires '|' !in code && '|' !in ShowStr(p.title, "Unknown Title")
    requires '|' !in AuthorsLine(AuthorsOf(p)).value
    ensures Split(FormatPaper(p, code).value, '|') ==
            [ "[" + code + "] " + ShowStr(p.title, "Unknown Title") + " (" + ShowInt(p.year, "N/A") + ") ",
              " " + AuthorsLine(AuthorsOf(p)).value + " ",
              " Cited:" + ShowInt(p.citationCount, "0") ]
  {
    var c0 := HeadColumn(p, code);
    var c1 := " " + AuthorsLine(AuthorsOf(p)).value + " ";
    var c2 := CitedColumn(p);
    HeadColumnNoBar(p, code);
    CitedColumnNoBar(p);
    Regroup(c0 + "|", c1, "|");
    Regroup(c0 + "|", c1 + "|", c2);
    Regroup(c0, "|", c1 + "|" + c2);
    assert FormatPaper(p, code).value == c0 + ['|'] + (c1 + ['|'] + c2);
    SplitAfterSeparator(c0, '|', c1 + ['|'] + c2);
    SplitAfterSeparator(c1, '|', c2);
    SplitNoSeparator(c2, '|');
  }

  lemma {:induction false} HeadColumnNoBar(p: Paper, code: string)
    requires '|' !in code && '|' !in ShowStr(p.title, "Unknown Title")
    ensures '|' !in HeadColumn(p, code)
  {
    match p.year { case Present(y) => IntToStringNoBar(y); case _ => }
  }

  lemma {:induction false} CitedColumnNoBar(p: Paper)
    ensures '|' !in CitedColumn(p)
  {
    match p.citationCount { case Present(n) => IntToStringNoBar(n); case _ => }
  }

  // ---------------------------------------------------------------------
  // get_auth_display

  /** `get_auth_display(p)` for `authors = p.get('authors', [])`; `None` is
      the Python `None` it returns for a single author whose name is absent
      or null. */
  function AuthDisplay(authors: seq<Author>): Option<string>
  {
    var n := |authors|;
    if n == 0 then Some("Unknown")
    else if n == 1 then (if authors[0].name.Present? then Some(authors[0].name.value) else None)
    else if n == 2 then Some(ShowStr(authors[0].name, "None") + " & " + ShowStr(authors[1].name, "None"))
    else Some(ShowStr(authors[0].name, "None") + " ... " + ShowStr(authors[n - 2].name, "None")
              + ", " + ShowStr(authors[n - 1].name, "None"))
  }

  /** The display is missing only for a single author without a name; with
      two or more authors it begins with the first author's name and ends
      with the last author's. */
  lemma {:induction false} AuthDisplayEnds(authors: seq<Author>)
    ensures AuthDisplay(authors).None? <==> |authors| == 1 && !authors[0].name.Present?
    ensures |authors| >= 1 && AuthDisplay(authors).Some? ==>
            var r := AuthDisplay(authors).value; var first := ShowStr(authors[0].name, "None");
            var last := ShowStr(authors[|authors| - 1].name, "None");
            |first| <= |r| && |last| <= |r| && r[..|first|] == first && r[|r| - |last|..] == last
  {
  }

  /** The display text for each number of authors: "Unknown" for none, the
      name for one, "a & b" for two, and "first ... second-last, last" from
      three on, where an absent or null name shows as "None". */
  lemma {:induction false} AuthDisplayText(authors: seq<Author>)
    ensures authors == [] ==> AuthDisplay(authors) == Some("Unknown")
    ensures |authors| == 1 && authors[0].name.Present? ==> AuthDisplay(authors) == Some(authors[0].name.value)
    ensures |authors| == 2 ==>
              AuthDisplay(authors) == Some(ShowStr(authors[0].name, "None") + " & " + ShowStr(authors[1].name, "None"))
    ensures var n := |authors|;
            n >= 3 ==> AuthDisplay(authors) == Some(ShowStr(authors[0].name, "None") + " ... "
                                                    + ShowStr(authors[n - 2].name, "None") + ", "
                                                    + ShowStr(authors[n - 1].name, "None"))
  {
  }

  /** From three authors on, only the first, the second-last and the last
      are shown. */
  lemma {:induction false} AuthDisplayMiddleHidden(a: seq<Author>, b: seq<Author>)
    requires |a| >= 3 && |b| >= 3
    requires a[0].name == b[0].name
    requires a[|a| - 2].name == b[|b| - 2].name && a[|a| - 1].name == b[|b| - 1].name
    ensures AuthDisplay(a) == AuthDisplay(b)
  {
  }

  // ---------------------------------------------------------------------
  // bibliography author HTML

  /** The first author's entry; `auths[0].get('name','Unknown')` shows an
      absent name as "Unknown". */
  function FirstTag(name: Field<string>): string
  {
    "<span class='auth-tag-first'>" + ShowStr(name, "Unknown") + " (1st)</span>"
  }

  /** The ellipsis and the second-last author's entry, written from four
      authors on. */
  function SecondLastTag(name: Field<string>): string
  {
    ", ... " + ", " + ShowStr(name, "None") + " (2nd Last)"
  }

  /** The last author's entry, written from two authors on. */
  function LastTag(name: Field<string>): string
  {
    ", <span class='auth-tag-last'>" + ShowStr(name, "None") + " (Last)</span>"
  }

  /** `auth_html` of the bibliography for `auths = p.get('authors', [])`. */
  function AuthorHtml(authors: seq<Author>): string
  {
    var n := |authors|;
    if n == 0 then "Unknown"
    else if n == 1 then FirstTag(authors[0].name)
    else if n <= 3 then FirstTag(authors[0].name) + LastTag(authors[n - 1].name)
    else FirstTag(authors[0].name) + SecondLastTag(authors[n - 2].name) + LastTag(authors[n - 1].name)
  }

  /** The literal text of the three entries. */
  lemma {:induction false} TagsText(name: Field<string>)
    ensures FirstTag(name) == "<span class='auth-tag-first'>" + ShowStr(name, "Unknown") + " (1st)</span>"
    ensures SecondLastTag(name) == ", ... , " + ShowStr(name, "None") + " (2nd Last)"
    ensures LastTag(name) == ", <span class='auth-tag-last'>" + ShowStr(name, "None") + " (Last)</span>"
  {
    assert ", ... " + ", " == ", ... , ";
  }

  /** The HTML for each number of authors: "Unknown" for none; the first
      author's entry ("(1st)", an absent name shown as "Unknown"); from two
      authors on, the last author's ("(Last)"); and from four on, the
      ellipsis and the second-last author's entry ("(2nd Last)") between
      them. Nothing else is written; TagsText gives each entry's text. */
  lemma {:induction false} AuthorHtmlText(authors: seq<Author>)
    ensures authors == [] ==> AuthorHtml(authors) == "Unknown"
    ensures |authors| == 1 ==> AuthorHtml(authors) == FirstTag(authors[0].name)
    ensures var n := |authors|;
            2 <= n <= 3 ==> AuthorHtml(authors) == FirstTag(authors[0].name) + LastTag(authors[n - 1].name)
    ensures var n := |authors|;
            n >= 4 ==> AuthorHtml(authors) == FirstTag(authors[0].name) + SecondLastTag(authors[n - 2].name)
                                              + LastTag(authors[n - 1].name)
  {
  }

  /** The HTML tags the first author and, from two authors on, the last;
      from four authors on the second-last follows an ellipsis. Every
      other author is left out: two lists that agree on those authors give
      the same HTML, so three authors come out as the first and the last. */
  lemma {:induction false} AuthorHtmlShown(a: seq<Author>, b: seq<Author>)
    requires |a| >= 1 && |b| >= 1 && a[0].name == b[0].name
    requires (|a| > 1) == (|b| > 1) && (|a| > 3) == (|b| > 3)
    requires |a| > 1 ==> a[|a| - 1].name == b[|b| - 1].name
    requires |a| > 3 ==> a[|a| - 2].name == b[|b| - 2].name
    ensures AuthorHtml(a) == AuthorHtml(b)
  {
  }

  /** The middle one of three authors is dropped without an ellipsis: the
      HTML is the first author's tag followed directly by the last author's. */
  lemma {:induction false} ThreeAuthorsHtmlAsTwo(x: Author, y: Author, z: Author)
    ensures AuthorHtml([x, y, z]) == AuthorHtml([x, z])
    ensures AuthorHtml([x, y, z]) == FirstTag(x.name) + LastTag(z.name)
  {
    AuthorHtmlShown([x, y, z], [x, z]);
  }
}
