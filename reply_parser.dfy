/** `parse_gemini_data` (news_app.py): splits the analyst's free-text reply
    into a Mermaid diagram, `|`-separated timeline and spectrum records, and
    the report that follows the `### [REPORT_TEXT]` marker. */
module ReplyParser {
  import opened Values
  import opened Text

  /** The opening and closing of the pattern ```` ```mermaid\n(.*?)\n``` ````. */
  const Opening := "```mermaid\n"
  const Closing := "\n```"
  const ReportMarker := "### [REPORT_TEXT]"

  datatype TimelineEntry = TimelineEntry(date: string, media: string, event: string)

  /** A value Python's `float` can return: a finite number, an infinity
      ("inf", "-inf", "1e999") or a NaN ("nan"). */
  datatype Float = Finite(value: real) | Infinity(negative: bool) | NaN

  /** A spectrum point; the random jitter the source adds is not modelled,
      so `stance` and `credibility` are the parsed numbers themselves. */
  datatype SpectrumEntry = SpectrumEntry(source: string, stance: Float, credibility: Float, url: string)

  /** The dictionary `data` that the parser returns. */
  datatype Parsed = Parsed(timeline: seq<TimelineEntry>, spectrum: seq<SpectrumEntry>,
                           mermaid: string, reportText: string)

  // ---------------------------------------------------------------------
  // The Mermaid block

  /** `re.search` with the lazy, dot-all pattern: the start of the block is
      the first opening in the text, and its group ends at the first closing
      after that opening. There is a match exactly when such a pair exists. */
  function FindMermaid(text: string): (r: Option<(nat, nat)>)
    ensures r.Some? ==> OccursAt(text, Opening, r.value.0) && r.value.0 + |Opening| <= r.value.1
                        && OccursAt(text, Closing, r.value.1)
    ensures r.Some? ==> forall k: nat :: k < r.value.0 ==> !OccursAt(text, Opening, k)
    ensures r.Some? ==> forall k :: r.value.0 + |Opening| <= k < r.value.1 ==> !OccursAt(text, Closing, k)
    ensures r.None? ==> forall i: nat, j: nat :: OccursAt(text, Opening, i) && i + |Opening| <= j ==> !OccursAt(text, Closing, j)
  {
    var i := IndexFrom(text, Opening, 0);
    if i.None? then None
    else
      var j := IndexFrom(text, Closing, i.value + |Opening|);
      if j.None? then None else Some((i.value, j.value))
  }

  /** `mermaid_match.group(1)`, or "" when there is no match. */
  function MermaidOf(text: string): string
  {
    match FindMermaid(text)
    case None => ""
    case Some((i, j)) => text[i + |Opening|..j]
  }

  /** The text the lines are read from: `text.replace(group(0), "")` when
      there is a match, the reply itself otherwise. */
  function RestOf(text: string): string
  {
    match FindMermaid(text)
    case None => text
    case Some((i, j)) => RemoveAll(text, text[i..j + |Closing|])
  }

  /** The matched block is the opening, the extracted diagram and the
      closing; the diagram holds no closing (the match is the shortest one);
      and at least the block's length is removed from the text. */
  lemma {:induction false} MermaidBlock(text: string)
    requires FindMermaid(text).Some?
    ensures var (i, j) := FindMermaid(text).value;
            text[i..j + |Closing|] == Opening + MermaidOf(text) + Closing
    ensures !Contains(MermaidOf(text), Closing)
    ensures |RestOf(text)| <= |text| - (|Opening| + |MermaidOf(text)| + |Closing|)
  {
    var (i, j) := FindMermaid(text).value;
    BlockShape(text);
    DiagramLacksClosing(text);
    assert OccursAt(text, text[i..j + |Closing|], i);
    ContainsIff(text, text[i..j + |Closing|]);
    RemoveAllShrinks(text, text[i..j + |Closing|]);
  }

  lemma {:induction false} BlockShape(text: string)
    requires FindMermaid(text).Some?
    ensures var (i, j) := FindMermaid(text).value;
            text[i..j + |Closing|] == Opening + MermaidOf(text) + Closing
  {
    var (i, j) := FindMermaid(text).value;
    SliceSplit3(text, i, i + |Opening|, j, j + |Closing|);
  }

  lemma {:induction false} DiagramLacksClosing(text: string)
    requires FindMermaid(text).Some?
    ensures !Contains(MermaidOf(text), Closing)
  {
    var (i, j) := FindMermaid(text).value;
    var m := MermaidOf(text);
    ContainsIff(m, Closing);
    forall k: nat
      ensures !OccursAt(m, Closing, k)
    {
      SliceOccurs(text, Closing, i + |Opening|, j, k);
    }
  }

  /** Without a match nothing is extracted and the text is scanned whole. */
  lemma {:induction false} NoMermaidKeepsText(text: string)
    requires forall i :: 0 <= i ==> !OccursAt(text, Opening, i)
    ensures MermaidOf(text) == "" && RestOf(text) == text
  {
  }

  // ---------------------------------------------------------------------
  // Timeline and spectrum lines

  /** The timeline test on a stripped line. */
  predicate IsTimelineLine(line: string)
  {
    '|' in line && |Split(line, '|')| >= 3 && (IsDigit(line[0]) || Contains(line, "Future"))
  }

  /** The spectrum test on a stripped line. */
  predicate IsSpectrumLine(line: string)
  {
    '|' in line && |Split(line, '|')| >= 4 && !StartsWith(line, "###") && !Contains(line, "Date")
  }

  /** `{"date": parts[0], "media": parts[1], "event": parts[2]}`. */
  function TimelineRecord(line: string): TimelineEntry
    requires |Split(line, '|')| >= 3
  {
    var parts := Split(line, '|');
    TimelineEntry(parts[0], parts[1], parts[2])
  }

  /** The spectrum point of a candidate line, or `None` when `float` fails on
      field 1 or field 2 (the `except: pass`). */
  function SpectrumRecord(line: string, toNumber: string -> Option<Float>): Option<SpectrumEntry>
    requires |Split(line, '|')| >= 4
  {
    var parts := Split(line, '|');
    var stance := toNumber(parts[1]);
    var cred := toNumber(parts[2]);
    if stance.Some? && cred.Some? then
      Some(SpectrumEntry(Strip(parts[0]), stance.value, cred.value, Strip(parts[3])))
    else None
  }

  /** What one raw line adds to the timeline. */
  function TimelineStep(raw: string): seq<TimelineEntry>
  {
    var line := Strip(raw);
    if IsTimelineLine(line) then [TimelineRecord(line)] else []
  }

  /** What one raw line adds to the spectrum. */
  function SpectrumStep(raw: string, toNumber: string -> Option<Float>): seq<SpectrumEntry>
  {
    var line := Strip(raw);
    if IsSpectrumLine(line) then
      var e := SpectrumRecord(line, toNumber);
      if e.Some? then [e.value] else []
    else []
  }

  /** The timeline records of `lines`, in line order. */
  function TimelineOf(lines: seq<string>): seq<TimelineEntry>
  {
    if lines == [] then [] else TimelineOf(lines[..|lines| - 1]) + TimelineStep(lines[|lines| - 1])
  }

  /** The spectrum points of `lines`, in line order. */
  function SpectrumOf(lines: seq<string>, toNumber: string -> Option<Float>): seq<SpectrumEntry>
  {
    if lines == [] then []
    else SpectrumOf(lines[..|lines| - 1], toNumber) + SpectrumStep(lines[|lines| - 1], toNumber)
  }

  /** Records follow the order of the lines: the records of a concatenation
      are those of each part, one after the other. */
  lemma {:induction false} TimelineConcat(a: seq<string>, b: seq<string>)
    decreases |b|
    ensures TimelineOf(a + b) == TimelineOf(a) + TimelineOf(b)
  {
    if b == [] {
      assert a + b == a;
    } else {
      assert (a + b)[..|a + b| - 1] == a + b[..|b| - 1];
      assert (a + b)[|a + b| - 1] == b[|b| - 1];
      TimelineConcat(a, b[..|b| - 1]);
      Regroup(TimelineOf(a), TimelineOf(b[..|b| - 1]), TimelineStep(b[|b| - 1]));
    }
  }

  lemma {:induction false} SpectrumConcat(a: seq<string>, b: seq<string>, toNumber: string -> Option<Float>)
    decreases |b|
    ensures SpectrumOf(a + b, toNumber) == SpectrumOf(a, toNumber) + SpectrumOf(b, toNumber)
  {
    if b == [] {
      assert a + b == a;
    } else {
      assert (a + b)[..|a + b| - 1] == a + b[..|b| - 1];
      assert (a + b)[|a + b| - 1] == b[|b| - 1];
      SpectrumConcat(a, b[..|b| - 1], toNumber);
      Regroup(SpectrumOf(a, toNumber), SpectrumOf(b[..|b| - 1], toNumber), SpectrumStep(b[|b| - 1], toNumber));
    }
  }

  /** A single line gives one timeline record exactly when it passes the
      test. */
  lemma {:induction false} TimelineOfOneLine(raw: string)
    ensures |TimelineOf([raw])| == (if IsTimelineLine(Strip(raw)) then 1 else 0)
    ensures IsTimelineLine(Strip(raw)) ==> TimelineOf([raw])[0] == TimelineRecord(Strip(raw))
  {
    assert [raw][..0] == [];
  }

  /** A record's fields are the line's first three `|`-fields: none holds
      a `|`, and the line starts with them joined by `|`. */
  lemma {:induction false} TimelineRecordFields(line: string)
    requires |Split(line, '|')| >= 3
    ensures var r := TimelineRecord(line);
            '|' !in r.date && '|' !in r.media && '|' !in r.event
            && StartsWith(line, r.date + "|" + r.media + "|" + r.event)
  {
    var parts := Split(line, '|');
    JoinSplit(line, '|');
    JoinHead(parts, "|");
    JoinHead(parts[1..], "|");
    JoinHead(parts[2..], "|");
    assert parts[1..][0] == parts[1] && parts[1..][1..] == parts[2..] && parts[2..][0] == parts[2];
    var p := parts[0] + "|" + parts[1] + "|" + parts[2];
    assert line == parts[0] + "|" + parts[1] + "|" + Join(parts[2..], "|");
    assert line[..|p|] == p;
  }

  /** A single line gives the point its record parses to, if any. */
  lemma {:induction false} SpectrumOfOneLine(raw: string, toNumber: string -> Option<Float>)
    ensures SpectrumOf([raw], toNumber) == SpectrumStep(raw, toNumber)
  {
    assert [raw][..0] == [];
  }

  /** A spectrum candidate whose numbers do not parse is skipped, and the
      lines around it still give their points. */
  lemma {:induction false} SpectrumSkipsBadLine(pre: seq<string>, bad: string, post: seq<string>, toNumber: string -> Option<Float>)
    requires IsSpectrumLine(Strip(bad)) && SpectrumRecord(Strip(bad), toNumber).None?
    ensures SpectrumOf(pre + [bad] + post, toNumber) == SpectrumOf(pre, toNumber) + SpectrumOf(post, toNumber)
  {
    SpectrumConcat(pre + [bad], post, toNumber);
    SpectrumConcat(pre, [bad], toNumber);
    SpectrumOfOneLine(bad, toNumber);
    assert SpectrumOf(pre, toNumber) + [] == SpectrumOf(pre, toNumber);
  }

  /** A spectrum candidate whose numbers parse gives one point, whose source
      and url are its stripped fields 0 and 3. */
  lemma {:induction false} SpectrumKeepsGoodLine(raw: string, toNumber: string -> Option<Float>)
    requires IsSpectrumLine(Strip(raw))
    ensures var parts := Split(Strip(raw), '|');
            toNumber(parts[1]).Some? && toNumber(parts[2]).Some? ==>
              SpectrumOf([raw], toNumber)
                == [SpectrumEntry(Strip(parts[0]), toNumber(parts[1]).value, toNumber(parts[2]).value, Strip(parts[3]))]
  {
    SpectrumOfOneLine(raw, toNumber);
  }

  // ---------------------------------------------------------------------
  // The report

  /** The text after the first occurrence of `sep` in `s`. */
  function AfterFirst(s: string, sep: string): string
    requires Contains(s, sep)
  {
    s[IndexFrom(s, sep, 0).value + |sep|..]
  }

  /** `s.split(sep)[1]` once `sep` occurs in `s`: the text after the first
      occurrence, up to the next one or to the end. */
  function SplitSecond(s: string, sep: string): string
    requires |sep| > 0 && Contains(s, sep)
  {
    var rest := AfterFirst(s, sep);
    var n := IndexFrom(rest, sep, 0);
    if n.Some? then rest[..n.value] else rest
  }

  /** `text.split(marker)[1].strip()` when the marker occurs, else the text. */
  function ReportText(rest: string): (r: string)
    ensures !Contains(rest, ReportMarker) ==> r == rest
  {
    if Contains(rest, ReportMarker) then Strip(SplitSecond(rest, ReportMarker)) else rest
  }

  /** The second piece of a split holds no separator. */
  lemma {:induction false} SplitSecondLacks(s: string, sep: string)
    requires |sep| > 0 && Contains(s, sep)
    ensures !Contains(SplitSecond(s, sep), sep)
  {
    var rest := AfterFirst(s, sep);
    var n := IndexFrom(rest, sep, 0);
    if n.Some? {
      ContainsIff(rest[..n.value], sep);
      forall k: nat
        ensures !OccursAt(rest[..n.value], sep, k)
      {
        SliceOccurs(rest, sep, 0, n.value, k);
      }
    }
  }

  /** The report never holds the marker itself. */
  lemma {:induction false} ReportHasNoMarker(rest: string)
    ensures Contains(rest, ReportMarker) ==> !Contains(ReportText(rest), ReportMarker)
  {
    if Contains(rest, ReportMarker) {
      SplitSecondLacks(rest, ReportMarker);
      StripLacks(SplitSecond(rest, ReportMarker), ReportMarker);
    }
  }

  /** No proper suffix of `sep` is also a prefix of it, so two copies of
      `sep` never overlap. */
  predicate SelfDisjoint(sep: string)
  {
    forall d: nat :: 0 < d < |sep| ==> !Border(sep, d)
  }

  /** The last `|sep| - d` characters of `sep` are also its first ones. */
  predicate Border(sep: string, d: nat)
    requires d <= |sep|
  {
    sep[d..] == sep[..|sep| - d]
  }

  lemma {:induction false} MarkerSelfDisjoint()
    ensures SelfDisjoint(ReportMarker)
  {
    forall d: nat | 0 < d < |ReportMarker|
      ensures !Border(ReportMarker, d)
    {
      MarkerNoBorder(d);
    }
  }

  /** Shifting the marker by `d` puts a character under a different one:
      a space under the third '#' for a shift below three, and a character
      other than '#' under the first one otherwise. */
  lemma {:induction false} MarkerNoBorder(d: nat)
    requires 0 < d < |ReportMarker|
    ensures !Border(ReportMarker, d)
  {
    var m := ReportMarker;
    if d < 3 {
      assert m[d..][3 - d] == m[3] == ' ';
      assert m[..|m| - d][3 - d] == m[3 - d] == '#';
    } else {
      assert m[d..][0] == m[d];
      assert m[d] != '#';
    }
  }

  /** In `s + sep + tail`, with no `sep` inside `s`, the first `sep` is the
      one after `s`. */
  lemma {:induction false} FirstSeparatorAt(s: string, sep: string, tail: string)
    requires |sep| > 0 && SelfDisjoint(sep) && !Contains(s, sep)
    ensures OccursAt(s + sep + tail, sep, |s|)
    ensures forall k: nat :: k < |s| ==> !OccursAt(s + sep + tail, sep, k)
  {
    var x := s + sep + tail;
    ContainsIff(s, sep);
    forall k: nat | k < |s|
      ensures !OccursAt(x, sep, k)
    {
      if k + |sep| <= |s| {
        assert s[k..k + |sep|] == x[k..k + |sep|];
        assert !OccursAt(s, sep, k);
      } else {
        var e := |s| - k;
        assert x[|s|..k + |sep|] == sep[..|sep| - e];
        assert x[k..k + |sep|][e..] == x[|s|..k + |sep|];
        assert !Border(sep, e);
      }
    }
    assert x[|s|..|s| + |sep|] == sep;
  }

  lemma {:induction false} FirstSeparator(s: string, sep: string, tail: string)
    requires |sep| > 0 && SelfDisjoint(sep) && !Contains(s, sep)
    ensures IndexFrom(s + sep + tail, sep, 0) == Some(|s|)
  {
    FirstSeparatorAt(s, sep, tail);
    IndexFromIs(s + sep + tail, sep, 0, |s|);
  }

  /** What follows the first separator of `pre + sep + rest`, with no `sep`
      in `pre`, is `rest`. */
  lemma {:induction false} AfterFirstSeparator(pre: string, sep: string, rest: string)
    requires |sep| > 0 && SelfDisjoint(sep) && !Contains(pre, sep)
    ensures Contains(pre + sep + rest, sep) && AfterFirst(pre + sep + rest, sep) == rest
  {
    FirstSeparator(pre, sep, rest);
    assert (pre + sep + rest)[|pre + sep|..] == rest;
  }

  /** The second piece of a split on `pre + sep + body`, with no `sep` in
      `pre` or `body`, is `body`. */
  lemma {:induction false} SplitSecondAfterLast(pre: string, sep: string, body: string)
    requires |sep| > 0 && SelfDisjoint(sep) && !Contains(pre, sep) && !Contains(body, sep)
    ensures Contains(pre + sep + body, sep) && SplitSecond(pre + sep + body, sep) == body
  {
    AfterFirstSeparator(pre, sep, body);
  }

  /** The second piece of a split on `pre + sep + body + sep + post`, with no
      `sep` in `pre` or `body`, is `body`. */
  lemma {:induction false} SplitSecondBetween(pre: string, sep: string, body: string, post: string)
    requires |sep| > 0 && SelfDisjoint(sep) && !Contains(pre, sep) && !Contains(body, sep)
    ensures Contains(pre + sep + (body + sep + post), sep) && SplitSecond(pre + sep + (body + sep + post), sep) == body
  {
    AfterFirstSeparator(pre, sep, body + sep + post);
    FirstSeparator(body, sep, post);
    PrefixKept(body + sep, post, |body|);
    PrefixKept(body, sep, |body|);
  }

  /** The report is the stripped text after the first marker when no other
      marker follows. */
  lemma {:induction false} ReportAfterLastMarker(pre: string, body: string)
    requires !Contains(pre, ReportMarker) && !Contains(body, ReportMarker)
    ensures ReportText(pre + ReportMarker + body) == Strip(body)
  {
    MarkerSelfDisjoint();
    SplitSecondAfterLast(pre, ReportMarker, body);
  }

  /** The report is the stripped text between the first marker and the
      next one. */
  lemma {:induction false} ReportBetweenMarkers(pre: string, body: string, post: string)
    requires !Contains(pre, ReportMarker) && !Contains(body, ReportMarker)
    ensures ReportText(pre + ReportMarker + body + ReportMarker + post) == Strip(body)
  {
    MarkerSelfDisjoint();
    SplitSecondBetween(pre, ReportMarker, body, post);
    assert pre + ReportMarker + body + ReportMarker + post == pre + ReportMarker + (body + ReportMarker + post);
  }

  // ---------------------------------------------------------------------
  // The parser

  /** `parse_gemini_data`: the block is extracted, the remaining lines are
      scanned once, appending to the timeline and the spectrum, and the
      report is cut out last. */
  method ParseGeminiData(text: string, toNumber: string -> Option<Float>) returns (data: Parsed)
    ensures data.mermaid == MermaidOf(text)
    ensures data.timeline == TimelineOf(Split(RestOf(text), '\n'))
    ensures data.spectrum == SpectrumOf(Split(RestOf(text), '\n'), toNumber)
    ensures data.reportText == ReportText(RestOf(text))
  {
    var mermaid := MermaidOf(text);
    var rest := RestOf(text);
    var timeline, spectrum := ScanLines(Split(rest, '\n'), toNumber);
    data := Parsed(timeline, spectrum, mermaid, ReportText(rest));
  }

  /** The loop over the lines of the reply. */
  method ScanLines(lines: seq<string>, toNumber: string -> Option<Float>)
    returns (timeline: seq<TimelineEntry>, spectrum: seq<SpectrumEntry>)
    ensures timeline == TimelineOf(lines)
    ensures spectrum == SpectrumOf(lines, toNumber)
  {
    timeline := [];
    spectrum := [];
    for k := 0 to |lines|
      invariant timeline == TimelineOf(lines[..k])
      invariant spectrum == SpectrumOf(lines[..k], toNumber)
    {
      assert lines[..k + 1][..k] == lines[..k];
      assert SpectrumOf(lines[..k + 1], toNumber) == SpectrumOf(lines[..k], toNumber) + SpectrumStep(lines[k], toNumber);
      var line := Strip(lines[k]);
      if IsTimelineLine(line) {
        var parts := Split(line, '|');
        timeline := timeline + [TimelineEntry(parts[0], parts[1], parts[2])];
      }
      if IsSpectrumLine(line) {
        var parts := Split(line, '|');
        var stance := toNumber(parts[1]);
        var cred := toNumber(parts[2]);
        if stance.Some? && cred.Some? {
          spectrum := spectrum + [SpectrumEntry(Strip(parts[0]), stance.value, cred.value, Strip(parts[3]))];
        }
      }
    }
    assert lines[..|lines|] == lines;
  }
}
