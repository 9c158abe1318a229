/** `sanitize_mermaid_code` (news_app.py): rewrites a diagram produced by a
    language model line by line so that node labels can be read by the
    Mermaid renderer, and puts a `graph TD` header in front when none is
    there. */
module Mermaid {
  import opened Values
  import opened Text

  const GraphHeader := "graph TD"

  /** The code block markers removed, then the whole text stripped. */
  function FenceStripped(code: string): string
  {
    Strip(RemoveAll(RemoveAll(code, "```mermaid"), "```"))
  }

  /** The lines the sanitiser works on. */
  function InputLines(code: string): seq<string>
  {
    Split(FenceStripped(code), '\n')
  }

  predicate IsGraphLine(line: string)
  {
    StartsWith(Strip(line), "graph")
  }

  /** `any(l.strip().startswith('graph') for l in lines)`. */
  predicate HasGraphLine(lines: seq<string>)
  {
    exists i :: 0 <= i < |lines| && IsGraphLine(lines[i])
  }

  /** `label.replace('(', ' ').replace(')', ' ').replace('"', "'")`. */
  function SafeLabel(caption: string): (r: string)
    ensures |r| == |caption|
    ensures '(' !in r && ')' !in r && '"' !in r
    ensures forall i :: 0 <= i < |r| ==> r[i] == caption[i] || r[i] == ' ' || r[i] == '\''
  {
    ReplaceChar(ReplaceChar(ReplaceChar(caption, '(', ' '), ')', ' '), '"', '\'')
  }

  /** `parts[0]` of `line.split(open, 1)`: the text before the first `open`. */
  function NodeId(line: string, open: char): string
    requires open in line
  {
    line[..FirstIndexOf(line, open).value]
  }

  /** `parts[1]` of `line.split(open, 1)`: the text after the first `open`. */
  function AfterOpen(line: string, open: char): string
    requires open in line
  {
    line[FirstIndexOf(line, open).value + 1..]
  }

  /** `rest[0]` of `rsplit(close, 1)`: up to the last `close`, or everything. */
  function NodeCaption(line: string, open: char, close: char): string
    requires open in line
  {
    var rest := AfterOpen(line, open);
    var j := LastIndexOf(rest, close);
    if j.Some? then rest[..j.value] else rest
  }

  /** `rest[1]` of `rsplit(close, 1)` when there is one, else "". */
  function NodeEdge(line: string, open: char, close: char): string
    requires open in line
  {
    var rest := AfterOpen(line, open);
    var j := LastIndexOf(rest, close);
    if j.Some? then rest[j.value + 1..] else []
  }

  /** The node put back together as `id["label"]edge`. */
  function RewriteNode(line: string, open: char, close: char): string
    requires open in line
  {
    NodeId(line, open) + "[\"" + SafeLabel(NodeCaption(line, open, close)) + "\"]" + NodeEdge(line, open, close)
  }

  /** A line with both square brackets. */
  predicate SquareNode(line: string)
  {
    '[' in line && ']' in line
  }

  /** A line with both round brackets and no `>"`. */
  predicate RoundNode(line: string)
  {
    '(' in line && ')' in line && !Contains(line, ">\"")
  }

  /** What the loop appends for one non-blank line. */
  function CleanLine(line: string): string
  {
    if SquareNode(line) then RewriteNode(line, '[', ']')
    else if RoundNode(line) then RewriteNode(line, '(', ')')
    else line
  }

  /** What the loop emits for one line: nothing for a blank line. */
  function Emitted(line: string): seq<string>
  {
    if IsBlank(line) then [] else [CleanLine(line)]
  }

  /** The rewritten non-blank lines, in input order. */
  function CleanLines(lines: seq<string>): seq<string>
  {
    if lines == [] then []
    else Emitted(lines[0]) + CleanLines(lines[1..])
  }

  /** `clean_lines` at the end of the sanitiser. */
  function SanitizedLines(code: string): seq<string>
  {
    var lines := InputLines(code);
    (if HasGraphLine(lines) then [] else [GraphHeader]) + CleanLines(lines)
  }

  method SanitizeMermaidCode(code: string) returns (r: string)
    ensures r == Join(SanitizedLines(code), "\n")
  {
    var lines := Split(FenceStripped(code), '\n');
    var header: seq<string> := [];
    if !HasGraphLine(lines) {
      header := [GraphHeader];
    }
    var body := CleanAll(lines);
    r := Join(header + body, "\n");
  }

  /** The loop of the sanitiser: blank lines dropped, the others rewritten. */
  method CleanAll(lines: seq<string>) returns (clean: seq<string>)
    ensures clean == CleanLines(lines)
  {
    clean := [];
    for i := 0 to |lines|
      invariant clean == CleanLines(lines[..i])
    {
      CleanLinesSnoc(lines, i);
      if IsBlank(lines[i]) {
        continue;
      }
      clean := clean + [CleanLine(lines[i])];
    }
    assert lines[..|lines|] == lines;
  }

  /** One more line read emits what that line emits. */
  lemma {:induction false} CleanLinesSnoc(lines: seq<string>, i: nat)
    requires i < |lines|
    ensures CleanLines(lines[..i + 1]) == CleanLines(lines[..i]) + Emitted(lines[i])
  {
    assert lines[..i + 1] == lines[..i] + [lines[i]];
    CleanLinesConcat(lines[..i], [lines[i]]);
    assert CleanLines([lines[i]]) == Emitted(lines[i]) + CleanLines([]);
  }

  /** The sanitiser keeps the relative order of the lines: the lines of a
      concatenation are the lines of each part, one after the other. */
  lemma {:induction false} CleanLinesConcat(a: seq<string>, b: seq<string>)
    ensures CleanLines(a + b) == CleanLines(a) + CleanLines(b)
  {
    if a == [] {
      assert a + b == b;
    } else {
      assert (a + b)[0] == a[0];
      assert (a + b)[1..] == a[1..] + b;
      CleanLinesConcat(a[1..], b);
      Regroup(Emitted(a[0]), CleanLines(a[1..]), CleanLines(b));
    }
  }

  /** How the rewrite cuts a line: `id` is the text before the first
      opening bracket, the label what follows it up to the last closing
      bracket (or to the end of the line when none follows), and the edge
      the rest; the emitted label has no `(`, `)` or `"`. */
  lemma {:induction false} RewriteShape(line: string, open: char, close: char)
    requires open in line
    ensures open !in NodeId(line, open)
    ensures || (line == NodeId(line, open) + [open] + NodeCaption(line, open, close) + [close] + NodeEdge(line, open, close)
                && close !in NodeEdge(line, open, close))
            || (line == NodeId(line, open) + [open] + NodeCaption(line, open, close)
                && close !in NodeCaption(line, open, close) && NodeEdge(line, open, close) == [])
    ensures var r := SafeLabel(NodeCaption(line, open, close)); '(' !in r && ')' !in r && '"' !in r
  {
    var i := FirstIndexOf(line, open).value;
    var rest := AfterOpen(line, open);
    var caption := NodeCaption(line, open, close);
    CutAt(line, i);
    var j := LastIndexOf(rest, close);
    if j.Some? {
      CutAt(rest, j.value);
      Glue(NodeId(line, open), open, caption, close, NodeEdge(line, open, close));
    }
  }

  /** A rewritten line is longer than the line it replaces. */
  lemma {:induction false} RewriteLonger(line: string, open: char, close: char)
    requires open in line
    ensures |RewriteNode(line, open, close)| >= |line| + 2
  {
    RewriteShape(line, open, close);
  }

  /** Exactly the lines with neither bracket pattern are copied unchanged
      (and untrimmed). */
  lemma {:induction false} CleanLineVerbatimIff(line: string)
    ensures CleanLine(line) == line <==> !SquareNode(line) && !RoundNode(line)
  {
    if SquareNode(line) {
      RewriteLonger(line, '[', ']');
    } else if RoundNode(line) {
      RewriteLonger(line, '(', ')');
    }
  }

  /** A rewritten line of a line without a newline has no newline. */
  lemma {:induction false} RewriteNoNewline(line: string, open: char, close: char)
    requires open in line && '\n' !in line && open != '\n' && close != '\n'
    ensures '\n' !in RewriteNode(line, open, close)
  {
    var i := FirstIndexOf(line, open).value;
    SliceLacksChar(line, '\n', 0, i);
    SliceLacksChar(line, '\n', i + 1, |line|);
    var rest := AfterOpen(line, open);
    var j := LastIndexOf(rest, close);
    if j.Some? {
      SliceLacksChar(rest, '\n', 0, j.value);
      SliceLacksChar(rest, '\n', j.value + 1, |rest|);
    }
    assert '\n' !in NodeCaption(line, open, close);
    assert '\n' !in SafeLabel(NodeCaption(line, open, close));
  }

  /** Every emitted line is non-blank and holds no newline. */
  lemma {:induction false} CleanLinesWellFormed(lines: seq<string>)
    requires forall k :: 0 <= k < |lines| ==> '\n' !in lines[k]
    ensures forall k :: 0 <= k < |CleanLines(lines)| ==> '\n' !in CleanLines(lines)[k] && !IsBlank(CleanLines(lines)[k])
  {
    if lines != [] {
      assert forall k :: 0 <= k < |lines[1..]| ==> lines[1..][k] == lines[k + 1];
      CleanLinesWellFormed(lines[1..]);
      var e := Emitted(lines[0]);
      var t := CleanLines(lines[1..]);
      if !IsBlank(lines[0]) {
        CleanLineWellFormed(lines[0]);
      }
      forall k | 0 <= k < |e + t|
        ensures '\n' !in (e + t)[k] && !IsBlank((e + t)[k])
      {
        if k < |e| {
          assert (e + t)[k] == e[k];
        } else {
          assert (e + t)[k] == t[k - |e|];
        }
      }
    }
  }

  /** A non-blank line without a newline is rewritten to one. */
  lemma {:induction false} CleanLineWellFormed(l: string)
    requires '\n' !in l && !IsBlank(l)
    ensures '\n' !in CleanLine(l) && !IsBlank(CleanLine(l))
  {
    if SquareNode(l) {
      RewriteNoNewline(l, '[', ']');
      assert CleanLine(l)[FirstIndexOf(l, '[').value] == '[';
    } else if RoundNode(l) {
      RewriteNoNewline(l, '(', ')');
      assert CleanLine(l)[FirstIndexOf(l, '(').value] == '[';
    }
  }

  /** Some line comes out for every non-blank line that goes in. */
  lemma {:induction false} NonBlankLineKept(lines: seq<string>, i: nat)
    requires i < |lines| && !IsBlank(lines[i])
    ensures |CleanLines(lines)| >= 1
  {
    if IsBlank(lines[0]) {
      assert lines[1..][i - 1] == lines[i];
      NonBlankLineKept(lines[1..], i - 1);
    }
  }

  /** A graph line is not blank, so it survives into the output. */
  lemma {:induction false} GraphLineKept(lines: seq<string>)
    requires HasGraphLine(lines)
    ensures |CleanLines(lines)| >= 1
  {
    var i :| 0 <= i < |lines| && IsGraphLine(lines[i]);
    BlankIffAllSpace(lines[i]);
    NonBlankLineKept(lines, i);
  }

  /** The emitted lines, put together with newlines and split again, come
      back one for one, and none of them is blank. */
  lemma {:induction false} EmittedLinesRoundTrip(header: seq<string>, lines: seq<string>)
    requires header == [GraphHeader] || (header == [] && HasGraphLine(lines))
    requires forall k :: 0 <= k < |lines| ==> '\n' !in lines[k]
    ensures var out := header + CleanLines(lines);
            Split(Join(out, "\n"), '\n') == out && forall k :: 0 <= k < |out| ==> !IsBlank(out[k])
  {
    var out := header + CleanLines(lines);
    CleanLinesWellFormed(lines);
    assert !IsSpace(GraphHeader[0]);
    assert forall k :: 0 <= k < |out| ==> '\n' !in out[k] && !IsBlank(out[k]) by {
      forall k | 0 <= k < |out|
        ensures '\n' !in out[k] && !IsBlank(out[k])
      {
        if k >= |header| {
          assert out[k] == CleanLines(lines)[k - |header|];
        }
      }
    }
    if header == [] {
      GraphLineKept(lines);
    }
    SplitJoin(out, '\n');
  }

  /** The sanitised text read line by line is the list of emitted lines; it
      has no blank line, and when no input line starts with "graph" its first
      line is the inserted "graph TD" header. */
  lemma {:induction false} SanitizedHasNoBlankLine(code: string)
    ensures Split(Join(SanitizedLines(code), "\n"), '\n') == SanitizedLines(code)
    ensures forall k :: 0 <= k < |SanitizedLines(code)| ==> !IsBlank(SanitizedLines(code)[k])
    ensures !HasGraphLine(InputLines(code)) ==> SanitizedLines(code)[0] == GraphHeader
    ensures HasGraphLine(InputLines(code)) ==> SanitizedLines(code) == CleanLines(InputLines(code))
  {
    var lines := InputLines(code);
    var header: seq<string> := if HasGraphLine(lines) then [] else [GraphHeader];
    assert SanitizedLines(code) == header + CleanLines(lines);
    EmittedLinesRoundTrip(header, lines);
  }
}
