/** `fetch_network_skeleton` (academic_app.py): the input is cleaned, a
    direct lookup id is chosen from a DOI or an arXiv number found in it,
    and the references and citations of the paper found are filtered and
    ordered. The HTTP lookups are not part of this model: the regular
    expression matches and the record they produced are parameters. */
module Skeleton {
  import opened Values
  import opened Text
  import opened Papers
  import opened StableSort

  /** `unquote(user_input).strip().replace('"', '')`, given the unquoted
      text. */
  function CleanInput(unquoted: string): (r: string)
    ensures '"' !in r && |r| <= |unquoted|
  {
    DeleteChar(Strip(unquoted), '"')
  }

  /** The cleaning removes exactly the double quotes of the stripped input
      and keeps every other character as often as it occurs there. */
  lemma {:induction false} CleanInputKeeps(unquoted: string, x: char)
    ensures CountChar(CleanInput(unquoted), x) == if x == '"' then 0 else CountChar(Strip(unquoted), x)
  {
    DeleteCharCounts(Strip(unquoted), '"', x);
  }

  /** The direct lookup id, given the group matched by the DOI pattern and
      by the arXiv pattern in the cleaned input (`None` for no match). */
  function LookupId(doiMatch: Option<string>, arxivMatch: Option<string>): (r: Option<string>)
    ensures doiMatch.Some? ==> r == Some("DOI:" + doiMatch.value)
    ensures doiMatch.None? && arxivMatch.Some? ==> r == Some("arXiv:" + arxivMatch.value)
    ensures r.None? <==> doiMatch.None? && arxivMatch.None?
  {
    if doiMatch.Some? then Some("DOI:" + doiMatch.value)
    else if arxivMatch.Some? then Some("arXiv:" + arxivMatch.value)
    else None
  }

  /** The id names the pattern that won: it carries the "DOI:" tag exactly
      when a DOI was found, whether or not an arXiv number was found too,
      and the matched text follows the tag. */
  lemma {:induction false} LookupIdTagged(doiMatch: Option<string>, arxivMatch: Option<string>)
    ensures var r := LookupId(doiMatch, arxivMatch);
            r.Some? ==> (StartsWith(r.value, "DOI:") <==> doiMatch.Some?)
    ensures var r := LookupId(doiMatch, arxivMatch);
            (doiMatch.Some? ==> r.value[4..] == doiMatch.value)
            && (doiMatch.None? && arxivMatch.Some? ==> r.value[6..] == arxivMatch.value)
  {
    var r := LookupId(doiMatch, arxivMatch);
    if doiMatch.None? && arxivMatch.Some? {
      assert r.value[0] == 'a';
    }
  }

  datatype Network = Network(hero: Paper, allAncestors: seq<Paper>, allDescendants: seq<Paper>)

  /** `x.get('citationCount') or 0`. */
  function CitationKey(p: Paper): int
  {
    IntOrZero(p.citationCount)
  }

  /** `x.get('year') or 0`. */
  function YearKey(p: Paper): int
  {
    IntOrZero(p.year)
  }

  /** `[r for r in s if r.get('paperId')]`. */
  function WithIds(s: seq<Paper>): (r: seq<Paper>)
    ensures |r| <= |s|
  {
    if s == [] then [] else (if HasId(s[0]) then [s[0]] else []) + WithIds(s[1..])
  }

  /** The filter keeps exactly the records that have an id. */
  lemma {:induction false} WithIdsMembers(s: seq<Paper>, p: Paper)
    ensures p in WithIds(s) <==> p in s && HasId(p)
  {
    if s != [] {
      WithIdsMembers(s[1..], p);
      assert s == [s[0]] + s[1..];
    }
  }

  /** The skeleton built from the record the lookups produced. */
  function NetworkSkeleton(hero: Option<Paper>): Option<Network>
  {
    if hero.None? || !HasId(hero.value) then None
    else
      var h := hero.value;
      Some(Network(h,
                   SortDesc(WithIds(ListOrEmpty(h.references)), CitationKey),
                   SortDesc(WithIds(ListOrEmpty(h.citations)), YearKey)))
  }

  /** A sorted filtered list: every item has an id, the items are those of
      the input that have one, in non-increasing key order, and items with
      equal keys keep their input order. */
  ghost predicate OrderedWithIds(out: seq<Paper>, input: seq<Paper>, key: Paper -> int)
  {
    && (forall i :: 0 <= i < |out| ==> HasId(out[i]))
    && multiset(out) == multiset(WithIds(input))
    && SortedDesc(out, key)
    && (forall k :: KeyFilter(out, key, k) == KeyFilter(WithIds(input), key, k))
  }

  lemma {:induction false} SortedWithIds(input: seq<Paper>, key: Paper -> int)
    ensures OrderedWithIds(SortDesc(WithIds(input), key), input, key)
  {
    var f := WithIds(input);
    var out := SortDesc(f, key);
    SortDescSorted(f, key);
    forall i | 0 <= i < |out|
      ensures HasId(out[i])
    {
      assert out[i] in multiset(out);
      assert out[i] in f;
      WithIdsMembers(input, out[i]);
    }
    forall k
      ensures KeyFilter(out, key, k) == KeyFilter(f, key, k)
    {
      SortDescStable(f, key, k);
    }
  }

  /** There is a skeleton exactly when a record with an id was found; its
      ancestors are the references with an id, most cited first, and its
      descendants the citations with an id, newest first, both sorts stable. */
  lemma {:induction false} SkeletonOrdered(hero: Option<Paper>)
    ensures NetworkSkeleton(hero).Some? <==> hero.Some? && HasId(hero.value)
    ensures var r := NetworkSkeleton(hero);
            r.Some? ==>
              && r.value.hero == hero.value
              && OrderedWithIds(r.value.allAncestors, ListOrEmpty(hero.value.references), CitationKey)
              && OrderedWithIds(r.value.allDescendants, ListOrEmpty(hero.value.citations), YearKey)
  {
    if hero.Some? && HasId(hero.value) {
      SortedWithIds(ListOrEmpty(hero.value.references), CitationKey);
      SortedWithIds(ListOrEmpty(hero.value.citations), YearKey);
    }
  }
}
