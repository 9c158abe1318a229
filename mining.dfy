/** `process_mining` (academic_app.py): the lineage around a paper is
    mined page by page. `init` builds the network skeleton and takes the
    first five references and citations; `older`, `newer` and
    `expand_both` take the next five of one side or both. Each page is
    enriched, numbered on from the records already in the lineage ("A1",
    "A2", … for ancestors, "D1", … for descendants) and appended. The
    session state becomes the fields of a `LineageMiner`; the HTTP answers
    are parameters. */
module Mining {
  import opened Values
  import opened Text
  import opened Papers
  import opened Enrichment
  import opened Skeleton

  const PageSize: nat := 5

  function Min(a: nat, b: nat): nat
  {
    if a <= b then a else b
  }

  /** `s[off : off + 5]`, clamped to the list as Python slices are. */
  function Window(s: seq<Paper>, off: nat): seq<Paper>
  {
    s[Min(off, |s|)..Min(off + PageSize, |s|)]
  }

  /** A page holds at most five records, and the records before an offset
      followed by the page at that offset are the records before the next
      offset: paging neither skips nor repeats a record. */
  lemma {:induction false} WindowExtendsPrefix(s: seq<Paper>, off: nat)
    ensures |Window(s, off)| <= PageSize
    ensures s[..Min(off, |s|)] + Window(s, off) == s[..Min(off + PageSize, |s|)]
  {
  }

  /** The pages taken by `init` and `n - 1` further steps of one side. */
  function Pages(s: seq<Paper>, n: nat): seq<Paper>
  {
    if n == 0 then [] else Pages(s, n - 1) + Window(s, (n - 1) * PageSize)
  }

  /** After `n` pages a side holds exactly the first `5 n` records of the
      skeleton list (all of them once the list is used up). */
  lemma {:induction false} PagesArePrefix(s: seq<Paper>, n: nat)
    ensures Pages(s, n) == s[..Min(n * PageSize, |s|)]
  {
    if n > 0 {
      PagesArePrefix(s, n - 1);
      WindowExtendsPrefix(s, (n - 1) * PageSize);
    }
  }

  /** The code of the record at position `i` of a side. */
  function CodeAt(prefix: string, i: nat): string
  {
    prefix + NatToString(i + 1)
  }

  /** Different positions get different codes. */
  lemma {:induction false} CodesDistinct(prefix: string, i: nat, j: nat)
    requires i != j
    ensures CodeAt(prefix, i) != CodeAt(prefix, j)
  {
    if CodeAt(prefix, i) == CodeAt(prefix, j) {
      assert NatToString(i + 1) == CodeAt(prefix, i)[|prefix|..];
      NatToStringInjective(i + 1, j + 1);
    }
  }

  /** `for i, p in enumerate(batch): p['code'] = f"{prefix}{exist + i + 1}"`. */
  function Coded(batch: seq<Paper>, prefix: string, exist: nat): (r: seq<Paper>)
    ensures |r| == |batch|
    ensures forall i :: 0 <= i < |batch| ==> r[i] == batch[i].(code := Present(CodeAt(prefix, exist + i)))
  {
    seq(|batch|, i requires 0 <= i < |batch| => batch[i].(code := Present(CodeAt(prefix, exist + i))))
  }

  method AssignCodes(batch: seq<Paper>, prefix: string, exist: nat) returns (r: seq<Paper>)
    ensures r == Coded(batch, prefix, exist)
  {
    r := [];
    for i := 0 to |batch|
      invariant r == Coded(batch[..i], prefix, exist)
    {
      r := r + [batch[i].(code := Present(CodeAt(prefix, exist + i)))];
    }
    assert batch[..|batch|] == batch;
  }

  /** One side of the lineage against its skeleton list: its offset is a
      multiple of five, it holds the records of the pages taken so far, in
      skeleton order, and the record at position `i` has the code
      `prefix` followed by `i + 1`. */
  ghost predicate Side(lineage: seq<Paper>, all: seq<Paper>, offset: nat, prefix: string)
  {
    && offset % PageSize == 0
    && |lineage| == Min(offset, |all|)
    && forall i :: 0 <= i < |lineage| ==>
         lineage[i].paperId == all[i].paperId && lineage[i].code == Present(CodeAt(prefix, i))
  }

  predicate AllHaveIds(s: seq<Paper>)
  {
    forall i :: 0 <= i < |s| ==> HasId(s[i])
  }

  /** What `enrich_segment` returns for records that all have an id. */
  function EnrichedPage(objs: seq<Paper>, response: Response): (r: seq<Paper>)
    requires AllHaveIds(objs)
    ensures |r| == |objs| && forall k :: 0 <= k < |objs| ==> r[k].paperId == objs[k].paperId
  {
    EnrichWithIds(objs, response);
    EnrichSegmentResult(objs, response).value
  }

  /** A page of a skeleton list whose records all have ids. */
  lemma {:induction false} WindowHasIds(s: seq<Paper>, off: nat)
    requires AllHaveIds(s)
    ensures AllHaveIds(Window(s, off))
  {
    var w := Window(s, off);
    assert forall k :: 0 <= k < |w| ==> w[k] == s[Min(off, |s|) + k];
  }

  /** The page at `offset`, enriched and numbered on from `exist`. */
  function NextPage(all: seq<Paper>, offset: nat, prefix: string, exist: nat, response: Response): seq<Paper>
    requires AllHaveIds(all)
  {
    WindowHasIds(all, offset);
    Coded(EnrichedPage(Window(all, offset), response), prefix, exist)
  }

  /** Slicing, enriching and numbering one page. */
  method TakePage(all: seq<Paper>, offset: nat, prefix: string, exist: nat, response: Response) returns (page: seq<Paper>)
    requires AllHaveIds(all)
    ensures page == NextPage(all, offset, prefix, exist, response)
  {
    var objs := all[Min(offset, |all|)..Min(offset + PageSize, |all|)];
    WindowHasIds(all, offset);
    EnrichWithIds(objs, response);
    var enriched := EnrichSegment(objs, response);
    page := AssignCodes(enriched.value, prefix, exist);
  }

  /** Appending the next page keeps a side consistent with the offset
      moved on by five: the new records are the skeleton's next ones, in
      order, and carry the next codes. */
  lemma {:induction false} SideAdvance(lineage: seq<Paper>, all: seq<Paper>, offset: nat, prefix: string, response: Response)
    requires Side(lineage, all, offset, prefix) && AllHaveIds(all)
    ensures Side(lineage + NextPage(all, offset, prefix, |lineage|, response), all, offset + PageSize, prefix)
    ensures |NextPage(all, offset, prefix, |lineage|, response)| <= PageSize
  {
    var page := NextPage(all, offset, prefix, |lineage|, response);
    var out := lineage + page;
    PageLength(all, offset, prefix, |lineage|, response);
    assert (offset + PageSize) % PageSize == 0;
    assert |out| == Min(offset + PageSize, |all|);
    forall i | 0 <= i < |out|
      ensures out[i].paperId == all[i].paperId && out[i].code == Present(CodeAt(prefix, i))
    {
      SideAdvanceEntry(lineage, all, offset, prefix, response, i);
    }
  }

  /** Record `i` of a side with the next page appended. */
  lemma {:induction false} SideAdvanceEntry(lineage: seq<Paper>, all: seq<Paper>, offset: nat, prefix: string, response: Response, i: nat)
    requires Side(lineage, all, offset, prefix) && AllHaveIds(all)
    requires i < |lineage + NextPage(all, offset, prefix, |lineage|, response)|
    ensures i < |all|
    ensures (lineage + NextPage(all, offset, prefix, |lineage|, response))[i].paperId == all[i].paperId
    ensures (lineage + NextPage(all, offset, prefix, |lineage|, response))[i].code == Present(CodeAt(prefix, i))
  {
    var page := NextPage(all, offset, prefix, |lineage|, response);
    if i < |lineage| {
      assert (lineage + page)[i] == lineage[i];
    } else {
      PageEntry(all, offset, prefix, |lineage|, response, i - |lineage|);
      assert (lineage + page)[i] == page[i - |lineage|];
    }
  }

  /** A page holds the records of the window, at most five. */
  lemma {:induction false} PageLength(all: seq<Paper>, offset: nat, prefix: string, exist: nat, response: Response)
    requires AllHaveIds(all)
    ensures |NextPage(all, offset, prefix, exist, response)| == Min(offset + PageSize, |all|) - Min(offset, |all|)
    ensures |NextPage(all, offset, prefix, exist, response)| <= PageSize
  {
    WindowHasIds(all, offset);
  }

  /** Record `k` of a page is the skeleton's record `k` past the offset,
      with the code numbered on from `exist`. */
  lemma {:induction false} PageEntry(all: seq<Paper>, offset: nat, prefix: string, exist: nat, response: Response, k: nat)
    requires AllHaveIds(all) && k < |NextPage(all, offset, prefix, exist, response)|
    ensures Min(offset, |all|) + k < |all|
    ensures NextPage(all, offset, prefix, exist, response)[k].paperId == all[Min(offset, |all|) + k].paperId
    ensures NextPage(all, offset, prefix, exist, response)[k].code == Present(CodeAt(prefix, exist + k))
  {
    var w := Window(all, offset);
    WindowHasIds(all, offset);
    var batch := EnrichedPage(w, response);
    assert NextPage(all, offset, prefix, exist, response) == Coded(batch, prefix, exist);
    WindowEntry(all, offset, k);
  }

  /** Record `k` of a page is record `k` past the offset. */
  lemma {:induction false} WindowEntry(s: seq<Paper>, off: nat, k: nat)
    requires k < |Window(s, off)|
    ensures Min(off, |s|) + k < |s| && Window(s, off)[k] == s[Min(off, |s|) + k]
  {
  }

  /** The first page starts a side. */
  lemma {:induction false} SideStart(all: seq<Paper>, prefix: string, response: Response)
    requires AllHaveIds(all)
    ensures Side(NextPage(all, 0, prefix, 0, response), all, PageSize, prefix)
  {
    var empty: seq<Paper> := [];
    SideAdvance(empty, all, 0, prefix, response);
    assert empty + NextPage(all, 0, prefix, 0, response) == NextPage(all, 0, prefix, 0, response);
  }

  /** `enrich_segment([hero])[0]`. */
  method EnrichHero(h: Paper, response: Response) returns (e: Paper)
    requires HasId(h)
    ensures AllHaveIds([h]) && e == EnrichedPage([h], response)[0]
  {
    assert AllHaveIds([h]);
    EnrichWithIds([h], response);
    var enriched := EnrichSegment([h], response);
    e := enriched.value[0];
  }

  /** Every record of a skeleton, the hero included, has an id. */
  lemma {:induction false} SkeletonHasIds(found: Option<Paper>)
    requires NetworkSkeleton(found).Some?
    ensures var sk := NetworkSkeleton(found).value;
            HasId(sk.hero) && AllHaveIds(sk.allAncestors) && AllHaveIds(sk.allDescendants)
  {
    SkeletonOrdered(found);
  }

  /** The session state of the miner. */
  class LineageMiner {
    // st.session_state.skeleton
    var loaded: bool
    var allAncestors: seq<Paper>
    var allDescendants: seq<Paper>
    // st.session_state.offsets
    var offsetA: nat
    var offsetD: nat
    // st.session_state.full_lineage
    var hero: Paper
    var ancestors: seq<Paper>
    var descendants: seq<Paper>

    ghost predicate Valid()
      reads this
    {
      && (loaded ==> AllHaveIds(allAncestors) && AllHaveIds(allDescendants))
      && Side(ancestors, allAncestors, offsetA, "A")
      && Side(descendants, allDescendants, offsetD, "D")
    }

    /** A fresh session: no skeleton, offsets {a: 0, d: 0}, empty lineage. */
    constructor ()
      ensures Valid() && !loaded
      ensures offsetA == 0 && offsetD == 0 && ancestors == [] && descendants == []
    {
      loaded := false;
      allAncestors := [];
      allDescendants := [];
      offsetA := 0;
      offsetD := 0;
      hero := Paper(Missing, Missing, Missing, Missing, Missing, Missing, Missing, Missing);
      ancestors := [];
      descendants := [];
    }

    /** `process_mining(doi, 'init')`, given the record the lookups found
        (`None` when none) and the batch answers for the enrichment of the
        hero and of the two first pages. Without a skeleton nothing
        changes; otherwise both sides restart from the first page. */
    method Init(found: Option<Paper>, heroResponse: Response, responseA: Response, responseD: Response)
      requires Valid()
      modifies this
      ensures Valid()
      ensures NetworkSkeleton(found).None? ==> unchanged(this)
      ensures NetworkSkeleton(found).Some? ==>
                var sk := NetworkSkeleton(found).value;
                && loaded
                && allAncestors == sk.allAncestors && allDescendants == sk.allDescendants
                && offsetA == PageSize && offsetD == PageSize
                && hero == EnrichedPage([sk.hero], heroResponse)[0]
                && ancestors == NextPage(sk.allAncestors, 0, "A", 0, responseA)
                && descendants == NextPage(sk.allDescendants, 0, "D", 0, responseD)
    {
      var skeleton := NetworkSkeleton(found);
      if skeleton.None? {
        return;
      }
      SkeletonHasIds(found);
      Load(skeleton.value, heroResponse, responseA, responseD);
    }

    /** The rest of `init` once a skeleton was found: the hero enriched, the
        offsets and the lineage reset, then the first page of each side
        taken as `expand_both` takes the next one. */
    method Load(sk: Network, heroResponse: Response, responseA: Response, responseD: Response)
      requires HasId(sk.hero) && AllHaveIds(sk.allAncestors) && AllHaveIds(sk.allDescendants)
      modifies this
      ensures Valid() && loaded
      ensures allAncestors == sk.allAncestors && allDescendants == sk.allDescendants
      ensures offsetA == PageSize && offsetD == PageSize
      ensures hero == EnrichedPage([sk.hero], heroResponse)[0]
      ensures ancestors == NextPage(sk.allAncestors, 0, "A", 0, responseA)
      ensures descendants == NextPage(sk.allDescendants, 0, "D", 0, responseD)
    {
      var heroEnriched := EnrichHero(sk.hero, heroResponse);
      loaded := true;
      allAncestors := sk.allAncestors;
      allDescendants := sk.allDescendants;
      offsetA := 0;
      offsetD := 0;
      hero := heroEnriched;
      ancestors := [];
      descendants := [];
      var ok := ExpandBoth(responseA, responseD);
    }

    /** `process_mining(doi, 'older')`: the next page of ancestors. Without
        a skeleton (`st.session_state.skeleton` is `None`) reading
        `sk['all_ancestors']` raises before anything changes: `ok` is false
        and the state stays as it was. */
    method Older(responseA: Response) returns (ok: bool)
      requires Valid()
      modifies this
      ensures Valid() && ok == old(loaded)
      ensures !ok ==> unchanged(this)
      ensures ok ==> loaded && allAncestors == old(allAncestors) && allDescendants == old(allDescendants)
      ensures ok ==> offsetA == old(offsetA) + PageSize && offsetD == old(offsetD)
      ensures ok ==> ancestors == old(ancestors) + NextPage(allAncestors, old(offsetA), "A", |old(ancestors)|, responseA)
      ensures ok ==> descendants == old(descendants) && hero == old(hero)
    {
      if !loaded {
        return false;
      }
      var pageA := TakePage(allAncestors, offsetA, "A", |ancestors|, responseA);
      SideAdvance(ancestors, allAncestors, offsetA, "A", responseA);
      offsetA := offsetA + PageSize;
      ancestors := ancestors + pageA;
      ok := true;
    }

    /** `process_mining(doi, 'newer')`: the next page of descendants; without
        a skeleton it raises and nothing changes. */
    method Newer(responseD: Response) returns (ok: bool)
      requires Valid()
      modifies this
      ensures Valid() && ok == old(loaded)
      ensures !ok ==> unchanged(this)
      ensures ok ==> loaded && allAncestors == old(allAncestors) && allDescendants == old(allDescendants)
      ensures ok ==> offsetD == old(offsetD) + PageSize && offsetA == old(offsetA)
      ensures ok ==> descendants == old(descendants) + NextPage(allDescendants, old(offsetD), "D", |old(descendants)|, responseD)
      ensures ok ==> ancestors == old(ancestors) && hero == old(hero)
    {
      if !loaded {
        return false;
      }
      var pageD := TakePage(allDescendants, offsetD, "D", |descendants|, responseD);
      SideAdvance(descendants, allDescendants, offsetD, "D", responseD);
      offsetD := offsetD + PageSize;
      descendants := descendants + pageD;
      ok := true;
    }

    /** `process_mining(doi, 'expand_both')`: the next page of each side;
        without a skeleton it raises and nothing changes. */
    method ExpandBoth(responseA: Response, responseD: Response) returns (ok: bool)
      requires Valid()
      modifies this
      ensures Valid() && ok == old(loaded)
      ensures !ok ==> unchanged(this)
      ensures ok ==> loaded && allAncestors == old(allAncestors) && allDescendants == old(allDescendants)
      ensures ok ==> offsetA == old(offsetA) + PageSize && offsetD == old(offsetD) + PageSize
      ensures ok ==> ancestors == old(ancestors) + NextPage(allAncestors, old(offsetA), "A", |old(ancestors)|, responseA)
      ensures ok ==> descendants == old(descendants) + NextPage(allDescendants, old(offsetD), "D", |old(descendants)|, responseD)
      ensures ok ==> hero == old(hero)
    {
      if !loaded {
        return false;
      }
      var pageA := TakePage(allAncestors, offsetA, "A", |ancestors|, responseA);
      var pageD := TakePage(allDescendants, offsetD, "D", |descendants|, responseD);
      SideAdvance(ancestors, allAncestors, offsetA, "A", responseA);
      SideAdvance(descendants, allDescendants, offsetD, "D", responseD);
      offsetA := offsetA + PageSize;
      offsetD := offsetD + PageSize;
      ancestors := ancestors + pageA;
      descendants := descendants + pageD;
      ok := true;
    }
  }
}
