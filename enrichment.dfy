/** `enrich_segment` (academic_app.py): the ids of a list of light paper
    records are sent to the batch endpoint, the records that come back are
    put in a map keyed by id, and the list is rebuilt in its own order with
    every record found in the map replaced by the full one. The HTTP call is
    not part of this model: its decoded answer is a parameter. */
module Enrichment {
  import opened Values
  import opened Papers

  /** A key of `enriched_map`: a present id, or `None` for a JSON null. */
  type Key = Option<string>

  function KeyOf(id: Field<string>): Key
    requires !id.Missing?
  {
    if id.Present? then Some(id.value) else None
  }

  /** `p['paperId']` does not raise for any record of `objs`. */
  predicate AllKeyed(objs: seq<Paper>)
  {
    forall i :: 0 <= i < |objs| ==> !objs[i].paperId.Missing?
  }

  /** `ids`: the truthy ids of the records, in order. */
  function BatchIds(objs: seq<Paper>): (r: seq<string>)
    ensures r == [] <==> forall i :: 0 <= i < |objs| ==> !HasId(objs[i])
  {
    if objs == [] then []
    else
      var rest := BatchIds(objs[1..]);
      assert forall i :: 1 <= i < |objs| ==> objs[i] == objs[1..][i - 1];
      (if HasId(objs[0]) then [objs[0].paperId.value] else []) + rest
  }

  // ---------------------------------------------------------------------
  // enriched_map

  /** The answer of the batch endpoint: `None` when the request failed or
      the status was not 200, else the decoded list, whose falsy entries
      (`null`) are `None`. */
  type Response = Option<seq<Option<Paper>>>

  /** An entry that makes `p['paperId']` raise. */
  predicate Unkeyed(e: Option<Paper>)
  {
    e.Some? && e.value.paperId.Missing?
  }

  /** The number of entries read before the first one without a `paperId`
      key: the `KeyError` it raises is swallowed by the `except`, and the
      map keeps what it held. */
  function FilledCount(entries: seq<Option<Paper>>): (r: nat)
    ensures r <= |entries|
    ensures forall j :: 0 <= j < r ==> !Unkeyed(entries[j])
    ensures r < |entries| ==> Unkeyed(entries[r])
  {
    if entries == [] || Unkeyed(entries[0]) then 0
    else
      var n := FilledCount(entries[1..]);
      assert forall j :: 1 <= j < |entries| ==> entries[j] == entries[1..][j - 1];
      n + 1
  }

  predicate AllEntriesKeyed(entries: seq<Option<Paper>>)
  {
    forall j :: 0 <= j < |entries| ==> !Unkeyed(entries[j])
  }

  /** The map after reading `entries` one by one; a later entry with the
      same key replaces an earlier one. */
  function MapFrom(entries: seq<Option<Paper>>): map<Key, Paper>
    requires AllEntriesKeyed(entries)
  {
    if entries == [] then map[]
    else
      var m := MapFrom(entries[..|entries| - 1]);
      var e := entries[|entries| - 1];
      if e.Some? then m[KeyOf(e.value.paperId) := e.value] else m
  }

  /** `enriched_map` once the `try` block is left. */
  function EnrichedMap(response: Response): map<Key, Paper>
  {
    if response.None? then map[]
    else
      var e := response.value;
      MapFrom(e[..FilledCount(e)])
  }

  /** Every record in the map is stored under its own id. */
  predicate KeyConsistent(m: map<Key, Paper>)
  {
    forall k :: k in m ==> !m[k].paperId.Missing? && KeyOf(m[k].paperId) == k
  }

  /** The map holds a key exactly when some entry read has that id, and
      then the last such entry. */
  lemma {:induction false} MapFromLastWins(entries: seq<Option<Paper>>, k: Key)
    requires AllEntriesKeyed(entries)
    ensures k in MapFrom(entries) <==>
            exists j :: 0 <= j < |entries| && entries[j].Some? && KeyOf(entries[j].value.paperId) == k
    ensures k in MapFrom(entries) ==>
            exists j :: 0 <= j < |entries| && entries[j] == Some(MapFrom(entries)[k])
                        && KeyOf(entries[j].value.paperId) == k
                        && forall j' :: j < j' < |entries| && entries[j'].Some? ==> KeyOf(entries[j'].value.paperId) != k
  {
    if entries != [] {
      var n := |entries| - 1;
      var init := entries[..n];
      assert forall j :: 0 <= j < n ==> init[j] == entries[j];
      MapFromLastWins(init, k);
    }
  }

  lemma {:induction false} MapFromConsistent(entries: seq<Option<Paper>>)
    requires AllEntriesKeyed(entries)
    ensures KeyConsistent(MapFrom(entries))
  {
    if entries != [] {
      MapFromConsistent(entries[..|entries| - 1]);
    }
  }

  lemma {:induction false} EnrichedMapConsistent(response: Response)
    ensures KeyConsistent(EnrichedMap(response))
  {
    if response.Some? {
      var e := response.value;
      MapFromConsistent(e[..FilledCount(e)]);
    }
  }

  /** The loop that fills `enriched_map`. */
  method BuildEnrichedMap(response: Response) returns (m: map<Key, Paper>)
    ensures m == EnrichedMap(response)
  {
    m := map[];
    if response.None? {
      return;
    }
    var entries := response.value;
    var i := 0;
    while i < |entries|
      invariant i <= FilledCount(entries)
      invariant m == MapFrom(entries[..i])
    {
      assert entries[..i + 1][..i] == entries[..i];
      if entries[i].Some? {
        var p := entries[i].value;
        if p.paperId.Missing? {
          break;
        }
        m := m[KeyOf(p.paperId) := p];
      }
      i := i + 1;
    }
    assert i == FilledCount(entries);
  }

  // ---------------------------------------------------------------------
  // enriched_list

  /** The full record takes over the light record's `code` when it has one. */
  function Merged(p: Paper, full: Paper): Paper
  {
    if p.code.Missing? then full else full.(code := p.code)
  }

  /** What the rebuilding loop appends for one record. */
  function EnrichedOne(p: Paper, m: map<Key, Paper>): Paper
    requires !p.paperId.Missing?
  {
    var k := KeyOf(p.paperId);
    if k in m then Merged(p, m[k]) else p
  }

  function EnrichedList(objs: seq<Paper>, m: map<Key, Paper>): seq<Paper>
    requires AllKeyed(objs)
  {
    if objs == [] then []
    else EnrichedList(objs[..|objs| - 1], m) + [EnrichedOne(objs[|objs| - 1], m)]
  }

  /** The value `enrich_segment` returns, or `None` when it raises (a
      record without a `paperId` key, once there are ids to send). */
  function EnrichSegmentResult(objs: seq<Paper>, response: Response): Option<seq<Paper>>
  {
    if objs == [] then Some([])
    else if BatchIds(objs) == [] then Some(objs)
    else if !AllKeyed(objs) then None
    else Some(EnrichedList(objs, EnrichedMap(response)))
  }

  method EnrichSegment(objs: seq<Paper>, response: Response) returns (r: Option<seq<Paper>>)
    ensures r == EnrichSegmentResult(objs, response)
  {
    if objs == [] {
      return Some([]);
    }
    var ids := BatchIds(objs);
    if ids == [] {
      return Some(objs);
    }
    var m := BuildEnrichedMap(response);
    var list: seq<Paper> := [];
    for i := 0 to |objs|
      invariant AllKeyed(objs[..i])
      invariant list == EnrichedList(objs[..i], m)
    {
      var p := objs[i];
      if p.paperId.Missing? {
        assert !AllKeyed(objs);
        return None;
      }
      assert objs[..i + 1][..i] == objs[..i];
      var pid := KeyOf(p.paperId);
      if pid in m {
        var full := m[pid];
        if !p.code.Missing? {
          full := full.(code := p.code);
        }
        list := list + [full];
      } else {
        list := list + [p];
      }
    }
    assert objs[..|objs|] == objs;
    r := Some(list);
  }

  /** The rebuilt list is as long as the input and in its order: position
      `i` holds what the loop makes of record `i`. */
  lemma {:induction false} EnrichedListShape(objs: seq<Paper>, m: map<Key, Paper>)
    requires AllKeyed(objs)
    ensures |EnrichedList(objs, m)| == |objs|
    ensures forall i :: 0 <= i < |objs| ==> EnrichedList(objs, m)[i] == EnrichedOne(objs[i], m)
  {
    if objs != [] {
      EnrichedListShape(objs[..|objs| - 1], m);
    }
  }

  /** `enrich_segment` returns [] for [], the input itself when no record
      has an id, fails exactly when some record has no `paperId` key
      while another has an id, and otherwise a list of the same length and
      order in which each record found in the map is replaced by the full
      record, carrying over its `code`. */
  lemma {:induction false} EnrichSegmentShape(objs: seq<Paper>, response: Response)
    ensures objs == [] ==> EnrichSegmentResult(objs, response) == Some([])
    ensures (forall i :: 0 <= i < |objs| ==> !HasId(objs[i])) ==> EnrichSegmentResult(objs, response) == Some(objs)
    ensures EnrichSegmentResult(objs, response).None? <==>
            (exists i :: 0 <= i < |objs| && HasId(objs[i])) && !AllKeyed(objs)
    ensures var r := EnrichSegmentResult(objs, response); var m := EnrichedMap(response);
            r.Some? && (exists i :: 0 <= i < |objs| && HasId(objs[i])) ==>
              && |r.value| == |objs|
              && forall i :: 0 <= i < |objs| ==>
                   && !objs[i].paperId.Missing?
                   && r.value[i] == (if KeyOf(objs[i].paperId) in m then Merged(objs[i], m[KeyOf(objs[i].paperId)]) else objs[i])
  {
    var r := EnrichSegmentResult(objs, response);
    if r.Some? && (exists i :: 0 <= i < |objs| && HasId(objs[i])) {
      EnrichedListShape(objs, EnrichedMap(response));
    }
  }

  /** Every output record keeps the id of the record it replaces, and a
      `code` the input record had. */
  lemma {:induction false} EnrichKeepsIdAndCode(objs: seq<Paper>, response: Response)
    requires EnrichSegmentResult(objs, response).Some?
    ensures var r := EnrichSegmentResult(objs, response).value;
            |r| == |objs|
            && forall i :: 0 <= i < |objs| ==>
                 r[i].paperId == objs[i].paperId && (!objs[i].code.Missing? ==> r[i].code == objs[i].code)
  {
    if objs != [] && BatchIds(objs) != [] {
      var m := EnrichedMap(response);
      EnrichedMapConsistent(response);
      EnrichedListShape(objs, m);
    }
  }

  /** Records that all have an id are always enriched without error, one
      for one, and keep their ids. */
  lemma {:induction false} EnrichWithIds(objs: seq<Paper>, response: Response)
    requires forall i :: 0 <= i < |objs| ==> HasId(objs[i])
    ensures var r := EnrichSegmentResult(objs, response);
            r.Some? && |r.value| == |objs| && forall i :: 0 <= i < |objs| ==> HasId(r.value[i]) && r.value[i].paperId == objs[i].paperId
  {
    EnrichKeepsIdAndCode(objs, response);
  }
}
