/** The PI candidate list of academic_app.py: for every paper of the
    lineage (ancestors, the paper itself, descendants) its first, last,
    second-last and third-last authors are offered under a label, and a
    label already offered keeps the author it was first offered for. */
module PiOptions {
  import opened Values
  import opened Text
  import opened Papers

  const FirstRole := "第一作者"
  const LastRole := "最後作者"
  const SecondLastRole := "倒數第二"
  const ThirdLastRole := "倒數第三"

  /** One entry of `pi_options`: a label and the author id it selects. */
  datatype Choice = Choice(key: string, authorId: string)

  /** `p.get('title', 'Unknown')[:20] + "..."`; `None` where slicing a null
      title raises. */
  function SafeTitle(p: Paper): (r: Option<string>)
    ensures r.None? <==> p.title.Null?
    ensures r.Some? ==> |r.value| <= 23
  {
    match p.title
    case Null => None
    case Missing => Some(Take("Unknown", 20) + "...")
    case Present(t) => Some(Take(t, 20) + "...")
  }

  function Label(role: string, a: Author, safeTitle: string): string
  {
    "[" + role + "] " + ShowStr(a.name, "None") + " (from " + safeTitle + ")"
  }

  /** The (role, author) pairs `add_opt` is called with for a paper with
      these authors, in call order. */
  function Candidates(authors: seq<Author>): (r: seq<(string, Author)>)
    requires |authors| >= 1
  {
    var n := |authors|;
    if n == 1 then [(FirstRole, authors[0])]
    else if n == 2 then [(FirstRole, authors[0]), (LastRole, authors[1])]
    else if n == 3 then [(FirstRole, authors[0]), (LastRole, authors[2]), (SecondLastRole, authors[1])]
    else [(FirstRole, authors[0]), (LastRole, authors[n - 1]), (SecondLastRole, authors[n - 2]), (ThirdLastRole, authors[n - 3])]
  }

  /** At most four authors are candidates, each under one role; with up to
      four authors every one of them is, with more exactly the first and the
      last three are. */
  lemma {:induction false} CandidatesCover(authors: seq<Author>)
    requires |authors| >= 1
    ensures |Candidates(authors)| == (if |authors| < 4 then |authors| else 4)
    ensures forall i :: 0 <= i < |authors| && (|authors| <= 4 || i == 0 || i >= |authors| - 3) ==>
              exists k :: 0 <= k < |Candidates(authors)| && Candidates(authors)[k].1 == authors[i]
    ensures forall k :: 0 <= k < |Candidates(authors)| ==>
              exists i :: 0 <= i < |authors| && (i == 0 || i >= |authors| - 3) && Candidates(authors)[k].1 == authors[i]
  {
    CandidatesAll(authors);
    CandidatesOnly(authors);
  }

  lemma {:induction false} CandidatesAll(authors: seq<Author>)
    requires |authors| >= 1
    ensures forall i :: 0 <= i < |authors| && (|authors| <= 4 || i == 0 || i >= |authors| - 3) ==>
              exists k :: 0 <= k < |Candidates(authors)| && Candidates(authors)[k].1 == authors[i]
  {
    CandidatesAt(authors);
    forall i | 0 <= i < |authors| && (|authors| <= 4 || i == 0 || i >= |authors| - 3)
      ensures exists k :: 0 <= k < |Candidates(authors)| && Candidates(authors)[k].1 == authors[i]
    {
      CandidateOf(authors, i);
    }
  }

  lemma {:induction false} CandidatesOnly(authors: seq<Author>)
    requires |authors| >= 1
    ensures forall k :: 0 <= k < |Candidates(authors)| ==>
              exists i :: 0 <= i < |authors| && (i == 0 || i >= |authors| - 3) && Candidates(authors)[k].1 == authors[i]
  {
    CandidatesAt(authors);
    forall k | 0 <= k < |Candidates(authors)|
      ensures exists i :: 0 <= i < |authors| && (i == 0 || i >= |authors| - 3) && Candidates(authors)[k].1 == authors[i]
    {
      AuthorOf(authors, k);
    }
  }

  lemma {:induction false} CandidateOf(authors: seq<Author>, i: nat)
    requires i < |authors| && (|authors| <= 4 || i == 0 || i >= |authors| - 3)
    ensures exists k :: 0 <= k < |Candidates(authors)| && Candidates(authors)[k].1 == authors[i]
  {
    var n := |authors|;
    CandidatesAt(authors);
    var k := if i == 0 then 0 else if i == n - 1 then 1 else if i == n - 2 then 2 else 3;
    assert Candidates(authors)[k].1 == authors[i];
  }

  lemma {:induction false} AuthorOf(authors: seq<Author>, k: nat)
    requires |authors| >= 1 && k < |Candidates(authors)|
    ensures exists i :: 0 <= i < |authors| && (i == 0 || i >= |authors| - 3) && Candidates(authors)[k].1 == authors[i]
  {
    CandidatesAt(authors);
    var i := if k == 0 then 0 else |authors| - k;
    assert Candidates(authors)[k].1 == authors[i];
  }

  /** What one `add_opt(a, role)` call offers: nothing unless the author
      has a truthy id. */
  function Offer(a: Author, role: string, safeTitle: string): seq<Choice>
  {
    if Truthy(a.authorId) then [Choice(Label(role, a, safeTitle), a.authorId.value)] else []
  }

  function OffersFrom(cands: seq<(string, Author)>, safeTitle: string): seq<Choice>
  {
    if cands == [] then []
    else OffersFrom(cands[..|cands| - 1], safeTitle) + Offer(cands[|cands| - 1].1, cands[|cands| - 1].0, safeTitle)
  }

  /** The offers one paper makes, before de-duplication; `None` where its
      title raises. A paper without authors offers nothing. */
  function PaperOffers(p: Paper): Option<seq<Choice>>
  {
    var authors := AuthorsOf(p);
    if authors == [] then Some([])
    else
      match SafeTitle(p)
      case None => None
      case Some(t) => Some(OffersFrom(Candidates(authors), t))
  }

  /** `c` is what the call for candidate `j` offers. */
  predicate OfferedFor(c: Choice, cands: seq<(string, Author)>, t: string)
  {
    exists j :: 0 <= j < |cands| && Truthy(cands[j].1.authorId)
                && c == Choice(Label(cands[j].0, cands[j].1, t), cands[j].1.authorId.value)
  }

  /** Every offer of a paper names a candidate author that has an id. */
  lemma {:induction false} OffersFromIds(cands: seq<(string, Author)>, t: string)
    ensures forall k :: 0 <= k < |OffersFrom(cands, t)| ==> OfferedFor(OffersFrom(cands, t)[k], cands, t)
  {
    if cands != [] {
      var n := |cands| - 1;
      var init := cands[..n];
      OffersFromIds(init, t);
      var pre := OffersFrom(init, t);
      var all := OffersFrom(cands, t);
      assert all == pre + Offer(cands[n].1, cands[n].0, t);
      forall k | 0 <= k < |all|
        ensures OfferedFor(all[k], cands, t)
      {
        if k < |pre| {
          assert all[k] == pre[k];
          assert OfferedFor(pre[k], init, t);
          var j :| 0 <= j < |init| && Truthy(init[j].1.authorId)
                   && pre[k] == Choice(Label(init[j].0, init[j].1, t), init[j].1.authorId.value);
          assert cands[j] == init[j];
        } else {
          assert all[k] == Offer(cands[n].1, cands[n].0, t)[0];
          assert Truthy(cands[n].1.authorId);
        }
      }
    }
  }

  /** All offers of the papers, in order; `None` where some paper raises. */
  function AllOffers(papers: seq<Paper>): Option<seq<Choice>>
  {
    if papers == [] then Some([])
    else
      match AllOffers(papers[..|papers| - 1])
      case None => None
      case Some(before) =>
        match PaperOffers(papers[|papers| - 1])
        case None => None
        case Some(o) => Some(before + o)
  }

  /** One more paper of the lineage. */
  lemma {:induction false} AllOffersSnoc(all: seq<Paper>, i: nat, offered: seq<Choice>)
    requires i < |all| && AllOffers(all[..i]) == Some(offered)
    ensures AllOffers(all[..i + 1]) == match PaperOffers(all[i]) case None => None case Some(o) => Some(offered + o)
  {
    assert all[..i + 1][..i] == all[..i];
  }

  lemma {:induction false} AllOffersPrefixFails(papers: seq<Paper>, i: nat)
    requires i <= |papers| && AllOffers(papers[..i]).None?
    ensures AllOffers(papers).None?
  {
    if i < |papers| {
      var init := papers[..|papers| - 1];
      assert init[..i] == papers[..i];
      AllOffersPrefixFails(init, i);
    } else {
      assert papers[..i] == papers;
    }
  }

  // ---------------------------------------------------------------------
  // pi_options

  predicate HasLabel(opts: seq<Choice>, l: string)
  {
    exists j :: 0 <= j < |opts| && opts[j].key == l
  }

  /** `if lbl not in pi_options: pi_options[lbl] = id`. */
  function AddChoice(opts: seq<Choice>, c: Choice): seq<Choice>
  {
    if HasLabel(opts, c.key) then opts else opts + [c]
  }

  /** The dictionary left after offering `offers` in order, as its list of
      items in insertion order (the order of `list(pi_options.keys())`). */
  function FirstWins(offers: seq<Choice>): seq<Choice>
  {
    if offers == [] then []
    else AddChoice(FirstWins(offers[..|offers| - 1]), offers[|offers| - 1])
  }

  lemma {:induction false} FirstWinsSnoc(offers: seq<Choice>, c: Choice)
    ensures FirstWins(offers + [c]) == AddChoice(FirstWins(offers), c)
  {
    assert (offers + [c])[..|offers|] == offers;
  }

  /** The options of the whole lineage, or `None` where a title raises. */
  function PiOptionsOf(ancestors: seq<Paper>, hero: Paper, descendants: seq<Paper>): Option<seq<Choice>>
  {
    match AllOffers(ancestors + [hero] + descendants)
    case None => None
    case Some(offers) => Some(FirstWins(offers))
  }

  /** One `add_opt(a_obj, role)` call, once `before` has been offered. */
  method AddOpt(opts: seq<Choice>, a: Author, role: string, safeTitle: string, ghost before: seq<Choice>)
    returns (r: seq<Choice>)
    requires opts == FirstWins(before)
    ensures r == FirstWins(before + Offer(a, role, safeTitle))
  {
    r := opts;
    if Truthy(a.authorId) {
      var lbl := Label(role, a, safeTitle);
      var choice := Choice(lbl, a.authorId.value);
      FirstWinsSnoc(before, choice);
      if !HasLabel(opts, lbl) {
        r := opts + [choice];
      }
    } else {
      assert before + [] == before;
    }
  }

  /** The loop that fills `pi_options`. */
  method BuildPiOptions(ancestors: seq<Paper>, hero: Paper, descendants: seq<Paper>) returns (r: Option<seq<Choice>>)
    ensures r == PiOptionsOf(ancestors, hero, descendants)
  {
    var all := ancestors + [hero] + descendants;
    var opts: seq<Choice> := [];
    ghost var offered: seq<Choice> := [];
    for i := 0 to |all|
      invariant AllOffers(all[..i]) == Some(offered)
      invariant opts == FirstWins(offered)
    {
      AllOffersSnoc(all, i, offered);
      var next := PaperOptions(opts, all[i], offered);
      if next.None? {
        AllOffersPrefixFails(all, i + 1);
        return None;
      }
      opts := next.value;
      offered := offered + PaperOffers(all[i]).value;
    }
    assert all[..|all|] == all;
    r := Some(opts);
  }

  /** The body of the loop for one paper: skipped without authors, an
      error where its title cannot be cut, else its `add_opt` calls. */
  method PaperOptions(opts: seq<Choice>, p: Paper, ghost offered: seq<Choice>) returns (r: Option<seq<Choice>>)
    requires opts == FirstWins(offered)
    ensures r.None? <==> PaperOffers(p).None?
    ensures r.Some? ==> r.value == FirstWins(offered + PaperOffers(p).value)
  {
    var authors := AuthorsOf(p);
    if authors == [] {
      assert offered + [] == offered;
      return Some(opts);
    }
    var title := SafeTitle(p);
    if title.None? {
      return None;
    }
    var next := AddPaperOptions(opts, authors, title.value, offered);
    r := Some(next);
  }

  /** The `add_opt` calls for one paper with authors (a paper with three or
      more authors also has more than one, so the guards nest). */
  method AddPaperOptions(opts: seq<Choice>, authors: seq<Author>, t: string, ghost offered: seq<Choice>)
    returns (r: seq<Choice>)
    requires |authors| >= 1 && opts == FirstWins(offered)
    ensures r == FirstWins(offered + OffersFrom(Candidates(authors), t))
  {
    var n := |authors|;
    OffersOfCandidates(offered, authors, t);
    ghost var acc := offered + Offer(authors[0], FirstRole, t);
    r := AddOpt(opts, authors[0], FirstRole, t, offered);
    if n > 1 {
      r := AddOpt(r, authors[n - 1], LastRole, t, acc);
      acc := acc + Offer(authors[n - 1], LastRole, t);
      if n >= 3 {
        r := AddOpt(r, authors[n - 2], SecondLastRole, t, acc);
        acc := acc + Offer(authors[n - 2], SecondLastRole, t);
        if n >= 4 {
          r := AddOpt(r, authors[n - 3], ThirdLastRole, t, acc);
          acc := acc + Offer(authors[n - 3], ThirdLastRole, t);
        }
      }
    }
  }

  /** The offers of a paper's candidates, call by call. */
  lemma {:induction false} OffersOfCandidates(offered: seq<Choice>, authors: seq<Author>, t: string)
    requires |authors| >= 1
    ensures var n := |authors|; var all := offered + OffersFrom(Candidates(authors), t);
            var a1 := offered + Offer(authors[0], FirstRole, t);
            && (n == 1 ==> all == a1)
            && (n > 1 ==> var a2 := a1 + Offer(authors[n - 1], LastRole, t);
                 && (n == 2 ==> all == a2)
                 && (n >= 3 ==> var a3 := a2 + Offer(authors[n - 2], SecondLastRole, t);
                      && (n == 3 ==> all == a3)
                      && (n >= 4 ==> all == a3 + Offer(authors[n - 3], ThirdLastRole, t))))
  {
    var c := Candidates(authors);
    CandidatesAt(authors);
    OffersInOrder(offered, c, t);
  }

  /** The offers of up to four candidates, one call after the other. */
  lemma {:induction false} OffersInOrder(offered: seq<Choice>, c: seq<(string, Author)>, t: string)
    requires 1 <= |c| <= 4
    ensures var all := offered + OffersFrom(c, t);
            var a1 := offered + Offer(c[0].1, c[0].0, t);
            && (|c| == 1 ==> all == a1)
            && (|c| >= 2 ==> var a2 := a1 + Offer(c[1].1, c[1].0, t);
                 && (|c| == 2 ==> all == a2)
                 && (|c| >= 3 ==> var a3 := a2 + Offer(c[2].1, c[2].0, t);
                      && (|c| == 3 ==> all == a3)
                      && (|c| == 4 ==> all == a3 + Offer(c[3].1, c[3].0, t))))
  {
    if |c| == 1 {
      OffersFromSnoc(offered, c, t);
      assert c[..0] == [];
    } else {
      OffersFromSnoc(offered, c, t);
      OffersInOrder(offered, c[..|c| - 1], t);
    }
  }

  lemma {:induction false} OffersFromSnoc(offered: seq<Choice>, c: seq<(string, Author)>, t: string)
    requires |c| >= 1
    ensures offered + OffersFrom(c, t) == offered + OffersFrom(c[..|c| - 1], t) + Offer(c[|c| - 1].1, c[|c| - 1].0, t)
  {
  }

  lemma {:induction false} CandidatesAt(authors: seq<Author>)
    requires |authors| >= 1
    ensures var c := Candidates(authors); var n := |authors|;
            && |c| == (if n < 4 then n else 4)
            && c[0] == (FirstRole, authors[0])
            && (n > 1 ==> c[1] == (LastRole, authors[n - 1]))
            && (n >= 3 ==> c[2] == (SecondLastRole, authors[n - 2]))
            && (n >= 4 ==> c[3] == (ThirdLastRole, authors[n - 3]))
  {
  }

  // ---------------------------------------------------------------------
  // what the de-duplication guarantees

  /** No label is listed twice. */
  predicate UniqueLabels(opts: seq<Choice>)
  {
    forall i, j :: 0 <= i < j < |opts| ==> opts[i].key != opts[j].key
  }

  /** The options hold each offered label once, no label that was not
      offered, and for each label the author id it was first offered
      with. */
  lemma {:induction false} FirstWinsSpec(offers: seq<Choice>)
    ensures UniqueLabels(FirstWins(offers))
    ensures forall l :: HasLabel(FirstWins(offers), l) <==> HasLabel(offers, l)
    ensures forall k :: 0 <= k < |FirstWins(offers)| ==>
              exists j :: 0 <= j < |offers| && offers[j] == FirstWins(offers)[k]
                          && forall j' :: 0 <= j' < j ==> offers[j'].key != offers[j].key
  {
    if offers != [] {
      var init := offers[..|offers| - 1];
      var c := offers[|offers| - 1];
      var before := FirstWins(init);
      FirstWinsSpec(init);
      assert forall j :: 0 <= j < |init| ==> init[j] == offers[j];
      var r := FirstWins(offers);
      assert r == AddChoice(before, c);
      assert offers == init + [c];
      forall l
        ensures HasLabel(r, l) <==> HasLabel(offers, l)
      {
        HasLabelSnoc(init, c, l);
        HasLabelSnoc(before, c, l);
      }
      forall k | 0 <= k < |r|
        ensures exists j :: 0 <= j < |offers| && offers[j] == r[k]
                            && forall j' :: 0 <= j' < j ==> offers[j'].key != offers[j].key
      {
        if k == |before| {
          assert !HasLabel(init, c.key);
          assert offers[|offers| - 1] == r[k];
        }
      }
    }
  }

  lemma {:induction false} HasLabelSnoc(s: seq<Choice>, c: Choice, l: string)
    ensures HasLabel(s + [c], l) <==> HasLabel(s, l) || c.key == l
  {
    if HasLabel(s, l) {
      var j :| 0 <= j < |s| && s[j].key == l;
      assert (s + [c])[j] == s[j];
    }
    if c.key == l {
      assert (s + [c])[|s|] == c;
    }
    if HasLabel(s + [c], l) {
      var j :| 0 <= j < |s| + 1 && (s + [c])[j].key == l;
      if j < |s| {
        assert s[j] == (s + [c])[j];
      }
    }
  }

  /** De-duplicating a list without repeated labels changes nothing, so
      de-duplicating twice is de-duplicating once. */
  lemma {:induction false} FirstWinsOfUnique(opts: seq<Choice>)
    requires UniqueLabels(opts)
    ensures FirstWins(opts) == opts
  {
    if opts != [] {
      var init := opts[..|opts| - 1];
      var c := opts[|opts| - 1];
      assert UniqueLabels(init);
      FirstWinsOfUnique(init);
      assert !HasLabel(init, c.key);
      assert init + [c] == opts;
    }
  }

  lemma {:induction false} FirstWinsIdempotent(offers: seq<Choice>)
    ensures FirstWins(FirstWins(offers)) == FirstWins(offers)
  {
    FirstWinsSpec(offers);
    FirstWinsOfUnique(FirstWins(offers));
  }

  /** `c` is offered by one of the `add_opt` calls for paper `p`. */
  predicate OfferOfPaper(c: Choice, p: Paper)
  {
    AuthorsOf(p) != [] && SafeTitle(p).Some? && OfferedFor(c, Candidates(AuthorsOf(p)), SafeTitle(p).value)
  }

  lemma {:induction false} AllOffersFromPapers(papers: seq<Paper>)
    requires AllOffers(papers).Some?
    ensures forall k :: 0 <= k < |AllOffers(papers).value| ==>
              exists i :: 0 <= i < |papers| && OfferOfPaper(AllOffers(papers).value[k], papers[i])
  {
    if papers != [] {
      var n := |papers| - 1;
      var init := papers[..n];
      AllOffersFromPapers(init);
      var before := AllOffers(init).value;
      var o := PaperOffers(papers[n]).value;
      var all := AllOffers(papers).value;
      assert all == before + o;
      forall k | 0 <= k < |all|
        ensures exists i :: 0 <= i < |papers| && OfferOfPaper(all[k], papers[i])
      {
        if k < |before| {
          assert all[k] == before[k];
          var i :| 0 <= i < |init| && OfferOfPaper(before[k], init[i]);
          assert papers[i] == init[i];
        } else {
          var p := papers[n];
          assert AuthorsOf(p) != [];
          OffersFromIds(Candidates(AuthorsOf(p)), SafeTitle(p).value);
          assert all[k] == o[k - |before|];
          assert OfferOfPaper(all[k], p);
        }
      }
    }
  }

  /** The built options have unique labels, and each option is one that an
      `add_opt` call made for a paper of the lineage: a candidate author
      with an id, under its role, the paper's cut title, and the first id
      offered with that label. De-duplicating them again changes nothing. */
  lemma {:induction false} PiOptionsSpec(ancestors: seq<Paper>, hero: Paper, descendants: seq<Paper>)
    ensures var r := PiOptionsOf(ancestors, hero, descendants);
            r.Some? ==> UniqueLabels(r.value) && FirstWins(r.value) == r.value
    ensures var all := ancestors + [hero] + descendants; var r := PiOptionsOf(ancestors, hero, descendants);
            r.Some? ==> forall k :: 0 <= k < |r.value| ==> exists i :: 0 <= i < |all| && OfferOfPaper(r.value[k], all[i])
  {
    var all := ancestors + [hero] + descendants;
    var offers := AllOffers(all);
    if offers.Some? {
      assert PiOptionsOf(ancestors, hero, descendants) == Some(FirstWins(offers.value));
      FirstWinsIdempotent(offers.value);
      FirstWinsUnique(offers.value);
      ChosenFromPapers(all, offers.value);
    }
  }

  lemma {:induction false} FirstWinsUnique(offers: seq<Choice>)
    ensures UniqueLabels(FirstWins(offers))
  {
    FirstWinsSpec(offers);
  }

  /** Each option kept is an offer of some paper. */
  lemma {:induction false} ChosenFromPapers(all: seq<Paper>, offers: seq<Choice>)
    requires AllOffers(all) == Some(offers)
    ensures forall k :: 0 <= k < |FirstWins(offers)| ==> exists i :: 0 <= i < |all| && OfferOfPaper(FirstWins(offers)[k], all[i])
  {
    forall k | 0 <= k < |FirstWins(offers)|
      ensures exists i :: 0 <= i < |all| && OfferOfPaper(FirstWins(offers)[k], all[i])
    {
      ChosenFromPaper(all, offers, k);
    }
  }

  lemma {:induction false} ChosenFromPaper(all: seq<Paper>, offers: seq<Choice>, k: nat)
    requires AllOffers(all) == Some(offers) && k < |FirstWins(offers)|
    ensures exists i :: 0 <= i < |all| && OfferOfPaper(FirstWins(offers)[k], all[i])
  {
    FirstWinsFrom(offers);
    var j :| 0 <= j < |offers| && offers[j] == FirstWins(offers)[k];
    OfferFromPaper(all, j);
  }

  lemma {:induction false} OfferFromPaper(papers: seq<Paper>, j: nat)
    requires AllOffers(papers).Some? && j < |AllOffers(papers).value|
    ensures exists i :: 0 <= i < |papers| && OfferOfPaper(AllOffers(papers).value[j], papers[i])
  {
    AllOffersFromPapers(papers);
  }

  /** Every kept option is one of the offers. */
  lemma {:induction false} FirstWinsFrom(offers: seq<Choice>)
    ensures forall k :: 0 <= k < |FirstWins(offers)| ==> exists j :: 0 <= j < |offers| && offers[j] == FirstWins(offers)[k]
  {
    if offers != [] {
      var init := offers[..|offers| - 1];
      FirstWinsFrom(init);
      var before := FirstWins(init);
      var r := FirstWins(offers);
      assert r == AddChoice(before, offers[|offers| - 1]);
      forall k | 0 <= k < |r|
        ensures exists j :: 0 <= j < |offers| && offers[j] == r[k]
      {
        if k < |before| {
          var j :| 0 <= j < |init| && init[j] == before[k];
          assert offers[j] == init[j];
        } else {
          assert offers[|offers| - 1] == r[k];
        }
      }
    } else {
      assert FirstWins(offers) == [];
    }
  }
}
