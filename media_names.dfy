/** `classify_media_name` (news_app.py): a media outlet's display name is
    put in the first camp, in table order, one of whose keywords occurs in
    the lower-cased name. */
module MediaNames {
  import opened Text

  datatype Category = China | Green | Blue | Other

  /** `NAME_KEYWORDS`, in the order of its entries. */
  const NameKeywords: seq<(Category, seq<string>)> := [
    (China, ["新華", "人民", "環球"]),
    (Green, ["自由", "三立", "民視"]),
    (Blue, ["聯合", "中時", "TVBS"])
  ]

  /** No entry of a keyword table names the fallback category. */
  predicate ProperTable(table: seq<(Category, seq<string>)>)
  {
    forall j :: 0 <= j < |table| ==> table[j].0 != Other
  }

  /** `any(k in n for k in keywords)`. */
  predicate AnyKeywordIn(n: string, keywords: seq<string>)
  {
    exists k :: 0 <= k < |keywords| && Contains(n, keywords[k])
  }

  /** The category of the first entry of `table` with a keyword in `n`, or
      `Other` when there is none. */
  function FirstMatch(n: string, table: seq<(Category, seq<string>)>): (r: Category)
    requires ProperTable(table)
    ensures r == Other <==> forall j :: 0 <= j < |table| ==> !AnyKeywordIn(n, table[j].1)
    ensures r != Other ==> exists j :: 0 <= j < |table| && table[j].0 == r && AnyKeywordIn(n, table[j].1)
                                       && forall i :: 0 <= i < j ==> !AnyKeywordIn(n, table[i].1)
  {
    if table == [] then Other
    else if AnyKeywordIn(n, table[0].1) then table[0].0
    else
      var r := FirstMatch(n, table[1..]);
      assert forall j :: 1 <= j < |table| ==> table[j] == table[1..][j - 1];
      r
  }

  /** `classify_media_name` as written: only the name is lower-cased, the
      keywords are compared as they stand in the table. */
  function ClassifyMediaName(name: string): (r: Category)
    ensures r == Other <==> forall j :: 0 <= j < |NameKeywords| ==> !AnyKeywordIn(Lower(name), NameKeywords[j].1)
    ensures r != Other ==> exists j :: 0 <= j < |NameKeywords| && NameKeywords[j].0 == r
                                       && AnyKeywordIn(Lower(name), NameKeywords[j].1)
                                       && forall i :: 0 <= i < j ==> !AnyKeywordIn(Lower(name), NameKeywords[i].1)
  {
    FirstMatch(Lower(name), NameKeywords)
  }

  /** A keyword whose first character does not occur in `s` is not in `s`. */
  lemma {:induction false} AbsentFirstChar(s: string, k: string)
    requires |k| > 0 && k[0] !in s
    ensures !Contains(s, k)
  {
  }

  /** The upper-case keyword "TVBS" never occurs in a lower-cased name. */
  lemma {:induction false} TvbsNeverMatches(name: string)
    ensures !Contains(Lower(name), "TVBS")
  {
    AbsentFirstChar(Lower(name), "TVBS");
  }

  /** The station TVBS, listed among the BLUE keywords, is classified OTHER
      by the code as written. */
  lemma {:induction false} TvbsClassifiedOther()
    ensures ClassifyMediaName("TVBS") == Other
  {
    var n := Lower("TVBS");
    assert n == "tvbs";
    forall j, k | 0 <= j < |NameKeywords| && 0 <= k < |NameKeywords[j].1|
      ensures !Contains(n, NameKeywords[j].1[k])
    {
      var kw := NameKeywords[j].1[k];
      if kw == "TVBS" {
        TvbsNeverMatches("TVBS");
      } else {
        AbsentFirstChar(n, kw);
      }
    }
  }

  /** The keyword table with every keyword lower-cased as the name is. */
  function LoweredTable(table: seq<(Category, seq<string>)>): (r: seq<(Category, seq<string>)>)
    ensures |r| == |table|
    ensures forall j :: 0 <= j < |r| ==> r[j].0 == table[j].0 && |r[j].1| == |table[j].1|
    ensures forall j, k :: 0 <= j < |r| && 0 <= k < |r[j].1| ==> r[j].1[k] == Lower(table[j].1[k])
  {
    seq(|table|, j requires 0 <= j < |table| =>
      (table[j].0, seq(|table[j].1|, k requires 0 <= k < |table[j].1| => Lower(table[j].1[k]))))
  }

  /** The evidently intended classifier: keywords compared case-insensitively. */
  function ClassifyMediaNameCorrected(name: string): (r: Category)
    ensures r == Other <==> forall j :: 0 <= j < |NameKeywords| ==> !AnyKeywordIn(Lower(name), LoweredTable(NameKeywords)[j].1)
    ensures r != Other ==> exists j :: 0 <= j < |NameKeywords| && NameKeywords[j].0 == r
                                       && AnyKeywordIn(Lower(name), LoweredTable(NameKeywords)[j].1)
                                       && forall i :: 0 <= i < j ==> !AnyKeywordIn(Lower(name), LoweredTable(NameKeywords)[i].1)
  {
    FirstMatch(Lower(name), LoweredTable(NameKeywords))
  }

  /** With the keywords lower-cased, TVBS is BLUE in any letter case. */
  lemma {:induction false} CorrectedTvbsIsBlue()
    ensures ClassifyMediaNameCorrected("TVBS") == Blue
    ensures ClassifyMediaNameCorrected("tvbs") == Blue
  {
    var table := LoweredTable(NameKeywords);
    assert Lower("TVBS") == "tvbs";
    assert Lower("tvbs") == "tvbs";
    LoweredBlueHasTvbs();
    forall j | 0 <= j < 2
      ensures !AnyKeywordIn("tvbs", table[j].1)
    {
      forall k | 0 <= k < |table[j].1|
        ensures !Contains("tvbs", table[j].1[k])
      {
        CampMissesTvbs(j, k);
      }
    }
  }

  /** The lower-cased BLUE keywords hold "tvbs". */
  lemma {:induction false} LoweredBlueHasTvbs()
    ensures AnyKeywordIn("tvbs", LoweredTable(NameKeywords)[2].1)
  {
    var table := LoweredTable(NameKeywords);
    assert table[2].1[2] == Lower("TVBS") == "tvbs";
    assert OccursAt("tvbs", "tvbs", 0);
    ContainsIff("tvbs", "tvbs");
  }

  /** No lower-cased CHINA or GREEN keyword occurs in "tvbs": each begins
      with a character that "tvbs" lacks. */
  lemma {:induction false} CampMissesTvbs(j: nat, k: nat)
    requires j < 2 && k < |NameKeywords[j].1|
    ensures !Contains("tvbs", LoweredTable(NameKeywords)[j].1[k])
  {
    var kw := NameKeywords[j].1[k];
    assert kw[0] !in "tvbs";
    assert Lower(kw)[0] == LowerChar(kw[0]);
    AbsentFirstChar("tvbs", Lower(kw));
  }

  /** Lower-casing leaves the Chinese keywords as they are, so the corrected
      classifier differs from the one as written only on names containing
      "tvbs". */
  lemma {:induction false} CorrectedAgreesWithoutTvbs(name: string)
    requires !Contains(Lower(name), "tvbs")
    ensures ClassifyMediaNameCorrected(name) == ClassifyMediaName(name)
  {
    var n := Lower(name);
    var table := LoweredTable(NameKeywords);
    forall j | 0 <= j < |NameKeywords|
      ensures AnyKeywordIn(n, table[j].1) == AnyKeywordIn(n, NameKeywords[j].1)
    {
      forall k | 0 <= k < |NameKeywords[j].1|
        ensures Contains(n, table[j].1[k]) == Contains(n, NameKeywords[j].1[k])
      {
        KeywordAgrees(name, j, k);
      }
    }
    FirstMatchAgree(n, table, NameKeywords);
  }

  /** A keyword and its lower-cased form occur alike in a lower-cased name
      without "tvbs". */
  lemma {:induction false} KeywordAgrees(name: string, j: nat, k: nat)
    requires !Contains(Lower(name), "tvbs")
    requires j < |NameKeywords| && k < |NameKeywords[j].1|
    ensures Contains(Lower(name), LoweredTable(NameKeywords)[j].1[k]) == Contains(Lower(name), NameKeywords[j].1[k])
  {
    var kw := NameKeywords[j].1[k];
    if kw == "TVBS" {
      assert Lower(kw) == "tvbs";
      TvbsNeverMatches(name);
    } else {
      assert forall i :: 0 <= i < |kw| ==> !('A' <= kw[i] <= 'Z');
      assert Lower(kw) == kw;
    }
  }

  /** Two tables with the same categories and the same verdict per entry
      give the same first match. */
  lemma {:induction false} FirstMatchAgree(n: string, t1: seq<(Category, seq<string>)>, t2: seq<(Category, seq<string>)>)
    requires ProperTable(t1) && ProperTable(t2) && |t1| == |t2|
    requires forall j :: 0 <= j < |t1| ==> t1[j].0 == t2[j].0 && AnyKeywordIn(n, t1[j].1) == AnyKeywordIn(n, t2[j].1)
    ensures FirstMatch(n, t1) == FirstMatch(n, t2)
  {
    if t1 != [] {
      FirstMatchAgree(n, t1[1..], t2[1..]);
    }
  }
}
