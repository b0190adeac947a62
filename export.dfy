/**
 * What `save_categorized_csv` and `print_by_category` compute before any
 * file or console output: the records grouped by category in first-seen
 * order, the per-category counts, and each category's file name.
 */
module Export {
  import opened Text
  import opened Records
  import opened Classifier

  /** Every record has a category (otherwise `internship['category']` raises). */
  predicate AllCategorized(rs: seq<Internship>) {
    forall i :: 0 <= i < |rs| ==> rs[i].category.Some?
  }

  /** The records filed under category `c`, in their order. */
  function InCategory(rs: seq<Internship>, c: string): seq<Internship>
    decreases |rs|
  {
    if rs == [] then []
    else
      var init, last := rs[..|rs| - 1], rs[|rs| - 1];
      InCategory(init, c) + (if last.category == Some(c) then [last] else [])
  }

  /** The categories present, in the order each is first seen (the insertion
      order of the grouping dictionary). */
  function SeenCategories(rs: seq<Internship>): seq<string>
    decreases |rs|
  {
    if rs == [] then []
    else
      var init, last := rs[..|rs| - 1], rs[|rs| - 1];
      if last.category.None? || last.category.value in SeenCategories(init) then SeenCategories(init)
      else SeenCategories(init) + [last.category.value]
  }

  /** `rs[i]` is the first record of category `c`. */
  predicate FirstOfCategory(rs: seq<Internship>, c: string, i: int) {
    0 <= i < |rs| && rs[i].category == Some(c) &&
    forall k :: 0 <= k < i ==> rs[k].category != Some(c)
  }

  /** Sum of the group sizes over the categories `cs`. */
  function GroupTotal(rs: seq<Internship>, cs: seq<string>): nat
    decreases |cs|
  {
    if cs == [] then 0 else GroupTotal(rs, cs[..|cs| - 1]) + |InCategory(rs, cs[|cs| - 1])|
  }

  /** The category part of a file name: lowered, " & " and then " " replaced by "_". */
  function FileStem(category: string): string {
    Replace(Replace(Lower(category), " & ", "_"), " ", "_")
  }

  /** The name of the file a category is written to on a given date. */
  function CategoryFileName(category: string, date: string): string {
    "internships_" + FileStem(category) + "_" + date + ".csv"
  }

  lemma InCategorySnoc(rs: seq<Internship>, x: Internship, c: string)
    ensures InCategory(rs + [x], c) == InCategory(rs, c) + (if x.category == Some(c) then [x] else [])
  {
    assert (rs + [x])[..|rs|] == rs;
  }

  /** A group holds exactly the records of its category, in their order. */
  lemma {:induction false} InCategorySpec(rs: seq<Internship>, c: string)
    ensures forall x :: x in InCategory(rs, c) <==> x in rs && x.category == Some(c)
    ensures IsSubsequence(InCategory(rs, c), rs)
    decreases |rs|
  {
    if rs != [] {
      var init, last := rs[..|rs| - 1], rs[|rs| - 1];
      assert rs == init + [last];
      InCategorySpec(init, c);
      var g := InCategory(rs, c);
      if last.category == Some(c) {
        assert g[..|g| - 1] == InCategory(init, c);
        assert g[|g| - 1] == rs[|rs| - 1];
      } else if g != [] {
        assert g == InCategory(init, c);
        assert IsSubsequence(g, rs[..|rs| - 1]);
      }
    }
  }

  /** The seen categories are distinct and are exactly the categories present. */
  lemma {:induction false} SeenCategoriesSpec(rs: seq<Internship>)
    ensures forall a, b :: 0 <= a < b < |SeenCategories(rs)| ==> SeenCategories(rs)[a] != SeenCategories(rs)[b]
    ensures forall c :: c in SeenCategories(rs) <==> exists i :: 0 <= i < |rs| && rs[i].category == Some(c)
    decreases |rs|
  {
    if rs != [] {
      var init, last := rs[..|rs| - 1], rs[|rs| - 1];
      SeenCategoriesSpec(init);
      forall c ensures c in SeenCategories(rs) <==> exists i :: 0 <= i < |rs| && rs[i].category == Some(c) {
        if c in SeenCategories(rs) && c in SeenCategories(init) {
          var i :| 0 <= i < |init| && init[i].category == Some(c);
          assert rs[i] == init[i];
        }
        if exists i :: 0 <= i < |rs| && rs[i].category == Some(c) {
          var i :| 0 <= i < |rs| && rs[i].category == Some(c);
          if i < |init| {
            assert init[i] == rs[i];
          }
        }
      }
    }
  }

  /** Categories appear in the order of their first records. */
  lemma {:induction false} SeenCategoriesOrder(rs: seq<Internship>)
    ensures forall a, b, i, j ::
      (0 <= a < b < |SeenCategories(rs)| &&
       FirstOfCategory(rs, SeenCategories(rs)[a], i) && FirstOfCategory(rs, SeenCategories(rs)[b], j))
      ==> i < j
    decreases |rs|
  {
    if rs != [] {
      var init, last := rs[..|rs| - 1], rs[|rs| - 1];
      SeenCategoriesOrder(init);
      SeenCategoriesSpec(init);
      var seen, seenInit := SeenCategories(rs), SeenCategories(init);
      forall a, b, i, j |
        0 <= a < b < |seen| && FirstOfCategory(rs, seen[a], i) && FirstOfCategory(rs, seen[b], j)
        ensures i < j
      {
        assert seen[a] in seenInit;
        var ia :| 0 <= ia < |init| && init[ia].category == Some(seen[a]);
        assert rs[ia] == init[ia];
        assert i <= ia < |init|;
        FirstOfPrefix(rs, seen[a], i);
        if b < |seenInit| {
          assert seen[b] in seenInit;
          var ib :| 0 <= ib < |init| && init[ib].category == Some(seen[b]);
          assert rs[ib] == init[ib];
          FirstOfPrefix(rs, seen[b], j);
          assert seen[a] == seenInit[a] && seen[b] == seenInit[b];
        } else {
          assert seen[b] == last.category.value && seen[b] !in seenInit;
        }
      }
    }
  }

  /** A first record that lies before the last one is the first record of the prefix too. */
  lemma FirstOfPrefix(rs: seq<Internship>, c: string, i: int)
    requires FirstOfCategory(rs, c, i) && i < |rs| - 1
    ensures FirstOfCategory(rs[..|rs| - 1], c, i)
  {
  }

  lemma {:induction false} GroupTotalSnocCategory(rs: seq<Internship>, cs: seq<string>, c: string)
    ensures GroupTotal(rs, cs + [c]) == GroupTotal(rs, cs) + |InCategory(rs, c)|
  {
    assert (cs + [c])[..|cs|] == cs;
  }

  /** Appending a record adds one to the total exactly when its category is listed once. */
  lemma {:induction false} GroupTotalSnocRecord(rs: seq<Internship>, x: Internship, cs: seq<string>)
    requires forall a, b :: 0 <= a < b < |cs| ==> cs[a] != cs[b]
    ensures GroupTotal(rs + [x], cs) ==
      GroupTotal(rs, cs) + (if x.category.Some? && x.category.value in cs then 1 else 0)
    decreases |cs|
  {
    if cs != [] {
      var init, c := cs[..|cs| - 1], cs[|cs| - 1];
      forall a, b | 0 <= a < b < |init| ensures init[a] != init[b] {
        assert init[a] == cs[a] && init[b] == cs[b];
      }
      forall k | 0 <= k < |init| ensures init[k] != c {
        assert init[k] == cs[k];
      }
      GroupTotalSnocRecord(rs, x, init);
      InCategorySnoc(rs, x, c);
      assert cs == init + [c];
      assert GroupTotal(rs + [x], cs) == GroupTotal(rs + [x], init) + |InCategory(rs + [x], c)|;
      assert GroupTotal(rs, cs) == GroupTotal(rs, init) + |InCategory(rs, c)|;
      if x.category == Some(c) {
        assert x.category.value in cs && x.category.value !in init;
      } else {
        assert x.category.Some? ==> (x.category.value in cs <==> x.category.value in init);
      }
    }
  }

  /** Categories that no record has contribute nothing. */
  lemma {:induction false} InCategoryAbsent(rs: seq<Internship>, c: string)
    requires forall i :: 0 <= i < |rs| ==> rs[i].category != Some(c)
    ensures InCategory(rs, c) == []
    decreases |rs|
  {
    if rs != [] {
      InCategoryAbsent(rs[..|rs| - 1], c);
    }
  }

  /** The groups partition the records: their sizes add up to the number of records. */
  lemma {:induction false} GroupSizesSum(rs: seq<Internship>)
    requires AllCategorized(rs)
    ensures GroupTotal(rs, SeenCategories(rs)) == |rs|
    decreases |rs|
  {
    if rs != [] {
      var init, last := rs[..|rs| - 1], rs[|rs| - 1];
      assert rs == init + [last];
      GroupSizesSum(init);
      SeenCategoriesSpec(init);
      var seenInit := SeenCategories(init);
      GroupTotalSnocRecord(init, last, seenInit);
      var c := last.category.value;
      if c !in seenInit {
        GroupTotalSnocCategory(rs, seenInit, c);
        InCategoryAbsent(init, c);
        InCategorySnoc(init, last, c);
      }
    }
  }

  /** The loop of `save_categorized_csv` that fills the `categorized` dictionary. */
  method GroupByCategory(records: seq<Internship>) returns (order: seq<string>, groups: map<string, seq<Internship>>)
    requires AllCategorized(records)
    ensures order == SeenCategories(records)
    ensures forall c :: c in groups <==> c in order
    ensures forall c :: c in groups ==> groups[c] == InCategory(records, c)
  {
    order, groups := [], map[];
    for i := 0 to |records|
      invariant order == SeenCategories(records[..i])
      invariant forall c :: c in groups <==> c in order
      invariant forall c :: c in groups ==> groups[c] == InCategory(records[..i], c)
    {
      var r := records[i];
      var category := r.category.value;
      assert records[..i + 1] == records[..i] + [r];
      assert records[..i + 1][..i] == records[..i];
      if category !in groups {
        groups := groups[category := []];
        order := order + [category];
      }
      groups := groups[category := groups[category] + [r]];
      forall c | c in groups ensures groups[c] == InCategory(records[..i + 1], c) {
        InCategorySnoc(records[..i], r, c);
        if c != category {
          SeenCategoriesSpec(records[..i]);
        } else if category !in SeenCategories(records[..i]) {
          SeenCategoriesSpec(records[..i]);
          InCategoryAbsent(records[..i], c);
        }
      }
    }
    assert records[..|records|] == records;
  }

  /** The loop of `print_by_category` that counts the records of each category. */
  method CountByCategory(records: seq<Internship>) returns (order: seq<string>, counts: map<string, nat>)
    requires AllCategorized(records)
    ensures order == SeenCategories(records)
    ensures forall c :: c in counts <==> c in order
    ensures forall c :: c in counts ==> counts[c] == |InCategory(records, c)|
  {
    order, counts := [], map[];
    for i := 0 to |records|
      invariant order == SeenCategories(records[..i])
      invariant forall c :: c in counts <==> c in order
      invariant forall c :: c in counts ==> counts[c] == |InCategory(records[..i], c)|
    {
      var r := records[i];
      var category := r.category.value;
      assert records[..i + 1] == records[..i] + [r];
      assert records[..i + 1][..i] == records[..i];
      if category !in counts {
        counts := counts[category := 0];
        order := order + [category];
      }
      counts := counts[category := counts[category] + 1];
      forall c | c in counts ensures counts[c] == |InCategory(records[..i + 1], c)| {
        InCategorySnoc(records[..i], r, c);
        if c != category {
          SeenCategoriesSpec(records[..i]);
        } else if category !in SeenCategories(records[..i]) {
          SeenCategoriesSpec(records[..i]);
          InCategoryAbsent(records[..i], c);
        }
      }
    }
    assert records[..|records|] == records;
  }

  /** A file stem never holds a space or an upper-case letter. */
  lemma FileStemCharacters(category: string)
    ensures ' ' !in FileStem(category)
    ensures forall i :: 0 <= i < |FileStem(category)| ==> !IsUpper(FileStem(category)[i])
  {
    var lowered := Lower(category);
    var once := Replace(lowered, " & ", "_");
    ReplaceRemovesChar(once, ' ', "_");
    LowerHasNoUpper(category);
    ReplaceCharacters(lowered, " & ", "_");
    ReplaceCharacters(once, " ", "_");
    forall i | 0 <= i < |FileStem(category)| ensures !IsUpper(FileStem(category)[i]) {
      var ch := FileStem(category)[i];
      assert ch in FileStem(category);
      assert ch in once || ch in "_";
      if ch in lowered {
        var k :| 0 <= k < |lowered| && lowered[k] == ch;
      }
    }
  }

  /** The stem of a name with no space after lowering is the lowered name. */
  lemma StemOfWord(name: string)
    requires ' ' !in Lower(name)
    ensures FileStem(name) == Lower(name)
  {
    ReplaceAbsent(Lower(name), " & ", "_");
    ReplaceAbsent(Lower(name), " ", "_");
  }

  /** In "a & b" with no other space, the one separator becomes "_". */
  lemma ReplaceSeparator(a: string, b: string)
    requires ' ' !in a && ' ' !in b
    ensures Replace(a + " & " + b, " & ", "_") == a + "_" + b
  {
    ReplaceSkips(a, " & " + b, " & ", "_");
    ReplaceAtFront(" & ", b, "_");
    ReplaceAbsent(b, " & ", "_");
    assert a + " & " + b == a + (" & " + b);
    assert a + "_" + b == a + ("_" + b);
  }

  /** The stem of "A & B", with no other space, is "a_b". */
  lemma StemOfPair(a: string, b: string)
    requires ' ' !in Lower(a) && ' ' !in Lower(b)
    ensures FileStem(a + " & " + b) == Lower(a) + "_" + Lower(b)
  {
    var la, lb := Lower(a), Lower(b);
    LowerPair(a, b);
    ReplaceSeparator(la, lb);
    assert ' ' !in la + "_" + lb;
    ReplaceAbsent(la + "_" + lb, " ", "_");
  }

  /** Lowering "A & B" lowers both words and keeps the separator. */
  lemma LowerPair(a: string, b: string)
    ensures Lower(a + " & " + b) == Lower(a) + " & " + Lower(b)
  {
    LowerAppend(a, " & ");
    LowerAppend(a + " & ", b);
    assert Lower(" & ") == " & ";
  }

  /** The file stems of the nine possible categories, one lemma each. */
  lemma TechnologyStem()
    ensures FileStem("Technology") == "technology"
  {
    assert Lower("Technology") == "technology";
    StemOfWord("Technology");
  }

  lemma HealthcareStem()
    ensures FileStem("Healthcare") == "healthcare"
  {
    assert Lower("Healthcare") == "healthcare";
    StemOfWord("Healthcare");
  }

  lemma BusinessStem()
    ensures FileStem("Business") == "business"
  {
    assert Lower("Business") == "business";
    StemOfWord("Business");
  }

  lemma ScienceStem()
    ensures FileStem("Science") == "science"
  {
    assert Lower("Science") == "science";
    StemOfWord("Science");
  }

  lemma EducationStem()
    ensures FileStem("Education") == "education"
  {
    assert Lower("Education") == "education";
    StemOfWord("Education");
  }

  lemma EngineeringStem()
    ensures FileStem("Engineering") == "engineering"
  {
    assert Lower("Engineering") == "engineering";
    StemOfWord("Engineering");
  }

  lemma OtherStem()
    ensures FileStem("Other") == "other"
  {
    assert Lower("Other") == "other";
    StemOfWord("Other");
  }

  lemma ArtsMediaStem()
    ensures FileStem("Arts & Media") == "arts_media"
  {
    assert Lower("Arts") == "arts" && Lower("Media") == "media";
    StemOfPair("Arts", "Media");
    assert "Arts" + " & " + "Media" == "Arts & Media";
    assert "arts" + "_" + "media" == "arts_media";
  }

  lemma GovernmentLawStem()
    ensures FileStem("Government & Law") == "government_law"
  {
    assert Lower("Government") == "government" && Lower("Law") == "law";
    StemOfPair("Government", "Law");
    assert "Government" + " & " + "Law" == "Government & Law";
    assert "government" + "_" + "law" == "government_law";
  }

  /** A file name determines its stem. */
  lemma FileNameDeterminesStem(s1: string, s2: string, date: string)
    requires "internships_" + s1 + "_" + date + ".csv" == "internships_" + s2 + "_" + date + ".csv"
    ensures s1 == s2
  {
    var n1, n2 := "internships_" + s1 + "_" + date + ".csv", "internships_" + s2 + "_" + date + ".csv";
    assert |s1| == |s2|;
    assert s1 == n1[12..12 + |s1|];
    assert s2 == n2[12..12 + |s2|];
  }

  /** The stem of each name the classifier can give, as a table. */
  function TaxonomyStem(c: string): string {
    if c == "Technology" then "technology"
    else if c == "Healthcare" then "healthcare"
    else if c == "Business" then "business"
    else if c == "Science" then "science"
    else if c == "Arts & Media" then "arts_media"
    else if c == "Education" then "education"
    else if c == "Government & Law" then "government_law"
    else if c == "Engineering" then "engineering"
    else "other"
  }

  /** The file stem of every category the classifier can give is the one in
      the table ("Arts & Media" becomes "arts_media"). */
  lemma CategoryStem(c: string)
    requires IsCategoryName(c)
    ensures FileStem(c) == TaxonomyStem(c)
  {
    if c != Other {
      var i :| 0 <= i < |Categories| && Categories[i].0 == c;
      assert i == 0 || i == 1 || i == 2 || i == 3 || i == 4 || i == 5 || i == 6 || i == 7;
    }
    if c == "Technology" { TechnologyStem(); }
    else if c == "Healthcare" { HealthcareStem(); }
    else if c == "Business" { BusinessStem(); }
    else if c == "Science" { ScienceStem(); }
    else if c == "Arts & Media" { ArtsMediaStem(); }
    else if c == "Education" { EducationStem(); }
    else if c == "Government & Law" { GovernmentLawStem(); }
    else if c == "Engineering" { EngineeringStem(); }
    else { OtherStem(); }
  }

  /** Different categories of the classifier have different file stems. */
  lemma CategoryStemsDistinct(c1: string, c2: string)
    requires IsCategoryName(c1) && IsCategoryName(c2) && c1 != c2
    ensures FileStem(c1) != FileStem(c2)
  {
    CategoryStem(c1);
    CategoryStem(c2);
    TaxonomyStemInjective(c1, c2);
  }

  /** The category a stem of the table comes from. */
  function StemCategory(stem: string): string {
    if stem == "technology" then "Technology"
    else if stem == "healthcare" then "Healthcare"
    else if stem == "business" then "Business"
    else if stem == "science" then "Science"
    else if stem == "arts_media" then "Arts & Media"
    else if stem == "education" then "Education"
    else if stem == "government_law" then "Government & Law"
    else if stem == "engineering" then "Engineering"
    else "Other"
  }

  /** The table can be read backwards, so no two categories share a stem. */
  lemma TaxonomyStemInverse(c: string)
    requires IsCategoryName(c)
    ensures StemCategory(TaxonomyStem(c)) == c
  {
    if c != Other {
      var i :| 0 <= i < |Categories| && Categories[i].0 == c;
      assert i < 4 ==> c in {"Technology", "Healthcare", "Business", "Science"};
      assert i >= 4 ==> c in {"Arts & Media", "Education", "Government & Law", "Engineering"};
    }
  }

  lemma TaxonomyStemInjective(c1: string, c2: string)
    requires IsCategoryName(c1) && IsCategoryName(c2) && c1 != c2
    ensures TaxonomyStem(c1) != TaxonomyStem(c2)
  {
    TaxonomyStemInverse(c1);
    TaxonomyStemInverse(c2);
  }

  /** Different categories of the classifier are written to different files:
      no category's file overwrites another's. */
  lemma CategoryFileNamesDistinct(c1: string, c2: string, date: string)
    requires IsCategoryName(c1) && IsCategoryName(c2) && c1 != c2
    ensures CategoryFileName(c1, date) != CategoryFileName(c2, date)
  {
    CategoryStemsDistinct(c1, c2);
    if CategoryFileName(c1, date) == CategoryFileName(c2, date) {
      FileNameDeterminesStem(FileStem(c1), FileStem(c2), date);
    }
  }
}
