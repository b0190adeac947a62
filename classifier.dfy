/**
 * The keyword classifier: `categorize_internships` and the `categories`
 * taxonomy set up in the scraper's constructor.
 */
module Classifier {
  import opened Text
  import opened Records

  /** The category of a record no taxonomy entry matches. */
  const Other := "Other"

  /** The taxonomy in its declared order; keywords are lowered when matched. */
  const Categories: seq<(string, seq<string>)> := [
    ("Technology", ["tech", "software", "developer", "data", "IT", "programming", "computer", "cyber",
                    "web", "coding", "AI", "artificial intelligence", "machine learning", "engineering"]),
    ("Healthcare", ["health", "medical", "hospital", "clinical", "nursing", "healthcare", "pharma",
                    "biomedical", "patient"]),
    ("Business", ["business", "finance", "accounting", "marketing", "sales", "management", "consulting",
                  "entrepreneur", "analyst", "operations"]),
    ("Science", ["science", "research", "laboratory", "biology", "chemistry", "physics", "environmental",
                 "researcher", "scientist", "lab"]),
    ("Arts & Media", ["art", "design", "media", "journalism", "writing", "creative", "film", "music",
                      "graphic", "photography", "theatre", "fashion"]),
    ("Education", ["education", "teaching", "tutor", "school", "academic", "learning", "instructor"]),
    ("Government & Law", ["government", "policy", "legal", "law", "justice", "political", "public service",
                          "nonprofit", "advocacy"]),
    ("Engineering", ["engineering", "mechanical", "civil", "electrical", "aerospace", "chemical",
                     "industrial", "robotics"])
  ]

  /** `any(keyword.lower() in text for keyword in keywords)` */
  predicate AnyKeyword(text: string, keywords: seq<string>) {
    exists k | 0 <= k < |keywords| :: Contains(text, Lower(keywords[k]))
  }

  /** The name of the first entry of `cats` with a matching keyword, else "Other". */
  function FirstMatch(text: string, cats: seq<(string, seq<string>)>): string {
    if cats == [] then Other
    else if AnyKeyword(text, cats[0].1) then cats[0].0
    else FirstMatch(text, cats[1..])
  }

  /** The text the classifier searches: title, a space, description, lowered. */
  function CategoryText(title: string, description: string): string {
    Lower(title + " " + description)
  }

  function Classify(r: Internship): string {
    FirstMatch(CategoryText(r.title, r.description), Categories)
  }

  /** Every record with its category attached, nothing else touched. */
  function Categorize(rs: seq<Internship>): seq<Internship> {
    seq(|rs|, i requires 0 <= i < |rs| => rs[i].(category := Some(Classify(rs[i]))))
  }

  predicate IsCategoryName(c: string) {
    c == Other || exists i | 0 <= i < |Categories| :: Categories[i].0 == c
  }

  /** With no matching entry the result is "Other". */
  lemma {:induction false} FirstMatchNone(text: string, cats: seq<(string, seq<string>)>)
    requires forall i :: 0 <= i < |cats| ==> !AnyKeyword(text, cats[i].1)
    ensures FirstMatch(text, cats) == Other
  {
    if cats != [] {
      assert !AnyKeyword(text, cats[0].1);
      forall i | 0 <= i < |cats[1..]| ensures !AnyKeyword(text, cats[1..][i].1) {
        assert cats[1..][i] == cats[i + 1];
      }
      FirstMatchNone(text, cats[1..]);
    }
  }

  /** The earliest matching entry gives the result. */
  lemma {:induction false} FirstMatchEarliest(text: string, cats: seq<(string, seq<string>)>, i: nat)
    requires i < |cats| && AnyKeyword(text, cats[i].1)
    requires forall j :: 0 <= j < i ==> !AnyKeyword(text, cats[j].1)
    ensures FirstMatch(text, cats) == cats[i].0
  {
    if i > 0 {
      assert !AnyKeyword(text, cats[0].1);
      assert cats[1..][i - 1] == cats[i];
      forall j | 0 <= j < i - 1 ensures !AnyKeyword(text, cats[1..][j].1) {
        assert cats[1..][j] == cats[j + 1];
      }
      FirstMatchEarliest(text, cats[1..], i - 1);
    }
  }

  /** First-match-wins, both ways: with no matching entry the result is
      "Other"; otherwise it is the name of the earliest matching entry. */
  lemma FirstMatchSpec(text: string, cats: seq<(string, seq<string>)>)
    ensures (forall i :: 0 <= i < |cats| ==> !AnyKeyword(text, cats[i].1)) ==> FirstMatch(text, cats) == Other
    ensures forall i ::
      (0 <= i < |cats| && AnyKeyword(text, cats[i].1) && (forall j :: 0 <= j < i ==> !AnyKeyword(text, cats[j].1)))
      ==> FirstMatch(text, cats) == cats[i].0
  {
    if forall i :: 0 <= i < |cats| ==> !AnyKeyword(text, cats[i].1) {
      FirstMatchNone(text, cats);
    }
    forall i | 0 <= i < |cats| && AnyKeyword(text, cats[i].1) &&
      (forall j :: 0 <= j < i ==> !AnyKeyword(text, cats[j].1))
      ensures FirstMatch(text, cats) == cats[i].0
    {
      FirstMatchEarliest(text, cats, i);
    }
  }

  /** Entries before the one named by the result did not match, and the
      result is what the rest of the taxonomy gives. */
  lemma {:induction false} FirstMatchSkips(text: string, cats: seq<(string, seq<string>)>, n: nat)
    requires n <= |cats|
    requires forall j :: 0 <= j < n ==> cats[j].0 != FirstMatch(text, cats)
    ensures forall j :: 0 <= j < n ==> !AnyKeyword(text, cats[j].1)
    ensures FirstMatch(text, cats) == FirstMatch(text, cats[n..])
  {
    if n > 0 {
      assert !AnyKeyword(text, cats[0].1);
      forall j | 0 <= j < n - 1 ensures cats[1..][j].0 != FirstMatch(text, cats[1..]) {
        assert cats[1..][j] == cats[j + 1];
      }
      FirstMatchSkips(text, cats[1..], n - 1);
      assert cats[1..][n - 1..] == cats[n..];
      forall j | 0 <= j < n ensures !AnyKeyword(text, cats[j].1) {
        if j > 0 {
          assert cats[1..][j - 1] == cats[j];
        }
      }
    }
  }

  /** The result is always one of the entries' names or "Other". */
  lemma {:induction false} FirstMatchTotal(text: string, cats: seq<(string, seq<string>)>)
    ensures FirstMatch(text, cats) == Other ||
      exists i :: 0 <= i < |cats| && FirstMatch(text, cats) == cats[i].0
  {
    if cats != [] && !AnyKeyword(text, cats[0].1) {
      FirstMatchTotal(text, cats[1..]);
      if FirstMatch(text, cats) != Other {
        var i :| 0 <= i < |cats[1..]| && FirstMatch(text, cats[1..]) == cats[1..][i].0;
        assert cats[1..][i] == cats[i + 1];
      }
    }
  }

  /** Totality: every record is given one of the eight taxonomy names or "Other". */
  lemma ClassifyTotal(r: Internship)
    ensures IsCategoryName(Classify(r))
  {
    FirstMatchTotal(CategoryText(r.title, r.description), Categories);
  }

  /** Shadowing: "engineering" is a Technology keyword and Technology comes
      first, so such a record is never filed under Engineering. */
  lemma EngineeringIsTechnology(r: Internship)
    requires Contains(CategoryText(r.title, r.description), "engineering")
    ensures Classify(r) == "Technology"
  {
    var kws := Categories[0].1;
    assert kws[13] == "engineering";
    assert Lower("engineering") == "engineering";
    assert AnyKeyword(CategoryText(r.title, r.description), kws);
  }

  /** Engineering is assigned only when no earlier category matches (and an
      Engineering keyword does). */
  lemma EngineeringOnlyAsLastResort(r: Internship)
    requires Classify(r) == "Engineering"
    ensures forall j :: 0 <= j < 7 ==> !AnyKeyword(CategoryText(r.title, r.description), Categories[j].1)
    ensures AnyKeyword(CategoryText(r.title, r.description), Categories[7].1)
  {
    var text := CategoryText(r.title, r.description);
    FirstMatchSkips(text, Categories, 7);
    assert Categories[7..] == [Categories[7]];
  }

  /** The Technology keyword "AI", lowered, is part of "details" and of
      "available": every record whose description is one of the two default
      texts is filed under Technology, whatever its title. */
  lemma DefaultDescriptionIsTechnology(title: string, description: string)
    requires description == SeeLink || description == NoDescription
    ensures FirstMatch(CategoryText(title, description), Categories) == "Technology"
  {
    var kws := Categories[0].1;
    assert kws[10] == "AI";
    assert Lower("AI") == "ai";
    LowerAppend(title + " ", description);
    var ld := Lower(description);
    var at := if description == SeeLink then 16 else 17;
    assert ld[at] == 'a' && ld[at + 1] == 'i';
    assert ld[at..at + 2] == "ai";
    assert OccursAt(ld, "ai", at);
    ContainsInSuffix(Lower(title + " "), ld, "ai");
    assert CategoryText(title, description) == Lower(title + " ") + ld;
    assert AnyKeyword(CategoryText(title, description), kws);
  }

  /** LinkedIn, WayUp and FindECs always write "See link for details", so
      everything they contribute is classified Technology. */
  lemma SeeLinkSourcesAreTechnology(site: Site, card: Card)
    requires site == LinkedIn || site == WayUp || site == FindECs
    requires BuildRecord(site, card).Some?
    ensures Classify(BuildRecord(site, card).value) == "Technology"
  {
    var r := BuildRecord(site, card).value;
    DefaultDescriptionIsTechnology(r.title, r.description);
  }

  /** Classification attaches a valid category to every record, keeps the
      length and the order, and changes no other field. */
  lemma CategorizeFrame(rs: seq<Internship>)
    ensures |Categorize(rs)| == |rs|
    ensures forall i :: 0 <= i < |rs| ==>
      var (a, b) := (rs[i], Categorize(rs)[i]);
      b.title == a.title && b.company == a.company && b.location == a.location &&
      b.description == a.description && b.url == a.url && b.source == a.source &&
      b.category.Some? && IsCategoryName(b.category.value)
  {
    forall i | 0 <= i < |rs| ensures IsCategoryName(Categorize(rs)[i].category.value) {
      ClassifyTotal(rs[i]);
    }
  }

  /** Running the classifier again yields the same categories: it reads only
      title and description, which it never changes. */
  lemma CategorizeIdempotent(rs: seq<Internship>)
    ensures Categorize(Categorize(rs)) == Categorize(rs)
  {
    var once := Categorize(rs);
    forall i | 0 <= i < |rs| ensures Categorize(once)[i] == once[i] {
      assert Classify(once[i]) == Classify(rs[i]);
    }
  }

  /** The inner loop of `categorize_internships`: scan the taxonomy in order
      and stop at the first category with a matching keyword. */
  method FindCategory(text: string) returns (category: string)
    ensures category == FirstMatch(text, Categories)
  {
    category := Other;
    var i := 0;
    while i < |Categories|
      invariant 0 <= i <= |Categories|
      invariant category == Other
      invariant FirstMatch(text, Categories[i..]) == FirstMatch(text, Categories)
    {
      if AnyKeyword(text, Categories[i].1) {
        category := Categories[i].0;
        return;
      }
      assert Categories[i..][1..] == Categories[i + 1..];
      i := i + 1;
    }
  }
}
