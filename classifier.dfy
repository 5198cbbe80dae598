/**
 * The affiliation classifier: a keyword scan over the lower-cased affiliation text
 * in which the academic keywords are tried first and win.
 */
module Classifier {
  import opened Text

  /** An affiliation mentioning any of these is academic, whatever else it mentions. */
  const ACADEMIC_KEYWORDS: seq<string> := [
    "university", "institute", "college", "academy", "school", "lab",
    "research center", "department", "faculty", "center for", "school of",
    "national laboratory", "polytechnic", "higher education"
  ]

  /** An affiliation mentioning one of these, and no academic keyword, is non-academic. */
  const NON_ACADEMIC_KEYWORDS: seq<string> := [
    "pharma", "inc.", "corporation", "private ltd", "hospital", "clinic", "biotech",
    "limited", "ltd.", "corp.", "gmbh", "pvt", "s.a.", "llc", "co.", "foundation",
    "healthcare", "medical center", "biopharma", "research institute", "r&d", "venture"
  ]

  /** `any(keyword in text for keyword in keywords)`, scanning the keywords in order. */
  predicate AnyOccurs(keywords: seq<string>, text: string)
  {
    |keywords| > 0 && (Contains(text, keywords[0]) || AnyOccurs(keywords[1..], text))
  }

  /** Some keyword of the list is a substring of text. */
  ghost predicate Mentions(text: string, keywords: seq<string>) {
    exists k :: 0 <= k < |keywords| && Contains(text, keywords[k])
  }

  /** The ordered scan finds a keyword exactly when one is there. */
  lemma {:induction false} AnyOccursIffMentions(keywords: seq<string>, text: string)
    ensures AnyOccurs(keywords, text) <==> Mentions(text, keywords)
    decreases |keywords|
  {
    if |keywords| > 0 {
      AnyOccursIffMentions(keywords[1..], text);
      if Mentions(text, keywords) && !Contains(text, keywords[0]) {
        var k :| 0 <= k < |keywords| && Contains(text, keywords[k]);
        assert keywords[1..][k - 1] == keywords[k];
      }
      if Mentions(text, keywords[1..]) {
        var k :| 0 <= k < |keywords| - 1 && Contains(text, keywords[1..][k]);
        assert keywords[k + 1] == keywords[1..][k];
      }
    }
  }

  /**
   * `is_non_academic`: true exactly when the lower-cased affiliation mentions no
   * academic keyword and at least one non-academic keyword; text with neither,
   * the empty string included, counts as academic.
   */
  function IsNonAcademic(affiliation: string): (r: bool)
    ensures r <==> !Mentions(Lower(affiliation), ACADEMIC_KEYWORDS)
                   && Mentions(Lower(affiliation), NON_ACADEMIC_KEYWORDS)
  {
    var lowered := Lower(affiliation);
    AnyOccursIffMentions(ACADEMIC_KEYWORDS, lowered);
    AnyOccursIffMentions(NON_ACADEMIC_KEYWORDS, lowered);
    if AnyOccurs(ACADEMIC_KEYWORDS, lowered) then false
    else if AnyOccurs(NON_ACADEMIC_KEYWORDS, lowered) then true
    else false
  }

  /** The verdict is a function of the lower-cased text alone. */
  lemma VerdictIgnoresCase(affiliation: string)
    ensures IsNonAcademic(Lower(affiliation)) == IsNonAcademic(affiliation)
  {
    LowerIdempotent(affiliation);
  }

  /**
   * "research institute" never decides a verdict: every text that contains it
   * contains the academic keyword "institute", so the academic scan stops first.
   */
  lemma ResearchInstituteIsShadowed(affiliation: string)
    requires Contains(Lower(affiliation), "research institute")
    ensures !IsNonAcademic(affiliation)
  {
    assert "research institute"[9..18] == "institute";
    OccursAtContains("research institute", "institute", 9);
    ContainsTransitive(Lower(affiliation), "research institute", "institute");
    assert ACADEMIC_KEYWORDS[1] == "institute";
  }

  /** An occurrence of any academic keyword makes the affiliation academic. */
  lemma AcademicKeywordWins(affiliation: string, k: nat, i: nat)
    requires k < |ACADEMIC_KEYWORDS|
    requires OccursAt(Lower(affiliation), ACADEMIC_KEYWORDS[k], i)
    ensures !IsNonAcademic(affiliation)
  {
    OccursAtContains(Lower(affiliation), ACADEMIC_KEYWORDS[k], i);
  }

  /** A needle with a character that text lacks is not in text. */
  lemma MissingCharNotContained(text: string, needle: string, c: char)
    requires c in needle && c !in text
    ensures !Contains(text, needle)
  {
    if Contains(text, needle) {
      var i := ContainsWitness(text, needle);
    }
  }

  /** The characters a, b stand next to each other somewhere in text. */
  predicate HasPair(text: string, a: char, b: char) {
    exists j :: 0 <= j < |text| - 1 && text[j] == a && text[j + 1] == b
  }

  /** A needle with two neighbours that never stand together in text is not in text. */
  lemma MissingPairNotContained(text: string, needle: string, j: nat)
    requires j + 1 < |needle| && !HasPair(text, needle[j], needle[j + 1])
    ensures !Contains(text, needle)
  {
    if Contains(text, needle) {
      var i := ContainsWitness(text, needle);
    }
  }

  /** An absent affiliation (read as "") is academic. */
  lemma EmptyAffiliationIsAcademic()
    ensures !IsNonAcademic("")
  {
    assert Lower("") == "";
    forall k | 0 <= k < |NON_ACADEMIC_KEYWORDS|
      ensures !Contains("", NON_ACADEMIC_KEYWORDS[k])
    {
      assert NON_ACADEMIC_KEYWORDS[k] != "";
    }
  }

  /** The academic verdicts the unit tests expect. */
  lemma TestedAcademicVerdicts(affiliation: string)
    requires || affiliation == "Harvard University" || affiliation == "National Laboratory"
             || affiliation == "University of California" || affiliation == "MIT Research Labs"
    ensures !IsNonAcademic(affiliation)
  {
    if affiliation == "Harvard University" {
      HarvardIsAcademic(affiliation);
    } else if affiliation == "National Laboratory" {
      NationalLaboratoryIsAcademic(affiliation);
    } else if affiliation == "University of California" {
      UniversityOfCaliforniaIsAcademic(affiliation);
    } else {
      MitResearchLabsIsAcademic(affiliation);
    }
  }

  /** "Harvard University" holds the academic keyword "university". */
  lemma HarvardIsAcademic(affiliation: string)
    requires affiliation == "Harvard University"
    ensures !IsNonAcademic(affiliation)
  {
    var lowered := Lower(affiliation);
    assert lowered[8..18] == ACADEMIC_KEYWORDS[0];
    AcademicKeywordWins(affiliation, 0, 8);
  }

  /** "National Laboratory" holds the academic keyword "lab". */
  lemma NationalLaboratoryIsAcademic(affiliation: string)
    requires affiliation == "National Laboratory"
    ensures !IsNonAcademic(affiliation)
  {
    var lowered := Lower(affiliation);
    assert lowered[9..12] == ACADEMIC_KEYWORDS[5];
    AcademicKeywordWins(affiliation, 5, 9);
  }

  /** "University of California" holds the academic keyword "university". */
  lemma UniversityOfCaliforniaIsAcademic(affiliation: string)
    requires affiliation == "University of California"
    ensures !IsNonAcademic(affiliation)
  {
    var lowered := Lower(affiliation);
    assert lowered[0..10] == ACADEMIC_KEYWORDS[0];
    AcademicKeywordWins(affiliation, 0, 0);
  }

  /** "MIT Research Labs" holds the academic keyword "lab". */
  lemma MitResearchLabsIsAcademic(affiliation: string)
    requires affiliation == "MIT Research Labs"
    ensures !IsNonAcademic(affiliation)
  {
    var lowered := Lower(affiliation);
    assert lowered[13..16] == ACADEMIC_KEYWORDS[5];
    AcademicKeywordWins(affiliation, 5, 13);
  }

  /** No character of chars occurs in text. */
  predicate Avoids(text: string, chars: string) {
    forall j :: 0 <= j < |text| ==> text[j] !in chars
  }

  /** Absence of each academic keyword, spelled out, is absence of them all. */
  lemma NoAcademicKeyword(lowered: string)
    requires !Contains(lowered, "university") &&
             !Contains(lowered, "institute") &&
             !Contains(lowered, "college") &&
             !Contains(lowered, "academy") &&
             !Contains(lowered, "school") &&
             !Contains(lowered, "lab") &&
             !Contains(lowered, "research center") &&
             !Contains(lowered, "department") &&
             !Contains(lowered, "faculty") &&
             !Contains(lowered, "center for") &&
             !Contains(lowered, "school of") &&
             !Contains(lowered, "national laboratory") &&
             !Contains(lowered, "polytechnic") &&
             !Contains(lowered, "higher education")
    ensures !Mentions(lowered, ACADEMIC_KEYWORDS)
  {
  }

  /** "XYZ Biotech Ltd" lower-cases to text with a non-academic keyword and no academic one. */
  lemma XyzBiotechIsNonAcademic(affiliation: string)
    requires affiliation == "XYZ Biotech Ltd"
    ensures IsNonAcademic(affiliation)
  {
    var lowered := Lower(affiliation);
    assert lowered == "xyz biotech ltd";
    XyzBiotechLetters(lowered);
    XyzBiotechLacks(lowered);
    assert lowered[4..11] == NON_ACADEMIC_KEYWORDS[6];
    OccursAtContains(lowered, NON_ACADEMIC_KEYWORDS[6], 4);
  }

  lemma XyzBiotechLetters(lowered: string)
    requires lowered == "xyz biotech ltd"
    ensures Avoids(lowered, "ungasrpf")
  {
  }

  lemma XyzBiotechLacks(lowered: string)
    requires Avoids(lowered, "ungasrpf")
    ensures !Mentions(lowered, ACADEMIC_KEYWORDS)
  {
    MissingCharNotContained(lowered, "university", 'u');
    MissingCharNotContained(lowered, "institute", 'n');
    MissingCharNotContained(lowered, "college", 'g');
    MissingCharNotContained(lowered, "academy", 'a');
    MissingCharNotContained(lowered, "school", 's');
    MissingCharNotContained(lowered, "lab", 'a');
    MissingCharNotContained(lowered, "research center", 'r');
    MissingCharNotContained(lowered, "department", 'p');
    MissingCharNotContained(lowered, "faculty", 'f');
    MissingCharNotContained(lowered, "center for", 'n');
    MissingCharNotContained(lowered, "school of", 's');
    MissingCharNotContained(lowered, "national laboratory", 'n');
    MissingCharNotContained(lowered, "polytechnic", 'p');
    MissingCharNotContained(lowered, "higher education", 'g');
    NoAcademicKeyword(lowered);
  }

  /** "Pharma Research Inc." lower-cases to text with a non-academic keyword and no academic one. */
  lemma PharmaResearchIsNonAcademic(affiliation: string)
    requires affiliation == "Pharma Research Inc."
    ensures IsNonAcademic(affiliation)
  {
    var lowered := Lower(affiliation);
    assert lowered == "pharma research inc.";
    PharmaResearchLetters(lowered);
    PharmaResearchLacks(lowered);
    assert lowered[0..6] == NON_ACADEMIC_KEYWORDS[0];
    OccursAtContains(lowered, NON_ACADEMIC_KEYWORDS[0], 0);
  }

  lemma PharmaResearchLetters(lowered: string)
    requires lowered == "pharma research inc."
    ensures Avoids(lowered, "utodlfg")
  {
  }

  lemma PharmaResearchLacks(lowered: string)
    requires Avoids(lowered, "utodlfg")
    ensures !Mentions(lowered, ACADEMIC_KEYWORDS)
  {
    MissingCharNotContained(lowered, "university", 'u');
    MissingCharNotContained(lowered, "institute", 't');
    MissingCharNotContained(lowered, "college", 'o');
    MissingCharNotContained(lowered, "academy", 'd');
    MissingCharNotContained(lowered, "school", 'o');
    MissingCharNotContained(lowered, "lab", 'l');
    MissingCharNotContained(lowered, "research center", 't');
    MissingCharNotContained(lowered, "department", 'd');
    MissingCharNotContained(lowered, "faculty", 'f');
    MissingCharNotContained(lowered, "center for", 't');
    MissingCharNotContained(lowered, "school of", 'o');
    MissingCharNotContained(lowered, "national laboratory", 't');
    MissingCharNotContained(lowered, "polytechnic", 'o');
    MissingCharNotContained(lowered, "higher education", 'g');
    NoAcademicKeyword(lowered);
  }

  /** "Big Pharma Inc." lower-cases to text with a non-academic keyword and no academic one. */
  lemma BigPharmaIsNonAcademic(affiliation: string)
    requires affiliation == "Big Pharma Inc."
    ensures IsNonAcademic(affiliation)
  {
    var lowered := Lower(affiliation);
    assert lowered == "big pharma inc.";
    BigPharmaLetters(lowered);
    BigPharmaLacks(lowered);
    assert lowered[4..10] == NON_ACADEMIC_KEYWORDS[0];
    OccursAtContains(lowered, NON_ACADEMIC_KEYWORDS[0], 4);
  }

  lemma BigPharmaLetters(lowered: string)
    requires lowered == "big pharma inc."
    ensures Avoids(lowered, "usodleft")
  {
  }

  lemma BigPharmaLacks(lowered: string)
    requires Avoids(lowered, "usodleft")
    ensures !Mentions(lowered, ACADEMIC_KEYWORDS)
  {
    MissingCharNotContained(lowered, "university", 'u');
    MissingCharNotContained(lowered, "institute", 's');
    MissingCharNotContained(lowered, "college", 'o');
    MissingCharNotContained(lowered, "academy", 'd');
    MissingCharNotContained(lowered, "school", 's');
    MissingCharNotContained(lowered, "lab", 'l');
    MissingCharNotContained(lowered, "research center", 'e');
    MissingCharNotContained(lowered, "department", 'd');
    MissingCharNotContained(lowered, "faculty", 'f');
    MissingCharNotContained(lowered, "center for", 'e');
    MissingCharNotContained(lowered, "school of", 's');
    MissingCharNotContained(lowered, "national laboratory", 't');
    MissingCharNotContained(lowered, "polytechnic", 'o');
    MissingCharNotContained(lowered, "higher education", 'e');
    NoAcademicKeyword(lowered);
  }

  /** "Tech Solutions Pvt Ltd" lower-cases to text with a non-academic keyword and no academic one. */
  lemma TechSolutionsIsNonAcademic(affiliation: string)
    requires affiliation == "Tech Solutions Pvt Ltd"
    ensures IsNonAcademic(affiliation)
  {
    var lowered := Lower(affiliation);
    assert lowered == "tech solutions pvt ltd";
    TechSolutionsLetters(lowered);
    TechSolutionsLacks(lowered);
    assert lowered[15..18] == NON_ACADEMIC_KEYWORDS[11];
    OccursAtContains(lowered, NON_ACADEMIC_KEYWORDS[11], 15);
  }

  lemma TechSolutionsLetters(lowered: string)
    requires lowered == "tech solutions pvt ltd"
    ensures Avoids(lowered, "rgafy") && !HasPair(lowered, 'i', 'n') && !HasPair(lowered, 's', 'c')
  {
  }

  lemma TechSolutionsLacks(lowered: string)
    requires Avoids(lowered, "rgafy") && !HasPair(lowered, 'i', 'n') && !HasPair(lowered, 's', 'c')
    ensures !Mentions(lowered, ACADEMIC_KEYWORDS)
  {
    MissingCharNotContained(lowered, "university", 'r');
    MissingPairNotContained(lowered, "institute", 0);
    MissingCharNotContained(lowered, "college", 'g');
    MissingCharNotContained(lowered, "academy", 'a');
    MissingPairNotContained(lowered, "school", 0);
    MissingCharNotContained(lowered, "lab", 'a');
    MissingCharNotContained(lowered, "research center", 'r');
    MissingCharNotContained(lowered, "department", 'a');
    MissingCharNotContained(lowered, "faculty", 'f');
    MissingCharNotContained(lowered, "center for", 'r');
    MissingCharNotContained(lowered, "school of", 'f');
    MissingCharNotContained(lowered, "national laboratory", 'a');
    MissingCharNotContained(lowered, "polytechnic", 'y');
    MissingCharNotContained(lowered, "higher education", 'g');
    NoAcademicKeyword(lowered);
  }

  /** "Global Pharmaceuticals" lower-cases to text with a non-academic keyword and no academic one. */
  lemma GlobalPharmaceuticalsIsNonAcademic(affiliation: string)
    requires affiliation == "Global Pharmaceuticals"
    ensures IsNonAcademic(affiliation)
  {
    var lowered := Lower(affiliation);
    assert lowered == "global pharmaceuticals";
    GlobalPharmaceuticalsLetters(lowered);
    GlobalPharmaceuticalsLacks(lowered);
    assert lowered[7..13] == NON_ACADEMIC_KEYWORDS[0];
    OccursAtContains(lowered, NON_ACADEMIC_KEYWORDS[0], 7);
  }

  lemma GlobalPharmaceuticalsLetters(lowered: string)
    requires lowered == "global pharmaceuticals"
    ensures Avoids(lowered, "ndfy") && !HasPair(lowered, 'c', 'o') && !HasPair(lowered, 's', 'c') && !HasPair(lowered, 'l', 'a')
  {
  }

  lemma GlobalPharmaceuticalsLacks(lowered: string)
    requires Avoids(lowered, "ndfy") && !HasPair(lowered, 'c', 'o') && !HasPair(lowered, 's', 'c') && !HasPair(lowered, 'l', 'a')
    ensures !Mentions(lowered, ACADEMIC_KEYWORDS)
  {
    MissingCharNotContained(lowered, "university", 'n');
    MissingCharNotContained(lowered, "institute", 'n');
    MissingPairNotContained(lowered, "college", 0);
    MissingCharNotContained(lowered, "academy", 'd');
    MissingPairNotContained(lowered, "school", 0);
    MissingPairNotContained(lowered, "lab", 0);
    MissingCharNotContained(lowered, "research center", 'n');
    MissingCharNotContained(lowered, "department", 'd');
    MissingCharNotContained(lowered, "faculty", 'f');
    MissingCharNotContained(lowered, "center for", 'n');
    MissingCharNotContained(lowered, "school of", 'f');
    MissingCharNotContained(lowered, "national laboratory", 'n');
    MissingCharNotContained(lowered, "polytechnic", 'y');
    MissingCharNotContained(lowered, "higher education", 'd');
    NoAcademicKeyword(lowered);
  }

  /** "BioTech Solutions" lower-cases to text with a non-academic keyword and no academic one. */
  lemma BioTechSolutionsIsNonAcademic(affiliation: string)
    requires affiliation == "BioTech Solutions"
    ensures IsNonAcademic(affiliation)
  {
    var lowered := Lower(affiliation);
    assert lowered == "biotech solutions";
    BioTechSolutionsLetters(lowered);
    BioTechSolutionsLacks(lowered);
    assert lowered[0..7] == NON_ACADEMIC_KEYWORDS[6];
    OccursAtContains(lowered, NON_ACADEMIC_KEYWORDS[6], 0);
  }

  lemma BioTechSolutionsLetters(lowered: string)
    requires lowered == "biotech solutions"
    ensures Avoids(lowered, "vgadrfp") && !HasPair(lowered, 'i', 'n') && !HasPair(lowered, 's', 'c')
  {
  }

  lemma BioTechSolutionsLacks(lowered: string)
    requires Avoids(lowered, "vgadrfp") && !HasPair(lowered, 'i', 'n') && !HasPair(lowered, 's', 'c')
    ensures !Mentions(lowered, ACADEMIC_KEYWORDS)
  {
    MissingCharNotContained(lowered, "university", 'v');
    MissingPairNotContained(lowered, "institute", 0);
    MissingCharNotContained(lowered, "college", 'g');
    MissingCharNotContained(lowered, "academy", 'a');
    MissingPairNotContained(lowered, "school", 0);
    MissingCharNotContained(lowered, "lab", 'a');
    MissingCharNotContained(lowered, "research center", 'r');
    MissingCharNotContained(lowered, "department", 'd');
    MissingCharNotContained(lowered, "faculty", 'f');
    MissingCharNotContained(lowered, "center for", 'r');
    MissingCharNotContained(lowered, "school of", 'f');
    MissingCharNotContained(lowered, "national laboratory", 'a');
    MissingCharNotContained(lowered, "polytechnic", 'p');
    MissingCharNotContained(lowered, "higher education", 'g');
    NoAcademicKeyword(lowered);
  }

  /** The non-academic verdicts the unit tests expect. */
  lemma TestedNonAcademicVerdicts(affiliation: string)
    requires || affiliation == "XYZ Biotech Ltd" || affiliation == "Pharma Research Inc."
             || affiliation == "Big Pharma Inc." || affiliation == "Tech Solutions Pvt Ltd"
             || affiliation == "Global Pharmaceuticals" || affiliation == "BioTech Solutions"
    ensures IsNonAcademic(affiliation)
  {
    if affiliation == "XYZ Biotech Ltd" {
      XyzBiotechIsNonAcademic(affiliation);
    } else if affiliation == "Pharma Research Inc." {
      PharmaResearchIsNonAcademic(affiliation);
    } else if affiliation == "Big Pharma Inc." {
      BigPharmaIsNonAcademic(affiliation);
    } else if affiliation == "Tech Solutions Pvt Ltd" {
      TechSolutionsIsNonAcademic(affiliation);
    } else if affiliation == "Global Pharmaceuticals" {
      GlobalPharmaceuticalsIsNonAcademic(affiliation);
    } else {
      BioTechSolutionsIsNonAcademic(affiliation);
    }
  }
}
