/**
 * `_extract_author_info`: the walk over one article's authors that collects the
 * display names and raw affiliations of the non-academic authors, and the first
 * email address found in any author's affiliation.
 */
module Authors {
  import opened Wrappers
  import opened Text
  import opened Classifier
  import opened Email

  /**
   * The first `AffiliationInfo/Affiliation` element of an author, as the XML parser
   * hands it over: not there at all, there without text (an empty element, whose
   * `.text` is `None`), or there with its text.
   */
  datatype Affiliation =
    | NoAffiliation
    | EmptyAffiliation
    | AffiliationText(text: string)

  /**
   * One `Author` element. A name part is None when its element is absent and
   * Some("") when it is present but empty.
   */
  datatype Author = Author(lastName: Option<string>, initials: Option<string>, affiliation: Affiliation)

  /** The three results of the walk: parallel name and affiliation lists, and the email. */
  datatype AuthorInfo = AuthorInfo(names: seq<string>, affiliations: seq<string>, email: Option<string>)

  // ------------------------------------------------------------------ names

  /** `findtext(tag, default="")`: an absent element reads as "". */
  function NameText(part: Option<string>): string {
    match part
    case None => ""
    case Some(t) => t
  }

  /** `f"{last_name} {initials}".strip()`. */
  function DisplayName(author: Author): (name: string)
    ensures name == [] || (!IsSpace(name[0]) && !IsSpace(name[|name| - 1]))
    ensures |name| <= |NameText(author.lastName)| + 1 + |NameText(author.initials)|
  {
    Strip(NameText(author.lastName) + " " + NameText(author.initials))
  }

  /** Last name and initials with no whitespace of their own are joined by one space. */
  lemma DisplayNameJoins(author: Author, last: string, initials: string)
    requires author.lastName == Some(last) && author.initials == Some(initials)
    requires last != [] && !IsSpace(last[0])
    requires initials != [] && !IsSpace(initials[|initials| - 1])
    ensures DisplayName(author) == last + " " + initials
  {
    var joined := last + " " + initials;
    assert joined[0] == last[0];
    assert joined[|joined| - 1] == initials[|initials| - 1];
    StripUnchanged(joined);
  }

  /** An author with neither name part, absent or empty, has the name "". */
  lemma DisplayNameOfNobody(author: Author)
    requires NameText(author.lastName) == "" && NameText(author.initials) == ""
    ensures DisplayName(author) == ""
  {
    assert NameText(author.lastName) + " " + NameText(author.initials) == " ";
    StripAllSpace(" ");
  }

  /** The name the unit test expects for last name "Doe" and initials "J". */
  lemma DoeJ(author: Author)
    requires author.lastName == Some("Doe") && author.initials == Some("J")
    ensures DisplayName(author) == "Doe J"
  {
    var last, initials := "Doe", "J";
    assert last + " " + initials == "Doe J";
    DisplayNameJoins(author, last, initials);
  }

  // ------------------------------------------------------------ affiliations

  /** Every author's affiliation can be read as a string: none is an empty element. */
  predicate Readable(authors: seq<Author>) {
    forall k :: 0 <= k < |authors| ==> !authors[k].affiliation.EmptyAffiliation?
  }

  /** The affiliation string of a readable author; an absent element reads as "". */
  function AffiliationOf(author: Author): string
    requires !author.affiliation.EmptyAffiliation?
  {
    match author.affiliation
    case NoAffiliation => ""
    case AffiliationText(t) => t
  }

  /** The position of the first author whose affiliation element is empty. */
  function FirstEmptyAffiliation(authors: seq<Author>): (k: nat)
    requires !Readable(authors)
    ensures k < |authors| && authors[k].affiliation.EmptyAffiliation?
    ensures Readable(authors[..k])
    decreases |authors|
  {
    if authors[0].affiliation.EmptyAffiliation? then 0
    else
      var k := 1 + FirstEmptyAffiliation(authors[1..]);
      assert authors[..k] == [authors[0]] + authors[1..][..k - 1];
      k
  }

  /** The positions of the true flags, in increasing order: none missed, none extra. */
  function Positions(flags: seq<bool>): (picked: seq<nat>)
    ensures forall j :: 0 <= j < |picked| ==> picked[j] < |flags| && flags[picked[j]]
    ensures forall j, j' :: 0 <= j < j' < |picked| ==> picked[j] < picked[j']
    ensures forall k :: 0 <= k < |flags| && flags[k] ==> k in picked
    decreases |flags|
  {
    if |flags| == 0 then []
    else
      var n := |flags| - 1;
      var before := Positions(flags[..n]);
      if flags[n] then before + [n] else before
  }

  /**
   * The first present value, in order, with its position: every value before it
   * is absent. None when all are absent.
   */
  function FirstFound<T>(found: seq<Option<T>>): (first: Option<T>)
    ensures first.Some? ==> exists k :: 0 <= k < |found| && found[k] == first
                              && forall j :: 0 <= j < k ==> found[j].None?
    ensures first.None? ==> forall k :: 0 <= k < |found| ==> found[k].None?
    decreases |found|
  {
    if |found| == 0 then None
    else
      var n := |found| - 1;
      var before := FirstFound(found[..n]);
      assert forall k :: 0 <= k < n ==> found[..n][k] == found[k];
      if before.Some? then before else found[n]
  }

  /**
   * What the walk reads from one author whose affiliation can be read: the display
   * name, the affiliation string, its verdict and the email found in it.
   */
  datatype View = View(name: string, affiliation: string, nonAcademic: bool, email: Option<string>)

  function ViewOf(author: Author): View
    requires !author.affiliation.EmptyAffiliation?
  {
    var affiliation := AffiliationOf(author);
    View(DisplayName(author), affiliation, IsNonAcademic(affiliation), FindEmail(affiliation))
  }

  /** The view of every author, in document order. */
  function Views(authors: seq<Author>): (views: seq<View>)
    requires Readable(authors)
    ensures |views| == |authors|
  {
    seq(|authors|, k requires 0 <= k < |authors| => ViewOf(authors[k]))
  }

  /** The verdict of each view, in order. */
  function Flags(views: seq<View>): (flags: seq<bool>)
    ensures |flags| == |views|
  {
    seq(|views|, k requires 0 <= k < |views| => views[k].nonAcademic)
  }

  /** The email found in each view, in order. */
  function Emails(views: seq<View>): (found: seq<Option<string>>)
    ensures |found| == |views|
  {
    seq(|views|, k requires 0 <= k < |views| => views[k].email)
  }

  /** The positions of the non-academic views, in document order. */
  function Picked(views: seq<View>): seq<nat> {
    Positions(Flags(views))
  }

  /**
   * The three results gathered from the views: the names and the raw, not
   * lower-cased, affiliations of the non-academic ones, in order, and the first
   * email found in any of them, academic or not.
   */
  function Collect(views: seq<View>): AuthorInfo {
    var picked := Picked(views);
    AuthorInfo(seq(|picked|, j requires 0 <= j < |picked| => views[picked[j]].name),
               seq(|picked|, j requires 0 <= j < |picked| => views[picked[j]].affiliation),
               FirstFound(Emails(views)))
  }

  /**
   * What the walk returns: it raises at the first author whose affiliation element
   * is empty (lower-casing `None` fails), and otherwise returns what is collected
   * from the views of all authors.
   */
  function ExtractSpec(authors: seq<Author>): Result<AuthorInfo, nat> {
    if Readable(authors) then Success(Collect(Views(authors)))
    else Failure(FirstEmptyAffiliation(authors))
  }

  /** One more view extends each result by that view alone. */
  lemma CollectStep(views: seq<View>, v: View)
    ensures var before, after := Collect(views), Collect(views + [v]);
            && after.names == before.names + (if v.nonAcademic then [v.name] else [])
            && after.affiliations == before.affiliations + (if v.nonAcademic then [v.affiliation] else [])
            && after.email == if before.email.Some? then before.email else v.email
  {
    var all := views + [v];
    assert Flags(all)[..|views|] == Flags(views);
    assert Emails(all)[..|views|] == Emails(views);
  }

  /** The views of one more readable author are the views so far and that author's. */
  lemma ViewsStep(authors: seq<Author>, k: nat)
    requires k < |authors| && Readable(authors[..k]) && !authors[k].affiliation.EmptyAffiliation?
    ensures Readable(authors[..k + 1])
    ensures Views(authors[..k + 1]) == Views(authors[..k]) + [ViewOf(authors[k])]
  {
    assert authors[..k + 1] == authors[..k] + [authors[k]];
  }

  /** Visiting one more readable author updates the results collected so far by its view alone. */
  lemma VisitStep(authors: seq<Author>, k: nat, names: seq<string>, affiliations: seq<string>, email: Option<string>)
    requires k < |authors| && Readable(authors[..k]) && !authors[k].affiliation.EmptyAffiliation?
    requires Collect(Views(authors[..k])) == AuthorInfo(names, affiliations, email)
    ensures Readable(authors[..k + 1])
    ensures var v := ViewOf(authors[k]);
            Collect(Views(authors[..k + 1])) ==
              AuthorInfo(names + (if v.nonAcademic then [v.name] else []),
                         affiliations + (if v.nonAcademic then [v.affiliation] else []),
                         if email.Some? then email else v.email)
  {
    ViewsStep(authors, k);
    CollectStep(Views(authors[..k]), ViewOf(authors[k]));
  }

  // ----------------------------------------------------------------- the walk

  /**
   * `_extract_author_info`: one pass over the authors in order, appending to the
   * two lists and keeping the first email found.
   */
  method ExtractAuthorInfo(authors: seq<Author>) returns (r: Result<AuthorInfo, nat>)
    ensures r == ExtractSpec(authors)
  {
    var names: seq<string> := [];
    var affiliations: seq<string> := [];
    var email: Option<string> := None;
    assert authors[..0] == [];
    for k := 0 to |authors|
      invariant Readable(authors[..k])
      invariant Collect(Views(authors[..k])) == AuthorInfo(names, affiliations, email)
      invariant email.Some? ==> email.value != ""
    {
      var author := authors[k];
      if author.affiliation.EmptyAffiliation? {
        FirstEmptyIsFirst(authors, k);
        return Failure(k);
      }
      var affiliation := AffiliationOf(author);
      VisitStep(authors, k, names, affiliations, email);
      var nonAcademic := IsNonAcademic(affiliation);
      names := names + (if nonAcademic then [DisplayName(author)] else []);
      affiliations := affiliations + (if nonAcademic then [affiliation] else []);
      var found := FindEmail(affiliation);
      email := if found.Some? && (email.None? || email.value == "") then found else email;
    }
    assert authors[..|authors|] == authors;
    r := Success(AuthorInfo(names, affiliations, email));
  }

  /** The first empty affiliation element is the one at k when the authors before k are readable. */
  lemma FirstEmptyIsFirst(authors: seq<Author>, k: nat)
    requires k < |authors| && authors[k].affiliation.EmptyAffiliation?
    requires Readable(authors[..k])
    ensures ExtractSpec(authors) == Failure(k)
  {
    var f := FirstEmptyAffiliation(authors);
  }

  // ------------------------------------------------------------- properties

  /** The walk succeeds exactly when every affiliation can be read. */
  lemma ExtractSucceedsIffReadable(authors: seq<Author>)
    ensures ExtractSpec(authors).Success? <==> Readable(authors)
  {
  }

  /**
   * The walk fails exactly when some affiliation element is empty, and then at the
   * first such author; no author before it has one.
   */
  lemma ExtractFailsAtFirstEmpty(authors: seq<Author>)
    ensures ExtractSpec(authors).Failure? <==>
              exists k :: 0 <= k < |authors| && authors[k].affiliation.EmptyAffiliation?
    ensures ExtractSpec(authors).Failure? ==>
              var k := ExtractSpec(authors).error;
              && k < |authors| && authors[k].affiliation.EmptyAffiliation?
              && forall j :: 0 <= j < k ==> !authors[j].affiliation.EmptyAffiliation?
  {
    if !Readable(authors) {
      var k := FirstEmptyAffiliation(authors);
      assert forall j :: 0 <= j < k ==> authors[..k][j] == authors[j];
    }
  }

  /**
   * The name and affiliation lists are parallel: entry j of both belongs to the same
   * author, who is non-academic, the affiliation as written (not lower-cased).
   */
  lemma NamesAndAffiliationsParallel(authors: seq<Author>)
    requires Readable(authors)
    ensures var info := Collect(Views(authors));
            |info.names| == |info.affiliations|
    ensures var info := Collect(Views(authors));
            forall j :: 0 <= j < |info.affiliations| ==> IsNonAcademic(info.affiliations[j])
    ensures var info := Collect(Views(authors));
            forall j :: 0 <= j < |info.names| ==>
              exists k :: 0 <= k < |authors| && !authors[k].affiliation.EmptyAffiliation?
                && info.names[j] == DisplayName(authors[k])
                && info.affiliations[j] == AffiliationOf(authors[k])
  {
    var views := Views(authors);
    var info, picked := Collect(views), Picked(views);
    forall j | 0 <= j < |info.names|
      ensures exists k :: 0 <= k < |authors| && !authors[k].affiliation.EmptyAffiliation?
                && info.names[j] == DisplayName(authors[k])
                && info.affiliations[j] == AffiliationOf(authors[k])
    {
      var k := picked[j];
      assert views[k] == ViewOf(authors[k]);
    }
    forall j | 0 <= j < |info.affiliations|
      ensures IsNonAcademic(info.affiliations[j])
    {
      var k := picked[j];
      assert Flags(views)[k] && views[k] == ViewOf(authors[k]);
    }
  }

  /** Every non-academic author has an entry, name and affiliation at the same position. */
  lemma NonAcademicAuthorsListed(authors: seq<Author>, k: nat)
    requires Readable(authors) && k < |authors| && IsNonAcademic(AffiliationOf(authors[k]))
    ensures var info := Collect(Views(authors));
            exists j :: 0 <= j < |info.names|
              && info.names[j] == DisplayName(authors[k])
              && info.affiliations[j] == AffiliationOf(authors[k])
  {
    var views := Views(authors);
    var info, picked := Collect(views), Picked(views);
    assert views[k] == ViewOf(authors[k]) && Flags(views)[k];
    var j :| 0 <= j < |picked| && picked[j] == k;
    assert info.names[j] == DisplayName(authors[k]);
  }

  /**
   * Entries come in document order: entries j < j' are the names of authors at
   * positions p < p'.
   */
  lemma SelectionKeepsDocumentOrder(authors: seq<Author>, j: nat, j': nat)
    requires Readable(authors) && j < j' < |Collect(Views(authors)).names|
    ensures var picked, names := Picked(Views(authors)), Collect(Views(authors)).names;
            && picked[j] < picked[j'] < |authors|
            && names[j] == DisplayName(authors[picked[j]])
            && names[j'] == DisplayName(authors[picked[j']])
  {
    var views := Views(authors);
    var picked := Picked(views);
    assert views[picked[j]] == ViewOf(authors[picked[j]]);
    assert views[picked[j']] == ViewOf(authors[picked[j']]);
  }

  /**
   * The email is the match in the first author's affiliation, in document order,
   * that holds one, whether that author is academic or not; later matches do not
   * replace it, and there is none when no affiliation holds a match.
   */
  lemma EmailIsFirstMatch(authors: seq<Author>)
    requires Readable(authors)
    ensures var email := Collect(Views(authors)).email;
            email.Some? ==>
              exists k :: 0 <= k < |authors|
                && FindEmail(AffiliationOf(authors[k])) == email
                && forall j :: 0 <= j < k ==> FindEmail(AffiliationOf(authors[j])).None?
    ensures var email := Collect(Views(authors)).email;
            email.None? ==>
              forall k :: 0 <= k < |authors| ==> FindEmail(AffiliationOf(authors[k])).None?
  {
    var found := Emails(Views(authors));
    assert forall k :: 0 <= k < |authors| ==> found[k] == FindEmail(AffiliationOf(authors[k]));
  }

  /** The email kept is text of one author's affiliation, shaped like an address. */
  lemma EmailIsFromAnAffiliation(authors: seq<Author>)
    requires Readable(authors)
    ensures var email := Collect(Views(authors)).email;
            email.Some? ==>
              && AddressShaped(email.value)
              && exists k :: 0 <= k < |authors| && Contains(AffiliationOf(authors[k]), email.value)
  {
    EmailIsFirstMatch(authors);
    var email := Collect(Views(authors)).email;
    if email.Some? {
      var k :| 0 <= k < |authors| && FindEmail(AffiliationOf(authors[k])) == email;
      FoundEmailIsAddress(AffiliationOf(authors[k]));
    }
  }
}
