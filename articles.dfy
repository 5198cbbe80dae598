/**
 * `parse_papers` after the XML parse: one six-field report row per `PubmedArticle`,
 * in document order.
 */
module Articles {
  import opened Wrappers
  import opened Text
  import opened Authors

  /**
   * One `PubmedArticle` as the XML parser hands it over. A scalar field is None when
   * its element is absent and holds the element's text, possibly "", when present.
   */
  datatype Article = Article(pmid: Option<string>, title: Option<string>, year: Option<string>,
                             authors: seq<Author>)

  /** One report row: PubMed ID, title, year, non-academic authors, company affiliations, email. */
  datatype Row = Row(pmid: string, title: string, year: string,
                     authors: string, affiliations: string, email: Option<string>)

  /** The placeholder written for a missing value. */
  const NOT_AVAILABLE := "N/A"

  /** `findtext(path, default="N/A")`: the placeholder only when the element is absent. */
  function TextOrNA(field: Option<string>): (text: string)
    ensures field.Some? ==> text == field.value
    ensures field.None? ==> text == NOT_AVAILABLE
  {
    match field
    case None => NOT_AVAILABLE
    case Some(t) => t
  }

  /** `"; ".join(items) if items else "N/A"`. */
  function JoinOrNA(items: seq<string>): (text: string)
    ensures items == [] ==> text == NOT_AVAILABLE
    ensures forall k :: 0 <= k < |items| ==> Contains(text, items[k])
  {
    if |items| == 0 then NOT_AVAILABLE
    else
      assert forall k :: 0 <= k < |items| ==> Contains(Join("; ", items), items[k]) by {
        forall k | 0 <= k < |items| {
          JoinContainsElement("; ", items, k);
        }
      }
      Join("; ", items)
  }

  /** The row of an article whose authors were walked with the given result. */
  function RowOf(article: Article, info: AuthorInfo): Row {
    Row(TextOrNA(article.pmid), TextOrNA(article.title), TextOrNA(article.year),
        JoinOrNA(info.names), JoinOrNA(info.affiliations), info.email)
  }

  /** Every author of every article can be walked without raising. */
  predicate AllReadable(articles: seq<Article>) {
    forall k :: 0 <= k < |articles| ==> Readable(articles[k].authors)
  }

  /**
   * The rows of the articles given the result of each article's author walk: the
   * rows in order, or, at the first walk that raises, the position of that article
   * and of the author in it whose affiliation element is empty.
   */
  function Assemble(articles: seq<Article>, walks: seq<Result<AuthorInfo, nat>>): Result<seq<Row>, (nat, nat)>
    requires |walks| == |articles|
    decreases |articles|
  {
    if |articles| == 0 then Success([])
    else
      var n := |articles| - 1;
      match Assemble(articles[..n], walks[..n])
      case Failure(at) => Failure(at)
      case Success(rows) =>
        match walks[n]
        case Failure(j) => Failure((n, j))
        case Success(info) => Success(rows + [RowOf(articles[n], info)])
  }

  /** The author walk of every article, in document order. */
  function Walks(articles: seq<Article>): (walks: seq<Result<AuthorInfo, nat>>)
    ensures |walks| == |articles|
  {
    seq(|articles|, i requires 0 <= i < |articles| => ExtractSpec(articles[i].authors))
  }

  /** What `parse_papers` returns. */
  function ParseSpec(articles: seq<Article>): Result<seq<Row>, (nat, nat)> {
    Assemble(articles, Walks(articles))
  }

  /** `parse_papers`: walks the articles in order, appending one row for each. */
  method ParsePapers(articles: seq<Article>) returns (r: Result<seq<Row>, (nat, nat)>)
    ensures r == ParseSpec(articles)
  {
    ghost var walks := Walks(articles);
    var rows: seq<Row> := [];
    for k := 0 to |articles|
      invariant Assemble(articles[..k], walks[..k]) == Success(rows)
    {
      var article := articles[k];
      var info := ExtractAuthorInfo(article.authors);
      assert articles[..k + 1][..k] == articles[..k];
      assert walks[..k + 1][..k] == walks[..k];
      if info.Failure? {
        FailureIsFinal(articles, walks, k + 1);
        return Failure((k, info.error));
      }
      rows := rows + [RowOf(article, info.value)];
    }
    assert articles[..|articles|] == articles;
    assert walks[..|articles|] == walks;
    return Success(rows);
  }

  /** Once a prefix of the articles fails, the whole assembly fails the same way. */
  lemma {:induction false} FailureIsFinal(articles: seq<Article>, walks: seq<Result<AuthorInfo, nat>>, m: nat)
    requires |walks| == |articles| && m <= |articles|
    requires Assemble(articles[..m], walks[..m]).Failure?
    ensures Assemble(articles, walks) == Assemble(articles[..m], walks[..m])
    decreases |articles| - m
  {
    if m < |articles| {
      assert articles[..m + 1][..m] == articles[..m];
      assert walks[..m + 1][..m] == walks[..m];
      FailureIsFinal(articles, walks, m + 1);
    } else {
      assert articles[..m] == articles;
      assert walks[..m] == walks;
    }
  }

  // ------------------------------------------------------------- assembling

  /** Assembling succeeds exactly when every walk succeeds. */
  lemma {:induction false} AssembleSucceedsIffAllWalksSucceed(articles: seq<Article>, walks: seq<Result<AuthorInfo, nat>>)
    requires |walks| == |articles|
    ensures Assemble(articles, walks).Success? <==> forall i :: 0 <= i < |walks| ==> walks[i].Success?
    decreases |articles|
  {
    if |articles| > 0 {
      var n := |articles| - 1;
      AssembleSucceedsIffAllWalksSucceed(articles[..n], walks[..n]);
      assert forall i :: 0 <= i < n ==> walks[..n][i] == walks[i];
    }
  }

  /** A failed assembly names the first walk that fails, and that walk's own error. */
  lemma {:induction false} AssembleFailsAtFirstFailure(articles: seq<Article>, walks: seq<Result<AuthorInfo, nat>>)
    requires |walks| == |articles|
    ensures Assemble(articles, walks).Failure? ==>
              var (f, j) := Assemble(articles, walks).error;
              && f < |walks| && walks[f] == Failure(j)
              && forall i :: 0 <= i < f ==> walks[i].Success?
    decreases |articles|
  {
    if |articles| > 0 {
      var n := |articles| - 1;
      AssembleFailsAtFirstFailure(articles[..n], walks[..n]);
      AssembleSucceedsIffAllWalksSucceed(articles[..n], walks[..n]);
      assert forall i :: 0 <= i < n ==> walks[..n][i] == walks[i];
      match Assemble(articles[..n], walks[..n])
      case Failure((f, j)) =>
        assert walks[..n][f] == walks[f];
      case Success(_) =>
    }
  }

  /**
   * A successful assembly has one row per article, in document order, each built
   * from that article's own fields and its own walk.
   */
  lemma {:induction false} AssembleRows(articles: seq<Article>, walks: seq<Result<AuthorInfo, nat>>)
    requires |walks| == |articles| && Assemble(articles, walks).Success?
    ensures |Assemble(articles, walks).value| == |articles|
    ensures forall i :: 0 <= i < |articles| ==>
              walks[i].Success? && Assemble(articles, walks).value[i] == RowOf(articles[i], walks[i].value)
    decreases |articles|
  {
    if |articles| > 0 {
      var n := |articles| - 1;
      AssembleRows(articles[..n], walks[..n]);
      assert forall i :: 0 <= i < n ==> articles[..n][i] == articles[i] && walks[..n][i] == walks[i];
    }
  }

  // ------------------------------------------------------------- properties

  /** An article set with no articles yields no rows. */
  lemma NoArticlesNoRows()
    ensures ParseSpec([]) == Success([])
  {
  }

  /** The parse succeeds exactly when no author of any article has an empty affiliation element. */
  lemma ParseSucceedsIffReadable(articles: seq<Article>)
    ensures ParseSpec(articles).Success? <==> AllReadable(articles)
  {
    var walks := Walks(articles);
    AssembleSucceedsIffAllWalksSucceed(articles, walks);
    forall i | 0 <= i < |articles|
      ensures walks[i].Success? <==> Readable(articles[i].authors)
    {
      ExtractSucceedsIffReadable(articles[i].authors);
    }
  }

  /**
   * A failed parse names an article whose author walk raises, every article
   * before it parses, and the author position is where that walk raises.
   */
  lemma ParseFailsAtFirstFailingArticle(articles: seq<Article>)
    ensures ParseSpec(articles).Failure? ==>
              var (f, j) := ParseSpec(articles).error;
              && f < |articles| && AllReadable(articles[..f])
              && ExtractSpec(articles[f].authors) == Failure(j)
  {
    var walks := Walks(articles);
    AssembleFailsAtFirstFailure(articles, walks);
    if ParseSpec(articles).Failure? {
      var (f, j) := ParseSpec(articles).error;
      forall i | 0 <= i < f
        ensures Readable(articles[..f][i].authors)
      {
        assert articles[..f][i] == articles[i];
        assert walks[i] == ExtractSpec(articles[i].authors) && walks[i].Success?;
        ExtractSucceedsIffReadable(articles[i].authors);
      }
    }
  }

  /**
   * A successful parse has exactly one row per article, and the row at position i
   * is built from the i-th article's own fields and its own author walk.
   */
  lemma RowsFollowArticles(articles: seq<Article>, i: nat, info: AuthorInfo)
    requires ParseSpec(articles).Success? && i < |articles|
    requires ExtractSpec(articles[i].authors) == Success(info)
    ensures |ParseSpec(articles).value| == |articles|
    ensures ParseSpec(articles).value[i] == RowOf(articles[i], info)
  {
    AssembleRows(articles, Walks(articles));
  }

  /**
   * The placeholder is ambiguous: a joined column reads "N/A" exactly when no
   * author qualified or the only one qualifying was literally "N/A".
   */
  lemma JoinOrNAIsPlaceholder(items: seq<string>)
    ensures JoinOrNA(items) == NOT_AVAILABLE <==> items == [] || items == [NOT_AVAILABLE]
  {
    if |items| > 1 {
      var joined := Join("; ", items);
      var p := |items[0]|;
      assert joined[p..p + 2] == "; ";
      if joined == NOT_AVAILABLE {
        assert joined[p + 1] == ' ';
      }
    }
  }

  /**
   * The joined column can be taken apart again at `"; "` when no name or
   * affiliation contains `"; "` itself.
   */
  lemma SplitJoinedColumn(items: seq<string>)
    requires |items| > 0
    requires forall k :: 0 <= k < |items| ==> !Contains(items[k], "; ")
    ensures SplitFields(JoinOrNA(items)) == items
  {
    SplitJoin(items);
  }
}
