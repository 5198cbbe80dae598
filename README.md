# PubMed paper fetcher: the row-building core, in Dafny

The fetcher queries PubMed for papers and reports, for each paper, the authors who work
for companies rather than universities. This project models the part of
`pubmedpaperfetcher/papers_fetcher.py` that decides what goes into the report once the
XML answer has been parsed:

- `is_non_academic`: the keyword classifier. It lower-cases an affiliation. Any academic
  keyword makes it academic. Otherwise any non-academic keyword makes it non-academic.
  Otherwise it is academic.
- `_extract_author_info`: the walk over an article's authors. It builds each display name
  from last name and initials. It keeps the names and raw affiliations of the non-academic
  authors in two parallel lists. It keeps the first email address that the fixed regular
  expression finds in any affiliation.
- `parse_papers`: one six-field row per article. Missing scalar fields become "N/A", the
  two lists are joined with "; " (or "N/A" when empty), and the email passes through.

Modules:

- `Wrappers`: `Option` and `Result`.
- `Text`: the Python string operations involved: ASCII `str.lower`, the `in` substring
  test, `str.strip`, and `"; ".join` with its inverse split.
- `Classifier`: the keyword lists and `IsNonAcademic`.
- `Email`: `re.search` for the pattern `[a-zA-Z0-9._%+-]+@[a-zA-Z0-9.-]+\.[a-zA-Z]+`.
  It is modelled the way a backtracking matcher runs it and proved to return the leftmost,
  then longest, match.
- `Authors`: the author walk. `ExtractAuthorInfo` is a loop proved against the functional
  specification `ExtractSpec`.
- `Articles`: the row building. `ParsePapers` is a loop proved against `ParseSpec`.

The parsed XML is given as datatypes. An element that is absent is `None`. A present
`<Affiliation>` element without text is `EmptyAffiliation`. The source reads such an
element's `.text` as `None`, and `None.lower()` raises. The model gives that case an error
result naming the author (and, for `parse_papers`, the article). It does not treat it as "".

The PMID, title and year are read with `findtext(path, default="N/A")`
(`pubmedpaperfetcher/papers_fetcher.py:111-113`). It gives the default only when the element
is absent; a present element without text gives "". So `TextOrNA` maps only `None` to "N/A",
and a present but empty field stays "".

## Model

| member | source | states |
|---|---|---|
| Text.Lower | pubmedpaperfetcher/papers_fetcher.py:177 | lower-casing keeps the length and maps each character on its own: ASCII capitals to small letters, everything else unchanged |
| Text.LowerIdempotent | pubmedpaperfetcher/papers_fetcher.py:177 | lower-casing already lower-cased text changes nothing |
| Text.ContainsIffOccurs | pubmedpaperfetcher/papers_fetcher.py:179 | the `in` test succeeds exactly when the needle occurs at some position of the haystack |
| Text.ContainsTransitive | pubmedpaperfetcher/papers_fetcher.py:179 | a substring of a substring is a substring |
| Text.Strip | pubmedpaperfetcher/papers_fetcher.py:152 | the stripped text is a slice of the input with only whitespace cut from both ends, and it neither starts nor ends with whitespace |
| Text.StripUnchanged | pubmedpaperfetcher/papers_fetcher.py:152 | text without surrounding whitespace is left unchanged |
| Text.StripAllSpace | pubmedpaperfetcher/papers_fetcher.py:152 | whitespace-only text strips to "" |
| Text.JoinContainsElement | pubmedpaperfetcher/papers_fetcher.py:128-129 | every element of a joined list appears verbatim in the joined text |
| Text.SplitJoin | pubmedpaperfetcher/papers_fetcher.py:128-129 | when no element contains "; ", splitting the "; "-joined text gives back the list |
| Classifier.AnyOccursIffMentions | pubmedpaperfetcher/papers_fetcher.py:179-183 | the ordered `any(...)` scan finds a keyword exactly when some keyword of the list is a substring |
| Classifier.IsNonAcademic | pubmedpaperfetcher/papers_fetcher.py:167-185 | true exactly when the lower-cased text contains no academic keyword and at least one non-academic keyword |
| Classifier.VerdictIgnoresCase | pubmedpaperfetcher/papers_fetcher.py:177 | the verdict on a text and on its lower-cased form agree |
| Classifier.ResearchInstituteIsShadowed | pubmedpaperfetcher/papers_fetcher.py:22-32 | the non-academic keyword "research institute" can never produce true, because the academic "institute" inside it is found first |
| Classifier.AcademicKeywordWins | pubmedpaperfetcher/papers_fetcher.py:179-180 | an occurrence of any academic keyword makes the verdict false, whatever else the text holds |
| Classifier.EmptyAffiliationIsAcademic | pubmedpaperfetcher/papers_fetcher.py:182-185 | the empty affiliation (an absent element) is academic |
| Classifier.TestedAcademicVerdicts | pubmedpaperfetcher/test_papers_fetcher.py:157-167 | "Harvard University", "National Laboratory", "University of California" and "MIT Research Labs" are academic |
| Classifier.TestedNonAcademicVerdicts | pubmedpaperfetcher/test_papers_fetcher.py:152-168 | "XYZ Biotech Ltd", "Pharma Research Inc.", "Big Pharma Inc.", "Tech Solutions Pvt Ltd", "Global Pharmaceuticals" and "BioTech Solutions" are non-academic |
| Email.MatchFrom | pubmedpaperfetcher/papers_fetcher.py:161 | the pattern tried at one start: a match found there is at least five characters long and ends inside the text |
| Email.SearchFrom | pubmedpaperfetcher/papers_fetcher.py:161 | starts tried left to right from a position: a span found starts at or after it, is at least five characters long and ends inside the text |
| Email.MatchFromSound | pubmedpaperfetcher/papers_fetcher.py:161 | what the matcher reports at a start position is a match of the pattern there |
| Email.MatchFromComplete | pubmedpaperfetcher/papers_fetcher.py:161 | every match starting at a position is found there, and none is longer than the reported one |
| Email.SearchFromLeftmostLongest | pubmedpaperfetcher/papers_fetcher.py:161 | searching from a position finds no match when none starts there or later; otherwise it finds the leftmost start and the longest match at it |
| Email.SearchIsLeftmostLongest | pubmedpaperfetcher/papers_fetcher.py:161 | `re.search` over the whole text: no result exactly when no part matches; otherwise the leftmost, then longest, match |
| Email.FindEmail | pubmedpaperfetcher/papers_fetcher.py:161-163 | a found email has at least five characters and is no longer than the text |
| Email.FindEmailMatches | pubmedpaperfetcher/papers_fetcher.py:161 | there is no email exactly when no part of the text matches; a found email is a matched slice of the text |
| Email.FoundEmailIsAddress | pubmedpaperfetcher/papers_fetcher.py:161 | a found email is a substring of the text with exactly one `@`, a non-empty local part, a `.` after the `@`, and a letter at the end |
| Authors.DisplayName | pubmedpaperfetcher/papers_fetcher.py:150-152 | the display name has no surrounding whitespace and is no longer than last name, space and initials together |
| Authors.DisplayNameJoins | pubmedpaperfetcher/papers_fetcher.py:150-152 | name parts without their own surrounding whitespace are joined by exactly one space |
| Authors.DisplayNameOfNobody | pubmedpaperfetcher/papers_fetcher.py:150-152 | absent or empty last name and initials give the name "" |
| Authors.DoeJ | pubmedpaperfetcher/test_papers_fetcher.py:136 | last name "Doe" and initials "J" give "Doe J" |
| Authors.FirstEmptyAffiliation | pubmedpaperfetcher/papers_fetcher.py:154-155 | the position of the first author whose affiliation element has no text, every author before it being readable |
| Authors.Positions | pubmedpaperfetcher/papers_fetcher.py:157-159 | the selected positions are exactly the flagged ones, in increasing order |
| Authors.FirstFound | pubmedpaperfetcher/papers_fetcher.py:162-163 | the first present value, all values before it absent; nothing when every value is absent |
| Authors.CollectStep | pubmedpaperfetcher/papers_fetcher.py:157-163 | one more author extends the name and affiliation lists only if non-academic, and supplies the email only if none was found before |
| Authors.ExtractAuthorInfo | pubmedpaperfetcher/papers_fetcher.py:135-165 | the loop returns exactly `ExtractSpec`: the error at the first empty affiliation element, or the names, affiliations and first email |
| Authors.ExtractSucceedsIffReadable | pubmedpaperfetcher/papers_fetcher.py:155 | the walk succeeds exactly when no author has an empty affiliation element |
| Authors.ExtractFailsAtFirstEmpty | pubmedpaperfetcher/papers_fetcher.py:149-155 | the walk fails exactly when some affiliation element is empty, and it fails at the first such author |
| Authors.NamesAndAffiliationsParallel | pubmedpaperfetcher/papers_fetcher.py:157-159 | the two lists have equal length; entry j of both comes from the same author; every listed affiliation is non-academic and kept as written |
| Authors.NonAcademicAuthorsListed | pubmedpaperfetcher/papers_fetcher.py:157-159 | every non-academic author has an entry with its name and affiliation at the same position |
| Authors.SelectionKeepsDocumentOrder | pubmedpaperfetcher/papers_fetcher.py:149-159 | later entries belong to later authors |
| Authors.EmailIsFirstMatch | pubmedpaperfetcher/papers_fetcher.py:161-163 | the email is the match of the first author, academic or not, whose affiliation holds one; no email when no affiliation does |
| Authors.EmailIsFromAnAffiliation | pubmedpaperfetcher/papers_fetcher.py:161-163 | the email is address-shaped and occurs in some author's affiliation |
| Articles.TextOrNA | pubmedpaperfetcher/papers_fetcher.py:111-113 | "N/A" only for an absent element; a present element keeps its text, "" included |
| Articles.JoinOrNA | pubmedpaperfetcher/papers_fetcher.py:128-129 | an empty list gives "N/A"; each element of a non-empty list appears in the joined text |
| Articles.JoinOrNAIsPlaceholder | pubmedpaperfetcher/papers_fetcher.py:128-129 | a joined column reads "N/A" exactly when the list is empty or is the single entry "N/A" |
| Articles.SplitJoinedColumn | pubmedpaperfetcher/papers_fetcher.py:128-129 | a non-empty column can be split back into its entries when none contains "; " |
| Articles.ParsePapers | pubmedpaperfetcher/papers_fetcher.py:96-133 | the loop returns exactly `ParseSpec`: the rows in order, or the error of the first article whose author walk raises |
| Articles.FailureIsFinal | pubmedpaperfetcher/papers_fetcher.py:110-116 | once an article's walk raises, later articles do not change the outcome |
| Articles.AssembleSucceedsIffAllWalksSucceed | pubmedpaperfetcher/papers_fetcher.py:110-131 | assembling succeeds exactly when every article's walk succeeds |
| Articles.AssembleFailsAtFirstFailure | pubmedpaperfetcher/papers_fetcher.py:110-131 | a failed assembly reports the first failing walk and its own error |
| Articles.AssembleRows | pubmedpaperfetcher/papers_fetcher.py:110-131 | a successful assembly has one row per article, the i-th built from the i-th article and its walk |
| Articles.NoArticlesNoRows | pubmedpaperfetcher/papers_fetcher.py:108-110 | no articles give no rows |
| Articles.ParseSucceedsIffReadable | pubmedpaperfetcher/papers_fetcher.py:110-116 | the parse succeeds exactly when no author of any article has an empty affiliation element |
| Articles.ParseFailsAtFirstFailingArticle | pubmedpaperfetcher/papers_fetcher.py:110-116 | a failed parse names an article whose walk raises, all earlier articles being readable, and the author where it raises |
| Articles.RowsFollowArticles | pubmedpaperfetcher/papers_fetcher.py:126-131 | a successful parse has one row per article, in document order; row i holds article i's PMID, title and year (or "N/A"), its joined lists and its email unchanged |

## Left out

- Fetching (`fetch_papers`, `_make_request` and the retry loop with `PubMedAPIError`): network I/O.
- `save_to_csv` and the `os.makedirs` of the data directory: file output and CSV quoting belong to the `csv` library.
- XML parsing (`ET.fromstring`, `findall`, `find`, `findtext`): a foreign parser. Its result is the `Article` and `Author` datatypes, which keep only the first `AffiliationInfo/Affiliation` element of an author, as `find` does. Malformed XML is not modelled.
- Debug logging in `parse_papers`: a side channel with no effect on the result.
- The command-line front end (`get_papers_list.py`) and the package's `__init__.py`: argument parsing, exit codes and re-exports.
- Text.Lower: lower-cases ASCII capitals only, not Python's full Unicode `str.lower()`. Non-ASCII letters in an affiliation stay as they are.
- Email.FindEmail: models `re.search` for this one pattern, not a general regular-expression engine. It uses the pattern's ASCII character classes exactly.
- Authors.ExtractAuthorInfo: the conditional appends of lines 157-159 and the email update of lines 162-163 are written as conditional expressions in the loop body rather than `if` statements. The effect is the same.
- The concrete `parse_papers` tests on full XML documents, which exercise the email search on literal text, are not replayed. Their pieces are: `Authors.DoeJ`, the verdict lemmas, `Email.SearchIsLeftmostLongest` and `Articles.NoArticlesNoRows`.
