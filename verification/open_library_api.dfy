/**
 The search client of `lib/open_library_api.py`: `Search.get_user_search_results`.

 The HTTP exchange and JSON decoding are replaced by an abstract `Response`,
 and the SQLite table of `SearchHistory` rows by a sequence of `Record`s that
 the search threads through. A search is then a pure map from a term, the
 catalog's answer and the stored history to the text shown and the new history.
 */
module OpenLibraryApi {
  import opened Wrappers
  import opened Strings

  // ---------------------------------------------------------------------------
  // Constants of the client
  // ---------------------------------------------------------------------------

  const BaseUrl := "https://openlibrary.org/search.json"
  /** The three document fields requested, in the order they are listed in the URL. */
  const Fields: seq<string> := ["title", "author_name", "first_publish_year"]
  /** At most this many documents are asked for. */
  const Limit: int := 5

  const DefaultTitle := "Unknown Title"
  /** The author list assumed for a document without one; its head is shown. */
  const DefaultAuthors: seq<string> := ["Unknown Author"]
  const DefaultYear := "Year Unknown"

  const NoBooksMessage := "No books found for that search term."
  /** Prefix of the text returned for any exception raised during the search. */
  const ErrorPrefix := "An error occurred: "
  /** What Python's `IndexError` says when `authors[0]` meets an empty list. */
  const IndexErrorMessage := "list index out of range"

  // ---------------------------------------------------------------------------
  // Data model
  // ---------------------------------------------------------------------------

  /** One entry of the response's `docs` array; every key may be absent. */
  datatype Doc = Doc(title: Option<string>, authorName: Option<seq<string>>, firstPublishYear: Option<int>)

  /**
   The body of a status-200 answer. `Json(None)` is an object without `docs` or
   with a falsy `docs` (`null`, `{}`, `""`, `0`); `Json(Some(ds))` is one with a
   list of documents; `Malformed` is text that does not decode to an object, or a
   truthy `docs` that is not a list, both of which raise before any output.
   */
  datatype Body = Json(docs: Option<seq<Doc>>) | Malformed(reason: string)

  /** What `requests.get` produced: an answer with a status code, or the exception it raised. */
  datatype Response = Answer(statusCode: int, body: Body) | Raised(reason: string)

  /** A `SearchHistory` row without its auto-assigned identifier. */
  datatype Record = Record(title: string, author: string, year: string)

  type History = seq<Record>

  /** What one search leaves behind: the text returned to the caller and the committed history. */
  datatype Reply = Reply(text: string, history: History)

  /** The lines and rows a fully processed `docs` list produces. */
  datatype Batch = Batch(lines: seq<string>, records: History)

  // ---------------------------------------------------------------------------
  // The request
  // ---------------------------------------------------------------------------

  /** The search term as put into the URL: every space becomes `+`, nothing else changes. */
  function FormatTerm(term: string): (r: string)
    ensures |r| == |term|
    ensures ' ' !in r
    ensures forall i :: 0 <= i < |term| && term[i] == ' ' ==> r[i] == '+'
    ensures forall i :: 0 <= i < |term| && term[i] != ' ' ==> r[i] == term[i]
  {
    ReplaceCharRemoves(term, ' ', '+');
    ReplaceChar(term, ' ', '+')
  }

  /** The query URL: the formatted term as `title`, the three fields, and the limit of five. */
  function QueryUrl(term: string): (url: string)
    ensures url == BaseUrl + "?title=" + FormatTerm(term) + "&fields=" + "title,author_name,first_publish_year" + "&limit=" + "5"
  {
    FieldListText();
    LimitText();
    BaseUrl + "?title=" + FormatTerm(term) + "&fields=" + Join(Fields, ",") + "&limit=" + IntToString(Limit)
  }

  // The literal lemmas below (`FieldListText`, `LimitText`, `LiteralSeparators`,
  // `Regroup`, `ConstantPartsLackSeparators`, `NoAmpersandInFieldList`) only split
  // reasoning about string literals into cheap steps for `QueryUrl` and `QueryParameters`.

  lemma FieldListText()
    ensures Join(Fields, ",") == "title,author_name,first_publish_year"
  {
    var a, b, c := "title", "author_name", "first_publish_year";
    assert Fields[1..][1..] == [c];
    assert Join(Fields[1..], ",") == b + "," + c;
    assert Join(Fields, ",") == a + "," + (b + "," + c);
  }

  lemma LimitText()
    ensures IntToString(Limit) == "5"
  {
    assert DigitChar(5) == '5';
  }

  /** The part of a URL after the first `?`, or the empty string if there is none. */
  function QueryString(url: string): string
    decreases |url|
  {
    if |url| == 0 then ""
    else if url[0] == '?' then url[1..]
    else QueryString(url[1..])
  }

  lemma {:induction false} QueryStringAfterPrefix(p: string, t: string)
    requires '?' !in p
    ensures QueryString(p + "?" + t) == t
    decreases |p|
  {
    if |p| > 0 {
      assert (p + "?" + t)[1..] == p[1..] + "?" + t;
      QueryStringAfterPrefix(p[1..], t);
    } else {
      assert p + "?" + t == "?" + t;
    }
  }

  /**
   For a term free of `&`, the query string of the URL built at line 37 holds
   exactly three `&`-separated parameters: the formatted term as `title`, the
   field list, and `limit=5`. This is a statement about the URL string; what
   the HTTP layer then sends is not modelled.
   */
  lemma QueryParameters(term: string)
    requires '&' !in term
    ensures Split(QueryString(QueryUrl(term)), '&')
         == ["title=" + FormatTerm(term), "fields=" + "title,author_name,first_publish_year", "limit=" + "5"]
  {
    var title := "title=" + FormatTerm(term);
    var fields := "fields=" + "title,author_name,first_publish_year";
    var limit := "limit=" + "5";
    var query := title + "&" + fields + "&" + limit;
    QueryUrlParts(term);
    ConstantPartsLackSeparators();
    QueryStringAfterPrefix(BaseUrl, query);
    FormatTermKeeps(term, '&');
    SplitThree(title, fields, limit, '&');
  }

  /** The URL as the base, a `?`, and three `&`-separated parameters. */
  lemma QueryUrlParts(term: string)
    ensures QueryUrl(term) == BaseUrl + "?" + ("title=" + FormatTerm(term) + "&"
      + ("fields=" + "title,author_name,first_publish_year") + "&" + ("limit=" + "5"))
  {
    var fl, l := "title,author_name,first_publish_year", "5";
    LiteralSeparators();
    Regroup(BaseUrl, "?", "title=", FormatTerm(term), "&", "fields=", fl, "&", "limit=", l);
  }

  // Literal and regrouping steps for `QueryUrlParts` (see the note above `FieldListText`).

  lemma LiteralSeparators()
    ensures "?title=" == "?" + "title="
    ensures "&fields=" == "&" + "fields="
    ensures "&limit=" == "&" + "limit="
  {
  }

  lemma Regroup(base: string, q: string, t: string, f: string, a1: string, fi: string, fl: string,
                a2: string, li: string, l: string)
    ensures base + (q + t) + f + (a1 + fi) + fl + (a2 + li) + l
         == base + q + (t + f + a1 + (fi + fl) + a2 + (li + l))
  {
  }

  /** Formatting introduces no character other than `+`. */
  lemma FormatTermKeeps(term: string, ch: char)
    requires ch != '+' && ch !in term
    ensures ch !in FormatTerm(term)
  {
    forall i | 0 <= i < |term|
      ensures FormatTerm(term)[i] != ch
    {
      assert term[i] != ch;
    }
  }

  lemma ConstantPartsLackSeparators()
    ensures '?' !in BaseUrl
    ensures '&' !in "fields=" + "title,author_name,first_publish_year"
    ensures '&' !in "limit=" + "5"
  {
    NoAmpersandInFieldList();
  }

  lemma NoAmpersandInFieldList()
    ensures '&' !in "title,author_name,first_publish_year"
  {
  }

  /** Formatting is idempotent, so a term typed with `+` for its spaces builds the same URL as the term itself. */
  lemma PlusForSpaceSameUrl(term: string)
    ensures QueryUrl(FormatTerm(term)) == QueryUrl(term)
  {
    var once := FormatTerm(term);
    var twice := FormatTerm(once);
    forall i | 0 <= i < |term|
      ensures twice[i] == once[i]
    {
      assert once[i] != ' ';
    }
  }

  // ---------------------------------------------------------------------------
  // Reading one document
  // ---------------------------------------------------------------------------

  /** `authors[0]` succeeds: the author list is absent (so defaulted) or non-empty. */
  predicate Readable(doc: Doc) {
    doc.authorName != Some([])
  }

  /**
   The (title, author, year) a document contributes, with the defaults for
   missing keys, or the `IndexError` that `authors[0]` raises on an empty list.
   */
  function ReadDoc(doc: Doc): (r: Result<Record, string>)
    ensures r.Ok? <==> Readable(doc)
    ensures r.Err? ==> r.error == IndexErrorMessage
    ensures r.Ok? && doc.title.Some? ==> r.value.title == doc.title.value
    ensures r.Ok? && doc.title.None? ==> r.value.title == "Unknown Title"
    ensures r.Ok? && doc.authorName.Some? ==> r.value.author == doc.authorName.value[0]
    ensures r.Ok? && doc.authorName.None? ==> r.value.author == "Unknown Author"
    ensures r.Ok? ==> r.value.year == YearText(doc.firstPublishYear)
  {
    var title := doc.title.GetOr(DefaultTitle);
    var authors := doc.authorName.GetOr(DefaultAuthors);
    if |authors| == 0 then Err(IndexErrorMessage)
    else
      Ok(Record(title, authors[0], YearText(doc.firstPublishYear)))
  }

  /** `str(book.get('first_publish_year', 'Year Unknown'))`: decimal text that reads back as the year, or the default. */
  function YearText(year: Option<int>): (s: string)
    ensures year.Some? ==> ParseInt(s) == Some(year.value)
    ensures year.None? ==> s == DefaultYear
  {
    match year
    case Some(y) => IntToStringRoundTrip(y); IntToString(y)
    case None => DefaultYear
  }

  /** The default year text is not a number. */
  lemma DefaultYearIsNotANumber()
    ensures ParseInt(DefaultYear) == None
  {
    assert !IsDigit(DefaultYear[0]);
  }

  /** The stored year text determines `first_publish_year`: different years, or a year and its absence, never share a text. */
  lemma YearTextInjective(a: Option<int>, b: Option<int>)
    ensures YearText(a) == YearText(b) ==> a == b
  {
    DefaultYearIsNotANumber();
  }

  // ---------------------------------------------------------------------------
  // Display lines
  // ---------------------------------------------------------------------------

  /** `f"{index}. {title} ({year}) by {author}"`. */
  function FormatLine(index: nat, rec: Record): string {
    IntToString(index) + ". " + rec.title + " (" + rec.year + ") by " + rec.author
  }

  /** The number a display line starts with. */
  function LineNumber(line: string): nat {
    DigitsValue(LeadingDigits(line))
  }

  /** Every display line reads back as numbered with its own index. */
  lemma LineNumberOfFormatLine(index: nat, rec: Record)
    ensures LineNumber(FormatLine(index, rec)) == index
  {
    var digits := NatToString(index);
    var rest := ". " + rec.title + " (" + rec.year + ") by " + rec.author;
    assert FormatLine(index, rec) == digits + rest;
    LeadingDigitsOfNumber(digits, rest);
    NatToStringRoundTrip(index);
  }

  /** A record's display line holds no newline when none of its fields does. */
  lemma FormatLineWithoutNewline(index: nat, rec: Record)
    requires '\n' !in rec.title && '\n' !in rec.author && '\n' !in rec.year
    ensures '\n' !in FormatLine(index, rec)
  {
    var digits := NatToString(index);
    assert forall i :: 0 <= i < |digits| ==> IsDigit(digits[i]);
    assert '\n' !in digits;
  }

  /** Lines of a result listing: records numbered from 1 in order, each line reading back as its position plus one. */
  function NumberedLines(records: History): (lines: seq<string>)
    ensures |lines| == |records|
    ensures forall k :: 0 <= k < |records| ==> lines[k] == FormatLine(k + 1, records[k])
    ensures forall k :: 0 <= k < |lines| ==> LineNumber(lines[k]) == k + 1
  {
    NumberedFromOne(records);
    seq(|records|, k requires 0 <= k < |records| => FormatLine(k + 1, records[k]))
  }

  lemma NumberedFromOne(records: History)
    ensures forall k :: 0 <= k < |records| ==> LineNumber(FormatLine(k + 1, records[k])) == k + 1
  {
    forall k | 0 <= k < |records|
      ensures LineNumber(FormatLine(k + 1, records[k])) == k + 1
    {
      LineNumberOfFormatLine(k + 1, records[k]);
    }
  }

  /** `"\n".join(...)` of the numbered lines. */
  function Display(records: History): string {
    Join(NumberedLines(records), "\n")
  }

  // ---------------------------------------------------------------------------
  // The loop over the documents
  // ---------------------------------------------------------------------------

  /**
   The `for index, book in enumerate(docs, start=first)` loop: one line and
   one row per document, in order, or the first `IndexError` it raises.
   */
  function Render(docs: seq<Doc>, first: nat): (r: Result<Batch, string>)
    ensures r.Ok? <==> forall k :: 0 <= k < |docs| ==> Readable(docs[k])
    ensures r.Err? ==> r.error == IndexErrorMessage
    ensures r.Ok? ==> |r.value.lines| == |docs| && |r.value.records| == |docs|
    ensures r.Ok? ==> forall k :: 0 <= k < |docs| ==> r.value.records[k] == ReadDoc(docs[k]).value
    ensures r.Ok? ==> forall k :: 0 <= k < |docs| ==> r.value.lines[k] == FormatLine(first + k, r.value.records[k])
    decreases |docs|
  {
    if |docs| == 0 then Ok(Batch([], []))
    else
      match ReadDoc(docs[0])
      case Err(e) => Err(e)
      case Ok(rec) =>
        match Render(docs[1..], first + 1)
        case Err(e) =>
          UnreadableInTail(docs);
          Err(e)
        case Ok(rest) =>
          var lines, records := [FormatLine(first, rec)] + rest.lines, [rec] + rest.records;
          RecordsStep(docs, rec, rest.records);
          LinesStep(first, rec, rest);
          Ok(Batch(lines, records))
  }

  /** Prepending the first document's row to those of the rest keeps rows and documents aligned. */
  lemma RecordsStep(docs: seq<Doc>, rec: Record, rest: seq<Record>)
    requires |docs| > 0 && ReadDoc(docs[0]) == Ok(rec) && |rest| == |docs| - 1
    requires forall k :: 0 <= k < |docs| - 1 ==> ReadDoc(docs[1..][k]) == Ok(rest[k])
    ensures forall k :: 0 <= k < |docs| ==> ReadDoc(docs[k]) == Ok(([rec] + rest)[k])
  {
    forall k | 1 <= k < |docs|
      ensures ReadDoc(docs[k]) == Ok(([rec] + rest)[k])
    {
      assert docs[1..][k - 1] == docs[k];
      assert ([rec] + rest)[k] == rest[k - 1];
    }
  }

  /** Prepending the line numbered `first` to lines numbered from `first + 1` keeps the numbering. */
  lemma LinesStep(first: nat, rec: Record, rest: Batch)
    requires |rest.lines| == |rest.records|
    requires forall k :: 0 <= k < |rest.lines| ==> rest.lines[k] == FormatLine(first + 1 + k, rest.records[k])
    ensures var lines, records := [FormatLine(first, rec)] + rest.lines, [rec] + rest.records;
      forall k :: 0 <= k < |lines| ==> lines[k] == FormatLine(first + k, records[k])
  {
    ConsAligned(FormatLine, first, rec, rest.records, rest.lines);
  }

  /** `ys[k] == f(first + 1 + k, xs[k])` for all `k` survives putting `f(first, x)` before `ys` and `x` before `xs`. */
  lemma ConsAligned<X, Y>(f: (nat, X) -> Y, first: nat, x: X, xs: seq<X>, ys: seq<Y>)
    requires |ys| == |xs|
    requires forall k :: 0 <= k < |ys| ==> ys[k] == f(first + 1 + k, xs[k])
    ensures forall k :: 0 <= k < |ys| + 1 ==> ([f(first, x)] + ys)[k] == f(first + k, ([x] + xs)[k])
  {
    forall k | 1 <= k < |ys| + 1
      ensures ([f(first, x)] + ys)[k] == f(first + k, ([x] + xs)[k])
    {
      var j := k - 1;
      assert ([f(first, x)] + ys)[k] == ys[j];
      assert ([x] + xs)[k] == xs[j];
      assert first + 1 + j == first + k;
    }
  }

  lemma UnreadableInTail(docs: seq<Doc>)
    requires |docs| > 0
    requires !forall k :: 0 <= k < |docs[1..]| ==> Readable(docs[1..][k])
    ensures !forall k :: 0 <= k < |docs| ==> Readable(docs[k])
  {
    var k :| 0 <= k < |docs[1..]| && !Readable(docs[1..][k]);
    assert docs[1..][k] == docs[k + 1];
  }

  // ---------------------------------------------------------------------------
  // The search
  // ---------------------------------------------------------------------------

  /** The documents of a status-200 answer that decoded, `[]` for a missing `docs` key or any other response. */
  function DocsOf(response: Response): seq<Doc> {
    if response.Answer? && response.statusCode == 200 && response.body.Json?
    then response.body.docs.GetOr([])
    else []
  }

  /** The search commits: status 200, a decoded body, at least one document, and no empty author list. */
  predicate Succeeds(response: Response) {
    && response.Answer? && response.statusCode == 200 && response.body.Json?
    && |DocsOf(response)| > 0
    && forall k :: 0 <= k < |DocsOf(response)| ==> Readable(DocsOf(response)[k])
  }

  function StatusMessage(code: int): string {
    "Error: Received status code " + IntToString(code) + " from server."
  }

  /**
   Everything `get_user_search_results` does after `requests.get` returns
   or raises. The batch of rows is committed only if every document was
   read; an exception anywhere before the commit leaves the history as it was.
   */
  function HandleResponse(response: Response, history: History): (r: Reply)
    ensures history <= r.history
    ensures !Succeeds(response) ==> r.history == history
    ensures Succeeds(response) ==>
      && |r.history| == |history| + |DocsOf(response)|
      && (forall k :: 0 <= k < |DocsOf(response)| ==> r.history[|history| + k] == ReadDoc(DocsOf(response)[k]).value)
      && r.text == Display(r.history[|history|..])
    ensures response.Raised? ==> r.text == ErrorPrefix + response.reason
    ensures response.Answer? && response.statusCode != 200 ==> r.text == StatusMessage(response.statusCode)
    ensures response.Answer? && response.statusCode == 200 && response.body.Malformed? ==> r.text == ErrorPrefix + response.body.reason
    ensures response.Answer? && response.statusCode == 200 && response.body.Json? && |DocsOf(response)| == 0 ==> r.text == NoBooksMessage
    ensures response.Answer? && response.statusCode == 200 && response.body.Json? && |DocsOf(response)| > 0 && !Succeeds(response) ==>
      r.text == ErrorPrefix + IndexErrorMessage
  {
    match response
    case Raised(reason) => Reply(ErrorPrefix + reason, history)
    case Answer(code, body) =>
      if code != 200 then Reply(StatusMessage(code), history)
      else
        match body
        case Malformed(reason) => Reply(ErrorPrefix + reason, history)
        case Json(docs) =>
          var ds := docs.GetOr([]);
          if |ds| == 0 then Reply(NoBooksMessage, history)
          else
            match Render(ds, 1)
            case Err(e) => Reply(ErrorPrefix + e, history)
            case Ok(batch) =>
              var updated := history + batch.records;
              assert updated[|history|..] == batch.records;
              assert batch.lines == NumberedLines(batch.records);
              Reply(Join(batch.lines, "\n"), updated)
  }

  /** `Search().get_user_search_results(term)`, with the network as the function `fetch` from URL to response. */
  function GetUserSearchResults(term: string, fetch: string -> Response, history: History): (r: Reply)
    ensures history <= r.history
    ensures r.history != history ==> Succeeds(fetch(QueryUrl(term)))
  {
    HandleResponse(fetch(QueryUrl(term)), history)
  }

  // ---------------------------------------------------------------------------
  // Properties across calls
  // ---------------------------------------------------------------------------

  /** Whether rows were committed can be read off the text: only a commit yields a listing starting `1. `. */
  lemma CommitVisibleInText(response: Response, history: History)
    ensures var r := HandleResponse(response, history);
      Succeeds(response) <==> |r.text| >= 3 && r.text[..3] == "1. "
  {
    var r := HandleResponse(response, history);
    if Succeeds(response) {
      var lines := NumberedLines(r.history[|history|..]);
      FirstLineNumbered(r.history[|history|..][0]);
      JoinStartsWithFirst(lines, "\n");
      assert r.text[..3] == lines[0][..3];
    } else {
      UncommittedTextHead(response, history);
    }
  }

  /** The first line of a listing starts `1. `. */
  lemma FirstLineNumbered(rec: Record)
    ensures |FormatLine(1, rec)| >= 3 && FormatLine(1, rec)[..3] == "1. "
  {
    assert IntToString(1) == "1" by {
      assert DigitChar(1) == '1';
    }
  }

  /** Every text returned without a commit starts with `A`, `E` or `N`, never with a digit. */
  lemma UncommittedTextHead(response: Response, history: History)
    requires !Succeeds(response)
    ensures var text := HandleResponse(response, history).text;
      |text| > 0 && text[0] in {'A', 'E', 'N'}
  {
    var text := HandleResponse(response, history).text;
    if response.Raised? || (response.statusCode == 200 && !response.body.Json?) {
      assert text[..|ErrorPrefix|] == ErrorPrefix;
    } else if response.statusCode != 200 {
      assert text[0] == StatusMessage(response.statusCode)[0];
    } else if |DocsOf(response)| == 0 {
      assert text == NoBooksMessage;
    } else {
      assert text == ErrorPrefix + IndexErrorMessage;
    }
  }

  /**
   A committed search prints one line per document: splitting the text at
   newlines gives back the lines, numbered 1 to N, each showing the row stored
   for that document (fields are assumed newline-free so the split is exact).
   */
  lemma SuccessfulListing(response: Response, history: History)
    requires Succeeds(response)
    requires forall k :: 0 <= k < |DocsOf(response)| ==>
      var rec := ReadDoc(DocsOf(response)[k]).value;
      '\n' !in rec.title && '\n' !in rec.author && '\n' !in rec.year
    ensures var r := HandleResponse(response, history);
      var lines := Split(r.text, '\n');
      && |lines| == |DocsOf(response)|
      && (forall k :: 0 <= k < |lines| ==> lines[k] == FormatLine(k + 1, r.history[|history| + k]))
      && (forall k :: 0 <= k < |lines| ==> LineNumber(lines[k]) == k + 1)
  {
    var r := HandleResponse(response, history);
    var records := r.history[|history|..];
    var lines := NumberedLines(records);
    forall k | 0 <= k < |lines|
      ensures '\n' !in lines[k]
    {
      FormatLineWithoutNewline(k + 1, records[k]);
    }
    SplitJoin(lines, '\n');
  }

  /** The rows a response causes to be committed, whatever the history was. */
  function Committed(response: Response): History {
    if Succeeds(response) then Render(DocsOf(response), 1).value.records else []
  }

  lemma HandleResponseAppends(response: Response, history: History)
    ensures HandleResponse(response, history).history == history + Committed(response)
  {
    var r := HandleResponse(response, history);
    if Succeeds(response) {
      var batch := Render(DocsOf(response), 1).value;
      assert r.history[|history|..] == batch.records;
    }
  }

  /** Repeating a search with the same answer stores every one of its rows again: there is no deduplication. */
  lemma RepeatedSearchDoublesRows(response: Response, history: History, rec: Record)
    ensures var once := HandleResponse(response, history).history;
      var twice := HandleResponse(response, once).history;
      multiset(twice)[rec] == multiset(history)[rec] + 2 * multiset(Committed(response))[rec]
  {
    var once := HandleResponse(response, history).history;
    HandleResponseAppends(response, history);
    HandleResponseAppends(response, once);
  }

  /** When the catalog honours the URL's limit, one search stores at most five rows. */
  lemma AtMostLimitRows(term: string, fetch: string -> Response, history: History)
    requires |DocsOf(fetch(QueryUrl(term)))| <= Limit
    ensures |GetUserSearchResults(term, fetch, history).history| <= |history| + Limit
  {
  }
}
