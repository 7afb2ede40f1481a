# Open Library title search — a Dafny model

This project models `Search.get_user_search_results` in `lib/open_library_api.py`.
That method takes a book title typed by the user and builds the Open Library search URL from it.
It turns the catalog's JSON answer into numbered display lines and stores one `SearchHistory` row per line.

The model is functional:

- The answer of `requests.get` (followed by `response.json()`) is an abstract `Response`.
  It is either `Answer(statusCode, body)` or `Raised(reason)`.
  A status-200 body is either `Json(docs)` or `Malformed(reason)`. In `Json(docs)`, `docs` is `None` when the key is absent or its value is falsy.
- Each document has an optional `title`, an optional `author_name` list and an optional `first_publish_year`.
- The `history.db` table is a `seq<Record>` of (title, author, year) triples. Each search threads it through.
- A search is the pure function `GetUserSearchResults(term, fetch, history)`.
  `fetch` stands for the network: it maps a URL to a `Response`.
  The function returns the text shown to the user and the committed history.
  Everything after the request is `HandleResponse(response, history)`.

Files:

- `wrappers.dfy`: `Option` and `Result`.
- `strings.dfy`: the Python string operations the method uses: `str.replace` on one character (line 30), `str.join` (lines 34 and 69), and `str` of an integer (lines 57, 60 and 73).
  Each is paired with a reader that undoes it. `Split` is such a reader: the method never splits, and `Split` only states what `"\n".join` preserves.
- `open_library_api.dfy`: the search itself, module `OpenLibraryApi`.

Line 53 says the fields are extracted safely with `.get()`, and missing keys do get defaults.
But `author_name` can be present and empty. Then `authors[0]` (line 56) raises `IndexError`.
The catch-all handler turns that into `"An error occurred: list index out of range"`, and `commit` is never reached.
So no row of that search is stored, not even the rows of documents read before the empty list.
The model does the same (`ReadDoc`, `Render`, `HandleResponse`).

## Model

| member | source | states |
|---|---|---|
| `Strings.ReplaceChar` | lib/open_library_api.py:30 | `replace` on one character keeps the length. It puts `to` exactly where `from` was and leaves every other character alone. |
| `Strings.ReplaceCharUndo` | lib/open_library_api.py:30 | If `to` did not occur in the input, replacing back restores it, so the replacement loses nothing. |
| `OpenLibraryApi.FormatTerm` | lib/open_library_api.py:30 | The term as put into the URL has no spaces and the same length. Each space became `+` and every other character is unchanged. |
| `OpenLibraryApi.QueryUrl` | lib/open_library_api.py:33-37 | The URL is `https://openlibrary.org/search.json?title=<formatted term>&fields=title,author_name,first_publish_year&limit=5`. |
| `OpenLibraryApi.QueryParameters` | lib/open_library_api.py:33-37 | For a term without `&`, splitting the query string at `&` gives exactly three parameters. They are the formatted term as `title`, the three fields, and `limit=5`. |
| `OpenLibraryApi.PlusForSpaceSameUrl` | lib/open_library_api.py:30-37 | Formatting is idempotent, so a term with `+` in place of its spaces builds the same URL string. |
| `OpenLibraryApi.ReadDoc` | lib/open_library_api.py:54-57 | A document fails if and only if `author_name` is present and empty, and the failure is `IndexError`'s message. Otherwise the title is the document's title or `Unknown Title`. The author is the head of the list or `Unknown Author`. The year is the text of `first_publish_year` or the default. |
| `OpenLibraryApi.YearText` | lib/open_library_api.py:57 | A present year is shown as decimal text that reads back as that year. An absent one is shown as `Year Unknown`. |
| `Strings.IntToStringRoundTrip` | lib/open_library_api.py:57 | `str` of any integer, negative ones included, parses back to that integer. |
| `Strings.NatToString` | lib/open_library_api.py:57 | `str` of a non-negative integer is a non-empty run of digits. Its first digit is `0` only for zero. |
| `Strings.IntToString` | lib/open_library_api.py:57 | `str` of an integer starts with `-` if and only if the integer is negative. After any sign comes a non-empty run of digits, and that run starts with `0` only for zero, so there is no leading zero. `IntToStringRoundTrip` fixes the value the digits stand for. |
| `OpenLibraryApi.YearTextInjective` | lib/open_library_api.py:57 | Different years, or a year and its absence, never give the same year text. So the stored `year` determines `first_publish_year`. |
| `OpenLibraryApi.Render` | lib/open_library_api.py:52-64 | The loop succeeds if and only if every document's author list is usable. If it does, there is one row and one line per document, in document order. Row `k` holds the values read from document `k`, and line `k` is `"{first+k}. {title} ({year}) by {author}"` built from row `k`. If it fails, the error is `IndexError`'s message. |
| `OpenLibraryApi.FormatLine` | lib/open_library_api.py:60 | Definition of the f-string `"{index}. {title} ({year}) by {author}"`, with no contract of its own. `LineNumberOfFormatLine` states what it preserves. |
| `OpenLibraryApi.NumberedLines` | lib/open_library_api.py:52-60 | The 1-based numbering of lines 52 and 60 gives one line per record, with line `k` formatted from record `k`. Every line reads back as numbered `k+1`. `Render` and `SuccessfulListing` connect it to the loop over the documents. |
| `OpenLibraryApi.Display` | lib/open_library_api.py:69 | Definition of `"\n".join(results_list)` over the numbered lines, with no contract of its own. `SuccessfulListing` states what it preserves. |
| `Strings.Join` | lib/open_library_api.py:69 | Definition of `sep.join(parts)`, also used for the field list at line 34, with no contract of its own. `SplitJoin` is its inverse. |
| `OpenLibraryApi.LineNumberOfFormatLine` | lib/open_library_api.py:52-60 | The number a display line starts with reads back as the index it was formatted with. |
| `OpenLibraryApi.DocsOf` | lib/open_library_api.py:43-45 | Definition of the documents the loop sees: the `docs` list of a decoded status-200 body, and `[]` when it is missing or falsy. No contract of its own. |
| `OpenLibraryApi.Succeeds` | lib/open_library_api.py:43-67 | Definition of the condition under which `commit` is reached: status 200, a decoded body, at least one document, and no empty author list. No contract of its own. |
| `OpenLibraryApi.StatusMessage` | lib/open_library_api.py:72-73 | Definition of `f"Error: Received status code {code} from server."`, with the code written by `str`. No contract of its own. |
| `OpenLibraryApi.HandleResponse` | lib/open_library_api.py:43-76 | The old history is always a prefix of the new one, and it changes only when the search succeeds. A successful search appends exactly one row per document, equal to the values read from it. Its text is the numbered listing of those rows. Otherwise the text is one of three: `An error occurred: ` plus the exception's text, for transport, decoding or `IndexError` failures; the status error with the code; or `No books found for that search term.` for an empty or missing `docs`. |
| `OpenLibraryApi.GetUserSearchResults` | lib/open_library_api.py:28-40 | A search never removes or changes stored rows. It adds rows only when the answer to its own query URL succeeds. |
| `OpenLibraryApi.SuccessfulListing` | lib/open_library_api.py:52-69 | When a search succeeds and no field holds a newline, splitting the text at newlines gives N lines for N documents. Line `k` shows the `k`-th new row and is numbered `k+1`. |
| `Strings.SplitJoin` | lib/open_library_api.py:69 | `"\n".join` can be undone by splitting at `\n` when no part contains a newline. |
| `OpenLibraryApi.CommitVisibleInText` | lib/open_library_api.py:63-76 | Rows were committed if and only if the returned text starts with `1. `. |
| `OpenLibraryApi.UncommittedTextHead` | lib/open_library_api.py:70-76 | Every text returned without a commit starts with `A`, `E` or `N`. |
| `OpenLibraryApi.HandleResponseAppends` | lib/open_library_api.py:63-67 | The new history is the old one plus a batch that depends only on the response. |
| `OpenLibraryApi.RepeatedSearchDoublesRows` | lib/open_library_api.py:63-67 | The same search answered the same way twice stores each of its rows twice. There is no deduplication. |
| `OpenLibraryApi.AtMostLimitRows` | lib/open_library_api.py:35-37 | If the catalog honours `limit=5`, one search stores at most five rows. |

## Left out

- The HTTP request (`requests.get`) and JSON decoding are foreign I/O. The network is the parameter `fetch`, and its answer is the abstract `Response`.
  - An object without `docs`, or with a falsy `docs` (`null`, `{}`, `""`, `0`), is `Json(None)`. An empty list is `Json(Some([]))`. Both give "No books found for that search term." (lines 45, 47 and 70-71).
  - A body that is not a JSON object, or a truthy `docs` that is not a list, raises before any output and is `Malformed`.
- JSON values of unexpected types inside a document are not modelled. Examples are a `null` title, a non-string author, a non-integer year, or a list entry that is not an object. The model's document fields are strings, string lists and integers.
- Exception texts come from the libraries, so they are not modelled. `Raised` and `Malformed` carry a description string, and the result is `"An error occurred: "` followed by it. The one exception the method raises itself, `IndexError` from `authors[0]`, uses CPython's text `list index out of range`.
- The Flask app, the SQLAlchemy engine and session, and `db.create_all()` are library plumbing. The table is a sequence of records.
- The auto-assigned `id` column is not modelled. No operation of the method reads or depends on it.
- A failed commit is not modelled. Appending to the sequence cannot fail.
- Rows added to the session but not committed before an exception are not modelled. The model's history holds committed rows only.
- The interactive menu and the undefined `view_history()` are left out. The menu is console I/O, and `view_history()` is an unresolved name with no behaviour to model.
- The client does not cap the number of documents at five; only the server applies `limit=5`. The model likewise accepts any number of documents, and `AtMostLimitRows` takes the server's compliance as its precondition.
- Line 37 puts characters other than spaces (`&`, `#`, non-ASCII) into the URL string unescaped. `QueryParameters` states the shape of that string's query only for terms without `&`.
- What the HTTP layer sends for that URL is not modelled. `requests` percent-encodes non-ASCII characters, and it sends nothing after a `#`. So for a term containing `#`, neither `fields=` nor `limit=5` reaches the server. `QueryUrl`, `QueryParameters` and `PlusForSpaceSameUrl` speak of the URL string only. `AtMostLimitRows` assumes as its precondition that the server's answer has at most five documents.
