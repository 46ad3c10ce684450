# BookListing search core, modelled in Dafny

BookListing is an Android app that searches the Google Books volumes API. This
project models the two pieces of sequential logic at its heart, together with the
record they produce:

- **Query construction** (`returnFinalQuery`). The title and author inputs are
  each split on whitespace runs with Java `String.split("\\s+")` semantics, and
  the words are glued with `+`. The result becomes an `intitle:` clause and an
  `inauthor:`/`&inauthor:` clause. The base path
  `https://www.googleapis.com/books/v1/volumes?q=` is followed by the clauses and
  `&maxResults=` with the count as given. The query is also stored in the
  activity's `finalQuery` field.
- **Response extraction** (`extractBookData`). The parsed envelope's `items`
  array is walked item by item, and a `BookItem` is built from each item's
  `volumeInfo`. The first org.json exception ends the walk: the records built so
  far are returned, and the static `errorMessage` is set. Null or empty text gives
  `null`.
- **The record** (`BookItem`). An immutable seven-field value. `getmPageCount`
  renders the page count in decimal.

Files:

| file | module | contents |
|---|---|---|
| `wrappers.dfy` | `Wrappers` | `Option` (a Java reference that may be `null`) and `Result` (a value, or the exception thrown) |
| `java_int.dfy` | `JavaInt` | Java `int`, `String.valueOf(int)` and the decimal reading that inverts it |
| `java_string.dfy` | `JavaString` | the regex class `\s`, `String.split("\\s+")` and `TextUtils.isEmpty` |
| `json.dfy` | `Json` | parsed JSON values, and the org.json accessors as total functions that return a value or a `JsonError` |
| `book.dfy` | `Book` | the `BookItem` record |
| `query_utils.dfy` | `Extraction` | reading one item, the walk over `items`, its specification `Extract`, and the class `QueryUtils` holding `errorMessage` with the loop method `ExtractBookData` |
| `search.dfy` | `Search` | the word-joining loop, the reference reading `Squeeze` of a clause body, the clauses, `FinalQuery`, and the class `BookListActivity` holding `finalQuery` with the method `ReturnFinalQuery` |

Each imperative method is proved against a specification function.
`ExtractBookData` returns `Extract(...).books`. `ReturnFinalQuery` returns
`FinalQuery(...)`. `JoinWords` returns `Joined(words)`. The lemmas then state what
those functions mean.

A Java `null` string is `None`. Thrown `JSONException`s are `Failure` values
propagated with `:-`. The org.json text parser is a parameter
`parse: string -> Result<Json, string>`.

## Model

| member | source | states |
|---|---|---|
| Book.BookItem.PageCountText | app/src/main/java/com/example/android/booklisting/BookItem.java:68-70 | the text is the canonical decimal numeral of the stored page count: a `-` exactly when the count is negative, then digits with no leading zero (a lone `0` for zero), and it reads back as the count |
| Book.GettersReturnConstructorArguments | app/src/main/java/com/example/android/booklisting/BookItem.java:41-78 | every getter returns the argument given in its constructor position, `null` included; the thumbnail is the first argument and the preview link the second |
| JavaInt.NatToDecimal | app/src/main/java/com/example/android/booklisting/BookItem.java:68-70 | the rendering of a natural number is non-empty, all digits, and without a leading zero unless the number is 0 |
| JavaInt.ValueOf | app/src/main/java/com/example/android/booklisting/BookItem.java:69 | `String.valueOf(int)` starts with `-` exactly for a negative value, and its digit run never starts with a superfluous `0` |
| JavaInt.DigitsValueOfNatToDecimal | app/src/main/java/com/example/android/booklisting/BookItem.java:68-70 | reading the digits of a rendered natural number gives the number back |
| JavaInt.ValueOfRoundTrip | app/src/main/java/com/example/android/booklisting/BookItem.java:68-70 | `String.valueOf(n)` is a well-formed numeral that parses back to `n`, for every Java `int` including the negatives and `Integer.MIN_VALUE` |
| JavaInt.ValueOfInjective | app/src/main/java/com/example/android/booklisting/BookItem.java:68-70 | two different page counts never render to the same text |
| JavaString.SkipWhitespace | app/src/main/java/com/example/android/booklisting/BookListActivity.java:134 | the result is a suffix that starts with a non-whitespace character, or is empty; a leading run is consumed; an all-whitespace input leaves nothing; a last non-whitespace character is kept |
| JavaString.SkipWhitespaceSkipsOnlyWhitespace | app/src/main/java/com/example/android/booklisting/BookListActivity.java:134 | everything `SkipWhitespace` consumes is whitespace |
| JavaString.SkipWhitespacePrefix | app/src/main/java/com/example/android/booklisting/BookListActivity.java:134 | a whitespace run in front of a word is consumed exactly, leaving the word and what follows |
| JavaString.TrimEnd | app/src/main/java/com/example/android/booklisting/BookListActivity.java:134 | the result is a prefix that does not end in whitespace |
| JavaString.TrimEndDropsWhitespace | app/src/main/java/com/example/android/booklisting/BookListActivity.java:134 | everything `TrimEnd` removes is whitespace |
| JavaString.Pieces | app/src/main/java/com/example/android/booklisting/BookListActivity.java:134 | splitting at every maximal whitespace run always gives at least one piece |
| JavaString.PiecesHaveNoWhitespace | app/src/main/java/com/example/android/booklisting/BookListActivity.java:134 | no piece contains whitespace |
| JavaString.PiecesWithoutWhitespace | app/src/main/java/com/example/android/booklisting/BookListActivity.java:134 | text without whitespace is a single piece, itself |
| JavaString.PiecesLastNonEmpty | app/src/main/java/com/example/android/booklisting/BookListActivity.java:134 | text that ends in a non-whitespace character gives a non-empty last piece |
| JavaString.PiecesOfWhitespace | app/src/main/java/com/example/android/booklisting/BookListActivity.java:134 | a whitespace run alone gives two empty pieces |
| JavaString.PiecesTrailingRun | app/src/main/java/com/example/android/booklisting/BookListActivity.java:134 | a trailing whitespace run adds exactly one empty piece |
| JavaString.DropTrailingEmpty | app/src/main/java/com/example/android/booklisting/BookListActivity.java:134 | the result is a prefix, everything dropped is empty, and the result does not end with an empty token |
| JavaString.Split | app/src/main/java/com/example/android/booklisting/BookListActivity.java:134 | no token of `split("\\s+")` holds whitespace |
| JavaString.SplitIsPiecesOfTrimmed | app/src/main/java/com/example/android/booklisting/BookListActivity.java:134 | for input that is not blank, `split` gives the pieces of the input with its trailing whitespace removed, so trailing empty tokens are dropped and a leading empty token is kept |
| JavaString.SplitOfWhitespace | app/src/main/java/com/example/android/booklisting/BookListActivity.java:134 | for blank input, `split` gives `[""]` for the empty string and `[]` for an all-whitespace string |
| JavaString.IsEmpty | app/src/main/java/com/example/android/booklisting/QueryUtils.java:141 | `TextUtils.isEmpty` is false exactly for a non-null string of length at least one |
| Json.Get | app/src/main/java/com/example/android/booklisting/QueryUtils.java:170 | the lookup succeeds exactly when the key is present, gives its value, and otherwise throws "No value for" that key |
| Json.GetString | app/src/main/java/com/example/android/booklisting/QueryUtils.java:173 | succeeds exactly when the member is present and a string, and gives its text |
| Json.GetInt | app/src/main/java/com/example/android/booklisting/QueryUtils.java:194 | succeeds exactly when the member is present and an `int`, and gives it |
| Json.GetArray | app/src/main/java/com/example/android/booklisting/QueryUtils.java:155 | succeeds exactly when the member is present and an array, and gives its elements |
| Json.GetObject | app/src/main/java/com/example/android/booklisting/QueryUtils.java:170 | succeeds exactly when the member is present and an object, and gives its members |
| Json.ElementString | app/src/main/java/com/example/android/booklisting/QueryUtils.java:180 | `getString(i)` succeeds exactly when `i` is in range and names a string, and gives its text |
| Json.AsObject | app/src/main/java/com/example/android/booklisting/QueryUtils.java:154 | succeeds exactly when the value is an object, and gives its members |
| Extraction.ErrorMessage | app/src/main/java/com/example/android/booklisting/QueryUtils.java:228 | the stored message always starts with the fixed `Problem parsing the BookItem JSON results. JSONExcelption: ` prefix, misspelling included, followed by the exception's class name `org.json.JSONException: ` as `Throwable.toString()` writes it |
| Extraction.OptionalString | app/src/main/java/com/example/android/booklisting/QueryUtils.java:172-176 | an optional string member reads successfully exactly when it is absent or a string, gives `null` when absent and its text when present, and otherwise throws a type mismatch for that key |
| Extraction.FirstAuthor | app/src/main/java/com/example/android/booklisting/QueryUtils.java:178-183 | `authors` reads successfully exactly when it is absent, or an array whose element 0 is a string; the author is element 0, or `null` when absent; an empty array throws index 0 out of range |
| Extraction.PageCount | app/src/main/java/com/example/android/booklisting/QueryUtils.java:193-197 | `pageCount` reads successfully exactly when it is absent or an `int`, and gives the number, or 0 when absent |
| Extraction.SmallThumbnail | app/src/main/java/com/example/android/booklisting/QueryUtils.java:200-205 | `imageLinks` reads successfully exactly when it is absent, or an object with a string `smallThumbnail`; the thumbnail is that string, or `null` when absent; an `imageLinks` without `smallThumbnail` throws "No value for smallThumbnail" |
| Extraction.ReadBook | app/src/main/java/com/example/android/booklisting/QueryUtils.java:169-223 | reading an item succeeds exactly when it is well formed: it is an object with a `volumeInfo` object, every optional string member present is a string, `authors` (if present) is an array whose element 0 is a string, `pageCount` (if present) is an `int`, and `imageLinks` (if present) is an object with a string `smallThumbnail`; an element that is not an object, or an object without `volumeInfo`, throws |
| Extraction.ReadBookSlots | app/src/main/java/com/example/android/booklisting/QueryUtils.java:172-223 | in a well-formed item, each present member lands in its own constructor slot; an absent string member gives `null` and an absent `pageCount` gives 0; the author is element 0 of `authors`, later ones dropped; the thumbnail is `imageLinks.smallThumbnail` |
| Extraction.WalkItems | app/src/main/java/com/example/android/booklisting/QueryUtils.java:168-225 | the walk never keeps more records than there are items, and it is complete exactly when no exception was thrown |
| Extraction.WalkStopsAtFailure | app/src/main/java/com/example/android/booklisting/QueryUtils.java:168-229 | once an item has thrown, the later items change nothing |
| Extraction.WalkIsReadablePrefix | app/src/main/java/com/example/android/booklisting/QueryUtils.java:168-229 | the records kept are the readings of a prefix of `items`, in order, never more than the item count; the walk is complete exactly when nothing threw; otherwise the item right after the prefix is the one that threw, with that exception |
| Extraction.FirstFailureKeepsPrefix | app/src/main/java/com/example/android/booklisting/QueryUtils.java:168-229 | if item `k` is the first to throw, the result is exactly the records of items `0..k-1`, and the exception recorded is item `k`'s |
| Extraction.AllWellFormedKeepsAll | app/src/main/java/com/example/android/booklisting/QueryUtils.java:168-225 | if every item is well formed, there is one record per item, in the same order, and nothing is caught |
| Extraction.Envelope | app/src/main/java/com/example/android/booklisting/QueryUtils.java:154-155 | the envelope reads exactly when the text parses to an object that has an `items` array, and then gives that array's elements; a parse failure is reported as the parser's exception |
| Extraction.Extract | app/src/main/java/com/example/android/booklisting/QueryUtils.java:139-233 | the result is `null` exactly for null or empty text, and then nothing is caught; text that does not parse to an object, or has no `items` array, gives an empty non-null list together with that exception |
| Extraction.ExtractIsPrefix | app/src/main/java/com/example/android/booklisting/QueryUtils.java:152-232 | when the envelope reads, the list returned is a prefix of the item readings, no longer than `items`, and is complete exactly when nothing was caught |
| Extraction.QueryUtils.constructor | app/src/main/java/com/example/android/booklisting/QueryUtils.java:38 | `errorMessage` starts out `null` |
| Extraction.QueryUtils.ExtractBookData | app/src/main/java/com/example/android/booklisting/QueryUtils.java:139-233 | the loop returns what `Extract` specifies; `errorMessage` is set to the prefixed exception text exactly when an exception was caught, and is left unchanged otherwise |
| Search.JoinSnoc | app/src/main/java/com/example/android/booklisting/BookListActivity.java:136-142 | appending a word to the joined text is the same as joining the longer word list |
| Search.Joined | app/src/main/java/com/example/android/booklisting/BookListActivity.java:135-142 | the joined text is `null` exactly when there are no words, and otherwise starts with the first word |
| Search.JoinWords | app/src/main/java/com/example/android/booklisting/BookListActivity.java:135-142 | the loop that glues the words with `+`, starting from `null`, yields `null` for no words and otherwise the words joined by `+` |
| Search.SqueezeHasNoWhitespace | app/src/main/java/com/example/android/booklisting/BookListActivity.java:134-142 | the reference reading of a body holds no whitespace, and is empty only for empty text |
| Search.JoinPiecesIsSqueeze | app/src/main/java/com/example/android/booklisting/BookListActivity.java:134-142 | joining the pieces of a text with `+` is the same as replacing every whitespace run by one `+` |
| Search.WordsJoinToSqueeze | app/src/main/java/com/example/android/booklisting/BookListActivity.java:134-142 | the joined words are null or empty exactly when the input is blank; otherwise they are the input, trailing whitespace removed, with each whitespace run (a leading one included) replaced by one `+` |
| Search.Body | app/src/main/java/com/example/android/booklisting/BookListActivity.java:134-150 | the clause body is the input, trailing whitespace removed, with each remaining whitespace run replaced by one `+` |
| Search.TrimEndBlank | app/src/main/java/com/example/android/booklisting/BookListActivity.java:146-147 | removing trailing whitespace leaves nothing exactly when the input is all whitespace |
| Search.BodyShape | app/src/main/java/com/example/android/booklisting/BookListActivity.java:134-150 | a body is empty exactly when the input is empty or all whitespace, and never contains whitespace |
| Search.TitleClause | app/src/main/java/com/example/android/booklisting/BookListActivity.java:146-150 | the title clause is empty exactly when the title is empty or all whitespace, and otherwise starts with `intitle:` |
| Search.AuthorClause | app/src/main/java/com/example/android/booklisting/BookListActivity.java:163-169 | the author clause is empty exactly when the author is empty or all whitespace, and otherwise starts with `&` exactly when a title clause precedes it |
| Search.ClauseShapes | app/src/main/java/com/example/android/booklisting/BookListActivity.java:146-169 | a blank title gives an empty title clause, with no `intitle:`, and otherwise `intitle:` and the body; the author clause is empty for a blank author, `inauthor:`+body when the title is blank, and `&inauthor:`+body otherwise |
| Search.FinalQuery | app/src/main/java/com/example/android/booklisting/BookListActivity.java:172 | the query starts with the base path `https://www.googleapis.com/books/v1/volumes?q=` and ends with `&maxResults=` and the count as given, a null count reading `null` |
| Search.FinalQueryJoinsClauses | app/src/main/java/com/example/android/booklisting/BookListActivity.java:146-174 | the query is the base path, the non-empty clauses joined by exactly one `&`, then `&maxResults=` and the count verbatim (`null` for a null count); a single clause never gets a leading `&` |
| Search.BlankInputsGiveBareQuery | app/src/main/java/com/example/android/booklisting/BookListActivity.java:146-172 | two blank inputs give exactly the base path followed by `&maxResults=` and the count (`null` for a null count) |
| Search.TrailingWhitespaceIgnored | app/src/main/java/com/example/android/booklisting/BookListActivity.java:134-150 | trailing whitespace changes neither the body nor the title clause |
| Search.LeadingWhitespaceGivesPlus | app/src/main/java/com/example/android/booklisting/BookListActivity.java:134-149 | leading whitespace before a non-blank input gives a leading empty word, so the body starts with `+` and the title clause with `intitle:+` |
| Search.InteriorRunCollapses | app/src/main/java/com/example/android/booklisting/BookListActivity.java:134-142 | a whitespace run between two words becomes a single `+` |
| Search.BookListActivity.constructor | app/src/main/java/com/example/android/booklisting/BookListActivity.java:56 | `finalQuery` starts out `null` |
| Search.BookListActivity.ReturnFinalQuery | app/src/main/java/com/example/android/booklisting/BookListActivity.java:132-175 | the method returns `FinalQuery` of its inputs (base path, title clause, author clause, `&maxResults=` and the count), and afterwards `finalQuery` holds that same string, the URL later handed to the loader |

## Left out

- The HTTP side of `QueryUtils` (`fetchBookData`, `createURL`, `makeHTTPRequest`, `readFromInputStream`) is network I/O and is not part of this model.
- The org.json text parser is a library. It is the parameter `parse`; a parse error is `Syntax` with the parser's message.
- Json.GetString: the accessor is strict. Android's org.json `JSONObject.getString` returns the text of any present value: numbers, booleans, nested objects and arrays, and a JSON `null` (which reads `"null"`). Only an absent key throws. Here a present value that is not a string throws a type mismatch. So `WellFormedItem`, `ReadBook`'s "succeeds exactly when well formed" and the first failing item in `FirstFailureKeepsPrefix` hold for the strict accessors. In the app, a present `title`, `description`, `language`, `previewLink` or `smallThumbnail` that is not a string is read as text and does not stop the walk.
- Json.ElementString: strict in the same way. Android's `JSONArray.getString` returns the text of any present element, so a non-string `authors[0]` is read as text in the app. Only an index out of range (an empty `authors`) throws in both.
- Json.GetInt: the accessor is strict. Android's `getInt` also accepts a double (truncated toward zero) and a numeric string. It also accepts an integer outside the Java `int` range, which wraps around to its low 32 bits (`Long.intValue()`). Here only a number that fits in a Java `int` is read. Every other number is `JOther` and throws a type mismatch; the 32-bit wrap-around is not modelled.
- `JOther` stands for JSON `null`, booleans, and numbers that are not a Java `int`. `has` is `key in members`, which holds for a member whose value is JSON `null`, as Android's `has` does.
- Extraction.ErrorMessage: the fixed prefix and the class name `org.json.JSONException: ` after it are exact. The message after the class name is this model's own rendering of org.json's messages; it is not reproduced character for character.
- The `Log.*` calls are diagnostics with no effect on results, and are left out.
- `BookItemLoader`, `MainActivity`, `BookItemAdapter` and the rest of `BookListActivity` are left out: background loading, lifecycle, connectivity checks, intents and view binding.
- `errorMessage` is a process-wide static field; here it is a field of one `QueryUtils` object. Concurrent access from loader threads is not modelled.
- Nothing is modelled beyond what the code does, even where other behaviour might be expected. A missing `volumeInfo` throws and stops the walk; it does not give an empty record. A failing item keeps the records already built; it does not empty the list. Null or empty text returns `null` and leaves `errorMessage` alone; it does not report a parse error.
- JavaString.IsWhitespace: the class is Java SE's `\s`, the six ASCII characters space, tab, line feed, vertical tab, form feed and carriage return. On Android, `java.util.regex` is backed by ICU, whose `\s` also matches Unicode white space such as U+00A0 (no-break space). Such characters are not treated as separators here, so the model keeps them inside a word where the app would split.
- Search.BookListActivity.ReturnFinalQuery: a null title or author is not modelled; both inputs are non-null strings here. In the app both come from static fields of `MainActivity` that stay `null` until the first search click. On a null input, `returnFinalQuery` throws `NullPointerException` at `titleInput.split` (BookListActivity.java line 134) or `authorInput.split` (line 153).
- `maxResults` is passed through unchecked, as in the code. A null count is modelled (it renders as `null`, as Java's string `+` does); no validation of the count is modelled.
