/**
 * Turning a Google Books volumes response into book records: the envelope
 * `{"items": [{"volumeInfo": {...}}, ...]}` is walked item by item, and the
 * first item that makes an org.json accessor throw ends the walk.
 */
module Extraction {
  import opened Wrappers
  import opened JavaInt
  import opened JavaString
  import opened Json
  import opened Book

  const KeyItems: string := "items"
  const KeyVolumeInfo: string := "volumeInfo"
  const KeyTitle: string := "title"
  const KeyAuthors: string := "authors"
  const KeyDescription: string := "description"
  const KeyPageCount: string := "pageCount"
  const KeyImageLinks: string := "imageLinks"
  const KeySmallThumbnail: string := "smallThumbnail"
  const KeyLanguage: string := "language"
  const KeyPreviewLink: string := "previewLink"

  /** The fixed start of the message stored when parsing throws. */
  const ErrorMessagePrefix: string := "Problem parsing the BookItem JSON results. JSONExcelption: "

  /** The class name `Throwable.toString()` puts in front of a `JSONException`'s message. */
  const ExceptionClassPrefix: string := "org.json.JSONException: "

  /**
   * The text the extractor stores in `errorMessage` for exception `e`: the
   * fixed prefix, then the exception as Java's string `+` renders it, its class
   * name first.
   */
  function ErrorMessage(e: JsonError): (m: string)
    ensures |m| > |ErrorMessagePrefix| && m[..|ErrorMessagePrefix|] == ErrorMessagePrefix
    ensures |m| >= |ErrorMessagePrefix + ExceptionClassPrefix|
      && m[..|ErrorMessagePrefix + ExceptionClassPrefix|] == ErrorMessagePrefix + ExceptionClassPrefix
  {
    ErrorMessagePrefix + ExceptionText(e)
  }

  /** An optional string member: absent gives `None`, present must be a string. */
  function OptionalString(info: map<string, Json>, key: string): (r: Result<Option<string>, JsonError>)
    ensures r.Success? <==> StringOrAbsent(info, key)
    ensures r.Success? ==> r.value == StringOrNull(info, key)
    ensures r.Failure? ==> r.error == TypeMismatch(Key(key), StringKind)
  {
    if key in info then
      var s :- GetString(info, key);
      Success(Some(s))
    else Success(None)
  }

  /** Only the first entry of `authors` is read; an empty array throws. */
  function FirstAuthor(info: map<string, Json>): (r: Result<Option<string>, JsonError>)
    ensures r.Success? <==>
      (KeyAuthors in info ==>
         info[KeyAuthors].JArray? && |info[KeyAuthors].elements| > 0 && info[KeyAuthors].elements[0].JString?)
    ensures r.Success? ==>
      r.value == if KeyAuthors in info then Some(info[KeyAuthors].elements[0].text) else None
    ensures KeyAuthors in info && info[KeyAuthors] == JArray([]) ==> r == Failure(OutOfRange(0, 0))
  {
    if KeyAuthors in info then
      var authors :- GetArray(info, KeyAuthors);
      var author :- ElementString(authors, 0);
      Success(Some(author))
    else Success(None)
  }

  /** An absent `pageCount` reads as 0. */
  function PageCount(info: map<string, Json>): (r: Result<int32, JsonError>)
    ensures r.Success? <==> (KeyPageCount in info ==> info[KeyPageCount].JInt?)
    ensures r.Success? ==> r.value == if KeyPageCount in info then info[KeyPageCount].number else 0
  {
    if KeyPageCount in info then GetInt(info, KeyPageCount) else Success(0)
  }

  /** `imageLinks` must then be an object holding a string `smallThumbnail`. */
  function SmallThumbnail(info: map<string, Json>): (r: Result<Option<string>, JsonError>)
    ensures r.Success? <==>
      (KeyImageLinks in info ==>
         info[KeyImageLinks].JObject? && KeySmallThumbnail in info[KeyImageLinks].members
         && info[KeyImageLinks].members[KeySmallThumbnail].JString?)
    ensures r.Success? ==>
      r.value == if KeyImageLinks in info then Some(info[KeyImageLinks].members[KeySmallThumbnail].text) else None
    ensures KeyImageLinks in info && info[KeyImageLinks].JObject? && KeySmallThumbnail !in info[KeyImageLinks].members
      ==> r == Failure(NoValue(KeySmallThumbnail))
  {
    if KeyImageLinks in info then
      var imageLinks :- GetObject(info, KeyImageLinks);
      var thumbnail :- GetString(imageLinks, KeySmallThumbnail);
      Success(Some(thumbnail))
    else Success(None)
  }

  /**
   * The record built from element `index` of `items`, or the exception its
   * reading throws. Reading succeeds exactly when the item is well formed; an
   * element that is not an object, or an object without `volumeInfo`, throws.
   */
  function ReadBook(item: Json, index: nat): (r: Result<BookItem, JsonError>)
    ensures r.Success? <==> WellFormedItem(item)
    ensures !item.JObject? ==> r == Failure(TypeMismatch(Index(index), ObjectKind))
    ensures item.JObject? && KeyVolumeInfo !in item.members ==> r == Failure(NoValue(KeyVolumeInfo))
  {
    var currentBook :- AsObject(item, Index(index));
    var volumeInfo :- GetObject(currentBook, KeyVolumeInfo);
    var title :- OptionalString(volumeInfo, KeyTitle);
    var author :- FirstAuthor(volumeInfo);
    var description :- OptionalString(volumeInfo, KeyDescription);
    var pageCount :- PageCount(volumeInfo);
    var smallThumbnail :- SmallThumbnail(volumeInfo);
    var language :- OptionalString(volumeInfo, KeyLanguage);
    var previewLink :- OptionalString(volumeInfo, KeyPreviewLink);
    Success(BookItem(smallThumbnail, previewLink, title, author, pageCount, language, description))
  }

  /** A member that is absent or a string. */
  predicate StringOrAbsent(info: map<string, Json>, key: string) {
    key in info ==> info[key].JString?
  }

  /** The value an optional string member stands for. */
  function StringOrNull(info: map<string, Json>, key: string): Option<string>
    requires StringOrAbsent(info, key)
  {
    if key in info then Some(info[key].text) else None
  }

  /** A `volumeInfo` object whose every expected member is absent or of the type read. */
  predicate WellFormedVolume(info: map<string, Json>) {
    && StringOrAbsent(info, KeyTitle)
    && (KeyAuthors in info ==>
          info[KeyAuthors].JArray? && |info[KeyAuthors].elements| > 0
          && info[KeyAuthors].elements[0].JString?)
    && StringOrAbsent(info, KeyDescription)
    && (KeyPageCount in info ==> info[KeyPageCount].JInt?)
    && (KeyImageLinks in info ==>
          info[KeyImageLinks].JObject? && KeySmallThumbnail in info[KeyImageLinks].members
          && info[KeyImageLinks].members[KeySmallThumbnail].JString?)
    && StringOrAbsent(info, KeyLanguage)
    && StringOrAbsent(info, KeyPreviewLink)
  }

  /** An `items` element holding a well-formed `volumeInfo` object. */
  predicate WellFormedItem(item: Json) {
    item.JObject? && KeyVolumeInfo in item.members && item.members[KeyVolumeInfo].JObject?
    && WellFormedVolume(item.members[KeyVolumeInfo].members)
  }

  /**
   * In a well-formed item every present member lands in its own slot, an
   * absent string member gives `None`, an absent page count gives 0, and the
   * author is the first entry of `authors`, later ones being dropped.
   */
  lemma ReadBookSlots(item: Json, index: nat)
    requires WellFormedItem(item)
    ensures ReadBook(item, index).Success?
    ensures var info := item.members[KeyVolumeInfo].members;
      var b := ReadBook(item, index).value;
      && b.title == StringOrNull(info, KeyTitle)
      && b.author == (if KeyAuthors in info then Some(info[KeyAuthors].elements[0].text) else None)
      && b.description == StringOrNull(info, KeyDescription)
      && b.pageCount == (if KeyPageCount in info then info[KeyPageCount].number else 0)
      && b.smallThumbnailUrl ==
           (if KeyImageLinks in info then Some(info[KeyImageLinks].members[KeySmallThumbnail].text) else None)
      && b.language == StringOrNull(info, KeyLanguage)
      && b.previewUrl == StringOrNull(info, KeyPreviewLink)
  {
    var info := item.members[KeyVolumeInfo].members;
    assert OptionalString(info, KeyTitle) == Success(StringOrNull(info, KeyTitle));
    assert OptionalString(info, KeyDescription) == Success(StringOrNull(info, KeyDescription));
    assert OptionalString(info, KeyLanguage) == Success(StringOrNull(info, KeyLanguage));
    assert OptionalString(info, KeyPreviewLink) == Success(StringOrNull(info, KeyPreviewLink));
  }

  /** The records read so far and, once an item has thrown, its exception. */
  datatype Walk = Walk(books: seq<BookItem>, failure: Option<JsonError>)

  /**
   * The loop over `items`: each element in turn is read and appended, and the
   * first exception ends the loop, keeping what was appended before it.
   */
  function WalkItems(items: seq<Json>): (w: Walk)
    ensures |w.books| <= |items|
    ensures w.failure.None? <==> |w.books| == |items|
    decreases |items|
  {
    if items == [] then Walk([], None)
    else
      var before := WalkItems(items[..|items| - 1]);
      if before.failure.Some? then before
      else match ReadBook(items[|items| - 1], |items| - 1)
        case Success(b) => Walk(before.books + [b], None)
        case Failure(e) => Walk(before.books, Some(e))
  }

  /** Once an item has thrown, later items change nothing. */
  lemma {:induction false} WalkStopsAtFailure(items: seq<Json>, k: nat)
    requires k <= |items| && WalkItems(items[..k]).failure.Some?
    ensures WalkItems(items) == WalkItems(items[..k])
    decreases |items| - k
  {
    if k < |items| {
      var longer := items[..k + 1];
      assert longer[..k] == items[..k];
      WalkStopsAtFailure(items, k + 1);
    } else {
      assert items[..k] == items;
    }
  }

  /**
   * The walk keeps a prefix of the readable items: every record kept is the
   * reading of the item at its position, the walk is complete exactly when no
   * exception was thrown, and otherwise the item right after the kept prefix is
   * the one that threw.
   */
  lemma {:induction false} WalkIsReadablePrefix(items: seq<Json>)
    ensures var w := WalkItems(items);
      && |w.books| <= |items|
      && (forall j :: 0 <= j < |w.books| ==> ReadBook(items[j], j) == Success(w.books[j]))
      && (w.failure.None? <==> |w.books| == |items|)
      && (w.failure.Some? ==> ReadBook(items[|w.books|], |w.books|) == Failure(w.failure.value))
    decreases |items|
  {
    if items != [] {
      var init := items[..|items| - 1];
      WalkIsReadablePrefix(init);
      forall j | 0 <= j < |init| ensures init[j] == items[j] { }
    }
  }

  /** If item `k` is the first to throw, exactly the records of items `0..k-1` are kept. */
  lemma FirstFailureKeepsPrefix(items: seq<Json>, k: nat)
    requires k < |items| && ReadBook(items[k], k).Failure?
    requires forall j :: 0 <= j < k ==> ReadBook(items[j], j).Success?
    ensures var w := WalkItems(items);
      |w.books| == k && w.failure == Some(ReadBook(items[k], k).error)
      && forall j :: 0 <= j < k ==> w.books[j] == ReadBook(items[j], j).value
  {
    WalkIsReadablePrefix(items);
  }

  /** If every item is well formed, there is one record per item, in order. */
  lemma AllWellFormedKeepsAll(items: seq<Json>)
    requires forall j :: 0 <= j < |items| ==> WellFormedItem(items[j])
    ensures var w := WalkItems(items);
      w.failure.None? && |w.books| == |items|
      && forall j :: 0 <= j < |items| ==> Success(w.books[j]) == ReadBook(items[j], j)
  {
    WalkIsReadablePrefix(items);
  }

  /** `new JSONObject(text).getJSONArray("items")`, with the text parser given as `parse`. */
  function Envelope(text: string, parse: string -> Result<Json, string>): (r: Result<seq<Json>, JsonError>)
    ensures r.Success? <==>
      && parse(text).Success? && parse(text).value.JObject?
      && KeyItems in parse(text).value.members && parse(text).value.members[KeyItems].JArray?
    ensures r.Success? ==> r.value == parse(text).value.members[KeyItems].elements
    ensures parse(text).Failure? ==> r == Failure(Syntax(parse(text).error))
  {
    var base :- match parse(text)
      case Success(v) => Success(v)
      case Failure(message) => Failure(Syntax(message));
    var baseObject :- AsObject(base, Root);
    GetArray(baseObject, KeyItems)
  }

  /** What `extractBookData` returns, and the exception it caught, if any. */
  datatype Extraction = Extraction(books: Option<seq<BookItem>>, failure: Option<JsonError>)

  /**
   * The meaning of `extractBookData`: `None` (Java `null`) for null or empty
   * text; an empty list and the exception when the envelope cannot be read;
   * otherwise the records of the walk over `items`.
   */
  function Extract(text: Option<string>, parse: string -> Result<Json, string>): (r: Extraction)
    ensures r.books.None? <==> IsEmpty(text)
    ensures r.books.None? ==> r.failure.None?
    ensures !IsEmpty(text) && Envelope(text.value, parse).Failure? ==>
      r.books == Some([]) && r.failure == Some(Envelope(text.value, parse).error)
  {
    if IsEmpty(text) then Extraction(None, None)
    else match Envelope(text.value, parse)
      case Failure(e) => Extraction(Some([]), Some(e))
      case Success(items) =>
        var w := WalkItems(items);
        Extraction(Some(w.books), w.failure)
  }

  /**
   * Whatever the input, a returned list is a prefix of the readings of `items`:
   * never longer than `items`, each record the reading of the item at its
   * position, and the list is complete exactly when nothing was caught.
   */
  lemma ExtractIsPrefix(text: Option<string>, parse: string -> Result<Json, string>)
    requires !IsEmpty(text) && Envelope(text.value, parse).Success?
    ensures var items := Envelope(text.value, parse).value;
      var r := Extract(text, parse);
      && r.books.Some?
      && |r.books.value| <= |items|
      && (forall j :: 0 <= j < |r.books.value| ==> ReadBook(items[j], j) == Success(r.books.value[j]))
      && (r.failure.None? <==> |r.books.value| == |items|)
  {
    WalkIsReadablePrefix(Envelope(text.value, parse).value);
  }

  /** The holder of the extractor's process-wide state. */
  class QueryUtils {
    /** The last parse problem, or `None` (Java `null`) while there has been none. */
    var errorMessage: Option<string>

    constructor ()
      ensures errorMessage == None
    {
      errorMessage := None;
    }

    /**
     * `extractBookData`: returns `Extract(...).books`; `errorMessage` is set
     * exactly when an exception was caught, and left as it was otherwise.
     */
    method ExtractBookData(bookDataJson: Option<string>, parse: string -> Result<Json, string>)
      returns (bookItems: Option<seq<BookItem>>)
      modifies this
      ensures bookItems == Extract(bookDataJson, parse).books
      ensures Extract(bookDataJson, parse).failure.Some? ==>
        errorMessage == Some(ErrorMessage(Extract(bookDataJson, parse).failure.value))
      ensures Extract(bookDataJson, parse).failure.None? ==> errorMessage == old(errorMessage)
    {
      if IsEmpty(bookDataJson) {
        return None;
      }
      var books: seq<BookItem> := [];
      var envelope := Envelope(bookDataJson.value, parse);
      if envelope.Failure? {
        errorMessage := Some(ErrorMessage(envelope.error));
        return Some(books);
      }
      var bookArray := envelope.value;
      var i := 0;
      while i < |bookArray|
        invariant 0 <= i <= |bookArray|
        invariant WalkItems(bookArray[..i]) == Walk(books, None)
        invariant errorMessage == old(errorMessage)
      {
        assert bookArray[..i + 1][..i] == bookArray[..i];
        var bookItem := ReadBook(bookArray[i], i);
        if bookItem.Failure? {
          errorMessage := Some(ErrorMessage(bookItem.error));
          WalkStopsAtFailure(bookArray, i + 1);
          return Some(books);
        }
        books := books + [bookItem.value];
        i := i + 1;
      }
      assert bookArray[..i] == bookArray;
      return Some(books);
    }
  }
}
