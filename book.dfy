/** One search result, as the list screen shows it. */
module Book {
  import opened Wrappers
  import opened JavaInt

  /**
   * A book record. The constructor takes its arguments in the order the Java
   * constructor does: thumbnail first, preview link second. Every string field
   * may be `None` (Java `null`); the page count is a Java `int`. Being a value,
   * a record never changes once built, and each field reads back exactly the
   * constructor argument given for it.
   */
  datatype BookItem = BookItem(
    smallThumbnailUrl: Option<string>,
    previewUrl: Option<string>,
    title: Option<string>,
    author: Option<string>,
    pageCount: int32,
    language: Option<string>,
    description: Option<string>)
  {
    /**
     * `getmPageCount`: the page count as canonical decimal text (a `-` exactly
     * for a negative count, no leading zero), which reads back as the count.
     */
    function PageCountText(): (s: string)
      ensures s != [] && (forall i :: 0 < i < |s| ==> IsDigit(s[i])) && (s[0] == '-' || IsDigit(s[0]))
      ensures ParseDecimal(s) == pageCount
      ensures s[0] == '-' <==> pageCount < 0
      ensures s[0] == '-' ==> |s| > 1 && s[1] != '0'
      ensures s[0] != '-' && |s| > 1 ==> s[0] != '0'
    {
      ValueOfRoundTrip(pageCount);
      ValueOf(pageCount)
    }
  }

  /** Each getter hands back the argument given in its constructor position, `None` included. */
  lemma GettersReturnConstructorArguments(
    thumbnail: Option<string>, preview: Option<string>, title: Option<string>, author: Option<string>,
    pages: int32, language: Option<string>, description: Option<string>)
    ensures var b := BookItem(thumbnail, preview, title, author, pages, language, description);
      b.smallThumbnailUrl == thumbnail && b.previewUrl == preview && b.title == title
      && b.author == author && b.language == language && b.description == description
      && ParseDecimal(b.PageCountText()) == pages
  {
  }
}
