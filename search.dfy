/**
 * Building the Google Books volumes query from the user's title, author and
 * result-count choices.
 */
module Search {
  import opened Wrappers
  import opened JavaString

  /** The fixed start of every query. */
  const ApiInitialQuery: string := "https://www.googleapis.com/books/v1/volumes?q="

  /** `parts` joined with `sep` between neighbours; `""` for no parts. */
  function Join(parts: seq<string>, sep: string): string {
    if |parts| == 0 then ""
    else if |parts| == 1 then parts[0]
    else parts[0] + sep + Join(parts[1..], sep)
  }

  lemma {:induction false} JoinSnoc(parts: seq<string>, sep: string, last: string)
    requires parts != []
    ensures Join(parts + [last], sep) == Join(parts, sep) + sep + last
  {
    if |parts| > 1 {
      assert (parts + [last])[1..] == parts[1..] + [last];
      JoinSnoc(parts[1..], sep, last);
    }
  }

  /** The text the word loop accumulates: `None` (Java `null`) when there are no words. */
  function Joined(words: seq<string>): (r: Option<string>)
    ensures r.None? <==> words == []
    ensures r.Some? ==> words[0] <= r.value
  {
    if words == [] then None else Some(Join(words, "+"))
  }

  /**
   * The loop of `returnFinalQuery` that glues the split words together with
   * `+`, starting from `null`.
   */
  method JoinWords(words: seq<string>) returns (joined: Option<string>)
    ensures joined == Joined(words)
  {
    joined := None;
    for i := 0 to |words|
      invariant joined == Joined(words[..i])
    {
      if i == 0 {
        joined := Some(words[i]);
      } else {
        JoinSnoc(words[..i], "+", words[i]);
        assert words[..i + 1] == words[..i] + [words[i]];
        joined := Some(joined.value + "+" + words[i]);
      }
    }
    assert words[..|words|] == words;
  }

  /**
   * Reference reading of a clause body: every maximal whitespace run becomes a
   * single `+`, everything else is kept.
   */
  function Squeeze(s: string): string
    decreases |s|
  {
    if s == [] then []
    else if IsWhitespace(s[0]) then "+" + Squeeze(SkipWhitespace(s))
    else [s[0]] + Squeeze(s[1..])
  }

  lemma {:induction false} SqueezeHasNoWhitespace(s: string)
    ensures !HasWhitespace(Squeeze(s))
    ensures Squeeze(s) == [] <==> s == []
    decreases |s|
  {
    if s != [] {
      var rest := if IsWhitespace(s[0]) then SkipWhitespace(s) else s[1..];
      var head := if IsWhitespace(s[0]) then "+" else [s[0]];
      SqueezeHasNoWhitespace(rest);
      assert Squeeze(s) == head + Squeeze(rest);
      NoWhitespaceConcat(head, Squeeze(rest));
    }
  }

  lemma {:induction false} JoinPiecesIsSqueeze(s: string)
    ensures Join(Pieces(s), "+") == Squeeze(s)
    decreases |s|
  {
    if s != [] {
      if IsWhitespace(s[0]) {
        var r := SkipWhitespace(s);
        JoinPiecesIsSqueeze(r);
        assert Pieces(s) == [""] + Pieces(r);
        JoinAfterEmpty(Pieces(r));
      } else {
        var p := Pieces(s[1..]);
        JoinPiecesIsSqueeze(s[1..]);
        assert Pieces(s) == [[s[0]] + p[0]] + p[1..];
        JoinWithLongerHead(s[0], p);
      }
    }
  }

  lemma JoinAfterEmpty(ps: seq<string>)
    requires |ps| >= 1
    ensures Join([""] + ps, "+") == "+" + Join(ps, "+")
  {
    assert ([""] + ps)[1..] == ps;
  }

  lemma JoinWithLongerHead(c: char, ps: seq<string>)
    requires |ps| >= 1
    ensures Join([[c] + ps[0]] + ps[1..], "+") == [c] + Join(ps, "+")
  {
    var qs := [[c] + ps[0]] + ps[1..];
    if |ps| > 1 {
      var j := Join(ps[1..], "+");
      assert qs[1..] == ps[1..];
      assert Join(qs, "+") == ([c] + ps[0]) + "+" + j;
      assert Join(ps, "+") == ps[0] + "+" + j;
      CharBeforeJoin(c, ps[0], j);
    }
  }

  lemma CharBeforeJoin(c: char, head: string, rest: string)
    ensures ([c] + head) + "+" + rest == [c] + (head + "+" + rest)
  {
  }

  /**
   * What the words of an input join to: trailing whitespace is dropped and each
   * remaining whitespace run, a leading one included, becomes one `+`.
   */
  lemma WordsJoinToSqueeze(input: string)
    ensures IsEmpty(Joined(Split(input))) <==> TrimEnd(input) == []
    ensures !IsEmpty(Joined(Split(input))) ==> Joined(Split(input)).value == Squeeze(TrimEnd(input))
  {
    if TrimEnd(input) == [] {
      SplitOfWhitespace(input);
    } else {
      SplitIsPiecesOfTrimmed(input);
      JoinPiecesIsSqueeze(TrimEnd(input));
      SqueezeHasNoWhitespace(TrimEnd(input));
    }
  }

  /**
   * The clause body `returnFinalQuery` builds for one input: the split words
   * joined with `+`, or `""` when that text is null or empty. It is the
   * reference reading of the input with its trailing whitespace removed.
   */
  function Body(input: string): (body: string)
    ensures body == Squeeze(TrimEnd(input))
  {
    WordsJoinToSqueeze(input);
    SqueezeHasNoWhitespace(TrimEnd(input));
    var joined := Joined(Split(input));
    if IsEmpty(joined) then "" else joined.value
  }

  lemma {:induction false} TrimEndBlank(s: string)
    ensures TrimEnd(s) == [] <==> AllWhitespace(s)
    decreases |s|
  {
    if s != [] && IsWhitespace(s[|s| - 1]) {
      TrimEndBlank(s[..|s| - 1]);
      if AllWhitespace(s[..|s| - 1]) {
        forall i | 0 <= i < |s| ensures IsWhitespace(s[i]) {
          if i < |s| - 1 { assert s[..|s| - 1][i] == s[i]; }
        }
      } else {
        var i :| 0 <= i < |s| - 1 && !IsWhitespace(s[..|s| - 1][i]);
        assert s[i] == s[..|s| - 1][i];
      }
    }
  }

  /** A body is empty exactly for a blank input, and never holds whitespace. */
  lemma BodyShape(input: string)
    ensures Body(input) == "" <==> AllWhitespace(input)
    ensures !HasWhitespace(Body(input))
  {
    TrimEndBlank(input);
    SqueezeHasNoWhitespace(TrimEnd(input));
  }

  /** The title clause: empty when the body is, otherwise `intitle:` and the body. */
  function TitleClause(titleInput: string): (clause: string)
    ensures clause == "" <==> AllWhitespace(titleInput)
    ensures clause != "" ==> "intitle:" <= clause
  {
    BodyShape(titleInput);
    if Body(titleInput) == "" then "" else "intitle:" + Body(titleInput)
  }

  /**
   * The author clause: empty when its body is; `inauthor:` and the body when
   * there is no title clause; `&inauthor:` and the body after a title clause.
   */
  function AuthorClause(authorInput: string, titleClause: string): (clause: string)
    ensures clause == "" <==> AllWhitespace(authorInput)
    ensures clause != "" ==> (clause[0] == '&' <==> titleClause != "")
  {
    BodyShape(authorInput);
    if Body(authorInput) == "" then ""
    else if titleClause == "" then "inauthor:" + Body(authorInput)
    else "&inauthor:" + Body(authorInput)
  }

  /**
   * A blank title gives no title clause; a blank author gives no author clause;
   * the author clause starts with `&` exactly when a title clause precedes it.
   */
  lemma ClauseShapes(titleInput: string, authorInput: string)
    ensures TitleClause(titleInput) ==
      if AllWhitespace(titleInput) then "" else "intitle:" + Squeeze(TrimEnd(titleInput))
    ensures AuthorClause(authorInput, TitleClause(titleInput)) ==
      if AllWhitespace(authorInput) then ""
      else if AllWhitespace(titleInput) then "inauthor:" + Squeeze(TrimEnd(authorInput))
      else "&inauthor:" + Squeeze(TrimEnd(authorInput))
  {
    BodyShape(titleInput);
    BodyShape(authorInput);
  }

  /** `s` ends with `tail`. */
  predicate EndsWith(s: string, tail: string) {
    |tail| <= |s| && s[|s| - |tail|..] == tail
  }

  /**
   * The URL `returnFinalQuery` builds: it starts with the base path and ends
   * with `&maxResults=` and the count, passed through unchecked (a null count
   * reads `null`, as Java's string `+` renders it).
   */
  function FinalQuery(titleInput: string, authorInput: string, maxResults: Option<string>): (query: string)
    ensures ApiInitialQuery <= query
    ensures EndsWith(query, "&maxResults=" + Rendered(maxResults))
  {
    var titleClause := TitleClause(titleInput);
    var query := ApiInitialQuery + titleClause + AuthorClause(authorInput, titleClause) + "&maxResults=" + Rendered(maxResults);
    Framed(ApiInitialQuery, titleClause, AuthorClause(authorInput, titleClause), "&maxResults=", Rendered(maxResults), query);
    query
  }

  lemma Framed(front: string, x: string, y: string, mid: string, back: string, s: string)
    requires s == front + x + y + mid + back
    ensures front <= s
    ensures EndsWith(s, mid + back)
  {
    assert s == (front + x + y) + (mid + back);
    assert s[..|front|] == front;
  }

  /** The clauses a query should carry: each non-empty body with its prefix, in order. */
  function Clauses(titleBody: string, authorBody: string): seq<string> {
    (if titleBody == "" then [] else ["intitle:" + titleBody])
    + (if authorBody == "" then [] else ["inauthor:" + authorBody])
  }

  /**
   * The query is the base path, the non-empty clauses joined by exactly one
   * `&`, and `&maxResults=` with the count as given: a lone clause never gets a
   * leading `&`, and blank inputs contribute nothing.
   */
  lemma FinalQueryJoinsClauses(titleInput: string, authorInput: string, maxResults: Option<string>)
    ensures FinalQuery(titleInput, authorInput, maxResults)
      == ApiInitialQuery + Join(Clauses(Body(titleInput), Body(authorInput)), "&")
         + "&maxResults=" + Rendered(maxResults)
  {
    var tc := TitleClause(titleInput);
    ClausesJoin(titleInput, authorInput);
    ConcatMiddle(ApiInitialQuery, tc, AuthorClause(authorInput, tc),
      Join(Clauses(Body(titleInput), Body(authorInput)), "&"), "&maxResults=", Rendered(maxResults));
  }

  lemma ConcatMiddle(front: string, x: string, y: string, joined: string, mid: string, back: string)
    requires x + y == joined
    ensures front + x + y + mid + back == front + joined + mid + back
  {
    assert front + x + y == front + (x + y);
  }

  lemma ClausesJoin(titleInput: string, authorInput: string)
    ensures var tc := TitleClause(titleInput);
      tc + AuthorClause(authorInput, tc) == Join(Clauses(Body(titleInput), Body(authorInput)), "&")
  {
    var t := Body(titleInput);
    var a := Body(authorInput);
    var tc := TitleClause(titleInput);
    assert tc == "" <==> t == "";
    ClauseTextsJoin(t, a);
  }

  lemma ClauseTextsJoin(t: string, a: string)
    ensures (if t == "" then "" else "intitle:" + t)
      + (if a == "" then "" else if t == "" then "inauthor:" + a else "&inauthor:" + a)
      == Join(Clauses(t, a), "&")
  {
    if t != "" && a != "" {
      var clauses := Clauses(t, a);
      assert clauses == ["intitle:" + t, "inauthor:" + a];
      assert clauses[1..] == ["inauthor:" + a];
      assert ("intitle:" + t) + ("&" + "inauthor:" + a) == ("intitle:" + t) + "&" + ("inauthor:" + a);
    } else if t == "" && a == "" {
      assert Clauses(t, a) == [];
    } else if t == "" {
      assert Clauses(t, a) == ["inauthor:" + a];
    } else {
      assert Clauses(t, a) == ["intitle:" + t];
    }
  }

  /** Two blank inputs leave only the base path and the result count. */
  lemma BlankInputsGiveBareQuery(titleInput: string, authorInput: string, maxResults: Option<string>)
    requires AllWhitespace(titleInput) && AllWhitespace(authorInput)
    ensures FinalQuery(titleInput, authorInput, maxResults) == ApiInitialQuery + "&maxResults=" + Rendered(maxResults)
  {
    BodyShape(titleInput);
    BodyShape(authorInput);
    assert ApiInitialQuery + "" + "" == ApiInitialQuery;
  }

  lemma {:induction false} TrimEndAppendWhitespace(s: string, w: string)
    requires AllWhitespace(w)
    ensures TrimEnd(s + w) == TrimEnd(s)
    decreases |w|
  {
    if w != [] {
      assert (s + w)[..|s + w| - 1] == s + w[..|w| - 1];
      TrimEndAppendWhitespace(s, w[..|w| - 1]);
    } else {
      assert s + w == s;
    }
  }

  /** Trailing whitespace adds nothing to either clause. */
  lemma TrailingWhitespaceIgnored(input: string, w: string)
    requires AllWhitespace(w)
    ensures Body(input + w) == Body(input)
    ensures TitleClause(input + w) == TitleClause(input)
  {
    TrimEndAppendWhitespace(input, w);
  }

  /**
   * Leading whitespace before a non-blank input yields a leading empty word, so
   * the body starts with `+` and the title clause with `intitle:+`.
   */
  lemma LeadingWhitespaceGivesPlus(w: string, rest: string)
    requires w != [] && AllWhitespace(w)
    requires rest != [] && !IsWhitespace(rest[0])
    ensures Body(w + rest) == "+" + Body(rest)
    ensures TitleClause(w + rest) == "intitle:+" + Body(rest)
  {
    var s := w + rest;
    assert !IsWhitespace(s[|w|]);
    TrimEndKeepsFront(w, rest);
    SkipWhitespacePrefix(w, TrimEnd(rest));
    assert Body(s) == "+" + Body(rest);
    assert TitleClause(s) == "intitle:" + ("+" + Body(rest));
    TitlePrefixPlus(Body(rest));
  }

  lemma TitlePrefixPlus(x: string)
    ensures "intitle:" + ("+" + x) == "intitle:+" + x
  {
  }

  lemma {:induction false} TrimEndKeepsFront(w: string, rest: string)
    requires rest != [] && !IsWhitespace(rest[0])
    ensures TrimEnd(w + rest) == w + TrimEnd(rest)
    decreases |rest|
  {
    var s := w + rest;
    if IsWhitespace(s[|s| - 1]) {
      assert |rest| > 1;
      assert s[..|s| - 1] == w + rest[..|rest| - 1];
      TrimEndKeepsFront(w, rest[..|rest| - 1]);
    }
  }

  /** Whitespace runs between two words collapse to a single `+`. */
  lemma InteriorRunCollapses(first: string, w: string, second: string)
    requires first != [] && !HasWhitespace(first)
    requires w != [] && AllWhitespace(w)
    requires second != [] && !HasWhitespace(second)
    ensures Body(first + w + second) == first + "+" + second
  {
    var s := first + w + second;
    assert s[|s| - 1] == second[|second| - 1];
    assert TrimEnd(s) == s;
    SqueezeWordRunWord(first, w, second);
  }

  lemma SqueezeWordRunWord(first: string, w: string, second: string)
    requires !HasWhitespace(first)
    requires w != [] && AllWhitespace(w)
    requires second != [] && !HasWhitespace(second)
    ensures Squeeze(first + w + second) == first + "+" + second
  {
    assert first + w + second == first + (w + second);
    SqueezeAppend(first, w + second);
    assert !IsWhitespace(second[0]);
    SqueezeRunWord(w, second);
    assert first + ("+" + second) == first + "+" + second;
  }

  lemma SqueezeRunWord(w: string, second: string)
    requires w != [] && AllWhitespace(w)
    requires second != [] && !HasWhitespace(second)
    ensures Squeeze(w + second) == "+" + second
  {
    assert !IsWhitespace(second[0]);
    SkipWhitespacePrefix(w, second);
    NoWhitespaceSqueeze(second);
    assert (w + second)[0] == w[0];
  }

  lemma {:induction false} NoWhitespaceSqueeze(s: string)
    requires !HasWhitespace(s)
    ensures Squeeze(s) == s
    decreases |s|
  {
    if s != [] {
      assert !IsWhitespace(s[0]);
      assert !HasWhitespace(s[1..]) by {
        forall i | 0 <= i < |s[1..]| ensures !IsWhitespace(s[1..][i]) {
          assert s[1..][i] == s[i + 1];
        }
      }
      NoWhitespaceSqueeze(s[1..]);
    }
  }

  lemma {:induction false} SqueezeAppend(word: string, rest: string)
    requires !HasWhitespace(word)
    ensures Squeeze(word + rest) == word + Squeeze(rest)
    decreases |word|
  {
    if word != [] {
      assert !IsWhitespace(word[0]);
      assert (word + rest)[1..] == word[1..] + rest;
      assert !HasWhitespace(word[1..]) by {
        forall i | 0 <= i < |word[1..]| ensures !IsWhitespace(word[1..][i]) {
          assert word[1..][i] == word[i + 1];
        }
      }
      SqueezeAppend(word[1..], rest);
    } else {
      assert word + rest == rest;
    }
  }

  /** The screen that runs the search; it remembers the URL it handed to the loader. */
  class BookListActivity {
    /** The last query built, or `None` (Java `null`) before the first. */
    var finalQuery: Option<string>

    constructor ()
      ensures finalQuery == None
    {
      finalQuery := None;
    }

    /** `returnFinalQuery`: builds the query, stores it in `finalQuery` and returns it. */
    method ReturnFinalQuery(titleInput: string, authorInput: string, maxResults: Option<string>)
      returns (query: string)
      modifies this
      ensures query == FinalQuery(titleInput, authorInput, maxResults)
      ensures finalQuery == Some(query)
    {
      var wordsTitle := Split(titleInput);
      var wordsToTitleQuery := JoinWords(wordsTitle);
      var titleQuery: string;
      if IsEmpty(wordsToTitleQuery) {
        titleQuery := "";
      } else {
        titleQuery := "intitle:" + wordsToTitleQuery.value;
      }

      var wordsAuthor := Split(authorInput);
      var wordsToAuthorQuery := JoinWords(wordsAuthor);
      var authorQuery: string;
      if IsEmpty(wordsToAuthorQuery) {
        authorQuery := "";
      } else if titleQuery == "" {
        authorQuery := "inauthor:" + wordsToAuthorQuery.value;
      } else {
        authorQuery := "&inauthor:" + wordsToAuthorQuery.value;
      }

      finalQuery := Some(ApiInitialQuery + titleQuery + authorQuery + "&maxResults=" + Rendered(maxResults));
      query := finalQuery.value;
    }
  }
}
