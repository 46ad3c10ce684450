/**
 * The Java string library as the query builder uses it: the regular-expression
 * class `\s`, `String.split("\\s+")`, and Android's `TextUtils.isEmpty`.
 */
module JavaString {
  import opened Wrappers

  /**
   * The characters `\s` matches in Java SE's `java.util.regex`: space, tab,
   * line feed, vertical tab, form feed, carriage return.
   */
  predicate IsWhitespace(c: char) {
    c == ' ' || c == '\t' || c == '\n' || c == '\U{B}' || c == '\U{C}' || c == '\r'
  }

  predicate AllWhitespace(s: string) {
    forall i :: 0 <= i < |s| ==> IsWhitespace(s[i])
  }

  predicate HasWhitespace(s: string) {
    exists i :: 0 <= i < |s| && IsWhitespace(s[i])
  }

  /** `TextUtils.isEmpty`: a null reference or a string of length zero. */
  predicate IsEmpty(s: Option<string>)
    ensures !IsEmpty(s) <==> s.Some? && |s.value| > 0
  {
    s.None? || s.value == ""
  }

  /** How Java's string `+` renders a reference that may be null: `null` as the text "null". */
  function Rendered(s: Option<string>): string {
    if s.None? then "null" else s.value
  }

  /** What is left of `s` once its leading whitespace run is consumed. */
  function SkipWhitespace(s: string): (r: string)
    ensures |r| <= |s| && r == s[|s| - |r|..]
    ensures r == [] || !IsWhitespace(r[0])
    ensures s != [] && IsWhitespace(s[0]) ==> |r| < |s|
    ensures AllWhitespace(s) ==> r == []
    ensures s != [] && !IsWhitespace(s[|s| - 1]) ==> r != [] && r[|r| - 1] == s[|s| - 1]
  {
    if s != [] && IsWhitespace(s[0]) then SkipWhitespace(s[1..]) else s
  }

  /** `s` without its trailing whitespace run. */
  function TrimEnd(s: string): (r: string)
    ensures |r| <= |s| && r == s[..|r|]
    ensures r == [] || !IsWhitespace(r[|r| - 1])
  {
    if s != [] && IsWhitespace(s[|s| - 1]) then TrimEnd(s[..|s| - 1]) else s
  }

  /**
   * The substrings of `s` that lie between maximal whitespace runs, in order,
   * including the empty substring in front of a leading run and the one after
   * a trailing run: what a regular-expression split on `\s+` finds before any
   * trailing empty strings are discarded.
   */
  function Pieces(s: string): (r: seq<string>)
    ensures |r| >= 1
    decreases |s|
  {
    if s == [] then [""]
    else if IsWhitespace(s[0]) then [""] + Pieces(SkipWhitespace(s))
    else
      var rest := Pieces(s[1..]);
      [[s[0]] + rest[0]] + rest[1..]
  }

  /** Removes the empty strings at the end of `ts`. */
  function DropTrailingEmpty(ts: seq<string>): (r: seq<string>)
    ensures |r| <= |ts| && r == ts[..|r|]
    ensures forall k :: |r| <= k < |ts| ==> ts[k] == ""
    ensures r == [] || r[|r| - 1] != ""
  {
    if ts != [] && ts[|ts| - 1] == "" then DropTrailingEmpty(ts[..|ts| - 1]) else ts
  }

  /**
   * `s.split("\\s+")`: with no whitespace in `s` the result is `[s]` (so `""`
   * gives `[""]`); otherwise the pieces between whitespace runs, a leading empty
   * piece kept and trailing empty pieces discarded.
   */
  function Split(s: string): (r: seq<string>)
    ensures forall k :: 0 <= k < |r| ==> !HasWhitespace(r[k])
  {
    if !HasWhitespace(s) then [s]
    else
      PiecesHaveNoWhitespace(s);
      DropTrailingEmpty(Pieces(s))
  }

  /** Two texts without whitespace concatenate to a text without whitespace. */
  lemma NoWhitespaceConcat(x: string, y: string)
    requires !HasWhitespace(x) && !HasWhitespace(y)
    ensures !HasWhitespace(x + y)
  {
    forall i | 0 <= i < |x + y| ensures !IsWhitespace((x + y)[i]) {
      if i < |x| {
        assert (x + y)[i] == x[i];
      } else {
        assert (x + y)[i] == y[i - |x|];
      }
    }
  }

  lemma {:induction false} PiecesHaveNoWhitespace(s: string)
    ensures forall k :: 0 <= k < |Pieces(s)| ==> !HasWhitespace(Pieces(s)[k])
    decreases |s|
  {
    if s != [] {
      if IsWhitespace(s[0]) {
        PiecesHaveNoWhitespace(SkipWhitespace(s));
      } else {
        var rest := Pieces(s[1..]);
        PiecesHaveNoWhitespace(s[1..]);
        NoWhitespaceConcat([s[0]], rest[0]);
      }
    }
  }

  /** What `TrimEnd` removes is whitespace only. */
  lemma {:induction false} TrimEndDropsWhitespace(s: string)
    ensures AllWhitespace(s[|TrimEnd(s)|..])
    decreases |s|
  {
    if s != [] && IsWhitespace(s[|s| - 1]) {
      var init := s[..|s| - 1];
      TrimEndDropsWhitespace(init);
      var n := |TrimEnd(s)|;
      forall i | 0 <= i < |s[n..]| ensures IsWhitespace(s[n..][i]) {
        if n + i < |s| - 1 {
          assert s[n..][i] == init[n..][i];
        }
      }
    }
  }

  /** `SkipWhitespace` consumes whitespace only. */
  lemma {:induction false} SkipWhitespaceSkipsOnlyWhitespace(s: string)
    ensures forall i :: 0 <= i < |s| - |SkipWhitespace(s)| ==> IsWhitespace(s[i])
    decreases |s|
  {
    if s != [] && IsWhitespace(s[0]) {
      var tail := s[1..];
      SkipWhitespaceSkipsOnlyWhitespace(tail);
      forall i | 0 < i < |s| - |SkipWhitespace(s)| ensures IsWhitespace(s[i]) {
        assert s[i] == tail[i - 1];
      }
    }
  }

  /** A whitespace run in front of a word is exactly what `SkipWhitespace` consumes. */
  lemma {:induction false} SkipWhitespacePrefix(w: string, rest: string)
    requires AllWhitespace(w)
    requires rest != [] && !IsWhitespace(rest[0])
    ensures SkipWhitespace(w + rest) == rest
    decreases |w|
  {
    if w != [] {
      assert (w + rest)[1..] == w[1..] + rest;
      SkipWhitespacePrefix(w[1..], rest);
    } else {
      assert w + rest == rest;
    }
  }

  lemma {:induction false} PiecesWithoutWhitespace(s: string)
    requires !HasWhitespace(s)
    ensures Pieces(s) == [s]
    decreases |s|
  {
    if s != [] {
      assert !IsWhitespace(s[0]);
      assert !HasWhitespace(s[1..]) by {
        forall i | 0 <= i < |s[1..]| ensures !IsWhitespace(s[1..][i]) {
          assert s[1..][i] == s[i + 1];
        }
      }
      PiecesWithoutWhitespace(s[1..]);
      assert [s[0]] + s[1..] == s;
    }
  }

  lemma {:induction false} SkipWhitespaceAppend(x: string, w: string)
    requires x != [] && !IsWhitespace(x[|x| - 1])
    ensures SkipWhitespace(x + w) == SkipWhitespace(x) + w
    decreases |x|
  {
    if IsWhitespace(x[0]) {
      assert (x + w)[1..] == x[1..] + w;
      assert x[1..][|x| - 2] == x[|x| - 1];
      SkipWhitespaceAppend(x[1..], w);
    }
  }

  lemma {:induction false} PiecesLastNonEmpty(s: string)
    requires s != [] && !IsWhitespace(s[|s| - 1])
    ensures Pieces(s)[|Pieces(s)| - 1] != ""
    decreases |s|
  {
    if IsWhitespace(s[0]) {
      var r := SkipWhitespace(s);
      PiecesLastNonEmpty(r);
      assert Pieces(s) == [""] + Pieces(r);
    } else {
      var p := Pieces(s[1..]);
      assert Pieces(s) == [[s[0]] + p[0]] + p[1..];
      if |s| > 1 {
        assert s[1..][|s| - 2] == s[|s| - 1];
        PiecesLastNonEmpty(s[1..]);
      }
      var qs := [[s[0]] + p[0]] + p[1..];
      assert qs[|qs| - 1] == if |p| == 1 then [s[0]] + p[0] else p[|p| - 1];
    }
  }

  lemma PiecesOfWhitespace(w: string)
    requires w != [] && AllWhitespace(w)
    ensures Pieces(w) == ["", ""]
  {
    assert SkipWhitespace(w) == [];
  }

  /** A whitespace run after the last non-whitespace character adds one empty piece. */
  lemma {:induction false} PiecesTrailingRun(x: string, w: string)
    requires w != [] && AllWhitespace(w)
    requires x == [] || !IsWhitespace(x[|x| - 1])
    ensures Pieces(x + w) == Pieces(x) + [""]
    decreases |x|
  {
    if x == [] {
      assert x + w == w;
      PiecesOfWhitespace(w);
    } else if IsWhitespace(x[0]) {
      PiecesTrailingRunLeading(x, w);
    } else {
      PiecesTrailingRunWord(x, w);
    }
  }

  lemma {:induction false} PiecesTrailingRunLeading(x: string, w: string)
    requires w != [] && AllWhitespace(w)
    requires x != [] && IsWhitespace(x[0]) && !IsWhitespace(x[|x| - 1])
    ensures Pieces(x + w) == Pieces(x) + [""]
    decreases |x|, 0
  {
    SkipWhitespaceAppend(x, w);
    var r := SkipWhitespace(x);
    assert |r| < |x| && r != [] && r[|r| - 1] == x[|x| - 1];
    PiecesTrailingRun(r, w);
    var xw := x + w;
    assert xw != [] && IsWhitespace(xw[0]);
    assert SkipWhitespace(xw) == r + w;
    var a := Pieces(r);
    assert Pieces(r + w) == a + [""];
    assert Pieces(xw) == [""] + (a + [""]);
    assert Pieces(x) == [""] + a;
    EmptyAround(a);
  }

  lemma EmptyAround(a: seq<string>)
    ensures [""] + (a + [""]) == ([""] + a) + [""]
  {
  }

  lemma {:induction false} PiecesTrailingRunWord(x: string, w: string)
    requires w != [] && AllWhitespace(w)
    requires x != [] && !IsWhitespace(x[0]) && !IsWhitespace(x[|x| - 1])
    ensures Pieces(x + w) == Pieces(x) + [""]
    decreases |x|, 0
  {
    var tail := x[1..];
    var xw := x + w;
    assert xw[0] == x[0] && xw[1..] == tail + w;
    assert tail == [] || tail[|tail| - 1] == x[|x| - 1];
    PiecesTrailingRun(tail, w);
    var p := Pieces(tail);
    assert Pieces(xw) == [[x[0]] + (p + [""])[0]] + (p + [""])[1..];
    assert Pieces(x) == [[x[0]] + p[0]] + p[1..];
    WordThenEmpty(x[0], p);
  }

  lemma WordThenEmpty(c: char, p: seq<string>)
    requires |p| >= 1
    ensures [[c] + (p + [""])[0]] + (p + [""])[1..] == ([[c] + p[0]] + p[1..]) + [""]
  {
    assert (p + [""])[1..] == p[1..] + [""];
  }

  /** Trailing whitespace never yields a token. */
  lemma SplitIsPiecesOfTrimmed(s: string)
    requires TrimEnd(s) != []
    ensures Split(s) == Pieces(TrimEnd(s))
  {
    var t := TrimEnd(s);
    var w := s[|t|..];
    assert s == t + w;
    TrimEndDropsWhitespace(s);
    if w == [] {
      assert t == s;
      SplitOfWordEnd(s);
    } else {
      SplitOfTrailingRun(t, w);
    }
  }

  lemma SplitOfWordEnd(s: string)
    requires s != [] && !IsWhitespace(s[|s| - 1])
    ensures Split(s) == Pieces(s)
  {
    if !HasWhitespace(s) {
      PiecesWithoutWhitespace(s);
    } else {
      PiecesLastNonEmpty(s);
    }
  }

  lemma SplitOfTrailingRun(t: string, w: string)
    requires t != [] && !IsWhitespace(t[|t| - 1])
    requires w != [] && AllWhitespace(w)
    ensures Split(t + w) == Pieces(t)
  {
    var s := t + w;
    assert s[|t|] == w[0];
    assert HasWhitespace(s);
    assert Split(s) == DropTrailingEmpty(Pieces(s));
    PiecesTrailingRun(t, w);
    var p := Pieces(t);
    assert Pieces(s) == p + [""];
    PiecesLastNonEmpty(t);
    DropOneTrailingEmpty(p);
    assert DropTrailingEmpty(Pieces(s)) == p;
  }

  lemma DropOneTrailingEmpty(ps: seq<string>)
    requires ps != [] && ps[|ps| - 1] != ""
    ensures DropTrailingEmpty(ps + [""]) == ps
  {
    assert (ps + [""])[..|ps|] == ps;
  }

  /** An all-whitespace input yields no token at all, and `""` yields `[""]`. */
  lemma SplitOfWhitespace(s: string)
    requires TrimEnd(s) == []
    ensures Split(s) == if s == [] then [""] else []
  {
    if s != [] {
      TrimEndDropsWhitespace(s);
      assert s[0..] == s;
      assert IsWhitespace(s[0]);
      PiecesOfWhitespace(s);
      assert DropTrailingEmpty(["", ""]) == DropTrailingEmpty([""]);
    }
  }
}
