/**
 * The serialisation half of the value converter for regular comments:
 * a comment body is turned into the block-comment token the grammar accepts.
 * The body is split into lines with the semantics of Java's
 * `String.split("\n")`, which this module models exactly.
 */
module CommentConverter {

  /** The outcome of `toEscapedString`: the comment token, or the
      `ValueConverterException` raised for a body holding a comment closer. */
  datatype Escaped = Token(text: string) | Rejected

  /** True if `s` holds the two-character comment closer `*` `/` at some position. */
  predicate ContainsCloser(s: string) {
    exists i | 0 <= i < |s| - 1 :: s[i] == '*' && s[i + 1] == '/'
  }

  /** Every piece of `s` between line feeds, including empty leading, inner
      and trailing pieces; there is always one more piece than line feeds. */
  function SplitAll(s: string): (r: seq<string>)
    ensures |r| >= 1
  {
    if s == [] then [""]
    else
      var p := SplitAll(s[..|s| - 1]);
      if s[|s| - 1] == '\n' then p + [""]
      else p[..|p| - 1] + [p[|p| - 1] + [s[|s| - 1]]]
  }

  /** Removes the empty pieces at the end of a split result. */
  function DropTrailingEmpty(p: seq<string>): (r: seq<string>)
    ensures |r| <= |p| && r == p[..|r|]
    ensures |r| > 0 ==> r[|r| - 1] != ""
    ensures forall k | |r| <= k < |p| :: p[k] == ""
  {
    if |p| > 0 && p[|p| - 1] == "" then DropTrailingEmpty(p[..|p| - 1]) else p
  }

  /** Java's `s.split("\n")`: a string without a line feed is returned as its
      only piece (so `""` yields one empty piece); otherwise all pieces are
      taken and the trailing empty ones are dropped (so a string made only of
      line feeds yields no piece at all). */
  function JavaSplit(s: string): seq<string> {
    if '\n' !in s then [s] else DropTrailingEmpty(SplitAll(s))
  }

  /** Joins lines with a line feed between consecutive lines. */
  function JoinLines(p: seq<string>): string {
    if |p| == 0 then ""
    else if |p| == 1 then p[0]
    else JoinLines(p[..|p| - 1]) + "\n" + p[|p| - 1]
  }

  /** `s` without its trailing line feeds: the independent description of what
      the split keeps. */
  function StripTrailingNewlines(s: string): (r: string)
    ensures |r| <= |s| && r == s[..|r|]
    ensures r == [] || r[|r| - 1] != '\n'
    ensures forall k | |r| <= k < |s| :: s[k] == '\n'
  {
    if |s| > 0 && s[|s| - 1] == '\n' then StripTrailingNewlines(s[..|s| - 1]) else s
  }

  /** The body of a comment of two or more lines: ` * line` and a line feed per line. */
  function StarLines(lines: seq<string>): string {
    if lines == [] then "" else " * " + lines[0] + "\n" + StarLines(lines[1..])
  }

  /** A block-comment token: it opens with `/*`, closes with ` */`, and
      holds no closer before its last character. */
  predicate Delimited(t: string) {
    && |t| >= 5 && t[..2] == "/*" && t[|t| - 3..] == " */"
    && !ContainsCloser(t[..|t| - 1])
  }

  /** `RegularCommentValueConverter.toEscapedString`. */
  function ToEscapedString(value: string): (r: Escaped)
    ensures r.Rejected? <==> ContainsCloser(value)
    ensures r.Token? ==> Delimited(r.text)
  {
    if ContainsCloser(value) then Rejected
    else
      var lines := JavaSplit(value);
      JavaSplitPiecesHaveNoCloser(value);
      if |lines| == 0 then
        Framed("");
        assert "/*" + "" + " */" == "/* */";
        Token("/* */")
      else if |lines| == 1 then
        NoCloserConcat(" ", lines[0]);
        Framed(" " + lines[0]);
        assert "/*" + (" " + lines[0]) + " */" == "/* " + lines[0] + " */";
        Token("/* " + lines[0] + " */")
      else
        StarLinesHaveNoCloser(lines);
        NoCloserConcat("\n", StarLines(lines));
        Framed("\n" + StarLines(lines));
        assert "/*" + ("\n" + StarLines(lines)) + " */" == "/*\n" + StarLines(lines) + " */";
        Token("/*\n" + StarLines(lines) + " */")
  }

  // ---------------------------------------------------------------------------
  // Splitting: what the pieces are
  // ---------------------------------------------------------------------------

  /** Joining every piece back with line feeds restores the string. */
  lemma {:induction false} JoinSplitAll(s: string)
    ensures JoinLines(SplitAll(s)) == s
  {
    if s != [] {
      var t, c := s[..|s| - 1], s[|s| - 1];
      assert s == t + [c];
      var p := SplitAll(t);
      JoinSplitAll(t);
      if c == '\n' {
        assert SplitAll(s) == p + [""];
        assert (p + [""])[..|p|] == p;
      } else {
        var q := p[..|p| - 1] + [p[|p| - 1] + [c]];
        assert SplitAll(s) == q;
        JoinAppendToLast(p, c);
      }
    }
  }

  /** Appending a character to the last line appends it to the joined text. */
  lemma JoinAppendToLast(p: seq<string>, c: char)
    requires |p| >= 1
    ensures JoinLines(p[..|p| - 1] + [p[|p| - 1] + [c]]) == JoinLines(p) + [c]
  {
    var q := p[..|p| - 1] + [p[|p| - 1] + [c]];
    if |p| > 1 {
      assert q[..|q| - 1] == p[..|p| - 1];
    }
  }

  /** No piece of the full split holds a line feed. */
  lemma {:induction false} SplitAllHasNoNewline(s: string)
    ensures forall k | 0 <= k < |SplitAll(s)| :: '\n' !in SplitAll(s)[k]
  {
    if s != [] {
      var t, c := s[..|s| - 1], s[|s| - 1];
      var p := SplitAll(t);
      SplitAllHasNoNewline(t);
      var q := SplitAll(s);
      forall k | 0 <= k < |q|
        ensures '\n' !in q[k]
      {
        if k < |p| - 1 {
          assert q[k] == p[k];
        } else if k == |p| - 1 && c != '\n' {
          assert q[k] == p[k] + [c];
        } else if k == |p| - 1 {
          assert q[k] == p[k];
        }
      }
    }
  }

  /** Dropping the trailing empty pieces of the full split is the same as
      splitting the string without its trailing line feeds. */
  lemma {:induction false} JoinDropTrailing(s: string)
    ensures JoinLines(DropTrailingEmpty(SplitAll(s))) == StripTrailingNewlines(s)
  {
    if s == [] {
      assert DropTrailingEmpty([""]) == DropTrailingEmpty([]);
    } else {
      var t, c := s[..|s| - 1], s[|s| - 1];
      var p := SplitAll(t);
      if c == '\n' {
        assert SplitAll(s) == p + [""];
        assert (p + [""])[..|p|] == p;
        assert DropTrailingEmpty(SplitAll(s)) == DropTrailingEmpty(p);
        JoinDropTrailing(t);
      } else {
        var q := SplitAll(s);
        assert q[|q| - 1] == p[|p| - 1] + [c];
        assert DropTrailingEmpty(q) == q;
        JoinSplitAll(s);
      }
    }
  }

  /** The lines of `String.split("\n")` hold no line feed, and joined with line
      feeds they are exactly the string without its trailing line feeds. */
  lemma JavaSplitJoin(s: string)
    ensures forall k | 0 <= k < |JavaSplit(s)| :: '\n' !in JavaSplit(s)[k]
    ensures JoinLines(JavaSplit(s)) == StripTrailingNewlines(s)
  {
    if '\n' in s {
      JoinDropTrailing(s);
      SplitAllHasNoNewline(s);
      var p := SplitAll(s);
      var r := DropTrailingEmpty(p);
      forall k | 0 <= k < |r| ensures '\n' !in r[k] {
        assert r[k] == p[k];
      }
    } else {
      assert s == [] || s[|s| - 1] != '\n';
    }
  }

  /** The split yields no line exactly when the value is one or more line feeds
      and nothing else. */
  lemma JavaSplitEmptyIff(s: string)
    ensures |JavaSplit(s)| == 0 <==> |s| > 0 && forall k | 0 <= k < |s| :: s[k] == '\n'
  {
    JavaSplitJoin(s);
    var r := StripTrailingNewlines(s);
    if |JavaSplit(s)| == 0 {
      assert '\n' in s;
      assert r == "";
    } else if |s| > 0 && forall k | 0 <= k < |s| :: s[k] == '\n' {
      AllNewlinesSplitEmpty(s);
    }
  }

  lemma AllNewlinesSplitEmpty(s: string)
    requires |s| > 0 && forall k | 0 <= k < |s| :: s[k] == '\n'
    ensures JavaSplit(s) == []
  {
    assert s[0] == '\n';
    var p := SplitAll(s);
    JoinSplitAll(s);
    SplitAllHasNoNewline(s);
    forall k | 0 <= k < |p| ensures p[k] == "" {
      JoinHoldsLine(p, k);
    }
    DropAllEmpty(p);
  }

  /** Each line is a factor of the joined text. */
  lemma {:induction false} JoinHoldsLine(p: seq<string>, k: nat)
    requires k < |p|
    requires forall i | 0 <= i < |JoinLines(p)| :: JoinLines(p)[i] == '\n'
    ensures forall i | 0 <= i < |p[k]| :: p[k][i] == '\n'
    ensures p[k] == [] || '\n' in p[k]
  {
    if |p| > 1 {
      var j := JoinLines(p[..|p| - 1]);
      assert JoinLines(p) == j + "\n" + p[|p| - 1];
      if k < |p| - 1 {
        forall i | 0 <= i < |j| ensures j[i] == '\n' {
          assert JoinLines(p)[i] == j[i];
        }
        assert p[..|p| - 1][k] == p[k];
        JoinHoldsLine(p[..|p| - 1], k);
      } else {
        forall i | 0 <= i < |p[k]| ensures p[k][i] == '\n' {
          assert JoinLines(p)[|j| + 1 + i] == p[k][i];
        }
      }
    } else {
      assert JoinLines(p) == p[0];
    }
    if p[k] != [] {
      assert p[k][0] == '\n';
    }
  }

  lemma {:induction false} DropAllEmpty(p: seq<string>)
    requires forall k | 0 <= k < |p| :: p[k] == ""
    ensures DropTrailingEmpty(p) == []
  {
    if |p| > 0 {
      DropAllEmpty(p[..|p| - 1]);
    }
  }

  // ---------------------------------------------------------------------------
  // The comment token closes only at its end
  // ---------------------------------------------------------------------------

  /** Concatenating two texts without a closer makes none, unless one ends with
      `*` and the other starts with `/`. */
  lemma NoCloserConcat(a: string, b: string)
    requires !ContainsCloser(a) && !ContainsCloser(b)
    requires a == [] || b == [] || !(a[|a| - 1] == '*' && b[0] == '/')
    ensures !ContainsCloser(a + b)
  {
    var c := a + b;
    forall i | 0 <= i < |c| - 1
      ensures !(c[i] == '*' && c[i + 1] == '/')
    {
      if i + 1 < |a| {
        assert c[i] == a[i] && c[i + 1] == a[i + 1];
      } else if i >= |a| {
        assert c[i] == b[i - |a|] && c[i + 1] == b[i + 1 - |a|];
      }
    }
  }

  lemma NoCloserSuffix(s: string, k: nat)
    requires k <= |s| && !ContainsCloser(s)
    ensures !ContainsCloser(s[k..])
  {
    var x := s[k..];
    forall i | 0 <= i < |x| - 1 ensures !(x[i] == '*' && x[i + 1] == '/') {
      assert x[i] == s[k + i] && x[i + 1] == s[k + i + 1];
    }
  }

  lemma NoCloserPrefix(s: string, k: nat)
    requires k <= |s| && !ContainsCloser(s)
    ensures !ContainsCloser(s[..k])
  {
    var x := s[..k];
    forall i | 0 <= i < |x| - 1 ensures !(x[i] == '*' && x[i + 1] == '/') {
      assert x[i] == s[i] && x[i + 1] == s[i + 1];
    }
  }

  /** The last piece of the full split is a suffix of the text. */
  lemma {:induction false} SplitAllLastIsSuffix(s: string)
    ensures var p := SplitAll(s); |p[|p| - 1]| <= |s| && p[|p| - 1] == s[|s| - |p[|p| - 1]|..]
  {
    if s != [] {
      var t := s[..|s| - 1];
      SplitAllLastIsSuffix(t);
      var p := SplitAll(t);
      if s[|s| - 1] != '\n' {
        assert p[|p| - 1] + [s[|s| - 1]] == s[|s| - |p[|p| - 1]| - 1..];
      }
    }
  }

  /** Every piece of the split of a closer-free text is closer-free. */
  lemma {:induction false} SplitAllPiecesHaveNoCloser(s: string)
    requires !ContainsCloser(s)
    ensures forall k | 0 <= k < |SplitAll(s)| :: !ContainsCloser(SplitAll(s)[k])
  {
    if s != [] {
      var t, c := s[..|s| - 1], s[|s| - 1];
      NoCloserPrefix(s, |s| - 1);
      SplitAllPiecesHaveNoCloser(t);
      var p := SplitAll(t);
      var q := SplitAll(s);
      if c != '\n' {
        SplitAllLastIsSuffix(t);
        var last := p[|p| - 1] + [c];
        assert last == s[|s| - |last|..];
        NoCloserSuffix(s, |s| - |last|);
        forall k | 0 <= k < |q| ensures !ContainsCloser(q[k]) {
          if k < |p| - 1 { assert q[k] == p[k]; }
        }
      } else {
        assert q == p + [""];
        forall k | 0 <= k < |q| ensures !ContainsCloser(q[k]) {
          if k < |p| { assert q[k] == p[k]; }
        }
      }
    }
  }

  lemma JavaSplitPiecesHaveNoCloser(s: string)
    requires !ContainsCloser(s)
    ensures forall k | 0 <= k < |JavaSplit(s)| :: !ContainsCloser(JavaSplit(s)[k])
  {
    if '\n' in s {
      SplitAllPiecesHaveNoCloser(s);
      var p := SplitAll(s);
      var r := DropTrailingEmpty(p);
      forall k | 0 <= k < |r| ensures !ContainsCloser(r[k]) {
        assert r[k] == p[k];
      }
    }
  }

  // Text framed by the opener and the closer closes only at the end when it
  // holds no closer and does not begin with the slash that would finish one.
  lemma Framed(m: string)
    requires !ContainsCloser(m) && (m == [] || m[0] != '/')
    ensures Delimited("/*" + m + " */")
  {
    var a := "/*";
    assert a[0] == '/' && a[1] == '*';
    var b := " *";
    assert b[0] == ' ' && b[1] == '*';
    NoCloserConcat(a, m);
    NoCloserConcat(a + m, b);
    var t := "/*" + m + " */";
    assert t[..|t| - 1] == a + m + b;
    assert t[..2] == a;
    assert t[|t| - 3..] == " */";
  }

  lemma {:induction false} StarLinesHaveNoCloser(lines: seq<string>)
    requires forall k | 0 <= k < |lines| :: !ContainsCloser(lines[k])
    ensures !ContainsCloser(StarLines(lines))
    ensures StarLines(lines) == [] || StarLines(lines)[0] == ' '
    ensures StarLines(lines) == [] || StarLines(lines)[|StarLines(lines)| - 1] == '\n'
  {
    if lines != [] {
      StarLinesHaveNoCloser(lines[1..]);
      var a := " * ";
      assert a[0] == ' ' && a[1] == '*' && a[2] == ' ';
      NoCloserConcat(a, lines[0]);
      var nl := "\n";
      assert nl[0] == '\n';
      NoCloserConcat(a + lines[0], nl);
      NoCloserConcat(a + lines[0] + nl, StarLines(lines[1..]));
      assert StarLines(lines) == a + lines[0] + nl + StarLines(lines[1..]);
    }
  }

  // ---------------------------------------------------------------------------
  // The three shapes of the token
  // ---------------------------------------------------------------------------

  /** A body made only of line feeds (the split yields no line) becomes the
      empty comment. */
  lemma EmptyBodyIsEmptyComment(value: string)
    requires |value| > 0 && forall k | 0 <= k < |value| :: value[k] == '\n'
    ensures ToEscapedString(value) == Token("/* */")
  {
    JavaSplitEmptyIff(value);
    assert !ContainsCloser(value);
  }

  /** A body that splits into one line is written between the opener, a
      space, the line, a space and the closer. */
  lemma OneLineComment(value: string)
    requires !ContainsCloser(value)
    requires '\n' !in StripTrailingNewlines(value)
    requires StripTrailingNewlines(value) != "" || value == ""
    ensures ToEscapedString(value) == Token("/* " + StripTrailingNewlines(value) + " */")
  {
    JavaSplitJoin(value);
    JoinManyHasNewline(JavaSplit(value));
  }

  lemma JoinManyHasNewline(p: seq<string>)
    ensures |p| >= 2 ==> '\n' in JoinLines(p)
  {
    if |p| >= 2 {
      var j := JoinLines(p[..|p| - 1]);
      assert JoinLines(p) == j + "\n" + p[|p| - 1];
      assert JoinLines(p)[|j|] == '\n';
    }
  }

  /** A body that splits into several lines is written one ` * line` per line,
      the lines being those of the body with its trailing line feeds removed. */
  lemma ManyLineComment(value: string)
    requires !ContainsCloser(value)
    requires |JavaSplit(value)| >= 2
    ensures ToEscapedString(value) == Token("/*\n" + StarLines(JavaSplit(value)) + " */")
    ensures JoinLines(JavaSplit(value)) == StripTrailingNewlines(value)
  {
    JavaSplitJoin(value);
  }
}
