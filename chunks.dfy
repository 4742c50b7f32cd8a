/** `getChunks` of `snowflake-multisql.ts`: the sanitised script is cut at every `;`,
    each piece loses its first line feed and is trimmed, and empty pieces are dropped. */
module Chunks {
  import opened Wrappers
  import opened JsStrings
  import opened Sanitizer

  /** The text `getChunks` cuts: `minifySQL(removeComments(script))`. */
  function Sanitize(script: string): (r: string)
    ensures IsTrimmed(r) && |r| <= |script|
  {
    MinifySql(RemoveComments(script))
  }

  /** What happens to one piece: `chunk.replace("\n", "").trim()`. */
  function CleanChunk(piece: string): (r: string)
    ensures IsTrimmed(r)
    ensures forall c :: c in r ==> c in piece
  {
    var t := ReplaceFirst(piece, "\n", "");
    ReplaceFirstChars(piece, "\n", "");
    TrimChars(t);
    Trim(t)
  }

  /** `.map(...)`: every piece cleaned, in order. */
  function CleanAll(pieces: seq<string>): (r: seq<string>)
    ensures |r| == |pieces|
  {
    seq(|pieces|, i requires 0 <= i < |pieces| => CleanChunk(pieces[i]))
  }

  /** `.filter((chunk) => chunk.length > 0)`: the non-empty strings, in order. */
  function DropEmpty(xs: seq<string>): (r: seq<string>)
    ensures |r| <= |xs|
    ensures forall i :: 0 <= i < |r| ==> r[i] != [] && r[i] in xs
    decreases |xs|
  {
    if |xs| == 0 then []
    else (if xs[0] == [] then [] else [xs[0]]) + DropEmpty(xs[1..])
  }

  /** The part of `getChunks` after sanitising: cut at every `;`, clean each piece and
      keep the non-empty ones. Every chunk is non-empty, trimmed and free of `;`. */
  function SplitChunks(text: string): (r: seq<string>)
    ensures forall i :: 0 <= i < |r| ==> r[i] != [] && IsTrimmed(r[i]) && ';' !in r[i]
  {
    var pieces := Split(text, ';');
    var cleaned := CleanAll(pieces);
    var r := DropEmpty(cleaned);
    assert forall i :: 0 <= i < |r| ==> IsTrimmed(r[i]) && ';' !in r[i] by {
      forall i | 0 <= i < |r| ensures IsTrimmed(r[i]) && ';' !in r[i] {
        var j :| 0 <= j < |cleaned| && r[i] == cleaned[j];
        assert r[i] == CleanChunk(pieces[j]);
      }
    }
    r
  }

  /** `getChunks`. */
  function GetChunks(script: string): (r: seq<string>)
    ensures forall i :: 0 <= i < |r| ==> r[i] != [] && IsTrimmed(r[i]) && ';' !in r[i]
  {
    SplitChunks(Sanitize(script))
  }

  // ---------------------------------------------------------------------------
  // Cleaning pieces

  /** Filtering keeps the order: it looks at each string on its own. */
  lemma {:induction false} DropEmptyConcat(a: seq<string>, b: seq<string>)
    ensures DropEmpty(a + b) == DropEmpty(a) + DropEmpty(b)
    decreases |a|
  {
    if |a| == 0 {
      assert a + b == b;
    } else {
      var head := if a[0] == [] then [] else [a[0]];
      calc {
        DropEmpty(a + b);
        { assert (a + b)[0] == a[0] && (a + b)[1..] == a[1..] + b; }
        head + DropEmpty(a[1..] + b);
        { DropEmptyConcat(a[1..], b); }
        head + (DropEmpty(a[1..]) + DropEmpty(b));
        (head + DropEmpty(a[1..])) + DropEmpty(b);
        DropEmpty(a) + DropEmpty(b);
      }
    }
  }

  /** Only the first line feed of a piece is deleted, wherever it stands. */
  lemma CleanChunkDropsFirstLineFeed(a: string, b: string)
    requires '\n' !in a
    ensures CleanChunk(a + "\n" + b) == Trim(a + b)
  {
    var t := "\n" + b;
    assert "\n" <= t;
    calc {
      ReplaceFirst(a + "\n" + b, "\n", "");
      { assert a + "\n" + b == a + t; }
      ReplaceFirst(a + t, "\n", "");
      { ReplaceFirstSkips(a, t, "\n", ""); }
      a + ReplaceFirst(t, "\n", "");
      { assert t[..0] + "" + t[1..] == b; }
      a + b;
    }
  }

  /** A trimmed piece without a line feed comes through unchanged. */
  lemma CleanChunkKeeps(piece: string)
    requires IsTrimmed(piece) && '\n' !in piece
    ensures CleanChunk(piece) == piece
  {
    ReplaceFirstSkips(piece, [], "\n", "");
    assert piece + [] == piece;
    TrimKeepsTrimmed(piece);
  }

  /** Non-empty strings all pass the filter, in order. */
  lemma {:induction false} DropEmptyKeeps(xs: seq<string>)
    requires forall i :: 0 <= i < |xs| ==> xs[i] != []
    ensures DropEmpty(xs) == xs
    decreases |xs|
  {
    if |xs| > 0 {
      DropEmptyKeeps(xs[1..]);
    }
  }

  /** The cut at a `;` of the sanitised text happens whatever surrounds it, inside a
      quoted literal as well as outside: the chunks are those of each side, in order. */
  lemma SplitChunksAt(x: string, y: string)
    ensures SplitChunks(x + ";" + y) == SplitChunks(x) + SplitChunks(y)
  {
    var px, py := Split(x, ';'), Split(y, ';');
    SplitAt(x, y, ';');
    CleanAllConcat(px, py);
    DropEmptyConcat(CleanAll(px), CleanAll(py));
  }

  /** Cleaning looks at each piece on its own. */
  lemma CleanAllConcat(a: seq<string>, b: seq<string>)
    ensures CleanAll(a + b) == CleanAll(a) + CleanAll(b)
  {
    var whole, parts := CleanAll(a + b), CleanAll(a) + CleanAll(b);
    forall i | 0 <= i < |a + b| ensures whole[i] == parts[i] {
      if i < |a| {
        assert (a + b)[i] == a[i] && parts[i] == CleanAll(a)[i];
      } else {
        assert (a + b)[i] == b[i - |a|] && parts[i] == CleanAll(b)[i - |a|];
      }
    }
    assert whole == parts;
  }

  // ---------------------------------------------------------------------------
  // Scripts already in normal form

  /** Text that sanitising leaves as it is: no quote, no comment marker, no tab or line
      break, no double space and nothing to trim. */
  predicate IsNormal(s: string) {
    IsPlainText(s) && NoTabsOrBreaks(s) && NoDoubleSpace(s) && IsTrimmed(s)
  }

  /** `minifySQL` leaves text without quotes, tabs, line breaks, double spaces or
      surrounding whitespace as it is. */
  lemma MinifyNormal(s: string)
    requires NoQuotes(s) && NoTabsOrBreaks(s) && NoDoubleSpace(s) && IsTrimmed(s)
    ensures MinifySql(s) == s
  {
    assert s + [] == s;
    BreaksToSpacesPlain(s, []);
    CollapseSpacesPlain(s, []);
    TrimKeepsTrimmed(s);
  }

  /** Sanitising normal text changes nothing. */
  lemma SanitizeNormal(s: string)
    requires IsNormal(s)
    ensures Sanitize(s) == s
  {
    assert s + [] == s;
    RemoveCommentsKeepsPlain(s, []);
    MinifyNormal(s);
  }

  /** Normal statements joined with `;` give normal text. */
  lemma {:induction false} JoinNormal(stmts: seq<string>)
    requires |stmts| > 0
    requires forall i :: 0 <= i < |stmts| ==> stmts[i] != [] && IsNormal(stmts[i])
    ensures IsNormal(Join(stmts, ';'))
    decreases |stmts|
  {
    if |stmts| > 1 {
      var a := stmts[0];
      JoinNormal(stmts[1..]);
      var b := Join(stmts[1..], ';');
      var s := a + [';'] + b;
      assert forall i :: 0 <= i < |s| ==> s[i] == ';' || s[i] in a || s[i] in b by {
        forall i | 0 <= i < |s| ensures s[i] == ';' || s[i] in a || s[i] in b {
          if i < |a| { assert s[i] == a[i]; }
          else if i > |a| { assert s[i] == b[i - |a| - 1]; }
        }
      }
      assert NoDoubleSpace(s) by {
        forall i | 0 <= i < |s| - 1 ensures !(s[i] == ' ' && s[i + 1] == ' ') {
          if i + 1 < |a| {
            assert s[i] == a[i] && s[i + 1] == a[i + 1];
          } else if i > |a| {
            assert s[i] == b[i - |a| - 1] && s[i + 1] == b[i - |a|];
          } else if i == |a| {
            assert s[i] == ';';
          } else {
            assert s[i + 1] == ';';
          }
        }
      }
      assert s[0] == a[0];
      if |b| > 0 {
        assert s[|s| - 1] == b[|b| - 1];
      }
    }
  }

  /** Non-empty trimmed statements without `;` or line feed, joined with `;`, are cut
      back into the same statements. */
  lemma SplitChunksOfStatements(stmts: seq<string>)
    requires |stmts| > 0
    requires forall i :: 0 <= i < |stmts| ==>
               stmts[i] != [] && IsTrimmed(stmts[i]) && '\n' !in stmts[i] && ';' !in stmts[i]
    ensures SplitChunks(Join(stmts, ';')) == stmts
  {
    SplitJoin(stmts, ';');
    forall i | 0 <= i < |stmts| ensures CleanChunk(stmts[i]) == stmts[i] {
      CleanChunkKeeps(stmts[i]);
    }
    assert CleanAll(stmts) == stmts;
    DropEmptyKeeps(stmts);
  }

  /** A script of normal statements joined with `;` gives back those statements, in order. */
  lemma GetChunksOfStatements(stmts: seq<string>)
    requires |stmts| > 0
    requires forall i :: 0 <= i < |stmts| ==> stmts[i] != [] && IsNormal(stmts[i]) && ';' !in stmts[i]
    ensures GetChunks(Join(stmts, ';')) == stmts
  {
    var s := Join(stmts, ';');
    JoinNormal(stmts);
    SanitizeNormal(s);
    assert forall i :: 0 <= i < |stmts| ==> '\n' !in stmts[i];
    SplitChunksOfStatements(stmts);
  }

  // ---------------------------------------------------------------------------
  // Literals and worked examples

  /** Plain text followed by a quoted literal is sanitised to itself, whatever the
      literal holds (line breaks, `;`, comment markers, runs of spaces). */
  lemma SanitizeKeepsLiteral(a: string, c: string, q: char)
    requires IsPlainText(a) && NoTabsOrBreaks(a) && NoDoubleSpace(a)
    requires a != [] && !IsWhitespace(a[0]) && IsQuote(q)
    ensures Sanitize(a + Quote(c, q)) == a + Quote(c, q)
  {
    var lit := Quote(c, q);
    var s := a + lit;
    assert lit + [] == lit;
    assert NoQuotes(a);
    RemoveCommentsKeepsPlain(a, lit);
    RemoveCommentsKeepsLiteral(c, q, []);
    assert RemoveComments(s) == s;
    BreaksToSpacesPlain(a, lit);
    BreaksToSpacesKeepsLiteral(c, q, []);
    CollapseSpacesPlain(a, lit);
    CollapseSpacesKeepsLiteral(c, q, []);
    assert s[0] == a[0] && s[|s| - 1] == q;
    TrimKeepsTrimmed(s);
  }

  /** A piece without `;` that does not clean away to nothing is a chunk of its own. */
  lemma SplitChunksOne(x: string)
    requires ';' !in x && CleanChunk(x) != []
    ensures SplitChunks(x) == [CleanChunk(x)]
  {
    SplitJoin([x], ';');
    assert CleanAll([x]) == [CleanChunk(x)];
  }

  /** Where a literal holding a `;` cuts the text. */
  lemma QuoteAroundSemicolon(a: string, c1: string, c2: string, q: char)
    requires IsQuote(q)
    ensures a + Quote(c1 + ";" + c2, q) == (a + [q] + Escape(c1, q)) + ";" + (Escape(c2, q) + [q])
  {
    assert c1 + ";" + c2 == c1 + (";" + c2);
    EscapeConcat(c1, ";" + c2, q);
    EscapeConcat(";", c2, q);
    assert Escape(";", q) == ";";
    assert Escape(c1 + ";" + c2, q) == Escape(c1, q) + ";" + Escape(c2, q);
    RegroupAround(a, [q], Escape(c1, q), ";", Escape(c2, q));
  }

  /** A `;` inside a quoted literal still cuts the statement in two: the chunks are
      those of the text up to the `;` and those of the text after it. */
  lemma SemicolonInLiteralSplits(a: string, c1: string, c2: string, q: char)
    requires IsPlainText(a) && NoTabsOrBreaks(a) && NoDoubleSpace(a)
    requires a != [] && !IsWhitespace(a[0]) && IsQuote(q)
    ensures GetChunks(a + Quote(c1 + ";" + c2, q))
         == SplitChunks(a + [q] + Escape(c1, q)) + SplitChunks(Escape(c2, q) + [q])
  {
    SanitizeKeepsLiteral(a, c1 + ";" + c2, q);
    QuoteAroundSemicolon(a, c1, c2, q);
    SplitChunksAt(a + [q] + Escape(c1, q), Escape(c2, q) + [q]);
  }

  /** Where a literal holding a line feed is cut by the first-line-feed deletion. */
  lemma QuoteAroundLineFeed(a: string, c1: string, c2: string, q: char)
    requires ';' !in a && q !in c1 && q !in c2 && q != '\n' && q != ';' && ';' !in c1 && ';' !in c2
    ensures a + Quote(c1 + "\n" + c2, q) == (a + [q] + c1) + "\n" + (c2 + [q])
    ensures a + Quote(c1 + c2, q) == (a + [q] + c1) + (c2 + [q])
    ensures ';' !in a + Quote(c1 + "\n" + c2, q)
  {
    EscapeWithoutQuote(c1 + "\n" + c2, q);
    EscapeWithoutQuote(c1 + c2, q);
    RegroupAround(a, [q], c1, "\n", c2);
    RegroupBetween(a, [q], c1, c2);
  }

  /** Cleaning a piece whose line feed is its only blemish just deletes the line feed. */
  lemma CleanChunkJoinsAtLineFeed(pre: string, post: string)
    requires '\n' !in pre && IsTrimmed(pre + post) && pre + post != []
    ensures CleanChunk(pre + "\n" + post) == pre + post
  {
    CleanChunkDropsFirstLineFeed(pre, post);
    TrimKeepsTrimmed(pre + post);
  }

  /** The first line feed of a chunk is deleted even inside a literal, which changes
      the literal's content. */
  lemma LineFeedInLiteralLost(a: string, c1: string, c2: string, q: char)
    requires IsPlainText(a) && NoTabsOrBreaks(a) && NoDoubleSpace(a) && ';' !in a
    requires a != [] && !IsWhitespace(a[0]) && IsQuote(q)
    requires q !in c1 && q !in c2 && ';' !in c1 && ';' !in c2 && '\n' !in c1
    ensures GetChunks(a + Quote(c1 + "\n" + c2, q)) == [a + Quote(c1 + c2, q)]
  {
    var s := a + Quote(c1 + "\n" + c2, q);
    var r := a + Quote(c1 + c2, q);
    var pre, post := a + [q] + c1, c2 + [q];
    SanitizeKeepsLiteral(a, c1 + "\n" + c2, q);
    QuoteAroundLineFeed(a, c1, c2, q);
    assert '\n' !in pre;
    assert r[0] == a[0] && r[|r| - 1] == q;
    CleanChunkJoinsAtLineFeed(pre, post);
    SplitChunksOne(s);
  }

  /** Sanitising is not idempotent: removing a block comment can join a `/` before it
      and a `*` after it into a new comment opener, which a second pass removes. */
  lemma SanitizeNotIdempotent(c: string, x: string)
    requires forall j: nat :: !OccursAt(c, "*/", j)
    requires IsPlainText(x) && NoTabsOrBreaks(x) && NoDoubleSpace(x)
    ensures Sanitize("/" + ("/*" + c + "*/") + ("*" + x + "*/")) == "/*" + x + "*/"
    ensures Sanitize("/*" + x + "*/") == []
  {
    RemoveCommentsJoinsOpener(c, x);
    MinifyClosedComment(x);
    SanitizeClosedComment(x);
  }

  /** A block comment around plain text is already in the form `minifySQL` produces. */
  lemma MinifyClosedComment(x: string)
    requires IsPlainText(x) && NoTabsOrBreaks(x) && NoDoubleSpace(x)
    ensures MinifySql("/*" + x + "*/") == "/*" + x + "*/"
  {
    var s := "/*" + x + "*/";
    assert forall i :: 2 <= i < |x| + 2 ==> s[i] == x[i - 2];
    assert s[0] == '/' && s[1] == '*' && s[|s| - 2] == '*' && s[|s| - 1] == '/';
    MinifyNormal(s);
  }

  /** Sanitising a block comment around plain text leaves nothing. */
  lemma SanitizeClosedComment(x: string)
    requires IsPlainText(x)
    ensures Sanitize("/*" + x + "*/") == []
  {
    forall j: nat | j + 2 <= |x| ensures !OccursAt(x, "*/", j) {
      assert x[j..j + 2][1] == x[j + 1];
    }
    assert forall j: nat :: !OccursAt(x, "*/", j);
    RemoveCommentsDropsBlockComment(x, []);
    assert "/*" + x + "*/" + [] == "/*" + x + "*/";
    MinifyNormal([]);
  }
}
