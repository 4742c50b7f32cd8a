/** The lexical sanitiser of `snowflake-multisql.ts`: `removeComments` and
    `minifySQL`. Each global regular-expression replacement is a left-to-right
    scanner that, at every position, tries the alternatives of the expression in
    order, hands the leftmost match to the replacement callback, resumes after the
    match, and copies a character that starts no match. */
module Sanitizer {
  import opened Wrappers
  import opened JsStrings

  predicate IsQuote(c: char) { c == '"' || c == '\'' }

  predicate IsLineBreak(c: char) { c == '\n' || c == '\r' }

  predicate IsTabOrBreak(c: char) { c == '\t' || c == '\r' || c == '\n' }

  /** The text of a quoted literal whose content is `c`: every quote `q` inside is doubled. */
  function Escape(c: string, q: char): string
    decreases |c|
  {
    if |c| == 0 then []
    else (if c[0] == q then [q, q] else [c[0]]) + Escape(c[1..], q)
  }

  /** The content of a literal body: a doubled quote stands for one quote. */
  function Unescape(u: string, q: char): string
    decreases |u|
  {
    if |u| == 0 then []
    else if |u| >= 2 && u[0] == q && u[1] == q then [q] + Unescape(u[2..], q)
    else [u[0]] + Unescape(u[1..], q)
  }

  /** `c` written as a literal delimited by `q`. */
  function Quote(c: string, q: char): string {
    [q] + Escape(c, q) + [q]
  }

  /** What `(qq|[^q])*q` matches at the start of `t`: the star is greedy, tries `qq`
      before `[^q]`, and backtracks to the latest point where a closing `q` follows. */
  function LiteralTail(t: string, q: char): (r: Option<nat>)
    ensures r.Some? ==> 1 <= r.value <= |t| && t[r.value - 1] == q
    decreases |t|
  {
    if |t| == 0 then None
    else if t[0] != q then
      match LiteralTail(t[1..], q)
      case Some(k) => Some(k + 1)
      case None => None
    else if |t| >= 2 && t[1] == q then
      match LiteralTail(t[2..], q)
      case Some(k) => Some(k + 2)
      case None => Some(1)
    else Some(1)
  }

  /** Length of the quoted literal `"(""|[^"])*"` or `'(''|[^'])*'` at the start of `s`,
      if there is one. */
  function LiteralLength(s: string): (r: Option<nat>)
    requires |s| > 0 && IsQuote(s[0])
    ensures r.Some? ==> 2 <= r.value <= |s| && s[r.value - 1] == s[0]
  {
    match LiteralTail(s[1..], s[0])
    case Some(k) => Some(k + 1)
    case None => None
  }

  /** The replacement callback shared by the three passes: a match that begins and ends
      with the same kind of quote is returned as it is, any other match becomes `other`. */
  function Replacement(m: string, other: string): string
    requires |m| > 0
  {
    if (m[0] == '"' && m[|m| - 1] == '"') || (m[0] == '\'' && m[|m| - 1] == '\'') then m
    else other
  }

  /** Number of leading characters of `s` that are not a line break (`[^\n\r]*`). */
  function LineLength(s: string): (k: nat)
    ensures k <= |s|
    ensures k < |s| ==> IsLineBreak(s[k])
    decreases |s|
  {
    if |s| > 0 && !IsLineBreak(s[0]) then 1 + LineLength(s[1..]) else 0
  }

  /** The line counted by `LineLength` holds no line break: with the break that ends
      it, it is the longest such prefix. */
  lemma {:induction false} LineLengthSpec(s: string)
    ensures forall i :: 0 <= i < LineLength(s) ==> !IsLineBreak(s[i])
    decreases |s|
  {
    if |s| > 0 && !IsLineBreak(s[0]) {
      LineLengthSpec(s[1..]);
      assert forall i :: 1 <= i < LineLength(s) ==> s[i] == s[1..][i - 1];
    }
  }

  /** Length of the block comment `\/\*[\w\W]*?(?=\*\/)\*\/` at the start of `s`: it ends
      at the first `*` `/` after the opening pair, and there is none when no such pair follows. */
  function BlockCommentLength(s: string): (r: Option<nat>)
    requires "/*" <= s
    ensures r.Some? ==> 4 <= r.value <= |s| && s[r.value - 2..r.value] == "*/"
    ensures r.Some? ==> IndexOf(s[2..], "*/") == Some(r.value - 4)
    ensures r.None? ==> IndexOf(s[2..], "*/") == None
  {
    IndexOfSpec(s[2..], "*/");
    match IndexOf(s[2..], "*/")
    case Some(j) => assert s[j + 2..j + 4] == s[2..][j..j + 2]; Some(j + 4)
    case None => None
  }

  /** `removeComments`: quoted literals are kept, `--` comments up to the line break and
      terminated block comments are deleted. */
  function RemoveComments(s: string): (r: string)
    ensures |r| <= |s|
    decreases |s|
  {
    if |s| == 0 then []
    else if IsQuote(s[0]) && LiteralLength(s).Some? then
      var k := LiteralLength(s).value;
      Replacement(s[..k], "") + RemoveComments(s[k..])
    else if "--" <= s then
      var k := 2 + LineLength(s[2..]);
      Replacement(s[..k], "") + RemoveComments(s[k..])
    else if "/*" <= s && BlockCommentLength(s).Some? then
      var k := BlockCommentLength(s).value;
      Replacement(s[..k], "") + RemoveComments(s[k..])
    else [s[0]] + RemoveComments(s[1..])
  }

  /** First pass of `minifySQL`: each tab, carriage return or line feed outside a
      literal becomes one space. */
  function BreaksToSpaces(s: string): (r: string)
    ensures |r| == |s|
    decreases |s|
  {
    if |s| == 0 then []
    else if IsQuote(s[0]) && LiteralLength(s).Some? then
      var k := LiteralLength(s).value;
      Replacement(s[..k], " ") + BreaksToSpaces(s[k..])
    else if IsTabOrBreak(s[0]) then Replacement(s[..1], " ") + BreaksToSpaces(s[1..])
    else [s[0]] + BreaksToSpaces(s[1..])
  }

  /** `r` is `s` with some of its tabs, carriage returns and line feeds turned into
      spaces, and nothing else changed. */
  predicate Blanked(s: string, r: string) {
    |r| == |s| && forall i :: 0 <= i < |s| ==> r[i] == s[i] || (IsTabOrBreak(s[i]) && r[i] == ' ')
  }

  lemma BlankedConcat(a: string, ra: string, b: string, rb: string)
    requires Blanked(a, ra) && Blanked(b, rb)
    ensures Blanked(a + b, ra + rb)
  {
    forall i | |a| <= i < |a| + |b|
      ensures (ra + rb)[i] == rb[i - |a|] && (a + b)[i] == b[i - |a|]
    {
    }
  }

  /** The first pass only ever turns a tab, carriage return or line feed into a space. */
  lemma {:induction false} BreaksToSpacesSpec(s: string)
    ensures Blanked(s, BreaksToSpaces(s))
    decreases |s|
  {
    if |s| > 0 {
      var k := if IsQuote(s[0]) && LiteralLength(s).Some? then LiteralLength(s).value else 1;
      var head := BreaksToSpaces(s)[..k];
      BreaksToSpacesSpec(s[k..]);
      BreaksToSpacesHead(s);
      BlankedConcat(s[..k], head, s[k..], BreaksToSpaces(s[k..]));
      TakeDrop(s, k);
    }
  }

  /** The first piece the pass rewrites is blanked, and the pass goes on after it. */
  lemma BreaksToSpacesHead(s: string)
    requires |s| > 0
    ensures var k := if IsQuote(s[0]) && LiteralLength(s).Some? then LiteralLength(s).value else 1;
            var head := BreaksToSpaces(s)[..k];
            Blanked(s[..k], head) && BreaksToSpaces(s) == head + BreaksToSpaces(s[k..])
  {
    var k := if IsQuote(s[0]) && LiteralLength(s).Some? then LiteralLength(s).value else 1;
    var x;
    if IsQuote(s[0]) && LiteralLength(s).Some? {
      x := s[..k];
      assert Blanked(s[..k], x);
    } else {
      x := if IsTabOrBreak(s[0]) then " " else [s[0]];
      assert s[..1][0] == s[0];
      assert Blanked(s[..1], x);
    }
    assert BreaksToSpaces(s) == x + BreaksToSpaces(s[k..]);
    assert (x + BreaksToSpaces(s[k..]))[..k] == x;
  }

  /** Number of leading spaces of `s`. */
  function SpaceRun(s: string): (k: nat)
    ensures k <= |s|
    ensures k < |s| ==> s[k] != ' '
    decreases |s|
  {
    if |s| > 0 && s[0] == ' ' then 1 + SpaceRun(s[1..]) else 0
  }

  /** The run counted by `SpaceRun` is all spaces: with the character that ends it, it
      is the longest run of spaces at the start. */
  lemma {:induction false} SpaceRunSpec(s: string)
    ensures forall i :: 0 <= i < SpaceRun(s) ==> s[i] == ' '
    decreases |s|
  {
    if |s| > 0 && s[0] == ' ' {
      SpaceRunSpec(s[1..]);
      assert forall i :: 1 <= i < SpaceRun(s) ==> s[i] == s[1..][i - 1];
    }
  }

  /** Second pass of `minifySQL`: each run of two or more spaces outside a literal
      becomes one space. */
  function CollapseSpaces(s: string): (r: string)
    ensures |r| <= |s|
    decreases |s|
  {
    if |s| == 0 then []
    else if IsQuote(s[0]) && LiteralLength(s).Some? then
      var k := LiteralLength(s).value;
      Replacement(s[..k], " ") + CollapseSpaces(s[k..])
    else if SpaceRun(s) >= 2 then
      var k := SpaceRun(s);
      Replacement(s[..k], " ") + CollapseSpaces(s[k..])
    else [s[0]] + CollapseSpaces(s[1..])
  }

  /** `minifySQL`: both passes, then `trim`. */
  function MinifySql(s: string): (r: string)
    ensures IsTrimmed(r) && |r| <= |s|
  {
    Trim(CollapseSpaces(BreaksToSpaces(s)))
  }

  predicate NoQuotes(s: string) {
    forall i :: 0 <= i < |s| ==> !IsQuote(s[i])
  }

  predicate NoTabsOrBreaks(s: string) {
    forall i :: 0 <= i < |s| ==> !IsTabOrBreak(s[i])
  }

  predicate NoDoubleSpace(s: string) {
    forall i :: 0 <= i < |s| - 1 ==> !(s[i] == ' ' && s[i + 1] == ' ')
  }

  /** No line comment or block comment can start inside `a`, and no literal either. */
  predicate IsPlainText(a: string) {
    forall i :: 0 <= i < |a| ==> !IsQuote(a[i]) && a[i] != '-' && a[i] != '/'
  }

  // ---------------------------------------------------------------------------
  // Quoted literals

  lemma {:induction false} LiteralTailIsEscaped(t: string, q: char)
    requires LiteralTail(t, q).Some?
    ensures var k := LiteralTail(t, q).value; Escape(Unescape(t[..k - 1], q), q) == t[..k - 1]
    decreases |t|
  {
    if t[0] != q {
      LiteralTailIsEscaped(t[1..], q);
      EscapedStep(t, q, 1);
    } else if |t| >= 2 && t[1] == q && LiteralTail(t[2..], q).Some? {
      LiteralTailIsEscaped(t[2..], q);
      EscapedStep(t, q, 2);
    }
  }

  /** The step of `LiteralTailIsEscaped`: past a character other than the quote, or past
      a doubled quote. */
  lemma EscapedStep(t: string, q: char, d: nat)
    requires (d == 1 && |t| >= 1 && t[0] != q) || (d == 2 && |t| >= 2 && t[0] == q && t[1] == q)
    requires LiteralTail(t[d..], q).Some?
    requires var k := LiteralTail(t[d..], q).value;
             Escape(Unescape(t[d..][..k - 1], q), q) == t[d..][..k - 1]
    ensures LiteralTail(t, q).Some?
    ensures var k := LiteralTail(t, q).value; Escape(Unescape(t[..k - 1], q), q) == t[..k - 1]
  {
    var h, rest := t[..d], t[d..];
    var k' := LiteralTail(rest, q).value;
    assert h == [q, q] || (|h| == 1 && h[0] != q) by {
      if d == 2 {
        assert h == [t[0], t[1]];
      }
    }
    TakeDrop(t, d);
    LiteralTailStep(h, rest, q);
    PrefixSplit(t, d, k' + d - 1);
    UnescapeHead(h, rest[..k' - 1], q);
  }

  /** A character other than the quote, or a doubled quote, read back and written again. */
  lemma UnescapeHead(h: string, w: string, q: char)
    requires h == [q, q] || (|h| == 1 && h[0] != q)
    ensures Unescape(h + w, q) == [h[0]] + Unescape(w, q)
    ensures Escape([h[0]] + Unescape(w, q), q) == h + Escape(Unescape(w, q), q)
  {
    assert (h + w)[|h|..] == w;
    assert ([h[0]] + Unescape(w, q))[1..] == Unescape(w, q);
  }

  /** Every literal the scanner accepts is `Quote` applied to some content: its inner
      quotes all come in doubled pairs. */
  lemma LiteralIsQuoted(s: string)
    requires |s| > 0 && IsQuote(s[0]) && LiteralLength(s).Some?
    ensures var k := LiteralLength(s).value; s[..k] == Quote(Unescape(s[1..k - 1], s[0]), s[0])
  {
    var q, k := s[0], LiteralLength(s).value;
    var u := s[1..k - 1];
    LiteralTailIsEscaped(s[1..], q);
    assert LiteralTail(s[1..], q).value == k - 1;
    assert s[1..][..k - 2] == u;
    assert Escape(Unescape(u, q), q) == u;
    Enclosed(s, k);
  }

  /** The first `k` characters are the first, the inside and the last. */
  lemma Enclosed<T>(s: seq<T>, k: nat)
    requires 2 <= k <= |s|
    ensures s[..k] == [s[0]] + s[1..k - 1] + [s[k - 1]]
  {
  }

  lemma {:induction false} LiteralTailLongest(c: string, q: char, more: string)
    ensures var r := LiteralTail(Escape(c, q) + [q] + more, q);
            r.Some? && r.value >= |Escape(c, q)| + 1
    decreases |c|
  {
    if |c| == 0 {
      assert Escape(c, q) + [q] + more == [q] + more;
    } else {
      LiteralTailLongest(c[1..], q, more);
      EscapeThenClose(c, q, more);
      var h := if c[0] == q then [q, q] else [c[0]];
      LiteralTailStep(h, Escape(c[1..], q) + [q] + more, q);
    }
  }

  /** One escaped character more in front of a literal's tail. */
  lemma EscapeThenClose(c: string, q: char, rest: string)
    requires |c| > 0
    ensures var h := if c[0] == q then [q, q] else [c[0]];
            Escape(c, q) + [q] + rest == h + (Escape(c[1..], q) + [q] + rest)
            && |Escape(c, q)| == |h| + |Escape(c[1..], q)|
  {
    var h := if c[0] == q then [q, q] else [c[0]];
    var e := Escape(c[1..], q);
    assert Escape(c, q) == h + e;
    ConcatAssoc(h, e, [q]);
    ConcatAssoc(h, e + [q], rest);
  }

  /** The scan of a literal's tail passes a doubled quote or a character other than the
      quote, and ends where it would have ended without it. */
  lemma LiteralTailStep(h: string, t: string, q: char)
    requires h == [q, q] || (|h| == 1 && h[0] != q)
    requires LiteralTail(t, q).Some?
    ensures LiteralTail(h + t, q) == Some(LiteralTail(t, q).value + |h|)
  {
    assert (h + t)[|h|..] == t;
    assert (h + t)[0] == h[0];
    if |h| == 2 {
      assert (h + t)[1] == q;
    }
  }

  /** The literal found is the longest: it reaches at least to the end of every
      `Quote(c, q)` the text starts with. */
  lemma LiteralLongest(c: string, q: char, s: string)
    requires IsQuote(q) && Quote(c, q) <= s
    ensures LiteralLength(s).Some? && LiteralLength(s).value >= |Quote(c, q)|
  {
    var more := s[|Quote(c, q)|..];
    assert s == Quote(c, q) + more;
    assert s[1..] == Escape(c, q) + [q] + more;
    LiteralTailLongest(c, q, more);
  }

  /** A single quote not followed by another closes the literal. */
  lemma LiteralTailClose(q: char, rest: string)
    requires rest == [] || rest[0] != q
    ensures LiteralTail([q] + rest, q) == Some(1)
  {
    assert ([q] + rest)[0] == q;
    assert |rest| > 0 ==> ([q] + rest)[1] == rest[0];
  }

  lemma {:induction false} LiteralTailExact(c: string, q: char, rest: string)
    requires rest == [] || rest[0] != q
    ensures LiteralTail(Escape(c, q) + [q] + rest, q) == Some(|Escape(c, q)| + 1)
    decreases |c|
  {
    if |c| == 0 {
      assert Escape(c, q) + [q] + rest == [q] + rest;
      LiteralTailClose(q, rest);
    } else {
      LiteralTailExact(c[1..], q, rest);
      LiteralTailExactStep(c, q, rest);
    }
  }

  /** The step of `LiteralTailExact`: one escaped character more in front. */
  lemma LiteralTailExactStep(c: string, q: char, rest: string)
    requires |c| > 0
    requires LiteralTail(Escape(c[1..], q) + [q] + rest, q) == Some(|Escape(c[1..], q)| + 1)
    ensures LiteralTail(Escape(c, q) + [q] + rest, q) == Some(|Escape(c, q)| + 1)
  {
    EscapeThenClose(c, q, rest);
    var h := if c[0] == q then [q, q] else [c[0]];
    LiteralTailStep(h, Escape(c[1..], q) + [q] + rest, q);
  }

  /** A literal written with `Quote` and not followed by its own quote character is
      recognised exactly. */
  lemma LiteralExact(c: string, q: char, rest: string)
    requires IsQuote(q)
    requires rest == [] || rest[0] != q
    ensures LiteralLength(Quote(c, q) + rest) == Some(|Quote(c, q)|)
  {
    var s := Quote(c, q) + rest;
    assert s[1..] == Escape(c, q) + [q] + rest;
    LiteralTailExact(c, q, rest);
  }

  // ---------------------------------------------------------------------------
  // removeComments

  /** A literal is copied verbatim, whatever comment markers it contains. */
  lemma RemoveCommentsKeepsLiteral(c: string, q: char, rest: string)
    requires IsQuote(q)
    requires rest == [] || rest[0] != q
    ensures RemoveComments(Quote(c, q) + rest) == Quote(c, q) + RemoveComments(rest)
  {
    var s := Quote(c, q) + rest;
    LiteralExact(c, q, rest);
    var k := |Quote(c, q)|;
    assert s[..k] == Quote(c, q) && s[k..] == rest;
  }

  /** A `--` comment is deleted up to, not including, the line break that ends it. */
  lemma RemoveCommentsDropsLineComment(b: string, rest: string)
    requires forall i :: 0 <= i < |b| ==> !IsLineBreak(b[i])
    requires rest == [] || IsLineBreak(rest[0])
    ensures RemoveComments("--" + b + rest) == RemoveComments(rest)
  {
    var s := "--" + b + rest;
    assert s[2..] == b + rest;
    LineLengthOf(b, rest);
    assert s[|b| + 2..] == rest;
  }

  /** A line without breaks, followed by a break or by nothing, is counted exactly. */
  lemma {:induction false} LineLengthOf(b: string, rest: string)
    requires forall i :: 0 <= i < |b| ==> !IsLineBreak(b[i])
    requires rest == [] || IsLineBreak(rest[0])
    ensures LineLength(b + rest) == |b|
    decreases |b|
  {
    if |b| > 0 {
      assert (b + rest)[1..] == b[1..] + rest;
      LineLengthOf(b[1..], rest);
    } else {
      assert b + rest == rest;
    }
  }

  /** A block comment is deleted up to its first closing pair. */
  lemma RemoveCommentsDropsBlockComment(b: string, rest: string)
    requires forall j: nat :: !OccursAt(b, "*/", j)
    ensures RemoveComments("/*" + b + "*/" + rest) == RemoveComments(rest)
  {
    var s := "/*" + b + "*/" + rest;
    var x := b + "*/" + rest;
    assert s[2..] == x;
    assert "/*" <= s;
    assert OccursAt(x, "*/", |b|) by {
      assert x[|b|..|b| + 2] == "*/";
    }
    forall j: nat | j < |b| ensures !OccursAt(x, "*/", j) {
      if j + 2 <= |b| {
        assert x[j..j + 2] == b[j..j + 2];
        assert !OccursAt(b, "*/", j);
      } else {
        assert x[j + 1] == '*';
      }
    }
    IndexOfFirst(x, "*/", |b|);
    assert BlockCommentLength(s) == Some(|b| + 4);
    assert s[|b| + 4..] == rest;
  }

  /** An opening pair of a block comment with no closing pair after it is not a comment:
      it stays in the text. */
  lemma RemoveCommentsKeepsUnterminated(t: string)
    requires forall j: nat :: !OccursAt(t, "*/", j)
    ensures RemoveComments("/*" + t) == "/*" + RemoveComments(t)
  {
    var open := "/*";
    var s := open + t;
    assert s[2..] == t;
    IndexOfSpec(t, "*/");
    assert BlockCommentLength(s) == None;
    RemoveCommentsCopiesOpener(s);
    HeadTail(open, t);
    assert open[1..] == "*";
    RemoveCommentsCopies("*" + t);
    HeadTail("*", t);
    HeadTail(open, RemoveComments(t));
  }

  /** An opening pair that no closing pair follows is copied like any other character. */
  lemma RemoveCommentsCopiesOpener(s: string)
    requires "/*" <= s && BlockCommentLength(s).None?
    ensures RemoveComments(s) == [s[0]] + RemoveComments(s[1..])
  {
    assert s[0] == '/' && !("--" <= s);
  }

  /** Text that can start neither a literal nor a comment is copied as it is. */
  lemma {:induction false} RemoveCommentsKeepsPlain(a: string, rest: string)
    requires IsPlainText(a)
    ensures RemoveComments(a + rest) == a + RemoveComments(rest)
    decreases |a|
  {
    if |a| > 0 {
      HeadTail(a, rest);
      RemoveCommentsCopies(a + rest);
      RemoveCommentsKeepsPlain(a[1..], rest);
      HeadTail(a, RemoveComments(rest));
    } else {
      assert a + rest == rest;
    }
  }

  /** A character that starts neither a literal nor a comment is copied. */
  lemma RemoveCommentsCopies(s: string)
    requires |s| > 0 && !IsQuote(s[0]) && s[0] != '-' && s[0] != '/'
    ensures RemoveComments(s) == [s[0]] + RemoveComments(s[1..])
  {
    assert !("--" <= s) && !("/*" <= s);
  }

  // ---------------------------------------------------------------------------
  // minifySQL

  lemma BreaksToSpacesKeepsLiteral(c: string, q: char, rest: string)
    requires IsQuote(q)
    requires rest == [] || rest[0] != q
    ensures BreaksToSpaces(Quote(c, q) + rest) == Quote(c, q) + BreaksToSpaces(rest)
  {
    var s := Quote(c, q) + rest;
    LiteralExact(c, q, rest);
    var k := |Quote(c, q)|;
    assert s[..k] == Quote(c, q) && s[k..] == rest;
  }

  lemma CollapseSpacesKeepsLiteral(c: string, q: char, rest: string)
    requires IsQuote(q)
    requires rest == [] || rest[0] != q
    ensures CollapseSpaces(Quote(c, q) + rest) == Quote(c, q) + CollapseSpaces(rest)
  {
    var s := Quote(c, q) + rest;
    LiteralExact(c, q, rest);
    var k := |Quote(c, q)|;
    assert s[..k] == Quote(c, q) && s[k..] == rest;
  }

  /** Outside literals, the first pass turns every tab, CR and LF into a space and
      keeps every other character. */
  lemma {:induction false} BreaksToSpacesWithoutQuotes(s: string)
    requires NoQuotes(s)
    ensures forall i :: 0 <= i < |s| ==>
      BreaksToSpaces(s)[i] == (if IsTabOrBreak(s[i]) then ' ' else s[i])
    decreases |s|
  {
    if |s| > 0 {
      assert forall i :: 0 <= i < |s| - 1 ==> s[1..][i] == s[i + 1];
      BreaksToSpacesWithoutQuotes(s[1..]);
    }
  }

  /** The characters other than spaces, in order. */
  function NonSpaces(s: string): string
    decreases |s|
  {
    if |s| == 0 then [] else (if s[0] == ' ' then [] else [s[0]]) + NonSpaces(s[1..])
  }

  lemma {:induction false} NonSpacesConcat(a: string, b: string)
    ensures NonSpaces(a + b) == NonSpaces(a) + NonSpaces(b)
    decreases |a|
  {
    if |a| > 0 {
      assert (a + b)[1..] == a[1..] + b;
      NonSpacesConcat(a[1..], b);
    } else {
      assert a + b == b;
    }
  }

  lemma {:induction false} NonSpacesOfSpaces(s: string)
    requires forall i :: 0 <= i < |s| ==> s[i] == ' '
    ensures NonSpaces(s) == []
    decreases |s|
  {
    if |s| > 0 {
      NonSpacesOfSpaces(s[1..]);
    }
  }

  /** The second pass deletes spaces and nothing else. */
  lemma {:induction false} CollapseSpacesOnlyDropsSpaces(s: string)
    ensures NonSpaces(CollapseSpaces(s)) == NonSpaces(s)
    decreases |s|
  {
    if |s| > 0 {
      var k, head := CollapseSpacesHead(s);
      CollapseSpacesOnlyDropsSpaces(s[k..]);
      TakeDrop(s, k);
      NonSpacesConcat(s[..k], s[k..]);
      NonSpacesConcat(head, CollapseSpaces(s[k..]));
    }
  }

  /** The first unit the second pass looks at (a literal, a run of spaces or one
      character) becomes `head`, which holds the same characters other than spaces. */
  lemma CollapseSpacesHead(s: string) returns (k: nat, head: string)
    requires |s| > 0
    ensures 0 < k <= |s| && CollapseSpaces(s) == head + CollapseSpaces(s[k..])
    ensures NonSpaces(head) == NonSpaces(s[..k])
  {
    if IsQuote(s[0]) && LiteralLength(s).Some? {
      k := LiteralLength(s).value;
      head := s[..k];
      assert head[0] == s[0] == s[k - 1] == head[k - 1];
      assert Replacement(head, " ") == head;
    } else if SpaceRun(s) >= 2 {
      k := SpaceRun(s);
      head := " ";
      assert s[..k][0] == ' ';
      assert Replacement(s[..k], " ") == head;
      SpaceRunSpec(s);
      NonSpacesOfSpaces(s[..k]);
      assert NonSpaces(" ") == [];
    } else {
      k := 1;
      head := [s[0]];
      assert s[..1] == head;
    }
  }

  lemma {:induction false} NonSpacesKeeps(s: string, i: nat)
    requires i < |s| && s[i] != ' '
    ensures s[i] in NonSpaces(s)
    decreases |s|
  {
    if i > 0 {
      NonSpacesKeeps(s[1..], i - 1);
    }
  }

  lemma {:induction false} NonSpacesFrom(s: string, c: char)
    requires c in NonSpaces(s)
    ensures c in s
    decreases |s|
  {
    if s[0] == ' ' || NonSpaces(s)[0] != c {
      assert NonSpaces(s) == (if s[0] == ' ' then [] else [s[0]]) + NonSpaces(s[1..]);
      NonSpacesFrom(s[1..], c);
    }
  }

  /** `k` spaces. */
  function Spaces(k: nat): (r: string)
    ensures |r| == k && forall i :: 0 <= i < k ==> r[i] == ' '
  {
    seq(k, _ => ' ')
  }

  /** A run of spaces, of any length, that ends before a character other than a space
      or at the end of the text, leaves exactly one space. */
  lemma CollapseSpacesRun(k: nat, rest: string)
    requires k >= 1 && (rest == [] || rest[0] != ' ')
    ensures CollapseSpaces(Spaces(k) + rest) == " " + CollapseSpaces(rest)
  {
    var s := Spaces(k) + rest;
    SpaceRunExact(s, k);
    assert s[..k] == Spaces(k) && s[k..] == rest && s[0] == ' ';
    if k == 1 {
      assert s[1..] == rest;
    } else {
      assert Replacement(s[..k], " ") == " ";
    }
  }

  /** After plain text, a run of spaces that ends before a character other than a space,
      or at the end, leaves exactly one space: `select  *` becomes `select *`. */
  lemma CollapseSpacesRunAfter(a: string, k: nat, rest: string)
    requires NoQuotes(a) && NoDoubleSpace(a) && (a == [] || a[|a| - 1] != ' ')
    requires k >= 1 && (rest == [] || rest[0] != ' ')
    ensures CollapseSpaces(a + Spaces(k) + rest) == a + " " + CollapseSpaces(rest)
  {
    CollapseSpacesPlain(a, Spaces(k) + rest);
    CollapseSpacesRun(k, rest);
    ConcatAssoc(a, Spaces(k), rest);
    ConcatAssoc(a, " ", CollapseSpaces(rest));
  }

  /** The leading run of spaces is exactly the `k` spaces in front of a non-space. */
  lemma {:induction false} SpaceRunExact(s: string, k: nat)
    requires k <= |s| && (forall i :: 0 <= i < k ==> s[i] == ' ') && (k == |s| || s[k] != ' ')
    ensures SpaceRun(s) == k
    decreases k
  {
    if k > 0 {
      SpaceRunExact(s[1..], k - 1);
    }
  }

  lemma {:induction false} CollapseSpacesFirst(s: string)
    requires |s| > 0 && s[0] != ' '
    ensures |CollapseSpaces(s)| > 0 && CollapseSpaces(s)[0] == s[0]
  {
    if IsQuote(s[0]) && LiteralLength(s).Some? {
      var k := LiteralLength(s).value;
      assert s[..k][0] == s[0];
    }
  }

  /** Outside literals, no two spaces are left next to each other. */
  lemma {:induction false} CollapseSpacesNoDoubleSpace(s: string)
    requires NoQuotes(s)
    ensures NoDoubleSpace(CollapseSpaces(s))
    decreases |s|
  {
    if |s| > 0 {
      var k, h := NoQuotesHead(s);
      CollapseSpacesNoDoubleSpace(s[k..]);
      var tail := CollapseSpaces(s[k..]);
      if |tail| > 0 && h == ' ' {
        CollapseSpacesFirst(s[k..]);
      }
      NoDoubleSpaceCons(h, tail);
    }
  }

  /** Without literals, the second pass emits one character `h` for the first `k`: a
      run of two spaces or more, or a single character. A space it emits is not followed
      by another space. */
  lemma NoQuotesHead(s: string) returns (k: nat, h: char)
    requires |s| > 0 && NoQuotes(s)
    ensures 0 < k <= |s| && CollapseSpaces(s) == [h] + CollapseSpaces(s[k..])
    ensures NoQuotes(s[k..])
    ensures k < |s| && h == ' ' ==> s[k] != ' '
  {
    if SpaceRun(s) >= 2 {
      k := SpaceRun(s);
      h := ' ';
      assert s[..k][0] == ' ';
      assert Replacement(s[..k], " ") == [h];
    } else {
      k := 1;
      h := s[0];
      if 1 < |s| && h == ' ' {
        assert SpaceRun(s) == 1 + SpaceRun(s[1..]);
        assert s[1..][0] == s[1];
      }
    }
    forall i | 0 <= i < |s| - k ensures !IsQuote(s[k..][i]) {
      assert s[k..][i] == s[k + i];
    }
  }

  /** A character in front keeps a text free of double spaces unless both are spaces. */
  lemma NoDoubleSpaceCons(h: char, t: string)
    requires NoDoubleSpace(t) && (|t| > 0 && h == ' ' ==> t[0] != ' ')
    ensures NoDoubleSpace([h] + t)
  {
    forall i | 0 <= i < |t| ensures !(([h] + t)[i] == ' ' && ([h] + t)[i + 1] == ' ') {
      assert ([h] + t)[i + 1] == t[i];
      if i > 0 {
        assert ([h] + t)[i] == t[i - 1];
      }
    }
  }

  /** Without tabs and line breaks in, none come out of the second pass. */
  lemma CollapseSpacesNoTabsOrBreaks(b: string)
    requires NoTabsOrBreaks(b)
    ensures NoTabsOrBreaks(CollapseSpaces(b))
  {
    var c := CollapseSpaces(b);
    CollapseSpacesOnlyDropsSpaces(b);
    forall i | 0 <= i < |c| ensures !IsTabOrBreak(c[i]) {
      if c[i] != ' ' {
        NonSpacesKeeps(c, i);
        NonSpacesFrom(b, c[i]);
      }
    }
  }

  lemma TrimKeepsLayout(c: string)
    requires NoTabsOrBreaks(c) && NoDoubleSpace(c)
    ensures NoTabsOrBreaks(Trim(c)) && NoDoubleSpace(Trim(c))
  {
    var r := Trim(c);
    TrimSlice(c);
    var j := LeadFrom(c, 0);
    assert forall i :: 0 <= i < |r| ==> r[i] == c[j + i];
  }

  /** On text without quote characters, `minifySQL` leaves no tab, CR or LF, no two
      consecutive spaces, and no whitespace at either end. */
  lemma MinifyWithoutQuotes(s: string)
    requires NoQuotes(s)
    ensures var r := MinifySql(s); NoTabsOrBreaks(r) && NoDoubleSpace(r) && IsTrimmed(r)
  {
    var b := BreaksToSpaces(s);
    BreaksToSpacesWithoutQuotes(s);
    assert NoQuotes(b);
    assert NoTabsOrBreaks(b);
    var c := CollapseSpaces(b);
    CollapseSpacesNoDoubleSpace(b);
    CollapseSpacesNoTabsOrBreaks(b);
    TrimKeepsLayout(c);
  }

  /** A literal, plain text and a line comment after it: the literal survives verbatim
      and the comment goes. */
  lemma LiteralThenComment(c: string, q: char, gap: string, r2: string)
    requires IsQuote(q) && IsPlainText(gap)
    requires |r2| > 0 && r2[0] == '-'
    ensures RemoveComments(Quote(c, q) + (gap + r2)) == Quote(c, q) + (gap + RemoveComments(r2))
  {
    var r1 := gap + r2;
    if |gap| > 0 { assert r1[0] == gap[0]; } else { assert r1[0] == '-'; }
    RemoveCommentsKeepsLiteral(c, q, r1);
    RemoveCommentsKeepsPlain(gap, r2);
  }

  /** A literal followed by a line comment: the literal survives verbatim, whatever
      comment markers it holds, and the comment is deleted up to its line break. */
  lemma CommentAfterLiteral(pre: string, c: string, q: char, gap: string, b: string, post: string, s: string)
    requires IsPlainText(pre) && IsQuote(q) && IsPlainText(gap)
    requires forall i :: 0 <= i < |b| ==> !IsLineBreak(b[i])
    requires post == [] || IsLineBreak(post[0])
    requires s == pre + (Quote(c, q) + (gap + ("--" + b + post)))
    ensures RemoveComments(s) == pre + (Quote(c, q) + (gap + RemoveComments(post)))
  {
    var r2 := "--" + b + post;
    RemoveCommentsKeepsPlain(pre, Quote(c, q) + (gap + r2));
    LiteralThenComment(c, q, gap, r2);
    RemoveCommentsDropsLineComment(b, post);
  }

  /** Text without quotes, tabs or line breaks goes through the first pass of
      `minifySQL` unchanged. */
  lemma {:induction false} BreaksToSpacesPlain(a: string, rest: string)
    requires NoQuotes(a) && NoTabsOrBreaks(a)
    ensures BreaksToSpaces(a + rest) == a + BreaksToSpaces(rest)
    decreases |a|
  {
    if |a| > 0 {
      HeadTail(a, rest);
      assert !IsQuote(a[0]) && !IsTabOrBreak(a[0]);
      BreaksToSpacesPlain(a[1..], rest);
      HeadTail(a, BreaksToSpaces(rest));
    } else {
      assert a + rest == rest;
    }
  }

  /** Text without quotes or double spaces goes through the second pass of `minifySQL`
      unchanged, provided no run of spaces straddles its end. */
  lemma {:induction false} CollapseSpacesPlain(a: string, rest: string)
    requires NoQuotes(a) && NoDoubleSpace(a)
    requires a == [] || rest == [] || a[|a| - 1] != ' ' || rest[0] != ' '
    ensures CollapseSpaces(a + rest) == a + CollapseSpaces(rest)
    decreases |a|
  {
    var s := a + rest;
    if |a| > 0 {
      var u := a[1..] + rest;
      HeadTail(a, rest);
      assert SpaceRun(s) < 2 by {
        if |s| >= 2 {
          if |a| >= 2 {
            assert s[1] == a[1];
          } else {
            assert s[1] == rest[0];
          }
          assert !(s[0] == ' ' && s[1] == ' ');
        }
      }
      if |a| >= 2 {
        assert a[1..][|a[1..]| - 1] == a[|a| - 1];
      }
      CollapseSpacesPlain(a[1..], rest);
      HeadTail(a, CollapseSpaces(rest));
    } else {
      assert s == rest;
    }
  }

  /** Escaping works character by character. */
  lemma {:induction false} EscapeConcat(a: string, b: string, q: char)
    ensures Escape(a + b, q) == Escape(a, q) + Escape(b, q)
    decreases |a|
  {
    if |a| == 0 {
      assert a + b == b;
    } else {
      assert (a + b)[0] == a[0] && (a + b)[1..] == a[1..] + b;
      EscapeConcat(a[1..], b, q);
    }
  }

  /** Content without the delimiting quote is written verbatim. */
  lemma {:induction false} EscapeWithoutQuote(c: string, q: char)
    requires q !in c
    ensures Escape(c, q) == c
    decreases |c|
  {
    if |c| > 0 {
      assert c[0] != q;
      EscapeWithoutQuote(c[1..], q);
    }
  }

  /** A `/` not followed by `*` is ordinary text. */
  lemma RemoveCommentsKeepsSlash(u: string)
    requires u == [] || u[0] != '*'
    ensures RemoveComments("/" + u) == "/" + RemoveComments(u)
  {
    var s := "/" + u;
    assert s[0] == '/' && s[1..] == u;
    assert !("--" <= s) && !("/*" <= s);
  }

  /** A quote with no quote of its kind after it opens no literal. */
  lemma UnmatchedQuote(q: char, t: string)
    requires IsQuote(q) && q !in t
    ensures LiteralLength([q] + t).None?
  {
    assert ([q] + t)[1..] == t;
  }

  /** A quote that opens no literal is ordinary text for `removeComments`. */
  lemma RemoveCommentsKeepsUnmatchedQuote(s: string)
    requires |s| > 0 && IsQuote(s[0]) && LiteralLength(s).None?
    ensures RemoveComments(s) == [s[0]] + RemoveComments(s[1..])
  {
  }

  /** A `-` not followed by another `-` is ordinary text, as in a subtraction. */
  lemma RemoveCommentsKeepsLoneDash(u: string)
    requires u == [] || u[0] != '-'
    ensures RemoveComments("-" + u) == "-" + RemoveComments(u)
  {
    var s := "-" + u;
    assert s[0] == '-' && s[1..] == u;
    assert !("--" <= s) && !("/*" <= s);
  }

  /** A subtraction between plain operands, such as `a - b`, goes through
      `removeComments` unchanged. */
  lemma RemoveCommentsKeepsSubtraction(a: string, b: string)
    requires IsPlainText(a) && IsPlainText(b)
    ensures RemoveComments(a + "-" + b) == a + "-" + b
  {
    RemoveCommentsKeepsPlain(a, "-" + b);
    assert b == [] || b[0] != '-';
    RemoveCommentsKeepsLoneDash(b);
    RemoveCommentsKeepsPlain(b, []);
    assert b + [] == b;
    ConcatAssoc(a, "-", b);
  }

  /** A quote that opens no literal is ordinary text for the line-break pass. */
  lemma BreaksToSpacesKeepsUnmatchedQuote(s: string)
    requires |s| > 0 && IsQuote(s[0]) && LiteralLength(s).None?
    ensures BreaksToSpaces(s) == [s[0]] + BreaksToSpaces(s[1..])
  {
  }

  /** A quote that opens no literal is ordinary text for the space-run pass. */
  lemma CollapseSpacesKeepsUnmatchedQuote(s: string)
    requires |s| > 0 && IsQuote(s[0]) && LiteralLength(s).None?
    ensures CollapseSpaces(s) == [s[0]] + CollapseSpaces(s[1..])
  {
  }

  /** The apostrophe of `it's` opens no literal, so the line feed after it still
      becomes a space. */
  lemma BreaksToSpacesAfterApostrophe()
    ensures BreaksToSpaces("it's\n") == "it's "
  {
    var s := "it's\n";
    UnmatchedQuote('\'', "s\n");
    assert s[2..] == ['\''] + "s\n";
    BreaksToSpacesKeepsUnmatchedQuote(s[2..]);
    assert s[1..][1..] == s[2..] && s[2..][1..] == s[3..] && s[3..][1..] == s[4..];
    assert s[4..][1..] == [];
  }

  /** Deleting a block comment can bring a `/` before it and a `*` after it together
      into a new comment opener, which this pass does not look at again. */
  lemma RemoveCommentsJoinsOpener(c: string, x: string)
    requires forall j: nat :: !OccursAt(c, "*/", j)
    requires IsPlainText(x)
    ensures RemoveComments("/" + ("/*" + c + "*/") + ("*" + x + "*/")) == "/*" + x + "*/"
  {
    var tail := "*" + x + "*/";
    var u := "/*" + c + "*/" + tail;
    var star := "*" + x + "*";
    assert IsPlainText(star);
    JoinsOpenerLayout(c, x);
    calc {
      RemoveComments("/" + ("/*" + c + "*/") + ("*" + x + "*/"));
      RemoveComments("/" + u);
      { RemoveCommentsKeepsSlash(u); }
      "/" + RemoveComments(u);
      { RemoveCommentsDropsBlockComment(c, tail); }
      "/" + RemoveComments(tail);
      { RemoveCommentsKeepsPlain(star, "/"); }
      "/" + (star + RemoveComments("/"));
      { RemoveCommentsKeepsSlash([]); assert "/" + [] == "/"; }
      "/" + (star + "/");
    }
  }

  /** How the text of `RemoveCommentsJoinsOpener` is laid out. */
  lemma JoinsOpenerLayout(c: string, x: string)
    ensures "/" + ("/*" + c + "*/") + ("*" + x + "*/") == "/" + ("/*" + c + "*/" + ("*" + x + "*/"))
    ensures "*" + x + "*/" == ("*" + x + "*") + "/"
    ensures "/" + (("*" + x + "*") + "/") == "/*" + x + "*/"
  {
  }
}
