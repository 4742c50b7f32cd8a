/** The ECMAScript string operations the modelled code relies on
    (`trim`, `split`, `join`, `indexOf`, `replace` with a string pattern,
    `toLowerCase` on ASCII letters and `String(n)` for a natural number). */
module JsStrings {
  import opened Wrappers

  /** The WhiteSpace and LineTerminator code points of ECMAScript, the set `trim` removes. */
  predicate IsWhitespace(c: char) {
    c == '\t' || c == '\n' || c == '\U{000B}' || c == '\U{000C}' || c == '\r' || c == ' '
    || c == '\U{00A0}' || c == '\U{1680}' || ('\U{2000}' <= c <= '\U{200A}')
    || c == '\U{2028}' || c == '\U{2029}' || c == '\U{202F}' || c == '\U{205F}'
    || c == '\U{3000}' || c == '\U{FEFF}'
  }

  /** The characters whose status the model needs: tab, line feed, carriage return and
      space are whitespace; quotes, `;` and the letters of `sql` are not. */
  lemma WhitespaceFacts()
    ensures IsWhitespace('\t') && IsWhitespace('\n') && IsWhitespace('\r') && IsWhitespace(' ')
    ensures !IsWhitespace('"') && !IsWhitespace('\'') && !IsWhitespace(';')
  {
  }

  predicate AllWhitespace(s: string) {
    forall i :: 0 <= i < |s| ==> IsWhitespace(s[i])
  }

  /** No whitespace at either end: what `trim` leaves behind. */
  predicate IsTrimmed(s: string) {
    s == [] || (!IsWhitespace(s[0]) && !IsWhitespace(s[|s| - 1]))
  }

  /** The first position at or after `i` that does not hold whitespace (or `|s|`). */
  function LeadFrom(s: string, i: nat): (k: nat)
    requires i <= |s|
    ensures i <= k <= |s| && (k < |s| ==> !IsWhitespace(s[k]))
    decreases |s| - i
  {
    if i < |s| && IsWhitespace(s[i]) then LeadFrom(s, i + 1) else i
  }

  /** The end of the text before position `j` once trailing whitespace is dropped. */
  function TrailFrom(s: string, j: nat): (k: nat)
    requires j <= |s|
    ensures k <= j && (k > 0 ==> !IsWhitespace(s[k - 1]))
    decreases j
  {
    if j > 0 && IsWhitespace(s[j - 1]) then TrailFrom(s, j - 1) else j
  }

  /** `String.prototype.trim`: the slice of `s` left after dropping whitespace at both ends. */
  function Trim(s: string): (r: string)
    ensures IsTrimmed(r) && |r| <= |s|
  {
    var a := LeadFrom(s, 0);
    var b := TrailFrom(s, |s|);
    if a < b then s[a..b] else []
  }

  /** The positions skipped by `LeadFrom` hold whitespace. */
  lemma {:induction false} LeadFromDrops(s: string, i: nat)
    requires i <= |s|
    ensures forall k :: i <= k < LeadFrom(s, i) ==> IsWhitespace(s[k])
    decreases |s| - i
  {
    if i < |s| && IsWhitespace(s[i]) {
      LeadFromDrops(s, i + 1);
    }
  }

  /** The positions dropped by `TrailFrom` hold whitespace. */
  lemma {:induction false} TrailFromDrops(s: string, j: nat)
    requires j <= |s|
    ensures forall k :: TrailFrom(s, j) <= k < j ==> IsWhitespace(s[k])
    decreases j
  {
    if j > 0 && IsWhitespace(s[j - 1]) {
      TrailFromDrops(s, j - 1);
    }
  }

  /** What `trim` removes is whitespace, and what it keeps is the slice in between. */
  lemma TrimSlice(s: string)
    ensures var i := LeadFrom(s, 0);
            i + |Trim(s)| <= |s| && Trim(s) == s[i..i + |Trim(s)|]
            && (forall k :: 0 <= k < i ==> IsWhitespace(s[k]))
            && (forall k :: i + |Trim(s)| <= k < |s| ==> IsWhitespace(s[k]))
  {
    LeadFromDrops(s, 0);
    TrailFromDrops(s, |s|);
  }

  lemma TrimKeepsTrimmed(s: string)
    requires IsTrimmed(s)
    ensures Trim(s) == s
  {
  }

  /** Trimming twice is trimming once. */
  lemma TrimIdempotent(s: string)
    ensures Trim(Trim(s)) == Trim(s)
  {
    TrimKeepsTrimmed(Trim(s));
  }

  /** `trim` yields the empty string exactly when every character is whitespace. */
  lemma {:induction false} TrimEmptyIff(s: string)
    ensures Trim(s) == [] <==> AllWhitespace(s)
  {
    TrimSlice(s);
  }

  /** `trim` only removes characters. */
  lemma TrimChars(s: string)
    ensures forall c :: c in Trim(s) ==> c in s
  {
    var r := Trim(s);
    TrimSlice(s);
    var i := LeadFrom(s, 0);
    forall c | c in r ensures c in s {
      var k :| 0 <= k < |r| && r[k] == c;
      assert s[i + k] == r[k];
    }
  }

  /** A non-empty sequence is its head followed by its tail. */
  lemma ConsHeadTail<T>(xs: seq<T>)
    requires |xs| > 0
    ensures xs == [xs[0]] + xs[1..]
  {
  }

  /** A non-empty prefix of `[c] + x` starts with `c` and goes on with a prefix of `x`. */
  lemma PrefixCons(w: string, c: char, x: string)
    requires |w| > 0
    ensures w <= [c] + x <==> w[0] == c && w[1..] <= x
  {
    if w[0] == c && w[1..] <= x {
      assert w == [c] + w[1..];
    }
  }

  /** A sequence is its first `k` elements followed by the rest. */
  lemma TakeDrop<T>(xs: seq<T>, k: nat)
    requires k <= |xs|
    ensures xs[..k] + xs[k..] == xs
  {
  }

  /** Concatenation is associative. */
  lemma ConcatAssoc<T>(a: seq<T>, b: seq<T>, c: seq<T>)
    ensures a + (b + c) == (a + b) + c
  {
  }

  /** Text around a bracketed run `x + m + y`, regrouped around `m`. */
  lemma RegroupAround<T>(a: seq<T>, q: seq<T>, x: seq<T>, m: seq<T>, y: seq<T>)
    ensures a + (q + (x + m + y) + q) == (a + q + x) + m + (y + q)
  {
  }

  /** Text around a bracketed run `x + y`, regrouped between `x` and `y`. */
  lemma RegroupBetween<T>(a: seq<T>, q: seq<T>, x: seq<T>, y: seq<T>)
    ensures a + (q + (x + y) + q) == (a + q + x) + (y + q)
  {
  }

  /** Taking the first character off a concatenation. */
  lemma HeadTail<T>(a: seq<T>, x: seq<T>)
    requires |a| > 0
    ensures a + x == [a[0]] + (a[1..] + x)
    ensures (a + x)[0] == a[0] && (a + x)[1..] == a[1..] + x
  {
    assert a == [a[0]] + a[1..];
  }

  /** A prefix of `t` is its first `d` characters followed by a prefix of the rest. */
  lemma PrefixSplit(t: string, d: nat, m: nat)
    requires d <= m <= |t|
    ensures t[..m] == t[..d] + t[d..][..m - d]
  {
  }

  /** `pat` occurs in `s` starting at position `j`. */
  predicate OccursAt(s: string, pat: string, j: nat) {
    j + |pat| <= |s| && s[j..j + |pat|] == pat
  }

  /** An occurrence in a suffix is an occurrence in the whole string, further on. */
  lemma OccursInSuffix(s: string, pat: string, d: nat, j: nat)
    requires d <= |s|
    ensures OccursAt(s[d..], pat, j) <==> OccursAt(s, pat, j + d)
  {
    if j + d + |pat| <= |s| {
      assert s[j + d..j + d + |pat|] == s[d..][j..j + |pat|];
    }
  }

  /** `s.indexOf(pat)`: the first position at which `pat` occurs in `s`. */
  function IndexOf(s: string, pat: string): (r: Option<nat>)
    ensures r.Some? ==> r.value + |pat| <= |s|
    decreases |s|
  {
    if pat <= s then Some(0)
    else if |s| == 0 then None
    else
      match IndexOf(s[1..], pat)
      case Some(i) => Some(i + 1)
      case None => None
  }

  /** `indexOf` finds the first occurrence, and finds none only where there is none. */
  lemma {:induction false} IndexOfSpec(s: string, pat: string)
    ensures IndexOf(s, pat).Some? ==> OccursAt(s, pat, IndexOf(s, pat).value)
    ensures IndexOf(s, pat).Some? ==> forall j :: 0 <= j < IndexOf(s, pat).value ==> !OccursAt(s, pat, j)
    ensures IndexOf(s, pat).None? ==> forall j :: 0 <= j <= |s| ==> !OccursAt(s, pat, j)
    decreases |s|
  {
    if !(pat <= s) && |s| > 0 {
      IndexOfSpec(s[1..], pat);
      if IndexOf(s[1..], pat).Some? {
        OccursInSuffix(s, pat, 1, IndexOf(s[1..], pat).value);
      }
      forall j | 1 <= j <= |s| ensures OccursAt(s, pat, j) == OccursAt(s[1..], pat, j - 1) {
        OccursInSuffix(s, pat, 1, j - 1);
      }
    }
  }

  /** The first occurrence is the one before which there is none. */
  lemma IndexOfFirst(s: string, pat: string, i: nat)
    requires OccursAt(s, pat, i)
    requires forall j :: 0 <= j < i ==> !OccursAt(s, pat, j)
    ensures IndexOf(s, pat) == Some(i)
  {
    IndexOfSpec(s, pat);
  }

  /** `s.replace(pat, rep)` with a string pattern, scanning from the left: the first copy
      of `pat` is replaced, and `s` comes back unchanged when `pat` does not occur. */
  function ReplaceFirst(s: string, pat: string, rep: string): string
    decreases |s|
  {
    if pat <= s then rep + s[|pat|..]
    else if |s| == 0 then s
    else [s[0]] + ReplaceFirst(s[1..], pat, rep)
  }

  /** `replace` splices `rep` in where `indexOf` finds `pat`, and changes nothing when it
      finds none. */
  lemma {:induction false} ReplaceFirstIndexOf(s: string, pat: string, rep: string)
    ensures ReplaceFirst(s, pat, rep) == match IndexOf(s, pat)
                                         case None => s
                                         case Some(i) => s[..i] + rep + s[i + |pat|..]
    decreases |s|
  {
    if pat <= s {
      ReplaceFirstHere(s, pat, rep);
    } else if |s| > 0 {
      ReplaceFirstIndexOf(s[1..], pat, rep);
      match IndexOf(s[1..], pat)
      case None => ReplaceFirstNoneStep(s, pat, rep);
      case Some(i) => ReplaceFirstSomeStep(s, pat, rep, i);
    }
  }

  /** Where `s` starts with `pat`, the splice is at 0. */
  lemma ReplaceFirstHere(s: string, pat: string, rep: string)
    requires pat <= s
    ensures IndexOf(s, pat) == Some(0)
    ensures ReplaceFirst(s, pat, rep) == s[..0] + rep + s[0 + |pat|..]
  {
    assert s[..0] + rep + s[|pat|..] == rep + s[|pat|..];
  }

  /** Without `pat` in `s[1..]` nor at `s[0]`, `s` has none and stays as it is. */
  lemma ReplaceFirstNoneStep(s: string, pat: string, rep: string)
    requires |s| > 0 && !(pat <= s)
    requires IndexOf(s[1..], pat) == None && ReplaceFirst(s[1..], pat, rep) == s[1..]
    ensures IndexOf(s, pat) == None && ReplaceFirst(s, pat, rep) == s
  {
    assert ReplaceFirst(s, pat, rep) == [s[0]] + ReplaceFirst(s[1..], pat, rep);
    ConsHeadTail(s);
  }

  /** The first `pat` of `s[1..]` is the first of `s` when it is not at `s[0]`, one place
      further on. */
  lemma ReplaceFirstSomeStep(s: string, pat: string, rep: string, i: nat)
    requires |s| > 0 && !(pat <= s)
    requires IndexOf(s[1..], pat) == Some(i) && i + |pat| <= |s[1..]|
    requires ReplaceFirst(s[1..], pat, rep) == s[1..][..i] + rep + s[1..][i + |pat|..]
    ensures IndexOf(s, pat) == Some(i + 1)
    ensures ReplaceFirst(s, pat, rep) == s[..i + 1] + rep + s[i + 1 + |pat|..]
  {
    IndexOfSomeStep(s, pat, i);
    assert ReplaceFirst(s, pat, rep) == [s[0]] + ReplaceFirst(s[1..], pat, rep);
    TailSplice(s, i, |pat|, rep);
  }

  /** Found at `i` in `s[1..]` and not at the start, `pat` is found at `i + 1` in `s`. */
  lemma IndexOfSomeStep(s: string, pat: string, i: nat)
    requires |s| > 0 && !(pat <= s) && IndexOf(s[1..], pat) == Some(i)
    ensures IndexOf(s, pat) == Some(i + 1)
  {
  }

  /** Splicing `rep` into `s` one place later than into `s[1..]`. */
  lemma TailSplice(s: string, i: nat, m: nat, rep: string)
    requires |s| > 0 && i + m <= |s| - 1
    ensures s[..i + 1] + rep + s[i + 1 + m..] == [s[0]] + (s[1..][..i] + rep + s[1..][i + m..])
  {
    assert s[..i + 1] == [s[0]] + s[1..][..i];
    assert s[i + 1 + m..] == s[1..][i + m..];
  }

  /** `replace` only keeps characters of `s` and adds those of `rep`. */
  lemma {:induction false} ReplaceFirstChars(s: string, pat: string, rep: string)
    ensures forall c :: c in ReplaceFirst(s, pat, rep) ==> c in s || c in rep
    decreases |s|
  {
    if pat <= s {
      assert forall c :: c in s[|pat|..] ==> c in s;
    } else if |s| > 0 {
      ReplaceFirstChars(s[1..], pat, rep);
      assert forall c :: c in s[1..] ==> c in s;
    }
  }

  /** Where the text starts with `pat`, `replace` rewrites that copy. */
  lemma ReplaceFirstAtStart(pat: string, t: string, rep: string)
    ensures ReplaceFirst(pat + t, pat, rep) == rep + t
  {
    assert pat <= pat + t;
    assert (pat + t)[|pat|..] == t;
  }

  /** A character at which `pat` does not start passes through `replace` untouched. */
  lemma ReplaceFirstCons(c: char, t: string, pat: string, rep: string)
    requires !(pat <= [c] + t)
    ensures ReplaceFirst([c] + t, pat, rep) == [c] + ReplaceFirst(t, pat, rep)
  {
    assert ([c] + t)[1..] == t;
  }

  /** A prefix none of whose characters starts `pat` passes through `replace` untouched. */
  lemma {:induction false} ReplaceFirstSkips(a: string, t: string, pat: string, rep: string)
    requires |pat| > 0
    requires forall i :: 0 <= i < |a| ==> a[i] != pat[0]
    ensures ReplaceFirst(a + t, pat, rep) == a + ReplaceFirst(t, pat, rep)
    decreases |a|
  {
    if |a| > 0 {
      var rest := a[1..];
      var u := rest + t;
      calc {
        ReplaceFirst(a + t, pat, rep);
        { assert a + t == [a[0]] + u; }
        ReplaceFirst([a[0]] + u, pat, rep);
        { assert ([a[0]] + u)[0] == a[0]; ReplaceFirstCons(a[0], u, pat, rep); }
        [a[0]] + ReplaceFirst(u, pat, rep);
        { ReplaceFirstSkips(rest, t, pat, rep); }
        [a[0]] + (rest + ReplaceFirst(t, pat, rep));
        { assert a == [a[0]] + rest; }
        a + ReplaceFirst(t, pat, rep);
      }
    } else {
      assert a + t == t;
    }
  }

  /** `s.split(sep)` for a one-character separator: the pieces between separators,
      including empty ones; a string without `sep` is one piece. */
  function Split(s: string, sep: char): (parts: seq<string>)
    ensures |parts| > 0
    ensures forall i :: 0 <= i < |parts| ==> sep !in parts[i]
    decreases |s|
  {
    if |s| == 0 then [[]]
    else
      var rest := Split(s[1..], sep);
      if s[0] == sep then [[]] + rest else [[s[0]] + rest[0]] + rest[1..]
  }

  /** `parts.join(sep)`, also what `reduce((acc, cur) => acc.concat(sep, cur))` builds. */
  function Join(parts: seq<string>, sep: char): string
    requires |parts| > 0
    decreases |parts|
  {
    if |parts| == 1 then parts[0] else parts[0] + [sep] + Join(parts[1..], sep)
  }

  /** Splitting and joining again gives back the original string. */
  lemma {:induction false} JoinSplit(s: string, sep: char)
    ensures Join(Split(s, sep), sep) == s
    decreases |s|
  {
    if |s| > 0 {
      JoinSplit(s[1..], sep);
      var rest := Split(s[1..], sep);
      if s[0] == sep {
        assert ([[]] + rest)[1..] == rest;
      } else {
        var parts := [[s[0]] + rest[0]] + rest[1..];
        if |rest| > 1 {
          assert parts[1..] == rest[1..];
          assert Join(rest, sep) == rest[0] + [sep] + Join(rest[1..], sep);
        }
      }
    }
  }

  /** Splitting a prefix free of `sep` glues it onto the first piece. */
  lemma {:induction false} SplitPrefix(a: string, t: string, sep: char)
    requires sep !in a
    ensures Split(a + t, sep) == [a + Split(t, sep)[0]] + Split(t, sep)[1..]
    decreases |a|
  {
    var x := Split(t, sep);
    if |a| > 0 {
      assert (a + t)[0] == a[0];
      assert (a + t)[1..] == a[1..] + t;
      SplitPrefix(a[1..], t, sep);
      assert [a[0]] + (a[1..] + x[0]) == a + x[0];
    } else {
      assert a + t == t;
      assert a + x[0] == x[0];
    }
  }

  /** Every `sep` cuts: splitting at one occurrence splits each side independently. */
  lemma {:induction false} SplitAt(x: string, y: string, sep: char)
    ensures Split(x + [sep] + y, sep) == Split(x, sep) + Split(y, sep)
    decreases |x|
  {
    if |x| == 0 {
      var s := x + [sep] + y;
      assert s == [sep] + y && s[1..] == y;
    } else {
      SplitAt(x[1..], y, sep);
      SplitAtStep(x, y, sep);
    }
  }

  /** The cut at `sep` after `x` carries over from `x[1..]` to `x`. */
  lemma SplitAtStep(x: string, y: string, sep: char)
    requires |x| > 0
    requires Split(x[1..] + [sep] + y, sep) == Split(x[1..], sep) + Split(y, sep)
    ensures Split(x + [sep] + y, sep) == Split(x, sep) + Split(y, sep)
  {
    var s := x + [sep] + y;
    assert s[0] == x[0] && s[1..] == x[1..] + [sep] + y;
    var a := Split(x[1..], sep);
    var b := Split(y, sep);
    if x[0] == sep {
      assert Split(s, sep) == [[]] + (a + b);
      assert Split(x, sep) == [[]] + a;
      ConcatAssoc([[]], a, b);
    } else {
      HeadTail(a, b);
      assert Split(s, sep) == [[x[0]] + a[0]] + (a[1..] + b);
      assert Split(x, sep) == [[x[0]] + a[0]] + a[1..];
      ConcatAssoc([[x[0]] + a[0]], a[1..], b);
    }
  }

  /** Joining pieces free of `sep` and splitting again gives back the pieces. */
  lemma {:induction false} SplitJoin(parts: seq<string>, sep: char)
    requires |parts| > 0
    requires forall i :: 0 <= i < |parts| ==> sep !in parts[i]
    ensures Split(Join(parts, sep), sep) == parts
    decreases |parts|
  {
    SplitPrefix(parts[0], [], sep);
    assert parts[0] + [] == parts[0];
    if |parts| > 1 {
      SplitJoin(parts[1..], sep);
      var t := [sep] + Join(parts[1..], sep);
      assert parts[0] + [sep] + Join(parts[1..], sep) == parts[0] + t;
      SplitPrefix(parts[0], t, sep);
      assert t[1..] == Join(parts[1..], sep);
      assert Split(t, sep) == [[]] + parts[1..];
      assert parts == [parts[0]] + parts[1..];
    }
  }

  /** Joining one more piece appends the separator and the piece: `reduce` builds the
      same string from left to right. */
  lemma {:induction false} JoinSnoc(parts: seq<string>, x: string, sep: char)
    requires |parts| > 0
    ensures Join(parts + [x], sep) == Join(parts, sep) + [sep] + x
    decreases |parts|
  {
    var q := parts + [x];
    if |parts| > 1 {
      assert q[1..] == parts[1..] + [x];
      JoinSnoc(parts[1..], x, sep);
    } else {
      assert q[1..] == [x];
    }
  }

  /** The last piece of a split is the longest suffix without `sep`: it is either the whole
      string or follows the last `sep`. */
  lemma {:induction false} SplitLast(s: string, sep: char)
    ensures var e := Split(s, sep)[|Split(s, sep)| - 1];
            |e| <= |s| && e == s[|s| - |e|..] && (|e| == |s| || s[|s| - |e| - 1] == sep)
            && (|Split(s, sep)| > 1 ==> |e| < |s|)
    decreases |s|
  {
    if |s| > 0 {
      SplitLast(s[1..], sep);
      SplitLastStep(s, sep);
    }
  }

  /** The last piece of `s[1..]` is the last piece of `s`, but for a first piece that
      runs to the end. */
  lemma SplitLastStep(s: string, sep: char)
    requires |s| > 0
    requires var t := s[1..];
             var e := Split(t, sep)[|Split(t, sep)| - 1];
             |e| <= |t| && e == t[|t| - |e|..] && (|e| == |t| || t[|t| - |e| - 1] == sep)
             && (|Split(t, sep)| > 1 ==> |e| < |t|)
    ensures var e := Split(s, sep)[|Split(s, sep)| - 1];
            |e| <= |s| && e == s[|s| - |e|..] && (|e| == |s| || s[|s| - |e| - 1] == sep)
            && (|Split(s, sep)| > 1 ==> |e| < |s|)
  {
    var t := s[1..];
    var rest := Split(t, sep);
    var e := rest[|rest| - 1];
    if s[0] != sep && |rest| == 1 {
      SplitLastWhole(s, sep);
      assert s[|s| - |s|..] == s;
    } else {
      SplitLastSame(s, sep);
      SuffixAfterSep(s, e, sep);
    }
  }

  /** A suffix `e` of `s[1..]` that follows a separator there, or follows `s[0]` when
      that is one, is a suffix of `s` that follows a separator. */
  lemma SuffixAfterSep(s: string, e: string, sep: char)
    requires |s| > 0 && |e| < |s| && e == s[1..][|s| - 1 - |e|..]
    requires |e| == |s| - 1 ==> s[0] == sep
    requires |e| < |s| - 1 ==> s[1..][|s| - 1 - |e| - 1] == sep
    ensures e == s[|s| - |e|..] && s[|s| - |e| - 1] == sep
  {
    SuffixOfTail(s, |e|);
    if |e| < |s| - 1 {
      assert s[|s| - |e| - 1] == s[1..][|s| - 1 - |e| - 1];
    }
  }

  /** Without a separator past its first character, `s` is its own only piece. */
  lemma SplitLastWhole(s: string, sep: char)
    requires |s| > 0 && s[0] != sep && |Split(s[1..], sep)| == 1
    ensures Split(s, sep) == [s]
  {
    var rest := Split(s[1..], sep);
    assert Split(s, sep) == [[s[0]] + rest[0]];
    JoinSplit(s[1..], sep);
    ConsHeadTail(s);
  }

  /** Otherwise the last piece of `s` is that of `s[1..]`, and it is not the only one. */
  lemma SplitLastSame(s: string, sep: char)
    requires |s| > 0 && (s[0] == sep || |Split(s[1..], sep)| > 1)
    ensures |Split(s, sep)| > 1
    ensures Split(s, sep)[|Split(s, sep)| - 1] == Split(s[1..], sep)[|Split(s[1..], sep)| - 1]
  {
    var rest := Split(s[1..], sep);
    var parts := Split(s, sep);
    if s[0] == sep {
      assert parts == [[]] + rest;
      assert parts[|rest|] == rest[|rest| - 1];
    } else {
      assert parts == [[s[0]] + rest[0]] + rest[1..];
      assert parts[|rest| - 1] == rest[1..][|rest| - 2];
    }
  }

  /** A suffix of `s` shorter than `s` is a suffix of `s[1..]`. */
  lemma SuffixOfTail<T>(s: seq<T>, m: nat)
    requires m < |s|
    ensures s[|s| - m..] == s[1..][|s| - 1 - m..]
  {
  }

  function LowerChar(c: char): char {
    if 'A' <= c <= 'Z' then (c as int - 'A' as int + 'a' as int) as char else c
  }

  /** `toLowerCase` restricted to ASCII letters; every other character is kept. */
  function ToLowerAscii(s: string): (r: string)
    ensures |r| == |s|
    ensures forall i :: 0 <= i < |s| ==> r[i] == LowerChar(s[i])
  {
    seq(|s|, i requires 0 <= i < |s| => LowerChar(s[i]))
  }

  predicate IsDigit(c: char) { '0' <= c <= '9' }

  function DigitChar(d: nat): (c: char)
    requires d < 10
    ensures IsDigit(c)
  {
    ('0' as int + d) as char
  }

  /** `String(n)` for a natural number: its decimal digits, without leading zeros. */
  function DecimalString(n: nat): (r: string)
    ensures |r| > 0
    ensures forall i :: 0 <= i < |r| ==> IsDigit(r[i])
    ensures n >= 10 ==> r[0] != '0'
  {
    if n < 10 then [DigitChar(n)] else DecimalString(n / 10) + [DigitChar(n % 10)]
  }

  function DecimalValue(s: string): nat
    requires forall i :: 0 <= i < |s| ==> IsDigit(s[i])
    decreases |s|
  {
    if |s| == 0 then 0
    else
      assert IsDigit(s[|s| - 1]);
      10 * DecimalValue(s[..|s| - 1]) + (s[|s| - 1] as int - '0' as int)
  }

  /** Reading the digits back gives the number: `String(n)` is injective. */
  lemma {:induction false} DecimalRoundTrip(n: nat)
    ensures DecimalValue(DecimalString(n)) == n
  {
    if n >= 10 {
      DecimalRoundTrip(n / 10);
      var r := DecimalString(n);
      assert r[..|r| - 1] == DecimalString(n / 10);
    }
  }
}
