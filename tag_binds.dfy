/** `tagsToBinds` of `snowflake-multisql.ts`: named placeholders `{%name%}` become the
    positional binds `:1`, `:2`, ... of the driver, and the values of the named tags are
    listed in the same order. */
module TagBinds {
  import opened Wrappers
  import opened JsStrings

  /** `\w`: an ASCII letter, digit or underscore. */
  predicate IsWordChar(c: char) {
    'a' <= c <= 'z' || 'A' <= c <= 'Z' || '0' <= c <= '9' || c == '_'
  }

  /** What `\w+` matches in full. */
  predicate IsName(n: string) {
    |n| > 0 && forall i :: 0 <= i < |n| ==> IsWordChar(n[i])
  }

  /** The placeholder `{%name%}` as it stands in the text. */
  function Raw(name: string): string {
    "{%" + name + "%}"
  }

  /** The positional bind `:k`, `":".concat(String(k))`. */
  function Marker(k: nat): string {
    ":" + DecimalString(k)
  }

  /** A tag supplied by the caller: a name and the value to bind for it. */
  datatype Tag<V> = Tag(tag: string, value: V)

  /** What `tagsToBinds` returns: the rewritten text and the values in bind order. */
  datatype Bound<V> = Bound(sqlText: string, binds: seq<V>)

  /** Number of leading word characters of `s`. */
  function WordRun(s: string): (k: nat)
    ensures k <= |s|
    ensures forall i :: 0 <= i < k ==> IsWordChar(s[i])
    ensures k < |s| ==> !IsWordChar(s[k])
    decreases |s|
  {
    if |s| > 0 && IsWordChar(s[0]) then 1 + WordRun(s[1..]) else 0
  }

  /** Length of the `{%\w+%}` match at the start of `s`, or 0 when none starts there.
      The word run cannot give characters back: `%` is not a word character. */
  function PlaceholderLength(s: string): (k: nat)
    ensures k == 0 || (5 <= k <= |s| && s[..k] == Raw(s[2..k - 2]) && IsName(s[2..k - 2]))
  {
    if "{%" <= s then
      var w := WordRun(s[2..]);
      if w > 0 && "%}" <= s[2 + w..] then
        assert s[2..2 + w] == s[2..][..w];
        assert s[..w + 4] == s[..2] + s[2..2 + w] + s[2 + w..2 + w + 2];
        w + 4
      else 0
    else 0
  }

  /** The names of `sqlText.match(/{%\w+%}/g)`, from left to right, each occurrence
      counted: the scan resumes after a match and moves on by one character otherwise. */
  function Placeholders(s: string): seq<string>
    decreases |s|
  {
    if |s| == 0 then []
    else
      var k := PlaceholderLength(s);
      if k > 0 then [s[2..k - 2]] + Placeholders(s[k..]) else Placeholders(s[1..])
  }

  /** Every name the scan finds is a word. */
  lemma {:induction false} PlaceholdersAreNames(s: string)
    ensures forall i :: 0 <= i < |Placeholders(s)| ==> IsName(Placeholders(s)[i])
    decreases |s|
  {
    if |s| > 0 {
      var k := PlaceholderLength(s);
      if k > 0 {
        PlaceholdersAreNames(s[k..]);
        AllNamesCons(s[2..k - 2], Placeholders(s[k..]));
      } else {
        PlaceholdersAreNames(s[1..]);
      }
    }
  }

  /** The text once every placeholder has been replaced: the k-th occurrence, counting
      from `next`, becomes `:k`. */
  function Positional(s: string, next: nat): string
    decreases |s|
  {
    if |s| == 0 then []
    else
      var k := PlaceholderLength(s);
      if k > 0 then Marker(next) + Positional(s[k..], next + 1)
      else [s[0]] + Positional(s[1..], next)
  }

  /** The text after the first `done` placeholders have been replaced by `:next`,
      `:next+1`, ..., the rest being left as it was. */
  function PartlyPositional(s: string, done: nat, next: nat): string
    decreases |s|
  {
    if done == 0 || |s| == 0 then s
    else
      var k := PlaceholderLength(s);
      if k > 0 then Marker(next) + PartlyPositional(s[k..], done - 1, next + 1)
      else [s[0]] + PartlyPositional(s[1..], done, next)
  }

  /** `tagValues.find((tv) => tv.tag === name)`: the first tag with exactly that name. */
  function FindTag<V>(tags: seq<Tag<V>>, name: string): (r: Option<Tag<V>>)
    ensures r.Some? ==> r.value in tags && r.value.tag == name
    decreases |tags|
  {
    if |tags| == 0 then None
    else if tags[0].tag == name then Some(tags[0])
    else FindTag(tags[1..], name)
  }

  /** The values pushed onto `binds`, one per name that has a tag, in order. */
  function BindsFor<V>(names: seq<string>, tags: seq<Tag<V>>): seq<V>
    decreases |names|
  {
    if |names| == 0 then []
    else
      var init := BindsFor(names[..|names| - 1], tags);
      match FindTag(tags, names[|names| - 1])
      case Some(t) => init + [t.value]
      case None => init
  }

  /** `textTags.filter((t, i) => textTags.indexOf(t) === i)`: the first occurrence of
      each name, in order. */
  function Dedup(xs: seq<string>): (r: seq<string>)
    ensures forall x :: x in r <==> x in xs
    ensures forall i, j :: 0 <= i < j < |r| ==> r[i] != r[j]
    decreases |xs|
  {
    if |xs| == 0 then []
    else
      var init := xs[..|xs| - 1];
      var d := Dedup(init);
      assert xs == init + [xs[|xs| - 1]];
      if xs[|xs| - 1] in init then d else d + [xs[|xs| - 1]]
  }

  /** Every placeholder name has a tag. */
  predicate AllTagged<V>(names: seq<string>, tags: seq<Tag<V>>) {
    forall i :: 0 <= i < |names| ==> FindTag(tags, names[i]).Some?
  }

  /** The text `match` yields for each placeholder. */
  function Matches(s: string): seq<string> {
    seq(|Placeholders(s)|, i requires 0 <= i < |Placeholders(s)| => Raw(Placeholders(s)[i]))
  }

  /** `raw.replace("%}", "").replace("{%", "")`: the name inside a placeholder. */
  function CleanTag(raw: string): string {
    ReplaceFirst(ReplaceFirst(raw, "%}", ""), "{%", "")
  }

  /** What `tagsToBinds` returns or throws. */
  function ResolveTags<V>(s: string, tags: seq<Tag<V>>): Result<Bound<V>, string> {
    var names := Placeholders(s);
    if AllTagged(names, tags) then Success(Bound(Positional(s, 1), BindsFor(names, tags)))
    else Failure("###")
  }

  // ---------------------------------------------------------------------------
  // The placeholder scan

  lemma {:induction false} WordRunExact(n: string, t: string)
    requires IsName(n) && (t == [] || !IsWordChar(t[0]))
    ensures WordRun(n + t) == |n|
    decreases |n|
  {
    var s := n + t;
    assert s[0] == n[0] && s[1..] == n[1..] + t;
    if |n| > 1 {
      WordRunExact(n[1..], t);
    } else {
      assert s[1..] == t;
    }
  }

  /** A placeholder standing at the start of the text is what the scan matches there. */
  lemma PlaceholderAtRaw(n: string, t: string)
    requires IsName(n)
    ensures PlaceholderLength(Raw(n) + t) == |n| + 4
  {
    var s := Raw(n) + t;
    assert "{%" <= s;
    assert s[2..] == n + ("%}" + t);
    WordRunExact(n, "%}" + t);
    assert s[2 + |n|..] == "%}" + t;
  }

  /** The scan finds no placeholder where the text has no `{`. */
  lemma PlaceholderStartsWithBrace(s: string)
    requires PlaceholderLength(s) > 0
    ensures s[0] == '{'
  {
    var k := PlaceholderLength(s);
    assert s[..k][0] == s[0];
  }

  /** With no placeholder, nothing is rewritten. */
  lemma {:induction false} PositionalWithout(s: string, next: nat)
    requires Placeholders(s) == []
    ensures Positional(s, next) == s
    decreases |s|
  {
    if |s| > 0 {
      PositionalWithout(s[1..], next);
    }
  }

  /** Replacing as many placeholders as there are is replacing all of them. */
  lemma {:induction false} PartlyPositionalAll(s: string, next: nat)
    ensures PartlyPositional(s, |Placeholders(s)|, next) == Positional(s, next)
    decreases |s|
  {
    if |Placeholders(s)| == 0 {
      PositionalWithout(s, next);
    } else if PlaceholderLength(s) > 0 {
      PartlyPositionalAll(s[PlaceholderLength(s)..], next + 1);
    } else {
      PartlyPositionalAll(s[1..], next);
    }
  }

  /** A prefix without `:` of the partly rewritten text was already a prefix of the
      original: rewriting only ever puts `:` first. */
  lemma {:induction false} PrefixWithoutColon(t: string, done: nat, next: nat, w: string)
    requires ':' !in w
    ensures w <= PartlyPositional(t, done, next) ==> w <= t
    decreases |t|
  {
    if done > 0 && |t| > 0 && w != [] {
      var k := PlaceholderLength(t);
      if k > 0 {
        assert PartlyPositional(t, done, next)[0] == ':';
      } else {
        PrefixWithoutColon(t[1..], done, next, w[1..]);
        assert PartlyPositional(t, done, next) == [t[0]] + PartlyPositional(t[1..], done, next);
        PrefixCons(w, t[0], PartlyPositional(t[1..], done, next));
        ConsHeadTail(t);
        PrefixCons(w, t[0], t[1..]);
      }
    }
  }

  /** Where the scan matches nothing, no placeholder stands. */
  lemma NoRawWithoutMatch(s: string, m: string)
    requires IsName(m) && PlaceholderLength(s) == 0
    ensures !(Raw(m) <= s)
  {
    var t := if |Raw(m)| <= |s| then s[|Raw(m)|..] else [];
    PlaceholderAtRaw(m, t);
    assert Raw(m) <= s ==> s == Raw(m) + t;
  }

  /** A marker holds no `{`, so `replace` looks past it for a placeholder. */
  lemma MarkerSkips(k: nat, t: string, m: string, rep: string)
    ensures ReplaceFirst(Marker(k) + t, Raw(m), rep) == Marker(k) + ReplaceFirst(t, Raw(m), rep)
  {
    ReplaceFirstSkips(Marker(k), t, Raw(m), rep);
  }

  /** The step at a match, when that match is the one to replace. */
  lemma StepAtMatchFirst(s: string, n: nat)
    requires PlaceholderLength(s) > 0
    ensures ReplaceFirst(s, Raw(Placeholders(s)[0]), Marker(n)) == PartlyPositional(s, 1, n)
  {
    var k := PlaceholderLength(s);
    var m := s[2..k - 2];
    assert Placeholders(s)[0] == m;
    assert s[..k] == Raw(m) && |Raw(m)| == k;
    assert Raw(m) <= s;
    assert s[..0] + Marker(n) + s[k..] == Marker(n) + s[k..];
  }

  /** The step at a match rewritten earlier. */
  lemma {:induction false} StepAtMatchLater(s: string, d: nat, n: nat)
    requires PlaceholderLength(s) > 0 && 0 < d < |Placeholders(s)|
    ensures ReplaceFirst(PartlyPositional(s, d, n), Raw(Placeholders(s)[d]), Marker(n + d))
         == PartlyPositional(s, d + 1, n)
    decreases |s|, 0
  {
    var rest := s[PlaceholderLength(s)..];
    var e := d - 1;
    PlaceholdersAtMatch(s);
    ReplaceNextPlaceholder(rest, e, n + 1);
    MatchLaterStep(s, rest, d, e, n);
  }

  /** The step of `StepAtMatchLater`, with `rest` for the text past the match and `e`
      for `d - 1`: the marker in front is passed over. */
  lemma MatchLaterStep(s: string, rest: string, d: nat, e: nat, n: nat)
    requires PlaceholderLength(s) > 0 && rest == s[PlaceholderLength(s)..]
    requires 0 < d < |Placeholders(s)| && e + 1 == d && e < |Placeholders(rest)|
    requires ReplaceFirst(PartlyPositional(rest, e, n + 1), Raw(Placeholders(rest)[e]), Marker(n + 1 + e))
             == PartlyPositional(rest, e + 1, n + 1)
    ensures ReplaceFirst(PartlyPositional(s, d, n), Raw(Placeholders(s)[d]), Marker(n + d))
         == PartlyPositional(s, d + 1, n)
  {
    UnfoldPair(s, rest, d, e, n);
    assert n + 1 + e == n + d;
    MarkerSkips(n, PartlyPositional(rest, e, n + 1), Placeholders(rest)[e], Marker(n + d));
  }

  /** Past a match, the `d`-th name is the `e`-th of the rest and both the first `d` and
      the first `d + 1` rewrites start with the marker `:n`. */
  lemma UnfoldPair(s: string, rest: string, d: nat, e: nat, n: nat)
    requires PlaceholderLength(s) > 0 && rest == s[PlaceholderLength(s)..]
    requires 0 < d < |Placeholders(s)| && e + 1 == d
    ensures Placeholders(s)[d] == Placeholders(rest)[e]
    ensures PartlyPositional(s, d, n) == Marker(n) + PartlyPositional(rest, e, n + 1)
    ensures PartlyPositional(s, d + 1, n) == Marker(n) + PartlyPositional(rest, e + 1, n + 1)
  {
    UnfoldAtMatch(s, d, n);
    UnfoldAtMatch(s, d + 1, n);
  }

  /** Past a match, one name fewer remains. */
  lemma PlaceholdersAtMatch(s: string)
    requires PlaceholderLength(s) > 0
    ensures |Placeholders(s[PlaceholderLength(s)..])| == |Placeholders(s)| - 1
  {
  }

  /** Past a match, the first name is the match's and the first marker is `:n`. */
  lemma UnfoldAtMatch(s: string, d: nat, n: nat)
    requires PlaceholderLength(s) > 0 && 0 < d
    ensures var k := PlaceholderLength(s);
            Placeholders(s) == [s[2..k - 2]] + Placeholders(s[k..])
            && PartlyPositional(s, d, n) == Marker(n) + PartlyPositional(s[k..], d - 1, n + 1)
  {
  }

  /** The step at a character where nothing matches. */
  lemma {:induction false} StepPastCharacter(s: string, d: nat, n: nat)
    requires |s| > 0 && PlaceholderLength(s) == 0 && d < |Placeholders(s)|
    ensures ReplaceFirst(PartlyPositional(s, d, n), Raw(Placeholders(s)[d]), Marker(n + d))
         == PartlyPositional(s, d + 1, n)
    decreases |s|, 0
  {
    var names := Placeholders(s);
    assert names == Placeholders(s[1..]);
    PlaceholdersAreNames(s);
    ReplaceNextPlaceholder(s[1..], d, n);
    var m := names[d];
    var cur := PartlyPositional(s[1..], d, n);
    assert PartlyPositional(s, d, n) == [s[0]] + cur;
    NoRawAfterCharacter(s, d, n, m);
    ReplaceFirstCons(s[0], cur, Raw(m), Marker(n + d));
  }

  /** Where nothing matches, no placeholder stands in the partly rewritten text either. */
  lemma NoRawAfterCharacter(s: string, d: nat, n: nat, m: string)
    requires |s| > 0 && PlaceholderLength(s) == 0 && IsName(m)
    ensures !(Raw(m) <= [s[0]] + PartlyPositional(s[1..], d, n))
  {
    var cur := PartlyPositional(s[1..], d, n);
    var w := Raw(m)[1..];
    NoRawWithoutMatch(s, m);
    PrefixWithoutColon(s[1..], d, n, w);
    PrefixCons(Raw(m), s[0], cur);
    PrefixCons(Raw(m), s[0], s[1..]);
    assert [s[0]] + s[1..] == s;
  }

  /** One step of the `forEach`: replacing the first copy of the next placeholder in the
      partly rewritten text replaces exactly that occurrence. No earlier copy is left
      (those were rewritten already) and no copy can run into a marker. */
  lemma {:induction false} ReplaceNextPlaceholder(s: string, d: nat, n: nat)
    requires d < |Placeholders(s)|
    ensures ReplaceFirst(PartlyPositional(s, d, n), Raw(Placeholders(s)[d]), Marker(n + d))
         == PartlyPositional(s, d + 1, n)
    decreases |s|, 1
  {
    if PlaceholderLength(s) == 0 {
      StepPastCharacter(s, d, n);
    } else if d == 0 {
      StepAtMatchFirst(s, n);
    } else {
      StepAtMatchLater(s, d, n);
    }
  }

  // ---------------------------------------------------------------------------
  // Names, occurrences and layout

  /** Cleaning a placeholder gives back its name. */
  lemma CleanTagOfRaw(n: string)
    requires IsName(n)
    ensures CleanTag(Raw(n)) == n
  {
    var close := "%}";
    var open := "{%";
    CloseOfRaw(n, close);
    var r := Raw(n);
    ReplaceFirstIndexOf(r, close, "");
    assert ReplaceFirst(r, close, "") == r[..|n| + 2] + "" + r[|n| + 4..];
    assert r[..|n| + 2] + "" + r[|n| + 4..] == open + n;
    ReplaceFirstAtStart(open, n, "");
  }

  /** The first `%}` of a placeholder is its closing one. */
  lemma CloseOfRaw(n: string, close: string)
    requires IsName(n) && close == "%}"
    ensures IndexOf(Raw(n), close) == Some(|n| + 2)
  {
    var r := Raw(n);
    assert OccursAt(r, close, |n| + 2);
    forall j | 0 <= j < |n| + 2
      ensures !OccursAt(r, close, j)
    {
      if j == 1 {
        assert r[2] == n[0];
      } else if j >= 2 {
        assert r[j] == n[j - 2];
      }
      assert r[j..j + 2] == [r[j], r[j + 1]];
    }
    IndexOfFirst(r, close, |n| + 2);
  }

  /** Text without `{` holds no placeholder and is left as it is. */
  lemma {:induction false} ScanPlain(a: string, t: string, next: nat)
    requires '{' !in a
    ensures Placeholders(a + t) == Placeholders(t)
    ensures Positional(a + t, next) == a + Positional(t, next)
    decreases |a|
  {
    if |a| > 0 {
      var s := a + t;
      HeadTail(a, t);
      if PlaceholderLength(s) > 0 {
        PlaceholderStartsWithBrace(s);
      }
      ScanPlain(a[1..], t, next);
      HeadTail(a, Positional(t, next));
    } else {
      assert a + t == t;
    }
  }

  /** A placeholder is matched whole and becomes the next marker. */
  lemma ScanRaw(n: string, t: string, next: nat)
    requires IsName(n)
    ensures Placeholders(Raw(n) + t) == [n] + Placeholders(t)
    ensures Positional(Raw(n) + t, next) == Marker(next) + Positional(t, next + 1)
  {
    var s := Raw(n) + t;
    PlaceholderAtRaw(n, t);
    assert s[2..|n| + 2] == n;
    assert s[|n| + 4..] == t;
  }

  /** The text laid out as `gaps[0] + pieces[0] + gaps[1] + ... + gaps[last]`. */
  function Weave(gaps: seq<string>, pieces: seq<string>): string
    requires |gaps| == |pieces| + 1
    decreases |pieces|
  {
    if |pieces| == 0 then gaps[0] else gaps[0] + pieces[0] + Weave(gaps[1..], pieces[1..])
  }

  /** The placeholders for the given names. */
  function Raws(names: seq<string>): (r: seq<string>)
    ensures |r| == |names|
  {
    if |names| == 0 then [] else [Raw(names[0])] + Raws(names[1..])
  }

  /** The markers `:next`, `:next+1`, ..., `count` of them. */
  function Markers(next: nat, count: nat): (r: seq<string>)
    ensures |r| == count
    decreases count
  {
    if count == 0 then [] else [Marker(next)] + Markers(next + 1, count - 1)
  }

  /** Text made of plain gaps and placeholders: the scan finds exactly those names, and
      the rewrite puts the markers in their places and changes nothing else. */
  lemma {:induction false} ScanWeave(gaps: seq<string>, names: seq<string>, next: nat)
    requires |gaps| == |names| + 1
    requires forall i :: 0 <= i < |gaps| ==> '{' !in gaps[i]
    requires forall i :: 0 <= i < |names| ==> IsName(names[i])
    ensures Placeholders(Weave(gaps, Raws(names))) == names
    ensures Positional(Weave(gaps, Raws(names)), next) == Weave(gaps, Markers(next, |names|))
  {
    WeaveNames(gaps, names);
    WeavePositional(gaps, names, next);
  }

  /** The names half of `ScanWeave`, by induction on the placeholders. */
  lemma {:induction false} WeaveNames(gaps: seq<string>, names: seq<string>)
    requires |gaps| == |names| + 1
    requires forall i :: 0 <= i < |gaps| ==> '{' !in gaps[i]
    requires forall i :: 0 <= i < |names| ==> IsName(names[i])
    ensures Placeholders(Weave(gaps, Raws(names))) == names
    decreases |names|
  {
    if |names| == 0 {
      WeaveEnd(gaps[0], 1);
    } else {
      WeaveNames(gaps[1..], names[1..]);
      WeaveNamesStep(gaps, names);
    }
  }

  /** The step of `WeaveNames`. */
  lemma WeaveNamesStep(gaps: seq<string>, names: seq<string>)
    requires |gaps| == |names| + 1 && |names| > 0
    requires '{' !in gaps[0] && IsName(names[0])
    requires Placeholders(Weave(gaps[1..], Raws(names[1..]))) == names[1..]
    ensures Placeholders(Weave(gaps, Raws(names))) == names
  {
    WeaveStep(gaps, names, 1);
    ConsHeadTail(names);
  }

  lemma AllNamesCons(m: string, names: seq<string>)
    requires IsName(m) && forall i :: 0 <= i < |names| ==> IsName(names[i])
    ensures forall i :: 0 <= i < |[m] + names| ==> IsName(([m] + names)[i])
  {
  }

  /** The last gap holds no placeholder and is left as it is. */
  lemma WeaveEnd(gap: string, next: nat)
    requires '{' !in gap
    ensures Placeholders(gap) == [] && Positional(gap, next) == gap
  {
    ScanPlain(gap, [], next);
    assert gap + [] == gap;
  }

  /** The rewrite half of `ScanWeave`, by induction on the placeholders. */
  lemma {:induction false} WeavePositional(gaps: seq<string>, names: seq<string>, next: nat)
    requires |gaps| == |names| + 1
    requires forall i :: 0 <= i < |gaps| ==> '{' !in gaps[i]
    requires forall i :: 0 <= i < |names| ==> IsName(names[i])
    ensures Positional(Weave(gaps, Raws(names)), next) == Weave(gaps, Markers(next, |names|))
    decreases |names|
  {
    if |names| == 0 {
      WeaveEnd(gaps[0], next);
    } else {
      WeavePositional(gaps[1..], names[1..], next + 1);
      WeaveStep(gaps, names, next);
      WeaveMarkers(gaps, next, |names|);
    }
  }

  /** The step of `ScanWeave`: the first gap, then the first placeholder, then the rest. */
  lemma WeaveStep(gaps: seq<string>, names: seq<string>, next: nat)
    requires |gaps| == |names| + 1 && |names| > 0
    requires '{' !in gaps[0] && IsName(names[0])
    ensures var rest := Weave(gaps[1..], Raws(names[1..]));
            Placeholders(Weave(gaps, Raws(names))) == [names[0]] + Placeholders(rest)
            && Positional(Weave(gaps, Raws(names)), next)
               == gaps[0] + (Marker(next) + Positional(rest, next + 1))
  {
    var rest := Weave(gaps[1..], Raws(names[1..]));
    WeaveRaws(gaps, names);
    ScanPlain(gaps[0], Raw(names[0]) + rest, next);
    ScanRaw(names[0], rest, next);
  }

  /** Unfolding `Weave` over placeholders by one gap and one placeholder. */
  lemma WeaveRaws(gaps: seq<string>, names: seq<string>)
    requires |gaps| == |names| + 1 && |names| > 0
    ensures Weave(gaps, Raws(names)) == gaps[0] + (Raw(names[0]) + Weave(gaps[1..], Raws(names[1..])))
  {
    assert Raws(names)[0] == Raw(names[0]);
    assert Raws(names)[1..] == Raws(names[1..]);
  }

  /** Unfolding `Weave` over markers by one gap and one marker. */
  lemma WeaveMarkers(gaps: seq<string>, next: nat, count: nat)
    requires |gaps| == count + 1 && count > 0
    ensures Weave(gaps, Markers(next, count))
            == gaps[0] + (Marker(next) + Weave(gaps[1..], Markers(next + 1, count - 1)))
  {
    assert Markers(next, count)[0] == Marker(next);
    assert Markers(next, count)[1..] == Markers(next + 1, count - 1);
  }

  /** Every name the scan yields stands as a placeholder in the text. */
  lemma {:induction false} PlaceholderOccurs(s: string, n: string)
    requires n in Placeholders(s)
    ensures IsName(n) && exists j: nat :: OccursAt(s, Raw(n), j)
    decreases |s|
  {
    var k := PlaceholderLength(s);
    var r := Raw(n);
    if k > 0 && n == s[2..k - 2] {
      assert OccursAt(s, r, 0);
    } else {
      var d := if k > 0 then k else 1;
      PlaceholderOccurs(s[d..], n);
      var j: nat :| OccursAt(s[d..], r, j);
      OccursInSuffix(s, r, d, j);
    }
  }

  /** No placeholder starts inside a match: past its first character a match holds no `{`. */
  lemma NoBraceInsideMatch(s: string)
    ensures forall j :: 0 < j < PlaceholderLength(s) ==> s[j] != '{'
  {
    var k := PlaceholderLength(s);
    forall j | 0 < j < k
      ensures s[j] != '{'
    {
      var m := s[2..k - 2];
      assert s[j] == s[..k][j] == Raw(m)[j];
      if 2 <= j < k - 2 {
        assert Raw(m)[j] == m[j - 2];
      }
    }
  }

  /** Every placeholder standing in the text is found by the scan. */
  lemma {:induction false} OccursIsPlaceholder(s: string, n: string, j: nat)
    requires IsName(n) && OccursAt(s, Raw(n), j)
    ensures n in Placeholders(s)
    decreases |s|
  {
    var k := PlaceholderLength(s);
    if j == 0 {
      var t := s[|Raw(n)|..];
      assert s == Raw(n) + t;
      ScanRaw(n, t, 0);
    } else if k > 0 {
      assert s[j] == s[j..j + |Raw(n)|][0];
      NoBraceInsideMatch(s);
      assert j >= k;
      assert s[k..][j - k..j - k + |Raw(n)|] == s[j..j + |Raw(n)|];
      OccursIsPlaceholder(s[k..], n, j - k);
    } else {
      assert s[1..][j - 1..j - 1 + |Raw(n)|] == s[j..j + |Raw(n)|];
      OccursIsPlaceholder(s[1..], n, j - 1);
    }
  }

  /** The scan yields exactly the names that stand as placeholders in the text. */
  lemma PlaceholdersAreOccurrences(s: string, n: string)
    ensures n in Placeholders(s) <==> IsName(n) && exists j: nat :: OccursAt(s, Raw(n), j)
  {
    if n in Placeholders(s) {
      PlaceholderOccurs(s, n);
    }
    if IsName(n) && exists j: nat :: OccursAt(s, Raw(n), j) {
      var j: nat :| OccursAt(s, Raw(n), j);
      OccursIsPlaceholder(s, n, j);
    }
  }

  // ---------------------------------------------------------------------------
  // The binds and the result

  /** `find` gives nothing exactly when no tag has the name, and otherwise the first tag
      that has it. */
  lemma {:induction false} FindTagSpec<V>(tags: seq<Tag<V>>, name: string)
    ensures FindTag(tags, name).None? <==> forall i :: 0 <= i < |tags| ==> tags[i].tag != name
    ensures FindTag(tags, name).Some? ==>
              exists i :: 0 <= i < |tags| && tags[i] == FindTag(tags, name).value
                          && tags[i].tag == name && forall j :: 0 <= j < i ==> tags[j].tag != name
    decreases |tags|
  {
    if |tags| > 0 && tags[0].tag != name {
      FindTagSpec(tags[1..], name);
      assert forall i :: 1 <= i < |tags| ==> tags[i] == tags[1..][i - 1];
      if FindTag(tags, name).Some? {
        var i :| 0 <= i < |tags[1..]| && tags[1..][i] == FindTag(tags, name).value
                 && tags[1..][i].tag == name && forall j :: 0 <= j < i ==> tags[1..][j].tag != name;
        assert tags[i + 1] == tags[1..][i];
      }
    }
  }

  /** With every name tagged, there is one bind per placeholder: the value of the first
      tag with its name. */
  lemma {:induction false} BindsForAllTagged<V>(names: seq<string>, tags: seq<Tag<V>>)
    requires AllTagged(names, tags)
    ensures |BindsFor(names, tags)| == |names|
    ensures forall i :: 0 <= i < |names| ==> BindsFor(names, tags)[i] == FindTag(tags, names[i]).value.value
    decreases |names|
  {
    if |names| > 0 {
      var init := names[..|names| - 1];
      assert forall i :: 0 <= i < |init| ==> init[i] == names[i];
      BindsForAllTagged(init, tags);
    }
  }

  /** One more name adds its tag's value, if it has a tag, at the end. */
  lemma BindsForStep<V>(names: seq<string>, i: nat, tags: seq<Tag<V>>)
    requires i < |names|
    ensures BindsFor(names[..i + 1], tags)
         == BindsFor(names[..i], tags) + (match FindTag(tags, names[i])
                                           case Some(t) => [t.value]
                                           case None => [])
  {
    assert names[..i + 1][..i] == names[..i];
  }

  /** Text in which no `{%name%}` with a word name occurs comes back unchanged with no
      binds, whatever the tags; other text between `{%` and `%}`, such as `{%%}` or
      `{% a %}`, may stand in it. */
  lemma ResolveWithoutPlaceholders<V>(s: string, tags: seq<Tag<V>>)
    requires forall n: string, j: nat :: IsName(n) ==> !OccursAt(s, Raw(n), j)
    ensures ResolveTags(s, tags) == Success(Bound(s, []))
  {
    if Placeholders(s) != [] {
      PlaceholderOccurs(s, Placeholders(s)[0]);
    }
    PositionalWithout(s, 1);
  }

  /** `tagsToBinds` throws exactly when some placeholder of the text has no tag of the
      same name. */
  lemma ResolveFailsIff<V>(s: string, tags: seq<Tag<V>>)
    ensures ResolveTags(s, tags).Failure?
        <==> exists n: string, j: nat :: IsName(n) && OccursAt(s, Raw(n), j)
                                          && forall i :: 0 <= i < |tags| ==> tags[i].tag != n
  {
    var names := Placeholders(s);
    if ResolveTags(s, tags).Failure? {
      var i :| 0 <= i < |names| && FindTag(tags, names[i]).None?;
      PlaceholderOccurs(s, names[i]);
      FindTagSpec(tags, names[i]);
    }
    if exists n: string, j: nat :: IsName(n) && OccursAt(s, Raw(n), j)
                                   && forall i :: 0 <= i < |tags| ==> tags[i].tag != n {
      var n: string, j: nat :| IsName(n) && OccursAt(s, Raw(n), j)
                               && forall i :: 0 <= i < |tags| ==> tags[i].tag != n;
      OccursIsPlaceholder(s, n, j);
      FindTagSpec(tags, n);
    }
  }

  /** Text laid out as plain gaps and placeholders, every name tagged: the markers
      `:1`, `:2`, ... take the placeholders' places and the binds are the tag values,
      one per placeholder, repeats included. */
  lemma ResolveWeave<V>(gaps: seq<string>, names: seq<string>, tags: seq<Tag<V>>)
    requires |gaps| == |names| + 1
    requires forall i :: 0 <= i < |gaps| ==> '{' !in gaps[i]
    requires forall i :: 0 <= i < |names| ==> IsName(names[i])
    requires AllTagged(names, tags)
    ensures ResolveTags(Weave(gaps, Raws(names)), tags)
         == Success(Bound(Weave(gaps, Markers(1, |names|)),
                          seq(|names|, i requires 0 <= i < |names| => FindTag(tags, names[i]).value.value)))
  {
    var s := Weave(gaps, Raws(names));
    ScanWeave(gaps, names, 1);
    BindsForAllTagged(names, tags);
    var values := seq(|names|, i requires 0 <= i < |names| => FindTag(tags, names[i]).value.value);
    assert BindsFor(names, tags) == values;
    assert Placeholders(s) == names;
    assert ResolveTags(s, tags) == Success(Bound(Positional(s, 1), BindsFor(names, tags)));
  }

  /** The names cleaned from the matches. */
  function CleanTags(raws: seq<string>): seq<string> {
    seq(|raws|, i requires 0 <= i < |raws| => CleanTag(raws[i]))
  }

  /** Cleaning the matches gives the names of the placeholders. */
  lemma CleanMatches(s: string)
    ensures CleanTags(Matches(s)) == Placeholders(s)
  {
    var names := Placeholders(s);
    PlaceholdersAreNames(s);
    forall i | 0 <= i < |names|
      ensures CleanTags(Matches(s))[i] == names[i]
    {
      CleanTagOfRaw(names[i]);
    }
  }

  /** One pass of the loop of `tagsToBinds`: replacing the `i`-th match in the text
      rewritten so far turns it into the marker `:i+1`. */
  lemma ReplaceEachStep(s: string, i: nat)
    requires i < |Matches(s)|
    ensures ReplaceFirst(PartlyPositional(s, i, 1), Matches(s)[i], Marker(i + 1))
         == PartlyPositional(s, i + 1, 1)
  {
    ReplaceNextPlaceholder(s, i, 1);
    assert Matches(s)[i] == Raw(Placeholders(s)[i]) && 1 + i == i + 1;
  }

  /** `checkTags`: look each distinct name up among the tags, stopping at the first one
      without a tag (where the source throws). */
  method CheckTags<V>(textTags: seq<string>, tagValues: seq<Tag<V>>) returns (ok: bool)
    ensures ok <==> AllTagged(textTags, tagValues)
  {
    var unique := Dedup(textTags);
    var u := 0;
    while u < |unique|
      invariant 0 <= u <= |unique|
      invariant forall j :: 0 <= j < u ==> FindTag(tagValues, unique[j]).Some?
    {
      if FindTag(tagValues, unique[u]).None? {
        assert unique[u] in textTags;
        return false;
      }
      u := u + 1;
    }
    forall i | 0 <= i < |textTags|
      ensures FindTag(tagValues, textTags[i]).Some?
    {
      assert textTags[i] in unique;
    }
    return true;
  }

  /** The `forEach` of `tagsToBinds`: each placeholder's text in turn is replaced, first
      copy only, by the next marker, and the value of its tag, if any, is collected. */
  method ReplaceEach<V>(sqlText: string, tagValues: seq<Tag<V>>) returns (text: string, binds: seq<V>)
    ensures text == Positional(sqlText, 1)
    ensures binds == BindsFor(Placeholders(sqlText), tagValues)
  {
    var raws := Matches(sqlText);
    var clean := CleanTags(raws);
    CleanMatches(sqlText);
    text := sqlText;
    binds := [];
    for i := 0 to |raws|
      invariant text == PartlyPositional(sqlText, i, 1)
      invariant binds == BindsFor(clean[..i], tagValues)
    {
      ReplaceEachStep(sqlText, i);
      text := ReplaceFirst(text, raws[i], Marker(i + 1));
      BindsForStep(clean, i, tagValues);
      var found := FindTag(tagValues, clean[i]);
      if found.Some? {
        binds := binds + [found.value.value];
      }
    }
    PartlyPositionalAll(sqlText, 1);
    assert clean[..|raws|] == clean;
  }

  /** `tagsToBinds`: check that every placeholder has a tag (`"###"` is thrown
      otherwise), then rewrite the placeholders and collect the values. */
  method TagsToBinds<V>(sqlText: string, tagValues: seq<Tag<V>>) returns (r: Result<Bound<V>, string>)
    ensures r == ResolveTags(sqlText, tagValues)
  {
    var clean := CleanTags(Matches(sqlText));
    CleanMatches(sqlText);
    var ok := CheckTags(clean, tagValues);
    if !ok {
      return Failure("###");
    }
    var text, binds := ReplaceEach(sqlText, tagValues);
    return Success(Bound(text, binds));
  }
}
