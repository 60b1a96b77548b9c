/**
 * The suggestion route: the requested count is clamped, the generated text
 * is split and each piece normalised, the candidates are de-duplicated
 * without regard to case and filtered against the caller's exclusion list;
 * a short first round triggers one more generation, a list still short is
 * filled from a shuffled fixed pool, and the result is cut to the count.
 * The generator's replies and the `Math.random` picks are inputs.
 */
module Suggest {
  import opened Wrappers
  import opened Js

  // ---------------------------------------------------------------- count

  const DefaultCount := 3
  const MaxCount := 10

  /** `Math.max(1, Math.min(10, count ?? 3))` */
  function ClampCount(count: Option<int>): (c: int)
    ensures 1 <= c <= MaxCount
    ensures count.None? ==> c == DefaultCount
    ensures count.Some? && 1 <= count.value <= MaxCount ==> c == count.value
    ensures count.Some? && count.value < 1 ==> c == 1
    ensures count.Some? && count.value > MaxCount ==> c == MaxCount
  {
    var n := if count.Some? then count.value else DefaultCount;
    if n < 1 then 1 else if n > MaxCount then MaxCount else n
  }

  // ---------------------------------------------------------------- normalizeQuestion

  /** `[-•\d.)\s]`: list markers and whitespace stripped from the front. */
  predicate IsListMarker(c: char) {
    c == '-' || c == '\U{2022}' || IsDigit(c) || c == '.' || c == ')' || IsSpace(c)
  }

  /** `replace(/^[-•\d.)\s]+/, "")` */
  function StripListMarkers(s: string): (r: string)
    ensures |r| <= |s| && r == s[|s| - |r|..]
    ensures forall i {:trigger IsListMarker(s[i])} :: 0 <= i < |s| - |r| ==> IsListMarker(s[i])
    ensures r != [] ==> !IsListMarker(r[0])
  {
    if |s| > 0 && IsListMarker(s[0]) then StripListMarkers(s[1..]) else s
  }

  /** `s` starts and ends with the same quote, double or single (a lone quote counts). */
  predicate IsQuoted(s: string) {
    |s| >= 1 && ((s[0] == '"' && s[|s| - 1] == '"') || (s[0] == '\'' && s[|s| - 1] == '\''))
  }

  /**
   * Removes one pair of matching surrounding quotes; a lone quote becomes
   * empty, as `slice(1, -1)` does. The text changes exactly when it is
   * quoted, and then loses its first and last character only.
   */
  function Unquote(s: string): (r: string)
    ensures r != s <==> IsQuoted(s)
    ensures IsQuoted(s) ==> |r| == if |s| >= 2 then |s| - 2 else 0
    ensures IsQuoted(s) && |s| >= 2 ==> OccursAt(s, r, 1)
  {
    if IsQuoted(s) then
      (if |s| >= 2 then s[1..|s| - 1] else "")
    else s
  }

  /** Every whitespace character is a plain space and no two of them are adjacent. */
  predicate SingleSpaced(s: string) {
    && (forall i :: 0 <= i < |s| && IsSpace(s[i]) ==> s[i] == ' ')
    && (forall i :: 0 <= i < |s| - 1 && IsSpace(s[i]) ==> !IsSpace(s[i + 1]))
  }

  /** `replace(/\s+/g, " ")` */
  function Collapse(s: string): (r: string)
    ensures SingleSpaced(r)
    ensures |r| <= |s|
    ensures s != [] ==> r != [] && (IsSpace(r[0]) <==> IsSpace(s[0]))
    decreases |s|
  {
    if s == [] then []
    else if IsSpace(s[0]) then
      var k := SpaceRunLength(s, 0);
      assert k >= 1;
      [' '] + Collapse(s[k..])
    else [s[0]] + Collapse(s[1..])
  }

  /** The characters of `s` that are not whitespace, in order. */
  function NonSpace(s: string): string
    decreases |s|
  {
    if s == [] then [] else (if IsSpace(s[0]) then [] else [s[0]]) + NonSpace(s[1..])
  }

  /** A leading run of whitespace contributes nothing to `NonSpace`. */
  lemma {:induction false} NonSpaceSkipsRun(s: string, k: nat)
    requires k <= |s| && forall j :: 0 <= j < k ==> IsSpace(s[j])
    ensures NonSpace(s) == NonSpace(s[k..])
    decreases k
  {
    if k > 0 {
      assert s[1..][k - 1..] == s[k..];
      NonSpaceSkipsRun(s[1..], k - 1);
    }
  }

  /** Collapsing whitespace keeps every other character, in order. */
  lemma {:induction false} CollapseKeepsText(s: string)
    ensures NonSpace(Collapse(s)) == NonSpace(s)
    decreases |s|
  {
    if s != [] {
      if IsSpace(s[0]) {
        var k := SpaceRunLength(s, 0);
        CollapseKeepsText(s[k..]);
        NonSpaceSkipsRun(s, k);
        assert ([' '] + Collapse(s[k..]))[1..] == Collapse(s[k..]);
      } else {
        CollapseKeepsText(s[1..]);
        assert ([s[0]] + Collapse(s[1..]))[1..] == Collapse(s[1..]);
      }
    }
  }

  /** A text whose whitespace is already single spaces is left as it is. */
  lemma {:induction false} CollapseOfSingleSpaced(s: string)
    requires SingleSpaced(s)
    ensures Collapse(s) == s
    decreases |s|
  {
    if s != [] {
      WindowSingleSpaced(s, s[1..], 1);
      CollapseOfSingleSpaced(s[1..]);
      if IsSpace(s[0]) {
        assert |s| > 1 ==> !IsSpace(s[1]);
        assert SpaceRunLength(s, 0) == 1;
        assert s == [' '] + s[1..];
      } else {
        assert s == [s[0]] + s[1..];
      }
    }
  }

  /** Index `i` begins a maximal run of whitespace. */
  predicate IsRunStart(s: string, i: nat)
    requires i < |s|
  {
    IsSpace(s[i]) && (i == 0 || !IsSpace(s[i - 1]))
  }

  /** The number of maximal whitespace runs in `s`, counted from the end. */
  function SpaceRuns(s: string): nat
    decreases |s|
  {
    if s == [] then 0 else SpaceRuns(s[..|s| - 1]) + (if IsRunStart(s, |s| - 1) then 1 else 0)
  }

  /** Cutting `s` at `d` where no run straddles the cut splits its run count. */
  lemma {:induction false} SpaceRunsSplit(s: string, d: nat)
    requires 0 < d <= |s|
    requires d < |s| ==> !(IsSpace(s[d - 1]) && IsSpace(s[d]))
    ensures SpaceRuns(s) == SpaceRuns(s[..d]) + SpaceRuns(s[d..])
    decreases |s|
  {
    if d == |s| {
      assert s[..d] == s;
      assert s[d..] == [];
    } else {
      var n := |s| - 1;
      var t := s[..n];
      assert t[..d] == s[..d];
      if d < n {
        SpaceRunsSplit(t, d);
      } else {
        assert t == s[..d];
        assert t[d..] == [];
      }
      assert s[d..][..n - d] == t[d..];
      assert IsRunStart(s[d..], n - d) == IsRunStart(s, n);
    }
  }

  /** A non-empty run of whitespace is one run. */
  lemma {:induction false} SpaceRunsOfRun(s: string)
    requires s != [] && forall j :: 0 <= j < |s| ==> IsSpace(s[j])
    ensures SpaceRuns(s) == 1
    decreases |s|
  {
    if |s| > 1 {
      SpaceRunsOfRun(s[..|s| - 1]);
    } else {
      assert s[..0] == [];
    }
  }

  /** Collapsing whitespace keeps the number of whitespace runs: each run becomes exactly one space. */
  lemma {:induction false} CollapseKeepsRuns(s: string)
    ensures SpaceRuns(Collapse(s)) == SpaceRuns(s)
    decreases |s|
  {
    if s != [] {
      if IsSpace(s[0]) {
        var k := SpaceRunLength(s, 0);
        CollapseKeepsRuns(s[k..]);
        LeadingRun(s, k);
        SpaceThenText(Collapse(s[k..]));
      } else {
        CollapseKeepsRuns(s[1..]);
        assert s == [s[0]] + s[1..];
        CharThenText(s[0], s[1..]);
        CharThenText(s[0], Collapse(s[1..]));
      }
    }
  }

  /** A leading maximal run of `k` whitespace characters counts as one run. */
  lemma LeadingRun(s: string, k: nat)
    requires 0 < k <= |s| && forall j :: 0 <= j < k ==> IsSpace(s[j])
    requires k < |s| ==> !IsSpace(s[k])
    ensures SpaceRuns(s) == 1 + SpaceRuns(s[k..])
  {
    SpaceRunsSplit(s, k);
    SpaceRunsOfRun(s[..k]);
  }

  /** One space before text that does not start with whitespace adds one run. */
  lemma SpaceThenText(t: string)
    requires t != [] ==> !IsSpace(t[0])
    ensures SpaceRuns([' '] + t) == 1 + SpaceRuns(t)
  {
    var s := [' '] + t;
    SpaceRunsSplit(s, 1);
    assert s[..1] == [' '] && s[1..] == t;
    SpaceRunsOfRun([' ']);
  }

  /**
   * A run of whitespace between two words is one run, while the same words
   * written together have none: by `CollapseKeepsRuns`, `"a  b"` cannot
   * collapse to `"ab"`.
   */
  lemma RunBetweenWords(a: char, w: string, b: char)
    requires !IsSpace(a) && !IsSpace(b) && w != [] && forall j :: 0 <= j < |w| ==> IsSpace(w[j])
    ensures SpaceRuns([a] + w + [b]) == 1
    ensures SpaceRuns([a, b]) == 0
  {
    assert SpaceRuns(w + [b]) == 1 by { RunThenChar(w, b); }
    assert [a] + w + [b] == [a] + (w + [b]);
    CharThenText(a, w + [b]);
    TwoWords(a, b);
  }

  /** Two non-space characters side by side hold no run. */
  lemma TwoWords(a: char, b: char)
    requires !IsSpace(a) && !IsSpace(b)
    ensures SpaceRuns([a, b]) == 0
  {
    assert [a, b] == [a] + [b];
    CharThenText(a, [b]);
    NoRunInChar(b);
  }

  /** A run followed by a non-space character is one run. */
  lemma RunThenChar(w: string, b: char)
    requires !IsSpace(b) && w != [] && forall j :: 0 <= j < |w| ==> IsSpace(w[j])
    ensures SpaceRuns(w + [b]) == 1
  {
    var t := w + [b];
    SpaceRunsSplit(t, |w|);
    assert t[..|w|] == w && t[|w|..] == [b];
    SpaceRunsOfRun(w);
    NoRunInChar(b);
  }

  /** A leading non-space character adds no run. */
  lemma CharThenText(a: char, t: string)
    requires !IsSpace(a)
    ensures SpaceRuns([a] + t) == SpaceRuns(t)
  {
    var s := [a] + t;
    SpaceRunsSplit(s, 1);
    assert s[..1] == [a] && s[1..] == t;
    NoRunInChar(a);
  }

  lemma NoRunInChar(c: char)
    requires !IsSpace(c)
    ensures SpaceRuns([c]) == 0
  {
    assert [c][..0] == [];
  }

  /** `replace(/[|]+$/g, "")` */
  function StripTrailingPipes(s: string): (r: string)
    ensures |r| <= |s| && r == s[..|r|]
    ensures forall i :: |r| <= i < |s| ==> s[i] == '|'
    ensures r != [] ==> r[|r| - 1] != '|'
  {
    if |s| > 0 && s[|s| - 1] == '|' then StripTrailingPipes(s[..|s| - 1]) else s
  }

  /** The steps after the quotes: single spacing, then trailing separators. */
  function Tidy(s: string): string {
    Trim(StripTrailingPipes(Trim(Collapse(s))))
  }

  /** `normalizeQuestion` */
  function Normalize(q: string): string {
    Tidy(Unquote(Trim(StripListMarkers(q))))
  }

  /** A window of a single-spaced string is single-spaced. */
  lemma WindowSingleSpaced(s: string, r: string, a: int)
    requires SingleSpaced(s) && OccursAt(s, r, a)
    ensures SingleSpaced(r)
  {
    assert forall i :: 0 <= i < |r| ==> r[i] == s[a + i];
  }

  lemma TrimKeepsSingleSpaced(s: string)
    requires SingleSpaced(s)
    ensures SingleSpaced(Trim(s))
  {
    TrimIsWindow(s);
    WindowSingleSpaced(s, Trim(s), |s| - |TrimStart(s)|);
  }

  lemma StripPipesKeepsSingleSpaced(s: string)
    requires SingleSpaced(s)
    ensures SingleSpaced(StripTrailingPipes(s))
  {
    WindowSingleSpaced(s, StripTrailingPipes(s), 0);
  }

  /** A tidied text has no surrounding whitespace, and its only whitespace is single spaces. */
  lemma TidyShape(s: string)
    ensures IsTrimmed(Tidy(s)) && SingleSpaced(Tidy(s))
  {
    var t := Trim(Collapse(s));
    TrimKeepsSingleSpaced(Collapse(s));
    StripPipesKeepsSingleSpaced(t);
    TrimKeepsSingleSpaced(StripTrailingPipes(t));
  }

  /** A normalised question has no surrounding whitespace, and its only whitespace is single spaces. */
  lemma NormalizeShape(q: string)
    ensures IsTrimmed(Normalize(q)) && SingleSpaced(Normalize(q))
  {
    TidyShape(Unquote(Trim(StripListMarkers(q))));
  }

  /**
   * A question that is already clean comes back unchanged: no surrounding
   * whitespace, single spaces only, no leading list marker or quote and no
   * trailing pipe.
   */
  lemma NormalizeOfClean(q: string)
    requires IsTrimmed(q) && SingleSpaced(q)
    requires q != [] ==> !IsListMarker(q[0]) && q[0] != '"' && q[0] != '\'' && q[|q| - 1] != '|'
    ensures Normalize(q) == q
  {
    UnmarkedKeepsMarkers(q);
    TrimOfTrimmed(q);
    UnquoteKeepsUnquoted(q);
    TidyOfClean(q);
  }

  lemma UnmarkedKeepsMarkers(q: string)
    requires q != [] ==> !IsListMarker(q[0])
    ensures StripListMarkers(q) == q
  {
  }

  lemma TidyOfClean(q: string)
    requires IsTrimmed(q) && SingleSpaced(q) && (q != [] ==> q[|q| - 1] != '|')
    ensures Tidy(q) == q
  {
    CollapseOfSingleSpaced(q);
    TrimOfTrimmed(q);
    assert StripTrailingPipes(q) == q;
  }

  /** Text wrapped in one pair of double or single quotes loses exactly that pair. */
  lemma UnquoteStripsOnePair(x: string)
    ensures Unquote("\"" + x + "\"") == x && Unquote("'" + x + "'") == x
  {
  }

  /** Text that does not start with a quote passes the quote step untouched. */
  lemma UnquoteKeepsUnquoted(s: string)
    requires s == [] || (s[0] != '"' && s[0] != '\'')
    ensures Unquote(s) == s
  {
  }

  // ---------------------------------------------------------------- splitting the generated text

  /** `"||"` when the text contains it, else the line, bullet and numbering expression. */
  function SeparatorFor(text: string): (sep: Separator)
    ensures sep == DoublePipe <==> exists i :: OccursAt(text, "||", i)
  {
    if Contains(text, "||") then DoublePipe else LineOrBullet
  }

  function NormalizeAll(fields: seq<string>): (r: seq<string>)
    ensures |r| == |fields|
    ensures forall i :: 0 <= i < |fields| ==> r[i] == Normalize(fields[i])
  {
    seq(|fields|, i requires 0 <= i < |fields| => Normalize(fields[i]))
  }

  /** The candidate questions in one generated text: split, normalised, empty ones dropped. */
  function Candidates(text: string): seq<string> {
    NonEmpty(NormalizeAll(Split(text, SeparatorFor(text))))
  }

  /** Every non-empty normalised field is trimmed, single-spaced and the image of a field. */
  lemma NormalizedFieldsShape(fields: seq<string>)
    ensures forall c :: c in NonEmpty(NormalizeAll(fields)) ==>
      c != "" && IsTrimmed(c) && SingleSpaced(c)
      && exists f :: f in fields && c == Normalize(f)
  {
    var ns := NormalizeAll(fields);
    forall c | c in NonEmpty(ns)
      ensures c != "" && IsTrimmed(c) && SingleSpaced(c)
      ensures exists f :: f in fields && c == Normalize(f)
    {
      assert c in ns;
      var i :| 0 <= i < |ns| && ns[i] == c;
      NormalizeShape(fields[i]);
      assert fields[i] in fields;
    }
  }

  /** Every candidate is non-empty and normalised, and comes from a field of the split. */
  lemma CandidatesShape(text: string)
    ensures forall c :: c in Candidates(text) ==>
      c != "" && IsTrimmed(c) && SingleSpaced(c)
      && exists f :: f in Split(text, SeparatorFor(text)) && c == Normalize(f)
  {
    NormalizedFieldsShape(Split(text, SeparatorFor(text)));
  }

  /**
   * With `"||"` in the text, the fields are the pieces between the pipe
   * pairs: joined again they spell the text, and none holds a pipe pair.
   */
  lemma DoublePipeFields(text: string)
    requires exists i :: OccursAt(text, "||", i)
    ensures JoinWith(Split(text, SeparatorFor(text)), "||") == text
    ensures forall f :: f in Split(text, SeparatorFor(text)) ==> !Contains(f, "||")
  {
    SplitJoinDoublePipe(text);
    DoublePipeFieldsHaveNoPipePair(text);
  }

  // ---------------------------------------------------------------- uniqCaseInsensitive

  /** The lower-cased forms of the items. */
  function Keys(xs: seq<string>): set<string> {
    set x | x in xs :: Lower(x)
  }

  /** No two items are equal once lower-cased. */
  predicate NoDupKeys(xs: seq<string>) {
    forall i, j :: 0 <= i < j < |xs| ==> Lower(xs[i]) != Lower(xs[j])
  }

  /** The first occurrence of each lower-cased item, in order. */
  function Dedup(items: seq<string>): seq<string>
    decreases |items|
  {
    if items == [] then []
    else
      var init := items[..|items| - 1];
      var last := items[|items| - 1];
      if Lower(last) in Keys(init) then Dedup(init) else Dedup(init) + [last]
  }

  /** Item `i` is the first one with its lower-cased form. */
  predicate IsFirstOfKey(items: seq<string>, i: int)
    requires 0 <= i < |items|
  {
    forall j :: 0 <= j < i ==> Lower(items[j]) != Lower(items[i])
  }

  /** The items whose flag is set, in order. */
  function Pick(items: seq<string>, keep: seq<bool>): (r: seq<string>)
    requires |keep| == |items|
    ensures |r| <= |items|
    decreases |items|
  {
    if items == [] then []
    else
      var n := |items| - 1;
      Pick(items[..n], keep[..n]) + (if keep[n] then [items[n]] else [])
  }

  function FirstFlags(items: seq<string>): (f: seq<bool>)
    ensures |f| == |items|
  {
    seq(|items|, i requires 0 <= i < |items| => IsFirstOfKey(items, i))
  }

  lemma KeysSnoc(xs: seq<string>, x: string)
    ensures Keys(xs + [x]) == Keys(xs) + {Lower(x)}
  {
    assert forall y :: y in xs + [x] <==> y in xs || y == x;
  }

  /** An item's key is new exactly when no earlier item has it. */
  lemma KeyIsNew(items: seq<string>, i: int)
    requires 0 <= i < |items|
    ensures Lower(items[i]) !in Keys(items[..i]) <==> IsFirstOfKey(items, i)
  {
    if Lower(items[i]) in Keys(items[..i]) {
      var y :| y in items[..i] && Lower(y) == Lower(items[i]);
      var j :| 0 <= j < i && items[..i][j] == y;
    }
    assert IsFirstOfKey(items, i) ==> Lower(items[i]) !in Keys(items[..i]) by {
      if IsFirstOfKey(items, i) {
        forall y | y in items[..i] ensures Lower(y) != Lower(items[i]) {
          var j :| 0 <= j < i && items[..i][j] == y;
        }
      }
    }
  }

  /** `Dedup` keeps exactly the first occurrence of each key, in input order. */
  lemma {:induction false} DedupIsFirstOccurrences(items: seq<string>)
    ensures Dedup(items) == Pick(items, FirstFlags(items))
    decreases |items|
  {
    if items != [] {
      var n := |items| - 1;
      DedupIsFirstOccurrences(items[..n]);
      FirstFlagsOfPrefix(items);
      KeyIsNew(items, n);
    }
  }

  /** Dropping the last item leaves the earlier flags as they were. */
  lemma FirstFlagsOfPrefix(items: seq<string>)
    requires items != []
    ensures FirstFlags(items)[..|items| - 1] == FirstFlags(items[..|items| - 1])
  {
    var n := |items| - 1;
    forall i | 0 <= i < n ensures IsFirstOfKey(items, i) == IsFirstOfKey(items[..n], i) {
    }
  }

  /** The same keys survive: every key of the input is present in the output. */
  lemma {:induction false} DedupKeys(items: seq<string>)
    ensures Keys(Dedup(items)) == Keys(items)
    ensures forall x :: x in Dedup(items) ==> x in items
    decreases |items|
  {
    if items != [] {
      var n := |items| - 1;
      DedupKeys(items[..n]);
      assert items == items[..n] + [items[n]];
      KeysSnoc(items[..n], items[n]);
      KeysSnoc(Dedup(items[..n]), items[n]);
    }
  }

  lemma NoDupKeysSnoc(xs: seq<string>, x: string)
    requires NoDupKeys(xs) && Lower(x) !in Keys(xs)
    ensures NoDupKeys(xs + [x])
  {
    forall i | 0 <= i < |xs| ensures Lower(xs[i]) != Lower(x) {
      assert xs[i] in xs;
    }
  }

  /** In a list without duplicates the last key is not among the earlier ones. */
  lemma LastKeyIsNew(items: seq<string>)
    requires NoDupKeys(items) && items != []
    ensures Lower(items[|items| - 1]) !in Keys(items[..|items| - 1])
  {
    var n := |items| - 1;
    forall y | y in items[..n] ensures Lower(y) != Lower(items[n]) {
      var j :| 0 <= j < n && items[..n][j] == y;
    }
  }

  /** No two results are equal after lower-casing. */
  lemma {:induction false} DedupNoDupKeys(items: seq<string>)
    ensures NoDupKeys(Dedup(items))
    decreases |items|
  {
    if items != [] {
      var n := |items| - 1;
      DedupNoDupKeys(items[..n]);
      DedupKeys(items[..n]);
      if Lower(items[n]) !in Keys(items[..n]) {
        NoDupKeysSnoc(Dedup(items[..n]), items[n]);
      }
    }
  }

  /** A list without duplicates comes through unchanged. */
  lemma {:induction false} DedupOfDistinct(items: seq<string>)
    requires NoDupKeys(items)
    ensures Dedup(items) == items
    decreases |items|
  {
    if items != [] {
      var n := |items| - 1;
      assert NoDupKeys(items[..n]);
      DedupOfDistinct(items[..n]);
      LastKeyIsNew(items);
      assert items == items[..n] + [items[n]];
    }
  }

  /** Appending more items only adds to the end of the result. */
  lemma {:induction false} DedupExtends(a: seq<string>, b: seq<string>)
    ensures |Dedup(a)| <= |Dedup(a + b)| && Dedup(a + b)[..|Dedup(a)|] == Dedup(a)
    decreases |b|
  {
    if b == [] {
      assert a + b == a;
    } else {
      var n := |b| - 1;
      assert (a + b)[..|a + b| - 1] == a + b[..n];
      DedupExtends(a, b[..n]);
    }
  }

  /** `uniqCaseInsensitive`: a forward pass with a set of the keys seen so far. */
  method UniqCaseInsensitive(items: seq<string>) returns (out: seq<string>)
    ensures out == Dedup(items)
  {
    var seen: set<string> := {};
    out := [];
    var i := 0;
    while i < |items|
      invariant 0 <= i <= |items|
      invariant out == Dedup(items[..i])
      invariant seen == Keys(items[..i])
    {
      var it := items[i];
      var key := Lower(it);
      assert items[..i + 1][..i] == items[..i];
      KeysSnoc(items[..i], it);
      assert items[..i + 1] == items[..i] + [it];
      if key !in seen {
        seen := seen + {key};
        out := out + [it];
      }
      i := i + 1;
    }
    assert items[..i] == items;
  }

  // ---------------------------------------------------------------- filterExcluded

  /** The key an item is compared by: lower-cased, then trimmed. */
  function ExcludeKey(s: string): string {
    Trim(Lower(s))
  }

  /** Lower-casing text with no capital changes nothing. */
  lemma LowerOfLower(k: string)
    requires forall i :: 0 <= i < |k| ==> !IsUpper(k[i])
    ensures Lower(k) == k
  {
  }

  /** A trimmed window of lower-cased text has no capital. */
  lemma NoUpperInKey(s: string)
    ensures forall i :: 0 <= i < |ExcludeKey(s)| ==> !IsUpper(ExcludeKey(s)[i])
  {
    var low, k := Lower(s), ExcludeKey(s);
    TrimIsWindow(low);
    var a := |low| - |TrimStart(low)|;
    forall i | 0 <= i < |k| ensures !IsUpper(k[i]) {
      assert k[i] == low[a + i];
    }
  }

  /** A key has no capital and no surrounding whitespace, so it is its own key. */
  lemma ExcludeKeyIsCanonical(s: string)
    ensures IsTrimmed(ExcludeKey(s))
    ensures forall i :: 0 <= i < |ExcludeKey(s)| ==> !IsUpper(ExcludeKey(s)[i])
    ensures ExcludeKey(ExcludeKey(s)) == ExcludeKey(s)
  {
    var k := ExcludeKey(s);
    NoUpperInKey(s);
    LowerOfLower(k);
    TrimOfTrimmed(k);
  }

  function ExcludeKeys(exclude: seq<string>): set<string> {
    set e | e in exclude :: ExcludeKey(e)
  }

  /** The items whose key is not in `ex`, in order. */
  function Without(items: seq<string>, ex: set<string>): (r: seq<string>)
    ensures |r| <= |items|
    decreases |items|
  {
    if items == [] then []
    else
      var n := |items| - 1;
      Without(items[..n], ex) + (if ExcludeKey(items[n]) in ex then [] else [items[n]])
  }

  /** `filterExcluded`: an empty list returns the items themselves. */
  function FilterExcluded(items: seq<string>, exclude: seq<string>): seq<string> {
    if |exclude| == 0 then items else Without(items, ExcludeKeys(exclude))
  }

  /** Exactly the items whose lower-cased, trimmed form matches no excluded entry are kept. */
  lemma {:induction false} WithoutMembers(items: seq<string>, ex: set<string>)
    ensures forall x :: x in Without(items, ex) <==> x in items && ExcludeKey(x) !in ex
    decreases |items|
  {
    if items != [] {
      var n := |items| - 1;
      WithoutMembers(items[..n], ex);
      assert items == items[..n] + [items[n]];
    }
  }

  /** Filtering works piece by piece, so the survivors stay in their order. */
  lemma {:induction false} WithoutAppend(a: seq<string>, b: seq<string>, ex: set<string>)
    ensures Without(a + b, ex) == Without(a, ex) + Without(b, ex)
    decreases |b|
  {
    if b == [] {
      assert a + b == a;
    } else {
      var n := |b| - 1;
      var init, x := b[..n], b[n];
      assert b == init + [x];
      assert a + b == (a + init) + [x];
      WithoutAppend(a, init, ex);
      WithoutSnoc(a + init, x, ex);
      WithoutSnoc(init, x, ex);
    }
  }

  /** One more item at the end is kept or dropped on its own. */
  lemma WithoutSnoc(init: seq<string>, x: string, ex: set<string>)
    ensures Without(init + [x], ex) == Without(init, ex) + (if ExcludeKey(x) in ex then [] else [x])
  {
    assert (init + [x])[..|init|] == init;
  }

  /** Filtering by the empty set keeps everything: the shortcut for an empty list changes nothing. */
  lemma {:induction false} WithoutNothing(items: seq<string>)
    ensures Without(items, {}) == items
    decreases |items|
  {
    if items != [] {
      var n := |items| - 1;
      WithoutNothing(items[..n]);
      assert items == items[..n] + [items[n]];
    }
  }

  lemma FilterExcludedIsWithout(items: seq<string>, exclude: seq<string>)
    ensures FilterExcluded(items, exclude) == Without(items, ExcludeKeys(exclude))
  {
    if |exclude| == 0 {
      assert ExcludeKeys(exclude) == {};
      WithoutNothing(items);
    }
  }

  /** Filtering keeps a list free of case-insensitive duplicates. */
  lemma {:induction false} WithoutKeepsNoDupKeys(items: seq<string>, ex: set<string>)
    requires NoDupKeys(items)
    ensures NoDupKeys(Without(items, ex))
    decreases |items|
  {
    if items != [] {
      var n := |items| - 1;
      assert NoDupKeys(items[..n]);
      WithoutKeepsNoDupKeys(items[..n], ex);
      if ExcludeKey(items[n]) !in ex {
        WithoutMembers(items[..n], ex);
        LastKeyIsNew(items);
        NoDupKeysSnoc(Without(items[..n], ex), items[n]);
      }
    }
  }

  /** A list none of whose items is excluded comes through unchanged. */
  lemma {:induction false} WithoutNoneExcluded(items: seq<string>, ex: set<string>)
    requires forall i :: 0 <= i < |items| ==> ExcludeKey(items[i]) !in ex
    ensures Without(items, ex) == items
    decreases |items|
  {
    if items != [] {
      var n := |items| - 1;
      WithoutNoneExcluded(items[..n], ex);
      WithoutKeepsLast(items, ex);
    }
  }

  /** A last item that is not excluded stays last. */
  lemma WithoutKeepsLast(items: seq<string>, ex: set<string>)
    requires items != [] && ExcludeKey(items[|items| - 1]) !in ex
    ensures Without(items, ex) == Without(items[..|items| - 1], ex) + [items[|items| - 1]]
  {
  }

  // ---------------------------------------------------------------- the fallback pool

  /** The pool holds thirty questions, none of them empty. */
  lemma FallbackPoolShape()
    ensures |FallbackPool| == 30
    ensures forall q :: q in FallbackPool ==> q != ""
  {
  }

  /** The curated questions used to fill a short list. */
  const FallbackPool: seq<string> := [
      "What's a small habit that improved your day-to-day life?",
      "If you could master any musical instrument overnight, which would it be and why?",
      "What's a movie you can watch over and over without getting bored?",
      "What's a food combo you love that others find odd?",
      "If time and money weren't an issue, what project would you start tomorrow?",
      "What's a book that genuinely changed how you think?",
      "What's a simple pleasure you look forward to each week?",
      "What's something you learned recently that surprised you?",
      "If you could instantly speak another language, which would you choose and why?",
      "What's a skill you think everyone should learn at least once?",
      "What's a childhood snack you secretly still crave?",
      "What's your favorite way to unwind after a long day?",
      "Which fictional world would you live in for a week?",
      "What's a goal you're excited about this year?",
      "What's a song lyric that sticks with you?",
      "What's an unpopular opinion you stand by (lighthearted)?",
      "If you could relive one day just for the joy of it, which day would you pick?",
      "What's your go-to conversation starter?",
      "What's a random fact you think more people should know?",
      "What's a small act of kindness you won't forget?",
      "If you had to teach a 10\U{2011}minute class on anything, what would it be?",
      "What's your current comfort show or podcast?",
      "What's a trend you secretly miss?",
      "What's a place that surprised you\U{2014}in a good way?",
      "What's a life tip you wish more people knew?",
      "What's your favorite way to get creative?",
      "What's the best advice you've actually used?",
      "What hobby would you pick up if you had an extra hour every day?",
      "What's a tiny change that had a big impact?",
      "What's something you wish more people asked you about?"
    ]

  /** The pool entries that are not literally excluded and not already suggested, ignoring case. */
  function Remaining(pool: seq<string>, exclude: seq<string>, suggested: seq<string>): (r: seq<string>)
    ensures |r| <= |pool|
    decreases |pool|
  {
    if pool == [] then []
    else
      var n := |pool| - 1;
      var q := pool[n];
      Remaining(pool[..n], exclude, suggested)
        + (if q !in exclude && Lower(q) !in Keys(suggested) then [q] else [])
  }

  /** Exactly the pool entries that are neither in the exclusion list (case-sensitively) nor a suggestion (case-insensitively). */
  lemma {:induction false} RemainingMembers(pool: seq<string>, exclude: seq<string>, suggested: seq<string>)
    ensures forall q :: q in Remaining(pool, exclude, suggested) <==>
      q in pool && q !in exclude && Lower(q) !in Keys(suggested)
    decreases |pool|
  {
    if pool != [] {
      var n := |pool| - 1;
      RemainingMembers(pool[..n], exclude, suggested);
      assert pool == pool[..n] + [pool[n]];
    }
  }

  // ---------------------------------------------------------------- the shuffle

  /**
   * The index each Fisher–Yates pass picks: pass `i` swaps with
   * `Math.floor(Math.random() * (i + 1))`, which `RandomBelow` shows lies in
   * [0, i]; `picks[i]` is that index.
   */
  predicate ValidPicks(picks: seq<nat>) {
    forall i :: 0 <= i < |picks| ==> picks[i] <= i
  }

  function Swap(s: seq<string>, i: nat, j: nat): (r: seq<string>)
    requires i < |s| && j < |s|
    ensures |r| == |s|
  {
    s[i := s[j]][j := s[i]]
  }

  lemma SwapIsPermutation(s: seq<string>, i: nat, j: nat)
    requires i < |s| && j < |s|
    ensures multiset(Swap(s, i, j)) == multiset(s)
  {
  }

  /** The Fisher–Yates passes for `i`, `i - 1`, ..., `1`: pass `i` swaps position `i` with `picks[i]`. */
  function ShuffleFrom(s: seq<string>, picks: seq<nat>, i: int): (r: seq<string>)
    requires i < |s| && i < |picks| && ValidPicks(picks)
    ensures |r| == |s|
    decreases i
  {
    if i <= 0 then s
    else ShuffleFrom(Swap(s, i, picks[i]), picks, i - 1)
  }

  /** Fisher–Yates over the whole list: a rearrangement of its entries, whatever the draws. */
  function Shuffled(s: seq<string>, picks: seq<nat>): (r: seq<string>)
    requires |s| <= |picks| && ValidPicks(picks)
    ensures |r| == |s| && multiset(r) == multiset(s)
  {
    ShuffleFromIsPermutation(s, picks, |s| - 1);
    ShuffleFrom(s, picks, |s| - 1)
  }

  /** Whatever the draws, the shuffle rearranges the entries and loses or adds none. */
  lemma {:induction false} ShuffleFromIsPermutation(s: seq<string>, picks: seq<nat>, i: int)
    requires i < |s| && i < |picks| && ValidPicks(picks)
    ensures multiset(ShuffleFrom(s, picks, i)) == multiset(s)
    decreases i
  {
    if i > 0 {
      SwapIsPermutation(s, i, picks[i]);
      ShuffleFromIsPermutation(Swap(s, i, picks[i]), picks, i - 1);
    }
  }

  lemma ShuffledIsPermutation(s: seq<string>, picks: seq<nat>)
    requires |s| <= |picks| && ValidPicks(picks)
    ensures |Shuffled(s, picks)| == |s| && multiset(Shuffled(s, picks)) == multiset(s)
    ensures forall q :: q in Shuffled(s, picks) <==> q in s
  {
    ShuffleFromIsPermutation(s, picks, |s| - 1);
    assert forall q :: q in Shuffled(s, picks) <==> q in multiset(Shuffled(s, picks));
  }

  /** The loop at the heart of the backfill, in place on the array. */
  method Shuffle(a: array<string>, picks: seq<nat>)
    requires a.Length <= |picks| && ValidPicks(picks)
    modifies a
    ensures a[..] == Shuffled(old(a[..]), picks)
  {
    var i := a.Length - 1;
    while i > 0
      invariant -1 <= i < a.Length && (a.Length > 0 ==> i >= 0)
      invariant ShuffleFrom(a[..], picks, i) == Shuffled(old(a[..]), picks)
    {
      var j := picks[i];
      var temp := a[i];
      a[i] := a[j];
      a[j] := temp;
      i := i - 1;
    }
  }

  // ---------------------------------------------------------------- the handler

  /** What one call to the generator gives: its text, or the error it raised. */
  datatype Generation = Generated(text: string) | GenerationFailed(message: string)

  datatype Reply = Suggested(suggestions: seq<string>) | Failed(status: nat, message: string)

  const MissingKeyMessage := "Google AI API key not configured. Please add GOOGLE_GENERATIVE_AI_API_KEY to your environment variables."
  const NoSuggestionsMessage := "No suggestions generated from AI response"

  /** An environment variable that is set to a non-empty value. */
  predicate IsConfigured(v: Option<string>) {
    v.Some? && v.value != ""
  }

  /** `Array.isArray(body.exclude) ? body.exclude : []` */
  function ExcludeList(exclude: Option<seq<string>>): (r: seq<string>)
    ensures exclude.Some? ==> r == exclude.value
    ensures exclude.None? ==> r == []
  {
    if exclude.Some? then exclude.value else []
  }

  /** `xs.slice(0, k)` */
  function Take(xs: seq<string>, k: nat): (r: seq<string>)
    ensures |r| == if k < |xs| then k else |xs|
    ensures r == xs[..|r|]
  {
    if k < |xs| then xs[..k] else xs
  }

  /** The list after one generation: the earlier list and the new candidates, de-duplicated and filtered. */
  function Round(previous: seq<string>, text: string, exclude: seq<string>): seq<string> {
    FilterExcluded(Dedup(previous + Candidates(text)), exclude)
  }

  /** The list the route returns once its generated suggestions `ai` are known: backfill, cut, and the empty check. */
  function Finish(ai: seq<string>, count: nat, exclude: seq<string>, pool: seq<string>, picks: seq<nat>): Reply
    requires |pool| <= |picks| && ValidPicks(picks)
  {
    var filled :=
      if |ai| < count then ai + Take(Shuffled(Remaining(pool, exclude, ai), picks), count - |ai|)
      else ai;
    var list := Take(filled, count);
    if list == [] then Failed(500, NoSuggestionsMessage) else Suggested(list)
  }

  /** One parse of generated text into the list so far: split and normalise, `uniqCaseInsensitive`, `filterExcluded`. */
  method GenerationRound(previous: seq<string>, text: string, exclude: seq<string>) returns (r: seq<string>)
    ensures r == Round(previous, text, exclude)
  {
    var extra := Candidates(text);
    r := UniqCaseInsensitive(previous + extra);
    r := FilterExcluded(r, exclude);
  }

  /** The end of the route: fill a short list from the shuffled pool, cut it to `count`, and reject an empty one. */
  method Backfill(suggestions: seq<string>, count: nat, exclude: seq<string>, pool: seq<string>, picks: seq<nat>)
    returns (reply: Reply)
    requires |pool| <= |picks| && ValidPicks(picks)
    ensures reply == Finish(suggestions, count, exclude, pool, picks)
  {
    var list := suggestions;
    if |list| < count {
      var remaining := Remaining(pool, exclude, list);
      var arr := new string[|remaining|](i requires 0 <= i < |remaining| => remaining[i]);
      assert arr[..] == remaining;
      Shuffle(arr, picks);
      list := list + Take(arr[..], count - |list|);
    }
    list := Take(list, count);
    if |list| == 0 {
      return Failed(500, NoSuggestionsMessage);
    }
    reply := Suggested(list);
  }

  /**
   * The route's `POST`. `apiKey` is the configured key, `count` and
   * `exclude` the request body's fields (an `exclude` that is not an array
   * is absent), `first` and `second` what the two generator calls would
   * give, and `picks` the indices the shuffle draws.
   * `calls` is the number of generator calls made.
   */
  method SuggestMessages(apiKey: Option<string>, count: Option<int>, exclude: Option<seq<string>>,
                         first: Generation, second: Generation, picks: seq<nat>)
    returns (reply: Reply, calls: nat)
    requires |FallbackPool| <= |picks| && ValidPicks(picks)
    ensures !IsConfigured(apiKey) ==> reply == Failed(500, MissingKeyMessage) && calls == 0
    ensures IsConfigured(apiKey) && first.GenerationFailed? ==> reply == Failed(500, first.message) && calls == 1
    ensures IsConfigured(apiKey) && first.Generated? ==>
      var c := ClampCount(count);
      var ex := ExcludeList(exclude);
      var r1 := Round([], first.text, ex);
      && (calls == 2 <==> |r1| < c)
      && (calls == 1 <==> |r1| >= c)
      && (|r1| >= c ==> reply == Finish(r1, c, ex, FallbackPool, picks))
      && (|r1| < c && second.GenerationFailed? ==> reply == Failed(500, second.message))
      && (|r1| < c && second.Generated? ==> reply == Finish(Round(r1, second.text, ex), c, ex, FallbackPool, picks))
  {
    if !IsConfigured(apiKey) {
      return Failed(500, MissingKeyMessage), 0;
    }
    var c := ClampCount(count);
    var ex := ExcludeList(exclude);
    calls := 1;
    if first.GenerationFailed? {
      return Failed(500, first.message), calls;
    }
    var suggestions := GenerationRound([], first.text, ex);
    if |suggestions| < c {
      calls := 2;
      if second.GenerationFailed? {
        return Failed(500, second.message), calls;
      }
      suggestions := GenerationRound(suggestions, second.text, ex);
    }
    reply := Backfill(suggestions, c, ex, FallbackPool, picks);
  }

  // ---------------------------------------------------------------- what the route promises

  /** After a round no two suggestions agree ignoring case, none is excluded, and each came from the earlier list or the new text. */
  lemma RoundShape(previous: seq<string>, text: string, exclude: seq<string>)
    ensures NoDupKeys(Round(previous, text, exclude))
    ensures forall x :: x in Round(previous, text, exclude) ==>
      ExcludeKey(x) !in ExcludeKeys(exclude) && (x in previous || x in Candidates(text))
  {
    var d := Dedup(previous + Candidates(text));
    DedupNoDupKeys(previous + Candidates(text));
    DedupKeys(previous + Candidates(text));
    FilterExcludedIsWithout(d, exclude);
    WithoutMembers(d, ExcludeKeys(exclude));
    WithoutKeepsNoDupKeys(d, ExcludeKeys(exclude));
  }

  /** A list that is already de-duplicated and filtered stays, in order, at the front of the next round. */
  lemma {:induction false} RoundKeepsPrevious(previous: seq<string>, more: seq<string>, exclude: seq<string>)
    requires NoDupKeys(previous)
    requires forall i :: 0 <= i < |previous| ==> ExcludeKey(previous[i]) !in ExcludeKeys(exclude)
    ensures var r := FilterExcluded(Dedup(previous + more), exclude);
      |previous| <= |r| && r[..|previous|] == previous
  {
    var ex := ExcludeKeys(exclude);
    DedupExtends(previous, more);
    DedupOfDistinct(previous);
    var d := Dedup(previous + more);
    assert d == previous + d[|previous|..];
    FilterExcludedIsWithout(d, exclude);
    WithoutAppend(previous, d[|previous|..], ex);
    WithoutNoneExcluded(previous, ex);
  }

  /** The second round keeps the first round's list, in order, at its front. */
  lemma SecondRoundKeepsFirst(first: string, second: string, exclude: seq<string>)
    ensures var r1 := Round([], first, exclude);
      |r1| <= |Round(r1, second, exclude)| && Round(r1, second, exclude)[..|r1|] == r1
  {
    var r1 := Round([], first, exclude);
    RoundShape([], first, exclude);
    forall i | 0 <= i < |r1| ensures ExcludeKey(r1[i]) !in ExcludeKeys(exclude) {
      assert r1[i] in r1;
    }
    RoundKeepsPrevious(r1, Candidates(second), exclude);
  }

  /** A successful reply holds between 1 and `count` suggestions, as many as the sources allow. */
  lemma FinishLength(ai: seq<string>, count: nat, exclude: seq<string>, pool: seq<string>, picks: seq<nat>)
    requires |pool| <= |picks| && ValidPicks(picks) && count >= 1
    ensures var reply := Finish(ai, count, exclude, pool, picks);
      var total := |ai| + |Remaining(pool, exclude, ai)|;
      reply.Suggested? ==> (1 <= |reply.suggestions| <= count
        && |reply.suggestions| == (if total < count then total else count))
  {
    ShuffledIsPermutation(Remaining(pool, exclude, ai), picks);
  }

  /** The generated suggestions come first, in their order, and anything after them is a fresh pool entry. */
  lemma FinishContents(ai: seq<string>, count: nat, exclude: seq<string>, pool: seq<string>, picks: seq<nat>)
    requires |pool| <= |picks| && ValidPicks(picks)
    ensures var reply := Finish(ai, count, exclude, pool, picks);
      var keep := if |ai| < count then |ai| else count;
      reply.Suggested? ==>
        && |reply.suggestions| >= keep && reply.suggestions[..keep] == ai[..keep]
        && forall k :: keep <= k < |reply.suggestions| ==>
             var q := reply.suggestions[k];
             q in pool && q !in exclude && Lower(q) !in Keys(ai)
  {
    var rem := Remaining(pool, exclude, ai);
    ShuffledIsPermutation(rem, picks);
    RemainingMembers(pool, exclude, ai);
    var reply := Finish(ai, count, exclude, pool, picks);
    if reply.Suggested? && |ai| < count {
      var list := reply.suggestions;
      var tail := Take(Shuffled(rem, picks), count - |ai|);
      assert list == ai + tail;
      forall k | |ai| <= k < |list| ensures list[k] in rem {
        assert list[k] == tail[k - |ai|];
        assert tail[k - |ai|] in Shuffled(rem, picks);
      }
    }
  }

  /** The route fails on an empty list exactly when nothing was generated and the whole pool is excluded. */
  lemma FinishFailsOnlyWhenNothingIsLeft(ai: seq<string>, count: nat, exclude: seq<string>, pool: seq<string>, picks: seq<nat>)
    requires |pool| <= |picks| && ValidPicks(picks) && count >= 1
    ensures var reply := Finish(ai, count, exclude, pool, picks);
      && (reply.Failed? ==> reply == Failed(500, NoSuggestionsMessage))
      && (reply.Failed? <==> ai == [] && forall q :: q in pool ==> q in exclude)
  {
    var rem := Remaining(pool, exclude, ai);
    ShuffledIsPermutation(rem, picks);
    RemainingMembers(pool, exclude, ai);
    if ai == [] {
      assert Keys(ai) == {};
      if rem != [] {
        assert rem[0] in rem;
      }
    }
  }

  lemma ExampleSplit()
    ensures Split("A||B||A", DoublePipe) == ["A", "B", "A"]
  {
    var text := "A||B||A";
    var m := MatchTable(DoublePipe, text);
    assert m == [0, 2, 0, 0, 2, 0, 0];
    assert text[6..] == "A" && text[3..4] == "B" && text[0..1] == "A";
    assert SplitFrom(text, m, 6, 7) == ["A"];
    assert SplitFrom(text, m, 6, 6) == ["A"];
    assert SplitFrom(text, m, 3, 4) == ["B"] + SplitFrom(text, m, 6, 6);
    assert SplitFrom(text, m, 3, 3) == ["B", "A"];
    assert SplitFrom(text, m, 0, 1) == ["A"] + SplitFrom(text, m, 3, 3);
  }

  lemma ExcludeKeysSingle(e: string)
    ensures ExcludeKeys([e]) == {ExcludeKey(e)}
  {
    assert e in [e];
  }

  lemma DedupExample(a: string, b: string)
    requires Lower(a) != Lower(b)
    ensures Dedup([a, b, a]) == [a, b]
  {
    assert [a, b, a][..2] == [a, b] && [a, b][..1] == [a] && [a][..0] == [];
    assert Keys([]) == {};
    assert Dedup([a]) == [a];
    assert Keys([a]) == {Lower(a)} by {
      KeysSnoc([], a);
      assert [] + [a] == [a];
    }
    assert Keys([a, b]) == {Lower(a), Lower(b)} by {
      KeysSnoc([a], b);
      assert [a] + [b] == [a, b];
    }
  }

  lemma WithoutExample(a: string, b: string, ex: set<string>)
    requires ExcludeKey(b) in ex && ExcludeKey(a) !in ex
    ensures Without([a, b], ex) == [a]
  {
    assert [a, b][..1] == [a] && [a][..0] == [];
    assert Without([a], ex) == [a];
  }

  /**
   * The shape of the example `"A||B||A"` (with `"b"` excluded it gives
   * `["A"]`): of the pieces `a`, `b`, `a`, where `a` and `b` differ ignoring
   * case and the excluded entry `e` matches `b` but not `a`, only `a` remains.
   */
  lemma DedupFilterExample(a: string, b: string, e: string)
    requires Lower(a) != Lower(b)
    requires ExcludeKey(e) == ExcludeKey(b) && ExcludeKey(e) != ExcludeKey(a)
    ensures FilterExcluded(Dedup([a, b, a]), [e]) == [a]
  {
    DedupExample(a, b);
    ExcludeKeysSingle(e);
    WithoutExample(a, b, {ExcludeKey(e)});
  }

  /** A single capital letter is a clean question: normalising keeps it. */
  lemma NormalizeCapital(c: char)
    requires IsUpper(c)
    ensures Normalize([c]) == [c]
  {
    assert !IsSpace(c) && !IsListMarker(c);
    NormalizeOfClean([c]);
  }

  /** Keeping the non-empty strings of a list without empty ones keeps them all. */
  lemma {:induction false} NonEmptyOfNonEmpty(xs: seq<string>)
    requires forall i :: 0 <= i < |xs| ==> xs[i] != ""
    ensures NonEmpty(xs) == xs
  {
    if xs != [] {
      NonEmptyOfNonEmpty(xs[1..]);
    }
  }

  /** Fields that are single capital letters are their own candidates. */
  lemma CapitalFieldsAreCandidates(fields: seq<string>)
    requires forall i :: 0 <= i < |fields| ==> |fields[i]| == 1 && IsUpper(fields[i][0])
    ensures NonEmpty(NormalizeAll(fields)) == fields
  {
    assert NormalizeAll(fields) == fields by {
      forall i | 0 <= i < |fields| ensures Normalize(fields[i]) == fields[i] {
        assert fields[i] == [fields[i][0]];
        NormalizeCapital(fields[i][0]);
      }
    }
    NonEmptyOfNonEmpty(fields);
  }

  lemma ExampleSeparator()
    ensures SeparatorFor("A||B||A") == DoublePipe
  {
    assert OccursAt("A||B||A", "||", 1);
  }

  /** The candidates of `"A||B||A"` are `"A"`, `"B"` and `"A"`. */
  lemma ExampleCandidates()
    ensures Candidates("A||B||A") == ["A", "B", "A"]
  {
    assert Split("A||B||A", SeparatorFor("A||B||A")) == ["A", "B", "A"] by {
      ExampleSeparator();
      ExampleSplit();
    }
    assert NonEmpty(NormalizeAll(["A", "B", "A"])) == ["A", "B", "A"] by {
      CapitalFieldsAreCandidates(["A", "B", "A"]);
    }
  }

  /** A one-letter text's keys are its lower-cased letter. */
  lemma LetterKeys(c: char)
    requires IsUpper(c) || IsLower(c)
    ensures Lower([c]) == [LowerChar(c)] && ExcludeKey([c]) == [LowerChar(c)]
  {
    var s := [LowerChar(c)];
    assert Lower([c]) == s by {
      assert Lower([c])[0] == s[0];
    }
    assert IsTrimmed(s) by {
      assert !IsSpace(s[0]);
    }
    TrimOfTrimmed(s);
  }

  /** Two capitals that differ ignoring case, and a lower-case letter matching the second only. */
  lemma LettersKeys(x: char, y: char, z: char)
    requires IsUpper(x) && IsUpper(y) && IsLower(z) && LowerChar(x) != LowerChar(y) && LowerChar(y) == z
    ensures Lower([x]) != Lower([y])
    ensures ExcludeKey([z]) == ExcludeKey([y]) && ExcludeKey([z]) != ExcludeKey([x])
  {
    assert Lower([x]) != Lower([y]) by {
      LetterKeys(x);
      LetterKeys(y);
      assert Lower([x])[0] != Lower([y])[0];
    }
    assert ExcludeKey([z]) == ExcludeKey([y]) by {
      LetterKeys(y);
      LetterKeys(z);
    }
    assert ExcludeKey([z]) != ExcludeKey([x]) by {
      LetterKeys(x);
      LetterKeys(z);
      assert ExcludeKey([z])[0] != ExcludeKey([x])[0];
    }
  }

  /** `"A"` and `"B"` differ ignoring case, and the exclusion `"b"` matches `"B"` only. */
  lemma ExampleKeys()
    ensures Lower("A") != Lower("B")
    ensures ExcludeKey("b") == ExcludeKey("B") && ExcludeKey("b") != ExcludeKey("A")
  {
    LettersKeys('A', 'B', 'b');
  }

  /** The example `"A||B||A"`: from it, with `"b"` excluded and nothing before, the round yields `["A"]`. */
  lemma ExampleRound()
    ensures Round([], "A||B||A", ["b"]) == ["A"]
  {
    FirstRound("A||B||A", ["b"]);
    ExampleCandidates();
    ExampleKeys();
    DedupFilterExample("A", "B", "b");
  }

  /** With nothing before, a round is the filtered, de-duplicated candidates of its text. */
  lemma FirstRound(text: string, exclude: seq<string>)
    ensures Round([], text, exclude) == FilterExcluded(Dedup(Candidates(text)), exclude)
  {
    EmptyPrefix(Candidates(text));
  }

  lemma EmptyPrefix(c: seq<string>)
    ensures [] + c == c
  {
  }
}
