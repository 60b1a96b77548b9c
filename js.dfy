/**
 * The JavaScript built-ins the application's logic leans on, stated over
 * Dafny strings: the whitespace class shared by `\s` and `String.prototype.trim`,
 * ASCII case folding, `includes`, decimal rendering of a non-negative integer,
 * and `Math.floor(Math.random() * n)` with the random draw given as a real.
 */
module Js {

  /** The characters JavaScript's `\s` matches and `trim` removes. */
  predicate IsSpace(c: char) {
    || ('\U{0009}' <= c <= '\U{000D}') || c == ' ' || c == '\U{00A0}' || c == '\U{1680}'
    || ('\U{2000}' <= c <= '\U{200A}') || c == '\U{2028}' || c == '\U{2029}'
    || c == '\U{202F}' || c == '\U{205F}' || c == '\U{3000}' || c == '\U{FEFF}'
  }

  /** The characters a regular-expression `.` does not match. */
  predicate IsLineTerminator(c: char) {
    c == '\n' || c == '\r' || c == '\U{2028}' || c == '\U{2029}'
  }

  predicate IsDigit(c: char) { '0' <= c <= '9' }

  predicate IsLower(c: char) { 'a' <= c <= 'z' }

  predicate IsUpper(c: char) { 'A' <= c <= 'Z' }

  /** `[a-zA-Z0-9_]` */
  predicate IsWordChar(c: char) { IsLower(c) || IsUpper(c) || IsDigit(c) || c == '_' }

  function LowerChar(c: char): (r: char)
    ensures !IsUpper(r)
    ensures IsUpper(c) ==> r as int == c as int + 32
    ensures !IsUpper(c) ==> r == c
  {
    if IsUpper(c) then (c as int + 32) as char else c
  }

  /** `toLowerCase`, restricted to ASCII letters. */
  function Lower(s: string): (r: string)
    ensures |r| == |s|
    ensures forall i :: 0 <= i < |s| ==> r[i] == LowerChar(s[i])
  {
    seq(|s|, i requires 0 <= i < |s| => LowerChar(s[i]))
  }

  lemma LowerAppend(a: string, b: string)
    ensures Lower(a + b) == Lower(a) + Lower(b)
  {
    assert forall i :: 0 <= i < |a + b| ==> Lower(a + b)[i] == (Lower(a) + Lower(b))[i];
  }

  lemma LowerIdempotent(s: string)
    ensures Lower(Lower(s)) == Lower(s)
  {
  }

  /** Drops the leading run of whitespace. */
  function TrimStart(s: string): (r: string)
    ensures |r| <= |s| && r == s[|s| - |r|..]
    ensures r != [] ==> !IsSpace(r[0])
  {
    if |s| > 0 && IsSpace(s[0]) then TrimStart(s[1..]) else s
  }

  /** What `TrimStart` drops is whitespace. */
  lemma {:induction false} TrimStartDropsSpaces(s: string)
    ensures forall i :: 0 <= i < |s| - |TrimStart(s)| ==> IsSpace(s[i])
  {
    if |s| > 0 && IsSpace(s[0]) {
      TrimStartDropsSpaces(s[1..]);
    }
  }

  /** Drops the trailing run of whitespace. */
  function TrimEnd(s: string): (r: string)
    ensures |r| <= |s| && r == s[..|r|]
    ensures r != [] ==> !IsSpace(r[|r| - 1])
  {
    if |s| > 0 && IsSpace(s[|s| - 1]) then TrimEnd(s[..|s| - 1]) else s
  }

  /** What `TrimEnd` drops is whitespace. */
  lemma {:induction false} TrimEndDropsSpaces(s: string)
    ensures forall i :: |TrimEnd(s)| <= i < |s| ==> IsSpace(s[i])
  {
    if |s| > 0 && IsSpace(s[|s| - 1]) {
      TrimEndDropsSpaces(s[..|s| - 1]);
    }
  }

  /** `sub` occurs in `s` starting at index `i`. */
  predicate OccursAt(s: string, sub: string, i: int) {
    0 <= i && i + |sub| <= |s| && s[i..i + |sub|] == sub
  }

  /** `String.prototype.trim`. */
  function Trim(s: string): (r: string)
    ensures r != [] ==> !IsSpace(r[0]) && !IsSpace(r[|r| - 1])
  {
    TrimEnd(TrimStart(s))
  }

  /** The trimmed text is the window of `s` that starts after the leading whitespace. */
  lemma TrimIsWindow(s: string)
    ensures OccursAt(s, Trim(s), |s| - |TrimStart(s)|)
  {
  }

  predicate IsTrimmed(s: string) {
    s != [] ==> !IsSpace(s[0]) && !IsSpace(s[|s| - 1])
  }

  lemma TrimOfTrimmed(s: string)
    requires IsTrimmed(s)
    ensures Trim(s) == s
  {
  }

  lemma TrimIdempotent(s: string)
    ensures Trim(Trim(s)) == Trim(s)
  {
    TrimOfTrimmed(Trim(s));
  }

  /** `s.includes(sub)`: some window of `s` equals `sub`. */
  function Contains(s: string, sub: string): (r: bool)
    ensures r <==> exists i :: OccursAt(s, sub, i)
  {
    if |sub| > |s| then false
    else if s[..|sub|] == sub then assert OccursAt(s, sub, 0); true
    else
      var r := Contains(s[1..], sub);
      forall i | i >= 1 ensures OccursAt(s, sub, i) <==> OccursAt(s[1..], sub, i - 1) {
        if i + |sub| <= |s| { assert s[1..][i - 1..i - 1 + |sub|] == s[i..i + |sub|]; }
      }
      assert r ==> exists i :: OccursAt(s, sub, i) by {
        if r {
          var j :| OccursAt(s[1..], sub, j);
          assert OccursAt(s, sub, j + 1);
        }
      }
      r
  }

  /** A text found inside `s` is still found once more text surrounds `s`. */
  lemma ContainsWithin(a: string, s: string, c: string, sub: string)
    requires Contains(s, sub)
    ensures Contains(a + s + c, sub)
  {
    var i :| OccursAt(s, sub, i);
    assert (a + s + c)[|a| + i..|a| + i + |sub|] == s[i..i + |sub|];
    assert OccursAt(a + s + c, sub, |a| + i);
  }

  lemma ContainsPrefix(p: string, rest: string)
    ensures Contains(p + rest, p)
  {
    assert (p + rest)[..|p|] == p;
    assert OccursAt(p + rest, p, 0);
  }

  /** A string that contains `sub` contains its first character. */
  lemma ContainsHead(s: string, sub: string)
    requires sub != [] && Contains(s, sub)
    ensures sub[0] in s
  {
    var i :| OccursAt(s, sub, i);
    assert s[i] == sub[0];
  }

  function DigitChar(d: nat): (c: char)
    requires d < 10
    ensures IsDigit(c)
  {
    ('0' as int + d) as char
  }

  function DigitValue(c: char): nat
    requires IsDigit(c)
  {
    c as int - '0' as int
  }

  predicate AllDigits(s: string) {
    forall i :: 0 <= i < |s| ==> IsDigit(s[i])
  }

  /** `String(n)` for a non-negative integer. */
  function DecimalString(n: nat): (r: string)
    ensures |r| >= 1 && AllDigits(r)
    ensures r[0] == '0' ==> n == 0
  {
    if n < 10 then [DigitChar(n)] else DecimalString(n / 10) + [DigitChar(n % 10)]
  }

  /** The value of a string of decimal digits, read most significant digit first. */
  function DigitsValue(s: string): nat
    requires AllDigits(s)
  {
    if s == [] then 0 else DigitsValue(s[..|s| - 1]) * 10 + DigitValue(s[|s| - 1])
  }

  lemma {:induction false} DecimalRoundTrip(n: nat)
    ensures DigitsValue(DecimalString(n)) == n
  {
    if n >= 10 {
      var r := DecimalString(n);
      assert r[..|r| - 1] == DecimalString(n / 10);
      DecimalRoundTrip(n / 10);
    }
  }

  function Pow10(k: nat): (p: nat)
    ensures p >= 1
  {
    if k == 0 then 1 else 10 * Pow10(k - 1)
  }

  /** A number has exactly `k` decimal digits when it lies in [10^(k-1), 10^k). */
  lemma {:induction false} DecimalLength(n: nat, k: nat)
    requires k >= 1 && Pow10(k - 1) <= n < Pow10(k)
    ensures |DecimalString(n)| == k
  {
    if k > 1 {
      DecimalLength(n / 10, k - 1);
    }
  }

  /** `Math.floor(Math.random() * n)` for a draw `r` in [0, 1), read exactly. */
  function RandomBelow(r: real, n: nat): (k: int)
    requires 0.0 <= r < 1.0 && n >= 1
    ensures 0 <= k < n
  {
    var x := r * n as real;
    assert 0.0 <= x < n as real by {
      assert r * n as real < 1.0 * n as real;
    }
    x.Floor
  }

  /** Drops the empty strings, keeping the rest in order (`filter(Boolean)` on strings). */
  function NonEmpty(xs: seq<string>): (r: seq<string>)
    ensures |r| <= |xs|
    ensures forall x :: x in r <==> x in xs && x != ""
  {
    if xs == [] then [] else (if xs[0] == "" then [] else [xs[0]]) + NonEmpty(xs[1..])
  }

  lemma {:induction false} NonEmptyAppend(a: seq<string>, b: seq<string>)
    ensures NonEmpty(a + b) == NonEmpty(a) + NonEmpty(b)
  {
    if a == [] {
      assert a + b == b;
    } else {
      assert (a + b)[1..] == a[1..] + b;
      NonEmptyAppend(a[1..], b);
    }
  }

  /** The separators the application splits text on. */
  datatype Separator =
    | DoublePipe    // the string "||"
    | LineOrBullet  // the expression /\r?\n|\u2022|\d+\.|- /
    | SpaceRun      // the expression /\s+/

  /** The length of the run of decimal digits that starts at index `i`. */
  function DigitRun(s: string, i: nat): (k: nat)
    requires i <= |s|
    ensures i + k <= |s|
    ensures forall j {:trigger IsDigit(s[j])} :: i <= j < i + k ==> IsDigit(s[j])
    ensures i + k < |s| ==> !IsDigit(s[i + k])
    decreases |s| - i
  {
    if i < |s| && IsDigit(s[i]) then 1 + DigitRun(s, i + 1) else 0
  }

  /** The length of the run of whitespace that starts at index `i`. */
  function SpaceRunLength(s: string, i: nat): (k: nat)
    requires i <= |s|
    ensures i + k <= |s|
    ensures forall j {:trigger IsSpace(s[j])} :: i <= j < i + k ==> IsSpace(s[j])
    ensures i + k < |s| ==> !IsSpace(s[i + k])
    decreases |s| - i
  {
    if i < |s| && IsSpace(s[i]) then 1 + SpaceRunLength(s, i + 1) else 0
  }

  /**
   * The length of the separator text that matches at index `q`, or 0 when
   * none does. Alternatives are tried in the order the expression lists them;
   * `\d+` is greedy and a shorter run cannot be followed by `.`.
   */
  function MatchLength(sep: Separator, s: string, q: nat): (k: nat)
    requires q < |s|
    ensures q + k <= |s|
    ensures sep == DoublePipe ==> (k == 0 || k == 2) && (k > 0 <==> OccursAt(s, "||", q))
    ensures sep == LineOrBullet && k > 0 ==> s[q + k - 1] in {'\n', '\U{2022}', '.', ' '}
    ensures sep == LineOrBullet && (s[q] == '\n' || s[q] == '\U{2022}') ==> k == 1
    ensures sep == SpaceRun ==> (k > 0 <==> IsSpace(s[q]))
  {
    match sep
    case DoublePipe =>
      if q + 1 < |s| && s[q] == '|' && s[q + 1] == '|' then 2 else 0
    case LineOrBullet =>
      var d := DigitRun(s, q);
      if q + 1 < |s| && s[q] == '\r' && s[q + 1] == '\n' then 2
      else if s[q] == '\n' || s[q] == '\U{2022}' then 1
      else if d > 0 && q + d < |s| && s[q + d] == '.' then d + 1
      else if q + 1 < |s| && s[q] == '-' && s[q + 1] == ' ' then 2
      else 0
    case SpaceRun =>
      SpaceRunLength(s, q)
  }

  /** The match length at every index of `s`. */
  function MatchTable(sep: Separator, s: string): (m: seq<nat>)
    ensures FitsIn(m, s)
  {
    seq(|s|, q requires 0 <= q < |s| => MatchLength(sep, s, q))
  }

  /** `m` is the whitespace-run table of `s`. */
  predicate IsSpaceTable(m: seq<nat>, s: string) {
    FitsIn(m, s) && forall q :: 0 <= q < |s| ==> m[q] == SpaceRunLength(s, q)
  }

  lemma SpaceRunTable(s: string)
    ensures IsSpaceTable(MatchTable(SpaceRun, s), s)
  {
  }

  /** `m` gives, for every index of `s`, the length of a separator match that stays inside `s`. */
  predicate FitsIn(m: seq<nat>, s: string) {
    |m| == |s| && forall q :: 0 <= q < |s| ==> q + m[q] <= |s|
  }

  /**
   * The scan of `String.prototype.split`: the field being collected began at
   * `p` and the search for the next separator is at `q`; `m` holds the match
   * length at each index.
   */
  function SplitFrom(s: string, m: seq<nat>, p: nat, q: nat): (r: seq<string>)
    requires FitsIn(m, s) && p <= q <= |s|
    ensures |r| >= 1
    decreases |s| - q
  {
    if q == |s| then [s[p..]]
    else if m[q] == 0 then SplitFrom(s, m, p, q + 1)
    else [s[p..q]] + SplitFrom(s, m, q + m[q], q + m[q])
  }

  /** The separator texts the same scan consumes, in order. */
  function MatchesFrom(s: string, m: seq<nat>, p: nat, q: nat): seq<string>
    requires FitsIn(m, s) && p <= q <= |s|
    decreases |s| - q
  {
    if q == |s| then []
    else if m[q] == 0 then MatchesFrom(s, m, p, q + 1)
    else [s[q..q + m[q]]] + MatchesFrom(s, m, q + m[q], q + m[q])
  }

  /** `s.split(sep)` */
  function Split(s: string, sep: Separator): seq<string> {
    SplitFrom(s, MatchTable(sep, s), 0, 0)
  }

  function Separators(s: string, sep: Separator): seq<string> {
    MatchesFrom(s, MatchTable(sep, s), 0, 0)
  }

  /** The fields with the separators put back between them. */
  function Interleave(fields: seq<string>, seps: seq<string>): string
    requires |fields| == |seps| + 1
    decreases |seps|
  {
    if seps == [] then fields[0] else fields[0] + seps[0] + Interleave(fields[1..], seps[1..])
  }

  /** `fields.join(glue)` */
  function JoinWith(fields: seq<string>, glue: string): string
    requires |fields| >= 1
    decreases |fields|
  {
    if |fields| == 1 then fields[0] else fields[0] + glue + JoinWith(fields[1..], glue)
  }

  lemma {:induction false} SplitFromRoundTrip(s: string, m: seq<nat>, p: nat, q: nat)
    requires FitsIn(m, s) && p <= q <= |s|
    ensures |SplitFrom(s, m, p, q)| == |MatchesFrom(s, m, p, q)| + 1
    ensures Interleave(SplitFrom(s, m, p, q), MatchesFrom(s, m, p, q)) == s[p..]
    decreases |s| - q
  {
    if q < |s| {
      if m[q] == 0 {
        SplitFromRoundTrip(s, m, p, q + 1);
      } else {
        var r := q + m[q];
        var rest, restSeps := SplitFrom(s, m, r, r), MatchesFrom(s, m, r, r);
        assert SplitFrom(s, m, p, q) == [s[p..q]] + rest;
        assert MatchesFrom(s, m, p, q) == [s[q..r]] + restSeps;
        SplitFromRoundTrip(s, m, r, r);
        RejoinAfterMatch(s, p, q, r, rest, restSeps);
      }
    }
  }

  /** A field, the separator after it, and the already rejoined rest spell the input from `p`. */
  lemma RejoinAfterMatch(s: string, p: nat, q: nat, r: nat, rest: seq<string>, restSeps: seq<string>)
    requires p <= q <= r <= |s|
    requires |rest| == |restSeps| + 1 && Interleave(rest, restSeps) == s[r..]
    ensures Interleave([s[p..q]] + rest, [s[q..r]] + restSeps) == s[p..]
  {
    SplicePieces(s[p..q], s[q..r], rest, restSeps);
    assert s[p..] == s[p..q] + s[q..r] + s[r..];
  }

  lemma SplicePieces(field: string, sep: string, fields: seq<string>, seps: seq<string>)
    requires |fields| == |seps| + 1
    ensures Interleave([field] + fields, [sep] + seps) == field + sep + Interleave(fields, seps)
  {
    assert ([field] + fields)[1..] == fields && ([sep] + seps)[1..] == seps;
  }

  /** Splitting loses nothing: the fields and the separators between them spell the input. */
  lemma SplitRoundTrip(s: string, sep: Separator)
    ensures |Split(s, sep)| == |Separators(s, sep)| + 1
    ensures Interleave(Split(s, sep), Separators(s, sep)) == s
  {
    SplitFromRoundTrip(s, MatchTable(sep, s), 0, 0);
  }

  /** The start and end index of each field the scan of `SplitFrom` collects. */
  function FieldBounds(s: string, m: seq<nat>, p: nat, q: nat): seq<(nat, nat)>
    requires FitsIn(m, s) && p <= q <= |s|
    decreases |s| - q
  {
    if q == |s| then [(p, |s|)]
    else if m[q] == 0 then FieldBounds(s, m, p, q + 1)
    else [(p, q)] + FieldBounds(s, m, q + m[q], q + m[q])
  }

  /** No separator match starts at any index in `[a, b)`. */
  predicate NoMatchIn(m: seq<nat>, a: nat, b: nat)
    requires b <= |m|
  {
    forall t :: a <= t < b ==> m[t] == 0
  }

  /**
   * The fields are the maximal separator-free windows: the first starts at
   * `p`, the last ends at the end of the input, no match starts inside a
   * field, each field but the last stops where a match starts, and the next
   * field begins right after that match.
   */
  predicate IsFieldLayout(s: string, m: seq<nat>, p: nat, f: seq<string>, b: seq<(nat, nat)>)
    requires FitsIn(m, s)
  {
    |f| == |b| && |b| >= 1 && b[0].0 == p && b[|b| - 1].1 == |s|
    && (forall i :: 0 <= i < |b| ==>
          p <= b[i].0 <= b[i].1 <= |s| && f[i] == s[b[i].0..b[i].1] && NoMatchIn(m, b[i].0, b[i].1))
    && (forall i :: 0 <= i < |b| - 1 ==>
          b[i].1 < |s| && m[b[i].1] > 0 && b[i + 1].0 == b[i].1 + m[b[i].1])
  }

  lemma {:induction false} SplitFromLayout(s: string, m: seq<nat>, p: nat, q: nat)
    requires FitsIn(m, s) && p <= q <= |s| && NoMatchIn(m, p, q)
    ensures IsFieldLayout(s, m, p, SplitFrom(s, m, p, q), FieldBounds(s, m, p, q))
    decreases |s| - q
  {
    if q == |s| {
      assert SplitFrom(s, m, p, q) == [s[p..]] && FieldBounds(s, m, p, q) == [(p, |s|)];
    } else {
      if m[q] == 0 {
        assert NoMatchIn(m, p, q + 1);
        SplitFromLayout(s, m, p, q + 1);
        assert SplitFrom(s, m, p, q) == SplitFrom(s, m, p, q + 1);
        assert FieldBounds(s, m, p, q) == FieldBounds(s, m, p, q + 1);
      } else {
        var r := q + m[q];
        SplitFromLayout(s, m, r, r);
        var f, b := SplitFrom(s, m, r, r), FieldBounds(s, m, r, r);
        assert SplitFrom(s, m, p, q) == [s[p..q]] + f;
        assert FieldBounds(s, m, p, q) == [(p, q)] + b;
        ConsLayout(s, m, p, q, f, b);
      }
    }
  }

  /** A separator-free field `[p, q)` followed by a match and a layout from the end of that match. */
  lemma ConsLayout(s: string, m: seq<nat>, p: nat, q: nat, f: seq<string>, b: seq<(nat, nat)>)
    requires FitsIn(m, s) && p <= q < |s| && m[q] > 0 && NoMatchIn(m, p, q)
    requires IsFieldLayout(s, m, q + m[q], f, b)
    ensures IsFieldLayout(s, m, p, [s[p..q]] + f, [(p, q)] + b)
  {
    var f', b' := [s[p..q]] + f, [(p, q)] + b;
    forall i | 0 <= i < |b'|
      ensures p <= b'[i].0 <= b'[i].1 <= |s| && f'[i] == s[b'[i].0..b'[i].1] && NoMatchIn(m, b'[i].0, b'[i].1)
    {
      if i > 0 { assert b'[i] == b[i - 1] && f'[i] == f[i - 1]; }
    }
    forall i | 0 <= i < |b'| - 1
      ensures b'[i].1 < |s| && m[b'[i].1] > 0 && b'[i + 1].0 == b'[i].1 + m[b'[i].1]
    {
      if i > 0 { assert b'[i] == b[i - 1] && b'[i + 1] == b[i]; }
    }
  }

  /** What `split` returns: the fields between the separator matches, each as long as it can be. */
  lemma SplitFieldsAreMaximal(s: string, sep: Separator)
    ensures IsFieldLayout(s, MatchTable(sep, s), 0, Split(s, sep), FieldBounds(s, MatchTable(sep, s), 0, 0))
  {
    SplitFromLayout(s, MatchTable(sep, s), 0, 0);
  }

  /** No field of `s.split("||")` contains `"||"`. */
  lemma DoublePipeFieldsHaveNoPipePair(s: string)
    ensures forall f :: f in Split(s, DoublePipe) ==> !Contains(f, "||")
  {
    var m := MatchTable(DoublePipe, s);
    var fs, b := Split(s, DoublePipe), FieldBounds(s, m, 0, 0);
    SplitFieldsAreMaximal(s, DoublePipe);
    forall f | f in fs ensures !Contains(f, "||") {
      var i :| 0 <= i < |fs| && fs[i] == f;
      NoPipePairInWindow(s, b[i].0, b[i].1);
    }
  }

  /** A window of `s` where no `"||"` match starts holds no `"||"`. */
  lemma NoPipePairInWindow(s: string, a: nat, b: nat)
    requires a <= b <= |s| && NoMatchIn(MatchTable(DoublePipe, s), a, b)
    ensures !Contains(s[a..b], "||")
  {
    var f := s[a..b];
    forall j | 0 <= j && j + 2 <= |f| ensures !OccursAt(f, "||", j) {
      var t := a + j;
      assert MatchTable(DoublePipe, s)[t] == 0;
      assert s[t] == f[j] && s[t + 1] == f[j + 1];
    }
  }

  predicate AllAre(xs: seq<string>, x: string) {
    forall i :: 0 <= i < |xs| ==> xs[i] == x
  }

  lemma {:induction false} DoublePipeMatches(s: string, m: seq<nat>, p: nat, q: nat)
    requires m == MatchTable(DoublePipe, s) && p <= q <= |s|
    ensures AllAre(MatchesFrom(s, m, p, q), "||")
    decreases |s| - q
  {
    if q < |s| {
      if m[q] == 0 {
        DoublePipeMatches(s, m, p, q + 1);
      } else {
        DoublePipeMatches(s, m, q + m[q], q + m[q]);
        assert s[q..q + m[q]] == "||";
      }
    }
  }

  lemma {:induction false} InterleaveWithGlue(fields: seq<string>, seps: seq<string>, glue: string)
    requires |fields| == |seps| + 1
    requires AllAre(seps, glue)
    ensures Interleave(fields, seps) == JoinWith(fields, glue)
    decreases |seps|
  {
    if seps != [] {
      InterleaveWithGlue(fields[1..], seps[1..], glue);
    }
  }

  /** `s.split("||").join("||") == s` */
  lemma SplitJoinDoublePipe(s: string)
    ensures JoinWith(Split(s, DoublePipe), "||") == s
  {
    SplitRoundTrip(s, DoublePipe);
    DoublePipeMatches(s, MatchTable(DoublePipe, s), 0, 0);
    InterleaveWithGlue(Split(s, DoublePipe), Separators(s, DoublePipe), "||");
  }
}
