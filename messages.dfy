/**
 * The message record of the user model: the content constraint of its
 * schema, and the helpers it offers on a stored message (relative age,
 * recency, preview, word count). Time is an integer number of
 * milliseconds since the epoch; "now" is passed in.
 */
module Messages {
  import opened Js
  import opened Wrappers

  type MessageId = string

  /** A stored message: its `_id`, its (already trimmed) content and its creation time. */
  datatype Message = Message(id: MessageId, content: string, createdAt: int)

  const MinContentLength: nat := 10
  const MaxContentLength: nat := 300

  datatype ContentError = ContentRequired | ContentTooShort | ContentTooLong

  /**
   * The `content` path of the schema: its setter trims the value, which must
   * then be present (non-empty) and between 10 and 300 characters long.
   */
  function StoredContent(input: string): (r: Result<string, ContentError>)
    ensures r.Ok? <==> MinContentLength <= |Trim(input)| <= MaxContentLength
    ensures r.Ok? ==> r.value == Trim(input) && IsTrimmed(r.value)
    ensures r == Err(ContentRequired) <==> Trim(input) == ""
  {
    var t := Trim(input);
    if t == "" then Err(ContentRequired)
    else if |t| < MinContentLength then Err(ContentTooShort)
    else if |t| > MaxContentLength then Err(ContentTooLong)
    else Ok(t)
  }

  // ---------------------------------------------------------------- relative time

  const SecondsPerMinute: int := 60
  const SecondsPerHour: int := 3600
  const SecondsPerDay: int := 86400
  const SecondsPerMonth: int := 2592000

  datatype TimeUnit = Minute | Hour | Day | Month

  /** The bucket a message's age falls into. */
  datatype Age = JustNow | Ago(quantity: nat, unit: TimeUnit)

  /** `Math.floor((now - createdAt) / 1000)`; Dafny's division by a positive divisor is already the floor. */
  function ElapsedSeconds(now: int, createdAt: int): (r: int)
    ensures r * 1000 <= now - createdAt < (r + 1) * 1000
  {
    (now - createdAt) / 1000
  }

  function AgeOf(seconds: int): Age {
    if seconds < SecondsPerMinute then JustNow
    else if seconds < SecondsPerHour then Ago(seconds / SecondsPerMinute, Minute)
    else if seconds < SecondsPerDay then Ago(seconds / SecondsPerHour, Hour)
    else if seconds < SecondsPerMonth then Ago(seconds / SecondsPerDay, Day)
    else Ago(seconds / SecondsPerMonth, Month)
  }

  function UnitSeconds(u: TimeUnit): int {
    match u
    case Minute => SecondsPerMinute
    case Hour => SecondsPerHour
    case Day => SecondsPerDay
    case Month => SecondsPerMonth
  }

  /**
   * Each bucket covers one range of whole seconds and counts the largest
   * whole number of its units that fit: below a minute is "Just now", and
   * the minute, hour and day counts stay below the next unit.
   */
  lemma AgeRanges(seconds: int)
    ensures AgeOf(seconds) == JustNow <==> seconds < 60
    ensures AgeOf(seconds).Ago? ==> var q, u := AgeOf(seconds).quantity, AgeOf(seconds).unit;
      q >= 1 && q * UnitSeconds(u) <= seconds < (q + 1) * UnitSeconds(u)
    ensures AgeOf(seconds).Ago? && AgeOf(seconds).unit == Minute <==> 60 <= seconds < 3600
    ensures AgeOf(seconds).Ago? && AgeOf(seconds).unit == Hour <==> 3600 <= seconds < 86400
    ensures AgeOf(seconds).Ago? && AgeOf(seconds).unit == Day <==> 86400 <= seconds < 2592000
    ensures AgeOf(seconds).Ago? && AgeOf(seconds).unit == Month <==> 2592000 <= seconds
    ensures AgeOf(seconds).Ago? && AgeOf(seconds).unit != Month ==>
      AgeOf(seconds).quantity * UnitSeconds(AgeOf(seconds).unit) < 2592000
  {
  }

  function UnitName(u: TimeUnit): string {
    match u
    case Minute => "minute"
    case Hour => "hour"
    case Day => "day"
    case Month => "month"
  }

  /** The text the age is shown as. */
  function Render(a: Age): string {
    match a
    case JustNow => "Just now"
    case Ago(q, u) =>
      DecimalString(q) + " " + UnitName(u) + (if q > 1 then "s" else "") + " ago"
  }

  /** `getRelativeTime()` at time `now`. */
  function RelativeTime(now: int, createdAt: int): string {
    Render(AgeOf(ElapsedSeconds(now, createdAt)))
  }

  predicate EndsWith(s: string, suffix: string) {
    |suffix| <= |s| && s[|s| - |suffix|..] == suffix
  }

  /** The unit is written in the plural exactly when there is more than one of it. */
  lemma PluralSuffix(q: nat, u: TimeUnit)
    requires q >= 1
    ensures EndsWith(Render(Ago(q, u)), "s ago") <==> q > 1
    ensures EndsWith(Render(Ago(q, u)), " ago")
  {
    var name := UnitName(u);
    var head := DecimalString(q) + " " + name;
    assert name[|name| - 1] != 's';
    assert head[|head| - 1] == name[|name| - 1];
    assert Render(Ago(q, u)) == head + (if q > 1 then "s" else "") + " ago";
    AgoEnding(head, q > 1);
  }

  lemma AgoEnding(head: string, plural: bool)
    requires head != [] && head[|head| - 1] != 's'
    ensures var r := head + (if plural then "s" else "") + " ago";
      (EndsWith(r, "s ago") <==> plural) && EndsWith(r, " ago")
  {
    var r := head + (if plural then "s" else "") + " ago";
    if !plural {
      assert r[|r| - 5] == head[|head| - 1];
    }
  }

  /** Every age past a minute is shown as a positive count followed by its unit. */
  lemma RelativeTimeShape(now: int, createdAt: int)
    requires ElapsedSeconds(now, createdAt) >= 60
    ensures var a := AgeOf(ElapsedSeconds(now, createdAt));
      a.Ago? && a.quantity >= 1 &&
      RelativeTime(now, createdAt) == DecimalString(a.quantity) + " " + UnitName(a.unit)
        + (if a.quantity > 1 then "s" else "") + " ago"
  {
    AgeRanges(ElapsedSeconds(now, createdAt));
  }

  // ---------------------------------------------------------------- recency

  const OneDayMs: int := 24 * 60 * 60 * 1000
  const OneHourMs: int := 60 * 60 * 1000

  /** `isRecent()`: created after the instant one day before now. */
  predicate IsRecent(now: int, createdAt: int) {
    createdAt > now - OneDayMs
  }

  /** The `isNew` virtual: created after the instant one hour before now. */
  predicate IsNew(now: int, createdAt: int) {
    createdAt > now - OneHourMs
  }

  lemma NewIsRecent(now: int, createdAt: int)
    requires IsNew(now, createdAt)
    ensures IsRecent(now, createdAt)
  {
  }

  /** A message is recent exactly when its relative time is shown in minutes, hours or as "Just now". */
  lemma RecentIffUnderADay(now: int, createdAt: int)
    ensures IsRecent(now, createdAt) <==>
      (AgeOf(ElapsedSeconds(now, createdAt)) == JustNow || AgeOf(ElapsedSeconds(now, createdAt)).unit in {Minute, Hour})
  {
    var d := now - createdAt;
    assert d < OneDayMs <==> d / 1000 < SecondsPerDay;
    AgeRanges(ElapsedSeconds(now, createdAt));
  }

  /** A message is new exactly when its relative time is "Just now" or counted in minutes. */
  lemma NewIffUnderAnHour(now: int, createdAt: int)
    ensures IsNew(now, createdAt) <==>
      (AgeOf(ElapsedSeconds(now, createdAt)) == JustNow || AgeOf(ElapsedSeconds(now, createdAt)).unit == Minute)
  {
    var d := now - createdAt;
    assert d < OneHourMs <==> d / 1000 < SecondsPerHour;
    AgeRanges(ElapsedSeconds(now, createdAt));
  }

  // ---------------------------------------------------------------- preview

  const PreviewLength: nat := 50

  /** `getPreview()` */
  function Preview(content: string): (r: string)
    ensures |r| <= PreviewLength + 3
    ensures |content| <= PreviewLength ==> r == content
    ensures |content| > PreviewLength ==> |r| == PreviewLength + 3 && EndsWith(r, "...")
    ensures r[..if |content| <= PreviewLength then |content| else PreviewLength] ==
      content[..if |content| <= PreviewLength then |content| else PreviewLength]
  {
    if |content| > PreviewLength then content[..PreviewLength] + "..." else content
  }

  /** A preview of a preview is the same preview. */
  lemma PreviewIdempotent(content: string)
    ensures Preview(Preview(content)) == Preview(content)
  {
    if |content| > PreviewLength {
      var p := Preview(content);
      assert p[..PreviewLength] == content[..PreviewLength];
    }
  }

  // ---------------------------------------------------------------- word count

  /** The `wordCount` virtual: the non-empty pieces of the content split on runs of whitespace. */
  function WordCount(content: string): nat {
    |NonEmpty(Split(content, SpaceRun))|
  }

  /** A word starts at `i`: a non-space character that begins the text or follows a space. */
  predicate WordStart(s: string, i: nat)
    requires i < |s|
  {
    !IsSpace(s[i]) && (i == 0 || IsSpace(s[i - 1]))
  }

  /** The number of word starts in `s[lo..hi]`. */
  function WordStartsIn(s: string, lo: nat, hi: nat): nat
    requires lo <= hi <= |s|
    decreases hi
  {
    if hi == lo then 0 else WordStartsIn(s, lo, hi - 1) + (if WordStart(s, hi - 1) then 1 else 0)
  }

  lemma {:induction false} WordStartsAdd(s: string, lo: nat, mid: nat, hi: nat)
    requires lo <= mid <= hi <= |s|
    ensures WordStartsIn(s, lo, hi) == WordStartsIn(s, lo, mid) + WordStartsIn(s, mid, hi)
    decreases hi
  {
    if hi > mid {
      WordStartsAdd(s, lo, mid, hi - 1);
    }
  }

  lemma {:induction false} NoWordStartsInSpaces(s: string, lo: nat, hi: nat)
    requires lo <= hi <= |s|
    requires forall j :: lo <= j < hi ==> IsSpace(s[j])
    ensures WordStartsIn(s, lo, hi) == 0
    decreases hi
  {
    if hi > lo {
      NoWordStartsInSpaces(s, lo, hi - 1);
    }
  }

  /** A run of non-space characters that starts a word holds exactly one word start. */
  lemma {:induction false} OneWordStartInRun(s: string, lo: nat, hi: nat)
    requires lo <= hi <= |s|
    requires lo == 0 || IsSpace(s[lo - 1])
    requires forall j :: lo <= j < hi ==> !IsSpace(s[j])
    ensures WordStartsIn(s, lo, hi) == if lo < hi then 1 else 0
    decreases hi
  {
    if hi > lo {
      OneWordStartInRun(s, lo, hi - 1);
    }
  }

  /** The last field of the split, a run of non-space characters, holds the remaining word if it is not empty. */
  lemma WordsInLastField(s: string, m: seq<nat>, p: nat)
    requires FitsIn(m, s) && p <= |s|
    requires p == 0 || IsSpace(s[p - 1])
    requires forall j :: p <= j < |s| ==> !IsSpace(s[j])
    ensures |NonEmpty(SplitFrom(s, m, p, |s|))| == WordStartsIn(s, p, |s|)
  {
    OneWordStartInRun(s, p, |s|);
    assert SplitFrom(s, m, p, |s|) == [s[p..]];
    assert |NonEmpty([s[p..]])| == if p < |s| then 1 else 0;
  }

  /** A field followed by a run of whitespace adds its one word (if any) to the words after the run. */
  lemma WordsInFieldThenRun(s: string, m: seq<nat>, p: nat, q: nat)
    requires IsSpaceTable(m, s) && p <= q < |s| && m[q] > 0
    requires p == 0 || IsSpace(s[p - 1])
    requires forall j :: p <= j < q ==> !IsSpace(s[j])
    requires |NonEmpty(SplitFrom(s, m, q + m[q], q + m[q]))| == WordStartsIn(s, q + m[q], |s|)
    ensures |NonEmpty(SplitFrom(s, m, p, q))| == WordStartsIn(s, p, |s|)
  {
    var r := q + m[q];
    var rest := SplitFrom(s, m, r, r);
    assert SplitFrom(s, m, p, q) == [s[p..q]] + rest;
    NonEmptyAppend([s[p..q]], rest);
    OneWordStartInRun(s, p, q);
    assert |NonEmpty([s[p..q]])| == WordStartsIn(s, p, q);
    assert forall j :: q <= j < r ==> IsSpace(s[j]);
    NoWordStartsInSpaces(s, q, r);
    WordStartsAdd(s, p, q, |s|);
    WordStartsAdd(s, q, r, |s|);
  }

  lemma {:induction false} WordsFrom(s: string, m: seq<nat>, p: nat, q: nat)
    requires IsSpaceTable(m, s) && p <= q <= |s|
    requires p == 0 || IsSpace(s[p - 1])
    requires forall j :: p <= j < q ==> !IsSpace(s[j])
    ensures |NonEmpty(SplitFrom(s, m, p, q))| == WordStartsIn(s, p, |s|)
    decreases |s| - q
  {
    if q == |s| {
      WordsInLastField(s, m, p);
    } else if m[q] == 0 {
      assert !IsSpace(s[q]);
      WordsFrom(s, m, p, q + 1);
    } else {
      assert IsSpace(s[q + m[q] - 1]);
      WordsFrom(s, m, q + m[q], q + m[q]);
      WordsInFieldThenRun(s, m, p, q);
    }
  }

  /** The word count is the number of places where a word starts. */
  lemma WordCountIsWordStarts(content: string)
    ensures WordCount(content) == WordStartsIn(content, 0, |content|)
  {
    SpaceRunTable(content);
    WordsFrom(content, MatchTable(SpaceRun, content), 0, 0);
  }
}
