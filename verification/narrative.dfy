/**
 * Timeline documents and their loader (src/narrative.rs): the frame records, the
 * lenient "mm:ss-mm:ss" time-range parser, per-frame durations and the fail-fast
 * validation that runs after the YAML text has been decoded.
 */
module Narrative {
  import opened Wrappers
  import opened Text

  /** One beat of a timeline; `index` is meant to be the 1-based position. */
  datatype Frame = Frame(index: nat, time: string, camera: string, lighting: string, notes: string)

  /** A decoded timeline document. */
  datatype Timeline = Timeline(title: string, frames: seq<Frame>)

  // ---------------------------------------------------------------------------
  // Time parsing
  // ---------------------------------------------------------------------------

  /** A numeral's value; anything that does not parse as a number counts as 0. */
  function NumberOrZero(s: string): nat {
    match ParseNat(s)
    case Some(v) => v
    case None => 0
  }

  /**
   * Seconds denoted by "m:s": minutes from the piece before the first ':' and
   * seconds from the piece after it; a missing seconds piece counts as 0 and
   * pieces after a second ':' are never read.
   */
  function ParseMmss(s: string): nat {
    var parts := Split(s, ':');
    NumberOrZero(parts[0]) * 60 + (if |parts| > 1 then NumberOrZero(parts[1]) else 0)
  }

  /** Without a ':' the whole text is the minutes and the seconds count as 0. */
  lemma ParseMmssMinutesOnly(m: string)
    requires ':' !in m
    ensures ParseMmss(m) == NumberOrZero(m) * 60
  {
    SplitWithout(m, ':');
  }

  /** "m:s" is minutes times 60 plus seconds, each piece a number or 0. */
  lemma ParseMmssPieces(m: string, sec: string)
    requires ':' !in m && ':' !in sec
    ensures ParseMmss(m + [':'] + sec) == NumberOrZero(m) * 60 + NumberOrZero(sec)
  {
    SplitAt(m, ':', sec);
    SplitWithout(sec, ':');
  }

  /** Whatever follows a second ':' is never read. */
  lemma ParseMmssIgnoresExtra(m: string, sec: string, rest: string)
    requires ':' !in m && ':' !in sec
    ensures ParseMmss(m + [':'] + sec + [':'] + rest) == ParseMmss(m + [':'] + sec)
  {
    ParseMmssPieces(m, sec);
    assert m + [':'] + sec + [':'] + rest == m + [':'] + (sec + [':'] + rest);
    SplitAt(m, ':', sec + [':'] + rest);
    SplitAt(sec, ':', rest);
  }

  /**
   * Start and end, in seconds, of a time range: the trimmed text with en dashes
   * turned into hyphens is split on every hyphen; the first piece gives the start,
   * the second the end, and with no hyphen at all the end defaults to "00:01".
   */
  function ParseTimeRange(s: string): (range: (nat, nat)) {
    var cleaned := Replace(Trim(s), EnDash, '-');
    var parts := Split(cleaned, '-');
    (ParseMmss(Trim(parts[0])), ParseMmss(if |parts| > 1 then Trim(parts[1]) else "00:01"))
  }

  /** En dash and hyphen are interchangeable: texts that agree once dashes are hyphens parse alike. */
  lemma ParseTimeRangeDashAgnostic(s1: string, s2: string)
    requires Replace(s1, EnDash, '-') == Replace(s2, EnDash, '-')
    ensures ParseTimeRange(s1) == ParseTimeRange(s2)
  {
    TrimReplaceCommute(s1, EnDash, '-');
    TrimReplaceCommute(s2, EnDash, '-');
  }

  /** Only the first two hyphen-separated pieces matter; later pieces are ignored. */
  lemma ParseTimeRangeFirstTwoPieces(s: string, l: string, r: string, rest: string)
    requires Replace(Trim(s), EnDash, '-') == l + ['-'] + r + rest
    requires '-' !in l && '-' !in r
    requires rest == [] || rest[0] == '-'
    ensures ParseTimeRange(s) == (ParseMmss(Trim(l)), ParseMmss(Trim(r)))
  {
    SplitFirstTwo(l, '-', r, rest);
  }

  /** Without any separator the whole text is the start and the end is one second. */
  lemma ParseTimeRangeNoSeparator(s: string)
    requires '-' !in Replace(Trim(s), EnDash, '-')
    ensures ParseTimeRange(s) == (ParseMmss(Replace(Trim(s), EnDash, '-')), 1)
  {
    var cleaned := Replace(Trim(s), EnDash, '-');
    SplitWithout(cleaned, '-');
    TrimReplaceCommute(Trim(s), EnDash, '-');
    DefaultEndIsOneSecond();
  }

  /** The default right-hand piece "00:01" stands for one second. */
  lemma DefaultEndIsOneSecond()
    ensures ParseMmss("00:01") == 1
  {
    ParseMmssRoundTrip(1);
    assert FormatMmss(1) == "00:01";
  }

  /** Canonical "mm:ss" rendering of a number of seconds (minutes may exceed two digits). */
  function FormatMmss(t: nat): string {
    Pad2(t / 60) + [':'] + Pad2(t % 60)
  }

  /** Canonical rendering of a time range with the given separator. */
  function FormatRange(a: nat, b: nat, sep: char): string {
    FormatMmss(a) + [sep] + FormatMmss(b)
  }

  /** Digits and colons, starting and ending with a digit: the shape of a canonical time. */
  predicate IsClockText(s: string) {
    && |s| > 0
    && IsDigit(s[0]) && IsDigit(s[|s| - 1])
    && forall k :: 0 <= k < |s| ==> IsDigit(s[k]) || s[k] == ':'
  }

  lemma FormatMmssShape(t: nat)
    ensures IsClockText(FormatMmss(t))
  {
    AllDigitsChars(Pad2(t / 60));
    AllDigitsChars(Pad2(t % 60));
  }

  /** `ParseMmss` inverts the canonical rendering. */
  lemma {:induction false} ParseMmssRoundTrip(t: nat)
    ensures ParseMmss(FormatMmss(t)) == t
  {
    var m := Pad2(t / 60);
    var sec := Pad2(t % 60);
    assert ':' !in m && ':' !in sec by {
      AllDigitsChars(m);
      AllDigitsChars(sec);
    }
    ParseMmssPieces(m, sec);
    ParseNatRoundTrip(t / 60);
    ParseNatRoundTrip(t % 60);
  }

  /** `ParseTimeRange` inverts the canonical rendering, with either separator. */
  lemma {:induction false} ParseTimeRangeRoundTrip(a: nat, b: nat, sep: char)
    requires sep == '-' || sep == EnDash
    ensures ParseTimeRange(FormatRange(a, b, sep)) == (a, b)
  {
    var fa, fb := FormatMmss(a), FormatMmss(b);
    FormatMmssShape(a);
    FormatMmssShape(b);
    CleanedClockRange(fa, fb, sep);
    ParseTimeRangeFirstTwoPieces(fa + [sep] + fb, fa, fb, []);
    ParseMmssRoundTrip(a);
    ParseMmssRoundTrip(b);
  }

  /** Two clock texts around either separator are already trimmed and clean to a hyphen. */
  lemma CleanedClockRange(x: string, y: string, sep: char)
    requires IsClockText(x) && IsClockText(y)
    requires sep == '-' || sep == EnDash
    ensures IsTrimmed(x) && IsTrimmed(y)
    ensures '-' !in x && '-' !in y
    ensures Replace(Trim(x + [sep] + y), EnDash, '-') == x + ['-'] + y + []
  {
    ClockTextFacts(x);
    ClockTextFacts(y);
    TrimmedAround(x, sep, y);
    ReplaceAround(x, sep, y);
  }

  lemma ClockTextFacts(x: string)
    requires IsClockText(x)
    ensures IsTrimmed(x) && '-' !in x && EnDash !in x
  {
  }

  lemma TrimmedAround(x: string, sep: char, y: string)
    requires |x| > 0 && !IsWhitespace(x[0])
    requires |y| > 0 && !IsWhitespace(y[|y| - 1])
    ensures Trim(x + [sep] + y) == x + [sep] + y
  {
    var s := x + [sep] + y;
    assert s[0] == x[0] && s[|s| - 1] == y[|y| - 1];
    assert IsTrimmed(s);
  }

  lemma ReplaceAround(x: string, sep: char, y: string)
    requires EnDash !in x && EnDash !in y
    requires sep == '-' || sep == EnDash
    ensures Replace(x + [sep] + y, EnDash, '-') == x + ['-'] + y + []
  {
    ReplaceConcat(x + [sep], y, EnDash, '-');
    ReplaceConcat(x, [sep], EnDash, '-');
    ReplaceAbsent(x, EnDash, '-');
    ReplaceAbsent(y, EnDash, '-');
    assert Replace([sep], EnDash, '-') == ['-'];
  }

  // ---------------------------------------------------------------------------
  // Frame durations
  // ---------------------------------------------------------------------------

  /** Durations are counted in hundredths of a second. */
  const CentisPerSecond: nat := 100

  /** The 0.01 s floor a frame's duration never goes below. */
  const MinFrameCentis: nat := 1

  /** Duration of a frame with time text `time`: end minus start, floored at 0.01 s. */
  function RangeCentis(time: string): (d: nat)
    ensures d >= MinFrameCentis
  {
    var (a, b) := ParseTimeRange(time);
    if b > a then (b - a) * CentisPerSecond else MinFrameCentis
  }

  /** The durations of all frames, in order. */
  function FrameDurations(frames: seq<Frame>): (ds: seq<nat>)
    ensures |ds| == |frames|
    ensures forall k :: 0 <= k < |ds| ==> ds[k] >= MinFrameCentis
    decreases |frames|
  {
    if |frames| == 0 then []
    else FrameDurations(frames[..|frames| - 1]) + [RangeCentis(frames[|frames| - 1].time)]
  }

  /** Entry `i` of the durations list is the duration of frame `i`. */
  lemma {:induction false} FrameDurationsAt(frames: seq<Frame>, i: nat)
    requires i < |frames|
    ensures FrameDurations(frames)[i] == RangeCentis(frames[i].time)
    decreases |frames|
  {
    if i < |frames| - 1 {
      FrameDurationsAt(frames[..|frames| - 1], i);
    }
  }

  /**
   * Duration of frame `i`: positive (at least 0.01 s) for a frame of the timeline
   * and zero for a position past the last frame.
   */
  function FrameDurationCentis(t: Timeline, i: nat): (d: nat)
    ensures d > 0 <==> i < |t.frames|
    ensures i < |t.frames| ==> d >= MinFrameCentis
  {
    if i < |t.frames| then FrameDurations(t.frames)[i] else 0
  }

  // ---------------------------------------------------------------------------
  // Loader
  // ---------------------------------------------------------------------------

  /** Why a timeline did not load; positions are 0-based, indexes are as written. */
  datatype LoadError =
    | DecodeError(cause: string)
    | IndexMismatch(position: nat, got: nat)
    | NonPositiveDuration(index: nat, time: string)

  /** The frame at `position` carries its 1-based position as its index. */
  predicate IndexOk(f: Frame, position: nat) {
    f.index == position + 1
  }

  /** The frame's parsed end lies strictly after its parsed start. */
  predicate TimeOk(f: Frame) {
    ParseTimeRange(f.time).1 > ParseTimeRange(f.time).0
  }

  /** The frame passes both loader checks. */
  predicate FrameOk(f: Frame, position: nat) {
    IndexOk(f, position) && TimeOk(f)
  }

  /** Every frame has the right index and a positive duration. */
  predicate WellFormed(t: Timeline) {
    forall i :: 0 <= i < |t.frames| ==> FrameOk(t.frames[i], i)
  }

  /** The 0-based position a validation error names. */
  function ErrorPosition(e: LoadError): int {
    match e
    case DecodeError(_) => -1
    case IndexMismatch(p, _) => p
    case NonPositiveDuration(idx, _) => idx - 1
  }

  /** The loader's verdict on one frame: the first check it fails, if any. */
  function FrameFault(f: Frame, position: nat): (r: Option<LoadError>)
    ensures r.None? <==> FrameOk(f, position)
    ensures r.Some? ==> FaultAt(f, position, r.value)
  {
    if !IndexOk(f, position) then Some(IndexMismatch(position, f.index))
    else if !TimeOk(f) then Some(NonPositiveDuration(f.index, f.time))
    else None
  }

  /**
   * `e` is what the loader reports for the frame at position `p`: the index check
   * runs first, and the time check is reached only by a frame whose index is right.
   */
  predicate FaultAt(f: Frame, p: nat, e: LoadError) {
    match e
    case DecodeError(_) => false
    case IndexMismatch(pos, got) => pos == p && got == f.index && !IndexOk(f, p)
    case NonPositiveDuration(idx, time) =>
      IndexOk(f, p) && idx == f.index && time == f.time && !TimeOk(f)
  }

  /** Fail-fast scan: the position and verdict of the first element from `i` on that `check` rejects. */
  function FirstFault<T, E>(xs: seq<T>, i: nat, check: (T, nat) -> Option<E>): (r: Option<(nat, E)>)
    requires i <= |xs|
    ensures r.None? <==> forall j :: i <= j < |xs| ==> check(xs[j], j).None?
    ensures r.Some? ==> var (p, e) := r.value;
      && i <= p < |xs|
      && check(xs[p], p) == Some(e)
      && forall j :: i <= j < p ==> check(xs[j], j).None?
    decreases |xs| - i
  {
    if i == |xs| then None
    else match check(xs[i], i)
      case Some(e) => Some((i, e))
      case None => FirstFault(xs, i + 1, check)
  }

  /** The scan with the frame check finds nothing exactly on a well-formed list, and otherwise the first faulty frame. */
  lemma FirstFaultOfFrames(frames: seq<Frame>)
    ensures FirstFault(frames, 0, FrameFault).None? <==> forall j :: 0 <= j < |frames| ==> FrameOk(frames[j], j)
    ensures FirstFault(frames, 0, FrameFault).Some? ==>
      var (p, e) := FirstFault(frames, 0, FrameFault).value;
      && p < |frames|
      && ErrorPosition(e) == p
      && FaultAt(frames[p], p, e)
      && forall j :: 0 <= j < p ==> FrameOk(frames[j], j)
  {
    var r := FirstFault(frames, 0, FrameFault);
    if r.None? {
      forall j | 0 <= j < |frames| ensures FrameOk(frames[j], j) {
        assert FrameFault(frames[j], j).None?;
      }
    } else {
      var (p, e) := r.value;
      assert FrameFault(frames[p], p) == Some(e);
      forall j | 0 <= j < p ensures FrameOk(frames[j], j) {
        assert FrameFault(frames[j], j).None?;
      }
    }
  }

  /**
   * Post-decode validation of `load_timeline_from_yaml_str`. `decoded` stands for
   * the YAML decoder's outcome. The timeline is returned unchanged exactly when it
   * is well formed; otherwise the error names the first faulty frame, and every
   * frame before it passed both checks.
   */
  function LoadTimeline(decoded: Result<Timeline, string>): (r: Result<Timeline, LoadError>)
    ensures decoded.Failure? ==> r == Failure(DecodeError(decoded.error))
    ensures decoded.Success? ==> (r.Success? <==> WellFormed(decoded.value))
    ensures r.Success? ==> r.value == decoded.value
    ensures decoded.Success? && r.Failure? ==>
      var frames := decoded.value.frames;
      var p := ErrorPosition(r.error);
      && 0 <= p < |frames|
      && FaultAt(frames[p], p, r.error)
      && forall j :: 0 <= j < p ==> FrameOk(frames[j], j)
  {
    match decoded
    case Failure(cause) => Failure(DecodeError(cause))
    case Success(t) =>
      FirstFaultOfFrames(t.frames);
      match FirstFault(t.frames, 0, FrameFault)
      case Some((_, e)) => Failure(e)
      case None => Success(t)
  }

  /** In a loaded timeline the 0.01 s floor never applies: each duration is end minus start. */
  lemma LoadedDurationsExact(decoded: Result<Timeline, string>, i: nat)
    requires LoadTimeline(decoded).Success?
    requires i < |decoded.value.frames|
    ensures var (a, b) := ParseTimeRange(decoded.value.frames[i].time);
      b > a && FrameDurationCentis(decoded.value, i) == (b - a) * CentisPerSecond
  {
    FrameDurationsAt(decoded.value.frames, i);
    assert FrameOk(decoded.value.frames[i], i);
  }

  // ---------------------------------------------------------------------------
  // Worked cases
  // ---------------------------------------------------------------------------

  function SampleFrame(index: nat, time: string): Frame {
    Frame(index, time, "cam", "light", "")
  }

  /** A document without frames passes validation: the checks have nothing to look at. */
  lemma EmptyTimelineLoads(title: string)
    ensures LoadTimeline(Success(Timeline(title, []))) == Success(Timeline(title, []))
  {
  }

  /** The concrete ranges used below, read through the canonical round trip. */
  lemma SampleRanges()
    ensures ParseTimeRange("00:00-00:06") == (0, 6)
    ensures ParseTimeRange("00:06-00:10") == (6, 10)
    ensures ParseTimeRange("01:00-01:00") == (60, 60)
    ensures ParseTimeRange("01:00" + [EnDash] + "00:30") == (60, 30)
  {
    SampleRender();
    ParseTimeRangeRoundTrip(0, 6, '-');
    ParseTimeRangeRoundTrip(6, 10, '-');
    ParseTimeRangeRoundTrip(60, 60, '-');
    ParseTimeRangeRoundTrip(60, 30, EnDash);
  }

  lemma SampleRender()
    ensures FormatRange(0, 6, '-') == "00:00-00:06"
    ensures FormatRange(6, 10, '-') == "00:06-00:10"
    ensures FormatRange(60, 60, '-') == "01:00-01:00"
    ensures FormatRange(60, 30, EnDash) == "01:00" + [EnDash] + "00:30"
  {
    SamplePads();
    assert FormatMmss(0) == "00:00";
    assert FormatMmss(6) == "00:06";
    assert FormatMmss(10) == "00:10";
    assert FormatMmss(60) == "01:00";
    assert FormatMmss(30) == "00:30";
  }

  lemma SamplePads()
    ensures Pad2(0) == "00" && Pad2(1) == "01" && Pad2(6) == "06"
    ensures Pad2(10) == "10" && Pad2(30) == "30"
  {
    assert NatToString(1) == "1";
    assert NatToString(3) == "3";
    assert NatToString(10) == NatToString(1) + "0";
    assert NatToString(30) == NatToString(3) + "0";
  }

  /** The loader rejects a second frame whose index is not 2, whatever its time says. */
  lemma IndexGapRejected(title: string, f0: Frame, f1: Frame, rest: seq<Frame>)
    requires FrameOk(f0, 0) && f1.index != 2
    ensures LoadTimeline(Success(Timeline(title, [f0, f1] + rest))) == Failure(IndexMismatch(1, f1.index))
  {
    var frames := [f0, f1] + rest;
    assert frames[0] == f0 && frames[1] == f1;
  }

  /** A correctly numbered first frame whose end is not after its start is rejected with its time. */
  lemma NonPositiveRangeRejected(title: string, f0: Frame, rest: seq<Frame>)
    requires f0.index == 1 && !TimeOk(f0)
    ensures LoadTimeline(Success(Timeline(title, [f0] + rest))) == Failure(NonPositiveDuration(1, f0.time))
  {
    assert ([f0] + rest)[0] == f0;
  }

  /** "01:00-01:00" (zero length) and "01:00–00:30" (end before start) fail the time check; "00:00-00:06" passes. */
  lemma SampleTimeChecks()
    ensures !TimeOk(SampleFrame(1, "01:00-01:00"))
    ensures !TimeOk(SampleFrame(1, "01:00" + [EnDash] + "00:30"))
    ensures TimeOk(SampleFrame(1, "00:00-00:06"))
  {
    SampleRanges();
  }
}
