/**
 * The offline timeline checker (scripts/validate_timeline.py): a stricter
 * "mm:ss-mm:ss" parser, a pass over every frame that reports all problems instead
 * of stopping at the first, overlap warnings that never fail a file, and the
 * process exit code that combines the per-file verdicts.
 */
module TimelineValidator {
  import opened Wrappers
  import opened Text
  import Narrative

  // ---------------------------------------------------------------------------
  // Time parsing (`mmss_to_sec`)
  // ---------------------------------------------------------------------------

  /** `int(...)`/`float(...)` on a piece: surrounding whitespace is allowed, the rest must be a numeral. */
  function PyNumber(s: string): Option<nat> {
    ParseNat(Trim(s))
  }

  /** The inner `parse`: exactly one ':' with a number on each side, giving seconds. */
  function PyClock(mmss: string): Option<nat> {
    var parts := Split(Trim(mmss), ':');
    if |parts| != 2 then None
    else match (PyNumber(parts[0]), PyNumber(parts[1]))
      case (Some(m), Some(sec)) => Some(m * 60 + sec)
      case _ => None
  }

  /**
   * `mmss_to_sec`: the trimmed text with en dashes turned into hyphens must split
   * into exactly two pieces, each a clock time; anything else raises, here `None`.
   */
  function MmssToSec(s: string): Option<(nat, nat)> {
    var halves := Split(Replace(Trim(s), EnDash, '-'), '-');
    if |halves| != 2 then None
    else match (PyClock(halves[0]), PyClock(halves[1]))
      case (Some(a), Some(b)) => Some((a, b))
      case _ => None
  }

  /** A range with no hyphen, or with more than one, is rejected outright. */
  lemma MmssToSecNeedsOneDash(s: string)
    requires multiset(Replace(Trim(s), EnDash, '-'))['-'] != 1
    ensures MmssToSec(s).None?
  {
    SplitCount(Replace(Trim(s), EnDash, '-'), '-');
  }

  /** A clock time with no ':', or with more than one, is rejected outright. */
  lemma PyClockNeedsOneColon(mmss: string)
    requires multiset(Trim(mmss))[':'] != 1
    ensures PyClock(mmss).None?
  {
    SplitCount(Trim(mmss), ':');
  }

  /** A piece the loader would read as a plain numeral is one the checker reads the same way. */
  lemma PyNumberOfNumeral(s: string)
    requires ParseNat(s).Some?
    ensures PyNumber(s) == ParseNat(s)
  {
    ParseNatShape(s);
  }

  /** A cleaned range with exactly one hyphen is read as the two clock times around it. */
  lemma MmssToSecHalves(s: string, l: string, r: string)
    requires Replace(Trim(s), EnDash, '-') == l + ['-'] + r
    requires '-' !in l && '-' !in r
    ensures MmssToSec(s) == if PyClock(l).Some? && PyClock(r).Some? then Some((PyClock(l).value, PyClock(r).value)) else None
  {
    SplitAt(l, '-', r);
    SplitWithout(r, '-');
  }

  /** "m:s" with plain numerals is a clock time for the checker. */
  lemma ClockPieces(m: string, sec: string)
    requires ParseNat(m).Some? && ParseNat(sec).Some?
    ensures PyClock(m + [':'] + sec) == Some(ParseNat(m).value * 60 + ParseNat(sec).value)
    ensures '-' !in m + [':'] + sec && EnDash !in m + [':'] + sec
  {
    ParseNatShape(m);
    ParseNatShape(sec);
    var c := m + [':'] + sec;
    assert c[0] == m[0] && c[|c| - 1] == sec[|sec| - 1];
    SplitAt(m, ':', sec);
    SplitWithout(sec, ':');
  }

  /** "m:s" with plain numerals is a clock time for the loader, read the same way. */
  lemma LoaderClockPieces(m: string, sec: string)
    requires ParseNat(m).Some? && ParseNat(sec).Some?
    ensures Narrative.ParseMmss(Trim(m + [':'] + sec)) == ParseNat(m).value * 60 + ParseNat(sec).value
  {
    ParseNatShape(m);
    ParseNatShape(sec);
    var c := m + [':'] + sec;
    assert c[0] == m[0] && c[|c| - 1] == sec[|sec| - 1];
    Narrative.ParseMmssPieces(m, sec);
  }

  /** The loader reads "m:s-m:s" with plain numerals as the checker does. */
  lemma LoaderReadsNumerals(s: string, l: string, r: string, m1: string, s1: string, m2: string, s2: string)
    requires l == m1 + [':'] + s1 && r == m2 + [':'] + s2
    requires Replace(Trim(s), EnDash, '-') == l + ['-'] + r
    requires ParseNat(m1).Some? && ParseNat(s1).Some? && ParseNat(m2).Some? && ParseNat(s2).Some?
    ensures Narrative.ParseTimeRange(s).0 == ParseNat(m1).value * 60 + ParseNat(s1).value
    ensures Narrative.ParseTimeRange(s).1 == ParseNat(m2).value * 60 + ParseNat(s2).value
  {
    assert Narrative.ParseMmss(Trim(l)) == ParseNat(m1).value * 60 + ParseNat(s1).value by {
      LoaderClockPieces(m1, s1);
    }
    assert Narrative.ParseMmss(Trim(r)) == ParseNat(m2).value * 60 + ParseNat(s2).value by {
      LoaderClockPieces(m2, s2);
    }
    assert '-' !in l && '-' !in r by {
      ClockPieces(m1, s1);
      ClockPieces(m2, s2);
    }
    assert l + ['-'] + r == l + ['-'] + r + [];
    Narrative.ParseTimeRangeFirstTwoPieces(s, l, r, []);
  }

  /**
   * Both parsers read a range written as four plain numerals "m:s-m:s" (after the
   * outer trim and the dash clean-up) alike: the checker accepts it and reports the
   * times the game's loader will use.
   */
  lemma CheckerAgreesWithLoader(s: string, m1: string, s1: string, m2: string, s2: string)
    requires Replace(Trim(s), EnDash, '-') == (m1 + [':'] + s1) + ['-'] + (m2 + [':'] + s2)
    requires ParseNat(m1).Some? && ParseNat(s1).Some? && ParseNat(m2).Some? && ParseNat(s2).Some?
    ensures MmssToSec(s) == Some((ParseNat(m1).value * 60 + ParseNat(s1).value,
                                  ParseNat(m2).value * 60 + ParseNat(s2).value))
    ensures Narrative.ParseTimeRange(s).0 == MmssToSec(s).value.0
    ensures Narrative.ParseTimeRange(s).1 == MmssToSec(s).value.1
  {
    var l, r := m1 + [':'] + s1, m2 + [':'] + s2;
    ClockPieces(m1, s1);
    ClockPieces(m2, s2);
    MmssToSecHalves(s, l, r);
    LoaderReadsNumerals(s, l, r, m1, s1, m2, s2);
  }

  /** The canonical text of a range is four plain numerals around ':', '-' and ':'. */
  lemma CanonicalRangePieces(a: nat, b: nat, sep: char)
    requires sep == '-' || sep == EnDash
    ensures Replace(Trim(Narrative.FormatRange(a, b, sep)), EnDash, '-')
      == (Pad2(a / 60) + [':'] + Pad2(a % 60)) + ['-'] + (Pad2(b / 60) + [':'] + Pad2(b % 60))
  {
    var fa, fb := Narrative.FormatMmss(a), Narrative.FormatMmss(b);
    Narrative.FormatMmssShape(a);
    Narrative.FormatMmssShape(b);
    Narrative.CleanedClockRange(fa, fb, sep);
  }

  /** The checker inverts the canonical rendering, with either separator, as the loader does. */
  lemma MmssToSecRoundTrip(a: nat, b: nat, sep: char)
    requires sep == '-' || sep == EnDash
    ensures MmssToSec(Narrative.FormatRange(a, b, sep)) == Some((a, b))
    ensures Narrative.ParseTimeRange(Narrative.FormatRange(a, b, sep)) == (a, b)
  {
    var s := Narrative.FormatRange(a, b, sep);
    var am, as_, bm, bs := Pad2(a / 60), Pad2(a % 60), Pad2(b / 60), Pad2(b % 60);
    CanonicalRangePieces(a, b, sep);
    ParseNatRoundTrip(a / 60);
    ParseNatRoundTrip(a % 60);
    ParseNatRoundTrip(b / 60);
    ParseNatRoundTrip(b % 60);
    CheckerAgreesWithLoader(s, am, as_, bm, bs);
    ReadsBack(MmssToSec(s), am, as_, bm, bs, a, b);
  }

  /** Minutes and seconds read back from the canonical text make up the original time. */
  lemma ReadsBack(v: Option<(nat, nat)>, am: string, as_: string, bm: string, bs: string, a: nat, b: nat)
    requires ParseNat(am) == Some(a / 60) && ParseNat(as_) == Some(a % 60)
    requires ParseNat(bm) == Some(b / 60) && ParseNat(bs) == Some(b % 60)
    requires v == Some((ParseNat(am).value * 60 + ParseNat(as_).value, ParseNat(bm).value * 60 + ParseNat(bs).value))
    ensures v == Some((a, b))
  {
  }

  /**
   * The checker trims around each number and the loader does not: with a space
   * before the first ':' (as in "01 :06-02:00") the checker reads the minutes and
   * the loader reads the start as the seconds alone.
   */
  lemma SpaceBeforeColonDisagrees(s: string, m1: string, s1: string, m2: string, s2: string)
    requires s == (m1 + [' ', ':'] + s1) + ['-'] + (m2 + [':'] + s2)
    requires ParseNat(m1).Some? && ParseNat(s1).Some? && ParseNat(m2).Some? && ParseNat(s2).Some?
    ensures MmssToSec(s) == Some((ParseNat(m1).value * 60 + ParseNat(s1).value,
                                  ParseNat(m2).value * 60 + ParseNat(s2).value))
    ensures Narrative.ParseTimeRange(s) == (ParseNat(s1).value, ParseNat(m2).value * 60 + ParseNat(s2).value)
  {
    var l, r := m1 + [' ', ':'] + s1, m2 + [':'] + s2;
    SpacedClock(m1, s1);
    ClockPieces(m2, s2);
    assert Replace(Trim(s), EnDash, '-') == l + ['-'] + r by {
      ParseNatShape(m1);
      ParseNatShape(s2);
      assert l[0] == m1[0] && r[|r| - 1] == s2[|s2| - 1];
      CleanRange(l, r);
    }
    MmssToSecHalves(s, l, r);
    SpacedRangeLoader(s, l, r, m1, s1, m2, s2);
  }

  /** The loader's reading of "m :s-m:s": the first minutes are lost. */
  lemma SpacedRangeLoader(s: string, l: string, r: string, m1: string, s1: string, m2: string, s2: string)
    requires l == m1 + [' ', ':'] + s1 && r == m2 + [':'] + s2
    requires Replace(Trim(s), EnDash, '-') == l + ['-'] + r
    requires ParseNat(m1).Some? && ParseNat(s1).Some? && ParseNat(m2).Some? && ParseNat(s2).Some?
    ensures Narrative.ParseTimeRange(s) == (ParseNat(s1).value, ParseNat(m2).value * 60 + ParseNat(s2).value)
  {
    assert Narrative.ParseMmss(Trim(l)) == ParseNat(s1).value by {
      SpacedClockLoader(m1, s1);
    }
    assert Narrative.ParseMmss(Trim(r)) == ParseNat(m2).value * 60 + ParseNat(s2).value by {
      LoaderClockPieces(m2, s2);
    }
    assert '-' !in l && '-' !in r by {
      SpacedClock(m1, s1);
      ClockPieces(m2, s2);
    }
    assert l + ['-'] + r == l + ['-'] + r + [];
    Narrative.ParseTimeRangeFirstTwoPieces(s, l, r, []);
  }

  /** Text around a hyphen, starting and ending with something other than whitespace and without en dashes, is already clean. */
  lemma CleanRange(l: string, r: string)
    requires |l| > 0 && !IsWhitespace(l[0]) && |r| > 0 && !IsWhitespace(r[|r| - 1])
    requires EnDash !in l && EnDash !in r
    ensures Replace(Trim(l + ['-'] + r), EnDash, '-') == l + ['-'] + r
  {
    var s := l + ['-'] + r;
    assert s[0] == l[0] && s[|s| - 1] == r[|r| - 1];
    assert EnDash !in s;
    ReplaceAbsent(s, EnDash, '-');
  }

  /** The checker reads "m :s" as m minutes and s seconds. */
  lemma SpacedClock(m: string, sec: string)
    requires ParseNat(m).Some? && ParseNat(sec).Some?
    ensures PyClock(m + [' ', ':'] + sec) == Some(ParseNat(m).value * 60 + ParseNat(sec).value)
    ensures '-' !in m + [' ', ':'] + sec && EnDash !in m + [' ', ':'] + sec
  {
    ParseNatShape(m);
    ParseNatShape(sec);
    var c := m + [' ', ':'] + sec;
    assert c[0] == m[0] && c[|c| - 1] == sec[|sec| - 1];
    assert c == (m + [' ']) + [':'] + sec;
    SplitAt(m + [' '], ':', sec);
    SplitWithout(sec, ':');
    TrimSpaceAfter(m);
  }

  lemma TrimSpaceAfter(m: string)
    requires IsTrimmed(m) && |m| > 0
    ensures Trim(m + [' ']) == m
  {
    var t := m + [' '];
    assert TrimStart(t) == t;
    assert t[..|t| - 1] == m;
    assert TrimEnd(t) == TrimEnd(m);
  }

  /** The loader reads "m :s" as s seconds: "m " is no number and counts as 0. */
  lemma SpacedClockLoader(m: string, sec: string)
    requires ParseNat(m).Some? && ParseNat(sec).Some?
    ensures Narrative.ParseMmss(Trim(m + [' ', ':'] + sec)) == ParseNat(sec).value
  {
    ParseNatShape(m);
    ParseNatShape(sec);
    var c := m + [' ', ':'] + sec;
    assert c[0] == m[0] && c[|c| - 1] == sec[|sec| - 1];
    assert c == (m + [' ']) + [':'] + sec;
    Narrative.ParseMmssPieces(m + [' '], sec);
    assert ParseNat(m + [' ']).None? by {
      if ParseNat(m + [' ']).Some? {
        ParseNatShape(m + [' ']);
        assert false;
      }
    }
  }

  /**
   * A lone clock time with no range (as in "00:05") is rejected by the checker but
   * loads as a range ending at one second.
   */
  lemma SingleTimeDisagrees(m: string, sec: string)
    requires ParseNat(m).Some? && ParseNat(sec).Some?
    ensures MmssToSec(m + [':'] + sec).None?
    ensures Narrative.ParseTimeRange(m + [':'] + sec) == (ParseNat(m).value * 60 + ParseNat(sec).value, 1)
  {
    var c := m + [':'] + sec;
    ParseNatShape(m);
    ParseNatShape(sec);
    assert Replace(Trim(c), EnDash, '-') == c by {
      assert c[0] == m[0] && c[|c| - 1] == sec[|sec| - 1];
      assert EnDash !in c;
      ReplaceAbsent(c, EnDash, '-');
    }
    assert '-' !in c;
    SplitWithout(c, '-');
    Narrative.ParseTimeRangeNoSeparator(c);
    assert Trim(c) == c;
    LoaderClockPieces(m, sec);
  }

  // ---------------------------------------------------------------------------
  // Checking one file (`validate_file`)
  // ---------------------------------------------------------------------------

  /** A frame record as decoded from YAML: an `index` value, if present, and its `time` text ("" if absent). */
  datatype PyFrame = PyFrame(index: Option<int>, time: string)

  /** A decoded timeline file: its `frames` list, if the key is present. */
  datatype PyDoc = PyDoc(frames: Option<seq<PyFrame>>)

  /** The frames to check: a file without a `frames` key has none. */
  function FramesOf(doc: PyDoc): seq<PyFrame> {
    if doc.frames.Some? then doc.frames.value else []
  }

  /** What the checker reports, each tagged with the 1-based position of the frame. */
  datatype Issue =
    | OrderMismatch(position: nat, index: Option<int>)
    | NonPositive(position: nat, time: string)
    | Overlap(position: nat, start: nat, lastEnd: int)
    | Unparseable(position: nat, time: string)

  /** Everything but an overlap is an error; an overlap is only a warning. */
  predicate IsError(x: Issue) {
    !x.Overlap?
  }

  /** A frame passes when its index is its position and its time parses to a range that ends after it starts. */
  predicate Accepted(fr: PyFrame, position: nat, t: Option<(nat, nat)>) {
    fr.index == Some(position as int) && t.Some? && t.value.0 < t.value.1
  }

  /** The parsed time of every frame, in order. */
  function ParsedTimes(frames: seq<PyFrame>): (ts: seq<Option<(nat, nat)>>)
    ensures |ts| == |frames|
    decreases |frames|
  {
    if |frames| == 0 then []
    else ParsedTimes(frames[..|frames| - 1]) + [MmssToSec(frames[|frames| - 1].time)]
  }

  lemma {:induction false} ParsedTimesAt(frames: seq<PyFrame>, k: nat)
    requires k < |frames|
    ensures ParsedTimes(frames)[k] == MmssToSec(frames[k].time)
    decreases |frames|
  {
    if k < |frames| - 1 {
      ParsedTimesAt(frames[..|frames| - 1], k);
    }
  }

  /**
   * The end of the last frame whose time parsed, or -1 before any did: the point an
   * overlapping frame starts before.
   */
  function LastEnd(ts: seq<Option<(nat, nat)>>): (e: int)
    ensures e >= -1
    ensures e == -1 <==> forall k :: 0 <= k < |ts| ==> ts[k].None?
    decreases |ts|
  {
    if |ts| == 0 then -1
    else if ts[|ts| - 1].Some? then ts[|ts| - 1].value.1
    else LastEnd(ts[..|ts| - 1])
  }

  lemma LastEndStep(ts: seq<Option<(nat, nat)>>, i: nat)
    requires i < |ts|
    ensures LastEnd(ts[..i + 1]) == if ts[i].Some? then ts[i].value.1 else LastEnd(ts[..i])
  {
    assert ts[..i + 1][..i] == ts[..i];
  }

  /**
   * Whether `x` is a report due for the frame `fr` at `position`, whose time parsed
   * to `t`, when the last parsed end before it is `lastEnd`.
   */
  predicate DueAt(fr: PyFrame, position: nat, t: Option<(nat, nat)>, lastEnd: int, x: Issue) {
    x.position == position &&
    match x
    case OrderMismatch(_, index) => fr.index != Some(position as int) && index == fr.index
    case Unparseable(_, time) => t.None? && time == fr.time
    case NonPositive(_, time) => t.Some? && t.value.1 <= t.value.0 && time == fr.time
    case Overlap(_, start, end) => t.Some? && start == t.value.0 && end == lastEnd && start < end
  }

  /** Whether `x` is a report due for the frames with parsed times `ts`. */
  predicate Due(frames: seq<PyFrame>, ts: seq<Option<(nat, nat)>>, x: Issue)
    requires |ts| == |frames|
  {
    var p := x.position;
    1 <= p <= |frames| && DueAt(frames[p - 1], p, ts[p - 1], LastEnd(ts[..p - 1]), x)
  }

  /**
   * The checks on the frame at `position` (1-based), with its parsed time `t` and the
   * last parsed end before it: whether the frame passes, its reports in the order
   * they are printed, and the last parsed end after it.
   */
  function CheckFrame(fr: PyFrame, position: nat, t: Option<(nat, nat)>, lastEnd: int): (bool, seq<Issue>, int) {
    var mismatch := if fr.index != Some(position as int) then [OrderMismatch(position, fr.index)] else [];
    match t
    case None => (false, mismatch + [Unparseable(position, fr.time)], lastEnd)
    case Some((a, b)) =>
      var nonPositive := if b <= a then [NonPositive(position, fr.time)] else [];
      var overlap := if a < lastEnd then [Overlap(position, a, lastEnd)] else [];
      (mismatch == [] && a < b, mismatch + nonPositive + overlap, b)
  }

  /**
   * One frame's check: the frame passes exactly when it is accepted, and exactly
   * when no error is reported, in which case the first report is an error; every
   * report names the frame; a time that parses becomes the new last end.
   */
  lemma CheckFrameVerdict(fr: PyFrame, position: nat, t: Option<(nat, nat)>, lastEnd: int)
    ensures var r := CheckFrame(fr, position, t, lastEnd);
      && (r.0 <==> Accepted(fr, position, t))
      && (!r.0 ==> |r.1| > 0 && IsError(r.1[0]))
      && (r.0 <==> forall j :: 0 <= j < |r.1| ==> !IsError(r.1[j]))
      && (forall j :: 0 <= j < |r.1| ==> r.1[j].position == position)
      && r.2 == (if t.Some? then t.value.1 else lastEnd)
  {
  }

  /** One frame's reports are exactly the ones due for it. */
  lemma CheckFrameDue(fr: PyFrame, position: nat, t: Option<(nat, nat)>, lastEnd: int)
    ensures forall x :: x in CheckFrame(fr, position, t, lastEnd).1 <==> DueAt(fr, position, t, lastEnd, x)
  {
  }

  /** Appending the reports for the next frame keeps the reports exactly the due ones so far. */
  lemma DueStep(frames: seq<PyFrame>, ts: seq<Option<(nat, nat)>>, i: nat, before: seq<Issue>, more: seq<Issue>)
    requires |ts| == |frames| && i < |frames|
    requires forall x :: x in before <==> x.position <= i && Due(frames, ts, x)
    requires forall x :: x in more <==> DueAt(frames[i], i + 1, ts[i], LastEnd(ts[..i]), x)
    ensures forall x :: x in before + more <==> x.position <= i + 1 && Due(frames, ts, x)
  {
  }

  /** Reports are for frames 1..i only, and in frame order. */
  predicate InOrder(issues: seq<Issue>, i: nat) {
    && (forall j :: 0 <= j < |issues| ==> 1 <= issues[j].position <= i)
    && (forall j, j' :: 0 <= j < j' < |issues| ==> issues[j].position <= issues[j'].position)
  }

  /** Appending reports for the next frame keeps the reports in frame order. */
  lemma OrderStep(before: seq<Issue>, more: seq<Issue>, i: nat)
    requires InOrder(before, i)
    requires forall j :: 0 <= j < |more| ==> more[j].position == i + 1
    ensures InOrder(before + more, i + 1)
  {
    assert forall j :: 0 <= j < |more| ==> (before + more)[|before| + j] == more[j];
  }

  /** Appending the next frame's verdict keeps "passed" equal to "no error reported". */
  lemma VerdictStep(ok: bool, before: seq<Issue>, frameOk: bool, more: seq<Issue>)
    requires ok <==> forall j :: 0 <= j < |before| ==> !IsError(before[j])
    requires !frameOk ==> |more| > 0 && IsError(more[0])
    requires frameOk <==> forall j :: 0 <= j < |more| ==> !IsError(more[j])
    ensures ok && frameOk <==> forall j :: 0 <= j < |before + more| ==> !IsError((before + more)[j])
  {
    if !frameOk {
      assert IsError((before + more)[|before|]);
    } else if !ok {
      var j :| 0 <= j < |before| && IsError(before[j]);
      assert (before + more)[j] == before[j];
    }
  }

  /** The verdict, reports and last parsed end after checking the first `i` frames in order. */
  function ScanPrefix(frames: seq<PyFrame>, ts: seq<Option<(nat, nat)>>, i: nat): (bool, seq<Issue>, int)
    requires |ts| == |frames| && i <= |frames|
    decreases i
  {
    if i == 0 then (true, [], -1)
    else
      var (ok, issues, lastEnd) := ScanPrefix(frames, ts, i - 1);
      var (frameOk, more, newLastEnd) := CheckFrame(frames[i - 1], i, ts[i - 1], lastEnd);
      (ok && frameOk, issues + more, newLastEnd)
  }

  /** After `i` frames the last parsed end is that of the first `i` parsed times. */
  lemma {:induction false} ScanLastEnd(frames: seq<PyFrame>, ts: seq<Option<(nat, nat)>>, i: nat)
    requires |ts| == |frames| && i <= |frames|
    ensures ScanPrefix(frames, ts, i).2 == LastEnd(ts[..i])
    decreases i
  {
    if i > 0 {
      ScanLastEnd(frames, ts, i - 1);
      CheckFrameVerdict(frames[i - 1], i, ts[i - 1], ScanPrefix(frames, ts, i - 1).2);
      LastEndStep(ts, i - 1);
    }
  }

  /** After `i` frames the verdict is "pass" exactly when each of them is accepted. */
  lemma {:induction false} ScanVerdict(frames: seq<PyFrame>, ts: seq<Option<(nat, nat)>>, i: nat)
    requires |ts| == |frames| && i <= |frames|
    ensures ScanPrefix(frames, ts, i).0 <==> forall k :: 0 <= k < i ==> Accepted(frames[k], k + 1, ts[k])
    decreases i
  {
    if i > 0 {
      ScanVerdict(frames, ts, i - 1);
      CheckFrameVerdict(frames[i - 1], i, ts[i - 1], ScanPrefix(frames, ts, i - 1).2);
    }
  }

  /** After `i` frames the verdict is "pass" exactly when no error has been reported. */
  lemma {:induction false} ScanVerdictIsNoError(frames: seq<PyFrame>, ts: seq<Option<(nat, nat)>>, i: nat)
    requires |ts| == |frames| && i <= |frames|
    ensures var r := ScanPrefix(frames, ts, i);
      r.0 <==> forall j :: 0 <= j < |r.1| ==> !IsError(r.1[j])
    decreases i
  {
    if i > 0 {
      ScanVerdictIsNoError(frames, ts, i - 1);
      var prev := ScanPrefix(frames, ts, i - 1);
      CheckFrameVerdict(frames[i - 1], i, ts[i - 1], prev.2);
      var r := CheckFrame(frames[i - 1], i, ts[i - 1], prev.2);
      VerdictStep(prev.0, prev.1, r.0, r.1);
    }
  }

  /** After `i` frames the reports are exactly those due for them. */
  lemma {:induction false} ScanReportsDue(frames: seq<PyFrame>, ts: seq<Option<(nat, nat)>>, i: nat)
    requires |ts| == |frames| && i <= |frames|
    ensures forall x :: x in ScanPrefix(frames, ts, i).1 <==> x.position <= i && Due(frames, ts, x)
    decreases i
  {
    if i > 0 {
      ScanReportsDue(frames, ts, i - 1);
      ScanLastEnd(frames, ts, i - 1);
      var prev := ScanPrefix(frames, ts, i - 1);
      CheckFrameDue(frames[i - 1], i, ts[i - 1], prev.2);
      DueStep(frames, ts, i - 1, prev.1, CheckFrame(frames[i - 1], i, ts[i - 1], prev.2).1);
    } else {
      forall x | Due(frames, ts, x)
        ensures x.position > 0
      {
      }
    }
  }

  /** After `i` frames the reports are for those frames only, in frame order. */
  lemma {:induction false} ScanInOrder(frames: seq<PyFrame>, ts: seq<Option<(nat, nat)>>, i: nat)
    requires |ts| == |frames| && i <= |frames|
    ensures InOrder(ScanPrefix(frames, ts, i).1, i)
    decreases i
  {
    if i > 0 {
      ScanInOrder(frames, ts, i - 1);
      var prev := ScanPrefix(frames, ts, i - 1);
      CheckFrameVerdict(frames[i - 1], i, ts[i - 1], prev.2);
      OrderStep(prev.1, CheckFrame(frames[i - 1], i, ts[i - 1], prev.2).1, i - 1);
    }
  }

  /**
   * The pass over the frames, with their parsed times `ts`. Every frame is checked
   * (nothing stops at the first problem); `ok` says whether all frames passed, which
   * is exactly when no error was reported (overlap warnings do not count); the
   * reports are exactly the due ones, in frame order; `lastEnd` is the end of the last
   * frame whose time parsed.
   */
  method ScanFrames(frames: seq<PyFrame>, ts: seq<Option<(nat, nat)>>) returns (ok: bool, issues: seq<Issue>, lastEnd: int)
    requires |ts| == |frames|
    ensures ok <==> forall k :: 0 <= k < |frames| ==> Accepted(frames[k], k + 1, ts[k])
    ensures ok <==> forall j :: 0 <= j < |issues| ==> !IsError(issues[j])
    ensures forall x :: x in issues <==> Due(frames, ts, x)
    ensures forall j, j' :: 0 <= j < j' < |issues| ==> issues[j].position <= issues[j'].position
    ensures lastEnd == LastEnd(ts)
  {
    ok := true;
    issues := [];
    lastEnd := -1;
    var i := 0;
    while i < |frames|
      invariant 0 <= i <= |frames|
      invariant (ok, issues, lastEnd) == ScanPrefix(frames, ts, i)
    {
      var (frameOk, more, newLastEnd) := CheckFrame(frames[i], i + 1, ts[i], lastEnd);
      issues := issues + more;
      ok := ok && frameOk;
      lastEnd := newLastEnd;
      i := i + 1;
    }
    ScanVerdict(frames, ts, i);
    ScanVerdictIsNoError(frames, ts, i);
    ScanReportsDue(frames, ts, i);
    ScanInOrder(frames, ts, i);
    ScanLastEnd(frames, ts, i);
    assert ts[..i] == ts;
  }

  /** Every frame of the file is accepted, with its parsed time. */
  predicate FileAccepted(doc: PyDoc) {
    var frames := FramesOf(doc);
    forall k :: 0 <= k < |frames| ==> Accepted(frames[k], k + 1, ParsedTimes(frames)[k])
  }

  /** A file is accepted exactly when each frame has its position as index and a time range that `MmssToSec` reads as ending after it starts. */
  lemma FileAcceptedFrames(doc: PyDoc)
    ensures FileAccepted(doc) <==> forall k :: 0 <= k < |FramesOf(doc)| ==>
      var fr := FramesOf(doc)[k];
      fr.index == Some(k + 1) && MmssToSec(fr.time).Some? && MmssToSec(fr.time).value.0 < MmssToSec(fr.time).value.1
  {
    var frames := FramesOf(doc);
    forall k | 0 <= k < |frames|
      ensures ParsedTimes(frames)[k] == MmssToSec(frames[k].time)
    {
      ParsedTimesAt(frames, k);
    }
  }

  /**
   * `validate_file` on a decoded file: 0 when every frame is accepted, 1 otherwise;
   * the reports are exactly the due ones and only errors give 1; a file without a
   * `frames` key passes with no reports.
   */
  method ValidateFile(doc: PyDoc) returns (code: bv8, issues: seq<Issue>, lastEnd: int)
    ensures code == 0 || code == 1
    ensures code == 0 <==> FileAccepted(doc)
    ensures code == 0 <==> forall j :: 0 <= j < |issues| ==> !IsError(issues[j])
    ensures forall x :: x in issues <==> Due(FramesOf(doc), ParsedTimes(FramesOf(doc)), x)
    ensures lastEnd == LastEnd(ParsedTimes(FramesOf(doc)))
    ensures doc.frames.None? ==> code == 0 && issues == [] && lastEnd == -1
  {
    var frames := FramesOf(doc);
    var ts := ParsedTimes(frames);
    var ok;
    ok, issues, lastEnd := ScanFrames(frames, ts);
    code := if ok then 0 else 1;
    assert |issues| > 0 ==> issues[0] in issues;
  }

  /**
   * A file named on the command line, as `validate_file` meets it: either a decoded
   * timeline, or one on which it raises before returning a code (the file cannot be
   * opened or decoded, the document is empty or not a mapping, or a frame is not a
   * mapping).
   */
  datatype PyFile = Decoded(doc: PyDoc) | Raises

  /**
   * `main`: the files are checked in turn and the exit status is the bitwise or of
   * their codes. A file on which `validate_file` raises ends the run there with
   * status 1 (the uncaught exception), and the files after it are never checked.
   * `checked` is the number of files whose code was computed. So the status is 0
   * exactly when no file raises and every file passes.
   */
  method ValidateFiles(files: seq<PyFile>) returns (rc: bv8, checked: nat)
    ensures rc == 0 || rc == 1
    ensures checked <= |files|
    ensures forall d :: 0 <= d < checked ==> files[d].Decoded?
    ensures checked < |files| ==> files[checked].Raises? && rc == 1
    ensures rc == 0 <==> forall d :: 0 <= d < |files| ==> files[d].Decoded? && FileAccepted(files[d].doc)
  {
    rc := 0;
    checked := 0;
    while checked < |files|
      invariant 0 <= checked <= |files|
      invariant rc == 0 || rc == 1
      invariant forall d :: 0 <= d < checked ==> files[d].Decoded?
      invariant rc == 0 <==> forall d :: 0 <= d < checked ==> FileAccepted(files[d].doc)
    {
      if files[checked].Raises? {
        rc := 1;
        return;
      }
      var code, _, _ := ValidateFile(files[checked].doc);
      rc := rc | code;
      checked := checked + 1;
    }
  }
}
