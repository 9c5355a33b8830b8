/**
 * The integer parts of the map-cleaning tool (normalize_map_colors.py): reading a
 * legend colour written as hex, the palette tables built from the legend, and the
 * majority (mode) filter that replaces every cell of a grid of palette indices by
 * the most common index around it.
 */
module MapColors {
  import opened Wrappers
  import opened Text

  // ---------------------------------------------------------------------------
  // Hex colours (`hex_to_rgb`)
  // ---------------------------------------------------------------------------

  datatype Rgb = Rgb(r: int, g: int, b: int)

  /** A colour whose three components are bytes. */
  predicate IsByteColor(c: Rgb) {
    0 <= c.r < 256 && 0 <= c.g < 256 && 0 <= c.b < 256
  }

  predicate IsHexDigit(c: char) {
    '0' <= c <= '9' || 'a' <= c <= 'f' || 'A' <= c <= 'F'
  }

  function HexDigitValue(c: char): (d: nat)
    requires IsHexDigit(c)
    ensures d < 16
  {
    if '0' <= c <= '9' then (c as int) - ('0' as int)
    else if 'a' <= c <= 'f' then (c as int) - ('a' as int) + 10
    else (c as int) - ('A' as int) + 10
  }

  /** The upper-case hex digit for `d`. */
  function HexDigitChar(d: nat): (c: char)
    requires d < 16
    ensures IsHexDigit(c) && HexDigitValue(c) == d
  {
    if d < 10 then (('0' as int) + d) as char else (('A' as int) + d - 10) as char
  }

  /** Every character is a hex digit (read from the back, as numerals are valued). */
  predicate AllHexDigits(s: string) {
    |s| == 0 || (IsHexDigit(s[|s| - 1]) && AllHexDigits(s[..|s| - 1]))
  }

  /** Value of a hex digit string read most-significant digit first. */
  function HexValue(s: string): nat
    requires AllHexDigits(s)
  {
    if |s| == 0 then 0 else 16 * HexValue(s[..|s| - 1]) + HexDigitValue(s[|s| - 1])
  }

  /** One or two hex digits make a byte. */
  lemma HexValueByte(s: string)
    requires AllHexDigits(s) && |s| <= 2
    ensures HexValue(s) < 256
  {
    if |s| == 2 {
      var d := HexDigitValue(s[1]);
      var e := HexDigitValue(s[..1][0]);
      assert s[..1][..0] == [];
      assert HexValue(s[..1]) == e;
      assert HexValue(s) == 16 * e + d;
    } else if |s| == 1 {
      assert s[..0] == [];
    }
  }

  /**
   * Python's `int(piece, 16)`: whitespace around the piece is ignored, an optional
   * sign may lead, and at least one hex digit must follow; anything else is an error.
   */
  function HexInt(piece: string): (r: Option<int>)
  {
    var t := Trim(piece);
    var magnitude: int := if |t| > 1 && AllHexDigits(t[1..]) then HexValue(t[1..]) else 0;
    if |t| > 0 && AllHexDigits(t) then Some(HexValue(t))
    else if |t| > 1 && t[0] == '+' && AllHexDigits(t[1..]) then Some(magnitude)
    else if |t| > 1 && t[0] == '-' && AllHexDigits(t[1..]) then Some(-magnitude)
    else None
  }

  /** A piece of at most two characters reads as a number between -15 and 255, negative only with a '-'. */
  lemma HexIntRange(piece: string)
    requires |piece| <= 2 && HexInt(piece).Some?
    ensures -15 <= HexInt(piece).value < 256
    ensures '-' !in piece ==> HexInt(piece).value >= 0
  {
    var t := Trim(piece);
    TrimSub(piece);
    if |t| > 0 && AllHexDigits(t) {
      HexValueByte(t);
    } else if t[0] == '+' {
      HexValueByte(t[1..]);
    } else {
      HexValueByte(t[1..]);
      assert |t[1..]| == 1 && t[1..][..0] == [];
      assert '-' in piece by { TrimIn(piece, 0); }
    }
  }

  /** Trimming only drops characters. */
  lemma TrimSub(s: string)
    ensures |Trim(s)| <= |s|
  {
    TrimStartSub(s);
  }

  lemma {:induction false} TrimStartSub(s: string)
    ensures |TrimStart(s)| <= |s|
    ensures forall k :: 0 <= k < |TrimStart(s)| ==> TrimStart(s)[k] in s
    decreases |s|
  {
    if |s| > 0 && IsWhitespace(s[0]) {
      TrimStartSub(s[1..]);
      forall k | 0 <= k < |TrimStart(s)| ensures TrimStart(s)[k] in s {
        assert TrimStart(s)[k] in s[1..];
      }
    }
  }

  lemma {:induction false} TrimEndSub(s: string)
    ensures forall k :: 0 <= k < |TrimEnd(s)| ==> TrimEnd(s)[k] == s[k]
    decreases |s|
  {
    if |s| > 0 && IsWhitespace(s[|s| - 1]) {
      TrimEndSub(s[..|s| - 1]);
    }
  }

  /** Every character of the trimmed text comes from the text. */
  lemma TrimIn(s: string, k: int)
    requires 0 <= k < |Trim(s)|
    ensures Trim(s)[k] in s
  {
    TrimStartSub(s);
    TrimEndSub(TrimStart(s));
  }

  /** `s` without any '#' at its start (`str.lstrip('#')`). */
  function StripHashes(s: string): (h: string)
    ensures |h| == 0 || h[0] != '#'
    decreases |s|
  {
    if |s| > 0 && s[0] == '#' then StripHashes(s[1..]) else s
  }

  /** Python's slice `h[i:j]` for `0 <= i <= j`, which stops at the end of the text. */
  function Slice(h: string, i: nat, j: nat): (p: string)
    requires i <= j
    ensures |p| <= j - i
  {
    if i >= |h| then [] else if j >= |h| then h[i..] else h[i..j]
  }

  /**
   * `hex_to_rgb`: leading '#' characters are dropped and the pairs of characters
   * at offsets 0, 2 and 4 are read as base-16 numbers; the colour exists only when
   * all three read. Anything after the sixth character is ignored.
   */
  function HexToRgb(s: string): (c: Option<Rgb>)
  {
    var h := StripHashes(s);
    var r, g, b := HexInt(Slice(h, 0, 2)), HexInt(Slice(h, 2, 4)), HexInt(Slice(h, 4, 6));
    if r.Some? && g.Some? && b.Some? then Some(Rgb(r.value, g.value, b.value)) else None
  }

  /**
   * Every component `hex_to_rgb` reads lies between -15 and 255, and is a byte
   * unless the text holds a '-'.
   */
  lemma HexToRgbRange(s: string)
    requires HexToRgb(s).Some?
    ensures var c := HexToRgb(s).value;
      -15 <= c.r < 256 && -15 <= c.g < 256 && -15 <= c.b < 256
    ensures '-' !in s ==> IsByteColor(HexToRgb(s).value)
  {
    var h := StripHashes(s);
    StripHashesSub(s);
    SliceIn(h, 0, 2, '-');
    SliceIn(h, 2, 4, '-');
    SliceIn(h, 4, 6, '-');
    HexIntRange(Slice(h, 0, 2));
    HexIntRange(Slice(h, 2, 4));
    HexIntRange(Slice(h, 4, 6));
  }

  /** A slice only holds characters of the text it is taken from. */
  lemma SliceIn(h: string, i: nat, j: nat, c: char)
    requires i <= j
    ensures c in Slice(h, i, j) ==> c in h
  {
    if c in Slice(h, i, j) {
      var k :| 0 <= k < |Slice(h, i, j)| && Slice(h, i, j)[k] == c;
      assert h[i + k] == c;
    }
  }

  lemma {:induction false} StripHashesSub(s: string)
    ensures forall k :: 0 <= k < |StripHashes(s)| ==> StripHashes(s)[k] in s
    decreases |s|
  {
    if |s| > 0 && s[0] == '#' {
      StripHashesSub(s[1..]);
      forall k | 0 <= k < |StripHashes(s)| ensures StripHashes(s)[k] in s {
        assert StripHashes(s)[k] in s[1..];
      }
    }
  }

  /** Any number of '#' in front reads the same colour. */
  lemma HexToRgbIgnoresHashes(s: string)
    ensures HexToRgb(['#'] + s) == HexToRgb(s)
  {
    assert (['#'] + s)[1..] == s;
  }

  /** Two upper-case hex digits for a byte. */
  function Hex2(v: nat): (p: string)
    requires v < 256
    ensures |p| == 2 && AllHexDigits(p)
  {
    [HexDigitChar(v / 16), HexDigitChar(v % 16)]
  }

  /** The legend's own notation for a byte colour: '#' and three upper-case hex pairs. */
  function RgbToHex(c: Rgb): (s: string)
    requires IsByteColor(c)
    ensures |s| == 7 && s[0] == '#'
  {
    "#" + Hex2(c.r) + Hex2(c.g) + Hex2(c.b)
  }

  lemma Hex2Reads(v: nat)
    requires v < 256
    ensures HexInt(Hex2(v)) == Some(v as int)
  {
    var p := Hex2(v);
    assert p[..1][..0] == [];
    assert HexValue(p[..1]) == v / 16;
    assert HexValue(p) == 16 * (v / 16) + v % 16;
    assert !IsWhitespace(p[0]) && !IsWhitespace(p[1]);
    assert Trim(p) == p;
  }

  /** Reading back a colour written in the legend's notation gives the colour. */
  lemma HexRoundTrip(c: Rgb)
    requires IsByteColor(c)
    ensures HexToRgb(RgbToHex(c)) == Some(c)
  {
    var s := RgbToHex(c);
    var h := Hex2(c.r) + Hex2(c.g) + Hex2(c.b);
    assert s[1..] == h;
    assert StripHashes(h) == h;
    assert StripHashes(s) == h;
    assert Slice(h, 0, 2) == Hex2(c.r);
    assert Slice(h, 2, 4) == Hex2(c.g);
    assert Slice(h, 4, 6) == Hex2(c.b);
    Hex2Reads(c.r);
    Hex2Reads(c.g);
    Hex2Reads(c.b);
  }

  // ---------------------------------------------------------------------------
  // The legend and the palette tables
  // ---------------------------------------------------------------------------

  /** The legend in its written order: key (a `#RRGGBB` hex colour) and name. */
  const Legend: seq<(string, string)> := [
    ("#00FF00", "grass"),
    ("#0000FF", "water"),
    ("#453503", "mud"),
    ("#000000", "road"),
    ("#808080", "building"),
    ("#006400", "tree"),
    ("#FF0000", "player_spawn"),
    ("#FFFF00", "npc_spawn"),
    ("#FF00FF", "car_spawn"),
    ("#FFA500", "shop"),
    ("#C0C0C0", "school"),
    ("#964B00", "fence"),
    ("#00FFFF", "teleport")
  ]

  /** The colours the legend's keys denote, entry by entry. */
  const LegendRgb: seq<Rgb> := [
    Rgb(0x00, 0xFF, 0x00), Rgb(0x00, 0x00, 0xFF), Rgb(0x45, 0x35, 0x03),
    Rgb(0x00, 0x00, 0x00), Rgb(0x80, 0x80, 0x80), Rgb(0x00, 0x64, 0x00),
    Rgb(0xFF, 0x00, 0x00), Rgb(0xFF, 0xFF, 0x00), Rgb(0xFF, 0x00, 0xFF),
    Rgb(0xFF, 0xA5, 0x00), Rgb(0xC0, 0xC0, 0xC0), Rgb(0x96, 0x4B, 0x00),
    Rgb(0x00, 0xFF, 0xFF)
  ]

  /** The two-digit renderings of the bytes the legend uses. */
  lemma LegendBytes()
    ensures Hex2(0x00) == "00" && Hex2(0xFF) == "FF" && Hex2(0x45) == "45" && Hex2(0x35) == "35"
    ensures Hex2(0x03) == "03" && Hex2(0x80) == "80" && Hex2(0x64) == "64" && Hex2(0xA5) == "A5"
    ensures Hex2(0xC0) == "C0" && Hex2(0x96) == "96" && Hex2(0x4B) == "4B"
  {
  }

  /** The first half of the legend's keys render their colours. */
  lemma LegendKeysFront()
    ensures forall i :: 0 <= i < 7 ==> Legend[i].0 == RgbToHex(LegendRgb[i])
  {
    LegendBytes();
  }

  /** The second half of the legend's keys render their colours. */
  lemma LegendKeysBack()
    ensures forall i :: 7 <= i < 13 ==> Legend[i].0 == RgbToHex(LegendRgb[i])
  {
    LegendBytes();
  }

  /** The legend's colours are byte colours and no two are the same. */
  lemma LegendColoursDistinct()
    ensures |LegendRgb| == 13
    ensures forall i :: 0 <= i < |LegendRgb| ==> IsByteColor(LegendRgb[i])
    ensures forall i, j :: 0 <= i < j < |LegendRgb| ==> LegendRgb[i] != LegendRgb[j]
  {
  }

  /**
   * Every legend key is the upper-case `#RRGGBB` rendering of a byte colour, the
   * colours line up with `LegendRgb`, and no two keys denote the same colour.
   */
  lemma LegendKeysCanonical()
    ensures |Legend| == |LegendRgb| == 13
    ensures forall i :: 0 <= i < |Legend| ==> IsByteColor(LegendRgb[i]) && Legend[i].0 == RgbToHex(LegendRgb[i])
    ensures forall i, j :: 0 <= i < j < |Legend| ==> LegendRgb[i] != LegendRgb[j]
  {
    LegendKeysFront();
    LegendKeysBack();
    LegendColoursDistinct();
  }

  /** `PALETTE_HEX`: the legend's keys, in the legend's order. */
  function PaletteHex(): (hs: seq<string>)
    ensures |hs| == |Legend|
  {
    seq(|Legend|, i requires 0 <= i < |Legend| => Legend[i].0)
  }

  /** `PALETTE_NAMES`: the legend's names, in the legend's order. */
  function PaletteNames(): (ns: seq<string>)
    ensures |ns| == |Legend|
  {
    seq(|Legend|, i requires 0 <= i < |Legend| => Legend[i].1)
  }

  /** `PALETTE_RGB`: each legend key read as a colour, in the legend's order. */
  function PaletteRgb(): (cs: seq<Rgb>)
    ensures |cs| == |Legend|
  {
    LegendKeysCanonical();
    seq(|Legend|, i requires 0 <= i < |Legend| =>
      HexRoundTrip(LegendRgb[i]);
      HexToRgb(PaletteHex()[i]).value)
  }

  /**
   * The three palette tables line up with the legend: entry `i` of each is the
   * key, the name and the colour of the legend's entry `i`, every key reads back
   * as a byte colour, and distinct indices carry distinct colours.
   */
  lemma PaletteTablesAgree()
    ensures |PaletteHex()| == |PaletteNames()| == |PaletteRgb()| == |Legend|
    ensures forall i :: 0 <= i < |Legend| ==>
      HexToRgb(PaletteHex()[i]) == Some(PaletteRgb()[i]) && PaletteRgb()[i] == LegendRgb[i]
      && PaletteNames()[i] == Legend[i].1 && IsByteColor(PaletteRgb()[i])
    ensures forall i, j :: 0 <= i < j < |Legend| ==> PaletteRgb()[i] != PaletteRgb()[j]
  {
    LegendKeysCanonical();
    forall i | 0 <= i < |Legend| ensures HexToRgb(PaletteHex()[i]) == Some(LegendRgb[i]) {
      HexRoundTrip(LegendRgb[i]);
    }
  }

  // ---------------------------------------------------------------------------
  // Grids of palette indices and the neighbourhood window
  // ---------------------------------------------------------------------------

  /** A grid of palette indices, one row per image row. */
  type Grid = seq<seq<int>>

  /** `grid` has `h` rows of `w` cells each. */
  predicate Shape(grid: Grid, w: int, h: int) {
    |grid| == h && forall y :: 0 <= y < |grid| ==> |grid[y]| == w
  }

  function Max(a: int, b: int): int { if a >= b then a else b }
  function Min(a: int, b: int): int { if a <= b then a else b }

  /** How many numbers `range(lo, hi)` runs through. */
  function Span(lo: int, hi: int): nat { if hi > lo then hi - lo else 0 }

  /** First and one-past-last coordinate of the window around `c` in `0..n`: `max(0, c-r)` and `min(n, c+r+1)`. */
  function WinLo(c: int, r: nat): int { Max(0, c - r) }
  function WinHi(c: int, r: nat, n: int): int { Min(n, c + r + 1) }

  /** Products grow with their factors. */
  lemma MulMono(a: int, b: int, c: int, d: int)
    requires 0 <= a <= c && 0 <= b <= d
    ensures a * b <= c * d
  {
    assert a * b <= c * b;
  }

  /** The cells of rows `y0..y1` and columns `x0..x1`, row by row, each row left to right. */
  function RowsVotes(grid: Grid, y0: int, y1: int, x0: int, x1: int): (votes: seq<int>)
    requires 0 <= y0 && y1 <= |grid| && 0 <= x0
    requires forall y :: y0 <= y < y1 ==> x1 <= |grid[y]|
    ensures |votes| == Span(y0, y1) * Span(x0, x1)
    decreases y1 - y0
  {
    if y1 <= y0 then []
    else
      var before := RowsVotes(grid, y0, y1 - 1, x0, x1);
      var row := if x1 > x0 then grid[y1 - 1][x0..x1] else [];
      assert Span(y0, y1) == Span(y0, y1 - 1) + 1;
      before + row
  }

  /**
   * The votes of `majority_mode_of_block`: the cells of the window of radius `r`
   * around column `x`, row `y`, clipped to the `w` by `h` grid, in row-major order.
   */
  function Votes(grid: Grid, x: int, y: int, w: int, h: int, r: nat): seq<int>
    requires Shape(grid, w, h)
  {
    RowsVotes(grid, WinLo(y, r), WinHi(y, r, h), WinLo(x, r), WinHi(x, r, w))
  }

  /**
   * The window's cells appear in row-major order: the cell at row `a`, column `b`
   * is vote number `(a - y0) * (x1 - x0) + (b - x0)`.
   */
  lemma {:induction false} RowsVotesRowMajor(grid: Grid, y0: int, y1: int, x0: int, x1: int, a: int, b: int)
    requires 0 <= y0 && y1 <= |grid| && 0 <= x0
    requires forall y :: y0 <= y < y1 ==> x1 <= |grid[y]|
    requires y0 <= a < y1 && x0 <= b < x1
    ensures 0 <= (a - y0) * (x1 - x0) + (b - x0) < |RowsVotes(grid, y0, y1, x0, x1)|
    ensures RowsVotes(grid, y0, y1, x0, x1)[(a - y0) * (x1 - x0) + (b - x0)] == grid[a][b]
    decreases y1 - y0
  {
    var before := RowsVotes(grid, y0, y1 - 1, x0, x1);
    var n := x1 - x0;
    var p := a - y0;
    assert |before| == (y1 - 1 - y0) * n;
    if a < y1 - 1 {
      RowsVotesRowMajor(grid, y0, y1 - 1, x0, x1, a, b);
      MulMono(p + 1, n, y1 - 1 - y0, n);
      assert (p + 1) * n == p * n + n;
    } else {
      assert p * n == |before|;
    }
  }

  /** Every vote is a cell of the window. */
  lemma {:induction false} RowsVotesFromWindow(grid: Grid, y0: int, y1: int, x0: int, x1: int, k: int)
    requires 0 <= y0 && y1 <= |grid| && 0 <= x0
    requires forall y :: y0 <= y < y1 ==> x1 <= |grid[y]|
    requires 0 <= k < |RowsVotes(grid, y0, y1, x0, x1)|
    ensures exists a, b :: y0 <= a < y1 && x0 <= b < x1 && grid[a][b] == RowsVotes(grid, y0, y1, x0, x1)[k]
    decreases y1 - y0
  {
    var before := RowsVotes(grid, y0, y1 - 1, x0, x1);
    if k < |before| {
      RowsVotesFromWindow(grid, y0, y1 - 1, x0, x1, k);
    } else {
      var b := x0 + k - |before|;
      assert grid[y1 - 1][b] == RowsVotes(grid, y0, y1, x0, x1)[k];
    }
  }

  /** Grids that agree on a window give the same votes for it. */
  lemma {:induction false} RowsVotesLocal(g1: Grid, g2: Grid, y0: int, y1: int, x0: int, x1: int)
    requires 0 <= y0 && y1 <= |g1| && y1 <= |g2| && 0 <= x0
    requires forall y :: y0 <= y < y1 ==> x1 <= |g1[y]| && x1 <= |g2[y]|
    requires forall a, b :: y0 <= a < y1 && x0 <= b < x1 ==> g1[a][b] == g2[a][b]
    ensures RowsVotes(g1, y0, y1, x0, x1) == RowsVotes(g2, y0, y1, x0, x1)
    decreases y1 - y0
  {
    if y1 > y0 {
      RowsVotesLocal(g1, g2, y0, y1 - 1, x0, x1);
      if x1 > x0 {
        assert g1[y1 - 1][x0..x1] == g2[y1 - 1][x0..x1];
      }
    }
  }

  /**
   * The window holds at most `(2r+1)²` cells, and at least one when the centre
   * cell is inside the grid.
   */
  lemma WindowSize(grid: Grid, x: int, y: int, w: int, h: int, r: nat)
    requires Shape(grid, w, h)
    ensures |Votes(grid, x, y, w, h, r)| <= (2 * r + 1) * (2 * r + 1)
    ensures 0 <= x < w && 0 <= y < h ==> |Votes(grid, x, y, w, h, r)| >= 1
  {
    var rows := Span(WinLo(y, r), WinHi(y, r, h));
    var cols := Span(WinLo(x, r), WinHi(x, r, w));
    MulMono(rows, cols, 2 * r + 1, 2 * r + 1);
    if 0 <= x < w && 0 <= y < h {
      MulMono(1, 1, rows, cols);
    }
  }

  // ---------------------------------------------------------------------------
  // The most common vote (`Counter(votes).most_common(1)`)
  // ---------------------------------------------------------------------------

  /** How many votes `v` has. */
  function Count(votes: seq<int>, v: int): nat {
    multiset(votes)[v]
  }

  /** The position of the first vote for `v`. */
  function FirstIndex(votes: seq<int>, v: int): (k: nat)
    requires v in votes
    ensures k < |votes| && votes[k] == v
    ensures forall i :: 0 <= i < k ==> votes[i] != v
  {
    if votes[0] == v then 0 else FirstIndex(votes[1..], v) + 1
  }

  /**
   * The leader among the values of the first `n` votes, counting all votes: a
   * vote replaces the leader only with strictly more votes, so among equally common
   * values the one seen first stays ahead.
   */
  function Leader(votes: seq<int>, n: nat): (m: int)
    requires 0 < n <= |votes|
    ensures m in votes && FirstIndex(votes, m) < n
    ensures forall i :: 0 <= i < n ==> Count(votes, votes[i]) <= Count(votes, m)
    ensures forall i :: 0 <= i < FirstIndex(votes, m) ==> Count(votes, votes[i]) < Count(votes, m)
  {
    if n == 1 then votes[0]
    else
      var b := Leader(votes, n - 1);
      if Count(votes, votes[n - 1]) > Count(votes, b) then votes[n - 1] else b
  }

  /**
   * The most common vote, when there is any: it is one of the votes, no value has
   * more votes, and every value first seen before it has fewer.
   */
  function MostCommon(votes: seq<int>): (m: Option<int>)
    ensures m.Some? <==> |votes| > 0
    ensures m.Some? ==> m.value in votes
    ensures m.Some? ==> forall v :: v in votes ==> Count(votes, v) <= Count(votes, m.value)
    ensures m.Some? ==> forall i :: 0 <= i < FirstIndex(votes, m.value) ==> Count(votes, votes[i]) < Count(votes, m.value)
  {
    if |votes| == 0 then None else Some(Leader(votes, |votes|))
  }

  /**
   * `v` is what `most_common(1)` picks from `votes`: one of the votes, with no value
   * more common, and strictly more common than every value first seen before it.
   */
  predicate IsModeOf(votes: seq<int>, v: int) {
    && v in votes
    && (forall u :: u in votes ==> Count(votes, u) <= Count(votes, v))
    && (forall i :: 0 <= i < FirstIndex(votes, v) ==> Count(votes, votes[i]) < Count(votes, v))
  }

  /**
   * The three properties pin the most common vote down: any value that is a vote,
   * has the most votes and is the first seen among those is the one chosen.
   */
  lemma MostCommonUnique(votes: seq<int>, v: int)
    requires v in votes
    requires forall u :: u in votes ==> Count(votes, u) <= Count(votes, v)
    requires forall i :: 0 <= i < FirstIndex(votes, v) ==> Count(votes, votes[i]) < Count(votes, v)
    ensures MostCommon(votes) == Some(v)
  {
    var m := MostCommon(votes).value;
    var fm, fv := FirstIndex(votes, m), FirstIndex(votes, v);
    assert Count(votes, votes[fm]) == Count(votes, v);
    assert Count(votes, votes[fv]) == Count(votes, m);
    assert fm == fv;
  }

  /** When every vote is the same value, that value is the most common one. */
  lemma MostCommonOfUniform(votes: seq<int>, c: int)
    requires |votes| > 0 && forall i :: 0 <= i < |votes| ==> votes[i] == c
    ensures MostCommon(votes) == Some(c)
  {
  }

  // ---------------------------------------------------------------------------
  // The mode filter
  // ---------------------------------------------------------------------------

  /**
   * `majority_mode_of_block`: the most common index in the window of radius `r`
   * around the cell; a window with no cells has none (the script fails there).
   */
  function MajorityMode(grid: Grid, x: int, y: int, w: int, h: int, r: nat): (m: Option<int>)
    requires Shape(grid, w, h)
    ensures 0 <= x < w && 0 <= y < h ==> m.Some?
    ensures m.None? <==> |Votes(grid, x, y, w, h, r)| == 0
    ensures m.Some? ==> IsModeOf(Votes(grid, x, y, w, h, r), m.value)
    ensures m.Some? ==> exists a, b :: WinLo(y, r) <= a < WinHi(y, r, h) && WinLo(x, r) <= b < WinHi(x, r, w) && grid[a][b] == m.value
  {
    WindowSize(grid, x, y, w, h, r);
    ModeFromWindow(grid, x, y, w, h, r);
    MostCommon(Votes(grid, x, y, w, h, r))
  }

  lemma ModeFromWindow(grid: Grid, x: int, y: int, w: int, h: int, r: nat)
    requires Shape(grid, w, h)
    ensures var m := MostCommon(Votes(grid, x, y, w, h, r));
      m.Some? ==> exists a, b :: WinLo(y, r) <= a < WinHi(y, r, h) && WinLo(x, r) <= b < WinHi(x, r, w) && grid[a][b] == m.value
  {
    var votes := Votes(grid, x, y, w, h, r);
    var m := MostCommon(votes);
    if m.Some? {
      var k :| 0 <= k < |votes| && votes[k] == m.value;
      RowsVotesFromWindow(grid, WinLo(y, r), WinHi(y, r, h), WinLo(x, r), WinHi(x, r, w), k);
    }
  }

  /** `v` is the index of a cell within one step of column `x`, row `y` (the grid clipped to `w` by `h`). */
  predicate NearCell(grid: Grid, x: int, y: int, w: int, h: int, v: int)
    requires Shape(grid, w, h)
  {
    exists a, b :: WinLo(y, 1) <= a < WinHi(y, 1, h) && WinLo(x, 1) <= b < WinHi(x, 1, w) && grid[a][b] == v
  }

  /** The new index of one cell in a smoothing pass (radius 1). */
  function ModeAt(grid: Grid, x: int, y: int, w: int, h: int): (m: int)
    requires Shape(grid, w, h) && 0 <= x < w && 0 <= y < h
    ensures IsModeOf(Votes(grid, x, y, w, h, 1), m)
    ensures NearCell(grid, x, y, w, h, m)
  {
    MajorityMode(grid, x, y, w, h, 1).value
  }

  /**
   * One smoothing pass: every cell of the new grid is the most common index around
   * that cell in the grid as it was before the pass (the pass reads a copy, never
   * its own output). The grid keeps its shape and every new index is one of the
   * old indices within one step of the cell.
   */
  function ModePass(grid: Grid, w: nat, h: nat): (next: Grid)
    requires Shape(grid, w, h)
    ensures Shape(next, w, h)
    ensures forall y, x :: 0 <= y < h && 0 <= x < w ==> IsModeOf(Votes(grid, x, y, w, h, 1), next[y][x])
    ensures forall y, x :: 0 <= y < h && 0 <= x < w ==> NearCell(grid, x, y, w, h, next[y][x])
  {
    seq(h, y requires 0 <= y < h => PassRow(grid, y, w, h))
  }

  /** Row `y` of the grid after a pass. */
  function PassRow(grid: Grid, y: int, w: nat, h: nat): (row: seq<int>)
    requires Shape(grid, w, h) && 0 <= y < h
    ensures |row| == w
    ensures forall x :: 0 <= x < w ==> IsModeOf(Votes(grid, x, y, w, h, 1), row[x])
    ensures forall x :: 0 <= x < w ==> NearCell(grid, x, y, w, h, row[x])
  {
    seq(w, x requires 0 <= x < w => ModeAt(grid, x, y, w, h))
  }

  /** A cell of the new grid depends only on the old cells within one step of it. */
  lemma PassIsLocal(g1: Grid, g2: Grid, w: nat, h: nat, x: int, y: int)
    requires Shape(g1, w, h) && Shape(g2, w, h) && 0 <= x < w && 0 <= y < h
    requires forall a, b :: WinLo(y, 1) <= a < WinHi(y, 1, h) && WinLo(x, 1) <= b < WinHi(x, 1, w) ==> g1[a][b] == g2[a][b]
    ensures ModePass(g1, w, h)[y][x] == ModePass(g2, w, h)[y][x]
  {
    RowsVotesLocal(g1, g2, WinLo(y, 1), WinHi(y, 1, h), WinLo(x, 1), WinHi(x, 1, w));
  }

  /** A grid of one index throughout is left as it is by a pass. */
  lemma UniformIsFixed(grid: Grid, w: nat, h: nat, c: int)
    requires Shape(grid, w, h)
    requires forall y, x :: 0 <= y < h && 0 <= x < w ==> grid[y][x] == c
    ensures ModePass(grid, w, h) == grid
  {
    var next := ModePass(grid, w, h);
    forall y | 0 <= y < h ensures next[y] == grid[y] {
      forall x | 0 <= x < w ensures next[y][x] == grid[y][x] {
      }
    }
  }

  /** Every index of the grid lies in `0..n`. */
  predicate IndicesBelow(grid: Grid, n: int) {
    forall y, x :: 0 <= y < |grid| && 0 <= x < |grid[y]| ==> 0 <= grid[y][x] < n
  }

  /** A pass introduces no index that was not there: indices in `0..n` stay in `0..n`. */
  lemma PassKeepsIndices(grid: Grid, w: nat, h: nat, n: int)
    requires Shape(grid, w, h) && IndicesBelow(grid, n)
    ensures IndicesBelow(ModePass(grid, w, h), n)
  {
  }

  /** `iters` smoothing passes, each reading the result of the one before. */
  function ModePasses(grid: Grid, w: nat, h: nat, iters: nat): (g: Grid)
    requires Shape(grid, w, h)
    ensures Shape(g, w, h)
    decreases iters
  {
    if iters == 0 then grid else ModePasses(ModePass(grid, w, h), w, h, iters - 1)
  }

  /** Palette indices stay palette indices through any number of passes. */
  lemma {:induction false} PassesKeepPalette(grid: Grid, w: nat, h: nat, iters: nat)
    requires Shape(grid, w, h) && IndicesBelow(grid, |Legend|)
    ensures IndicesBelow(ModePasses(grid, w, h, iters), |Legend|)
    decreases iters
  {
    if iters > 0 {
      PassKeepsIndices(grid, w, h, |Legend|);
      PassesKeepPalette(ModePass(grid, w, h), w, h, iters - 1);
    }
  }

  /** A uniform grid survives any number of passes. */
  lemma {:induction false} UniformSurvivesPasses(grid: Grid, w: nat, h: nat, c: int, iters: nat)
    requires Shape(grid, w, h)
    requires forall y, x :: 0 <= y < h && 0 <= x < w ==> grid[y][x] == c
    ensures ModePasses(grid, w, h, iters) == grid
    decreases iters
  {
    if iters > 0 {
      UniformIsFixed(grid, w, h, c);
      UniformSurvivesPasses(grid, w, h, c, iters - 1);
    }
  }

  /**
   * The colour image after a pass: each cell takes its index's palette colour,
   * which is what assigning each palette colour to the cells holding its index does.
   */
  function Recolor(grid: Grid, w: nat, h: nat): (img: seq<seq<Rgb>>)
    requires Shape(grid, w, h) && IndicesBelow(grid, |Legend|)
    ensures |img| == h && forall y :: 0 <= y < h ==> |img[y]| == w
    ensures forall y, x :: 0 <= y < h && 0 <= x < w ==> IsByteColor(img[y][x])
  {
    PaletteTablesAgree();
    seq(h, y requires 0 <= y < h => seq(w, x requires 0 <= x < w => PaletteRgb()[grid[y][x]]))
  }

  /** The palette index of a palette colour, if it is one. */
  function PaletteIndexOf(c: Rgb): (i: Option<nat>)
    ensures i.Some? ==> i.value < |Legend| && PaletteRgb()[i.value] == c
  {
    PaletteIndexFrom(c, 0)
  }

  function PaletteIndexFrom(c: Rgb, i: nat): (k: Option<nat>)
    requires i <= |Legend|
    ensures k.Some? ==> i <= k.value < |Legend| && PaletteRgb()[k.value] == c
    ensures k.None? ==> forall j :: i <= j < |Legend| ==> PaletteRgb()[j] != c
    decreases |Legend| - i
  {
    if i == |Legend| then None
    else if PaletteRgb()[i] == c then Some(i)
    else PaletteIndexFrom(c, i + 1)
  }

  /** The recoloured image determines the index grid: palette colours are distinct. */
  lemma RecolorKeepsIndices(grid: Grid, w: nat, h: nat, x: int, y: int)
    requires Shape(grid, w, h) && IndicesBelow(grid, |Legend|) && 0 <= x < w && 0 <= y < h
    ensures PaletteIndexOf(Recolor(grid, w, h)[y][x]) == Some(grid[y][x])
  {
    PaletteTablesAgree();
    var c := Recolor(grid, w, h)[y][x];
    assert PaletteRgb()[grid[y][x]] == c;
  }
}
