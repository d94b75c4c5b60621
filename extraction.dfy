/**
 * The subtitle extraction job (app/services/subtitle_extractor.py): the SRT
 * timestamp format, the SRT writer, the file names it uses, and the status
 * and progress a job record goes through. The speech recogniser is an
 * oracle that returns timed segments or fails.
 */
module Extraction {
  import opened Wrappers
  import opened Text
  import opened Decimal

  // ---------------------------------------------------------------------------
  // _format_timestamp

  /** A time offset in seconds, as the recogniser reports it. */
  type Offset = x: real | x >= 0.0

  /** Python's `x // d` on a non-negative number, taken exactly. */
  function FloorDiv(x: real, d: real): int
    requires d > 0.0
  {
    (x / d).Floor
  }

  /** Python's `x % d`, taken exactly: what is left after `x // d` whole `d`s. */
  function Mod(x: Offset, d: real): Offset
    requires d > 0.0
  {
    var q := FloorDiv(x, d);
    assert q as real <= x / d;
    assert d * q as real <= x by {
      assert d * (x / d) == x;
    }
    x - d * q as real
  }

  /** The offset truncated to whole milliseconds. */
  function Millis(x: Offset): nat {
    (x * 1000.0).Floor
  }

  datatype Clock = Clock(hours: nat, minutes: nat, seconds: nat, millis: nat)

  /** The four fields `_format_timestamp` computes, written the way the source
      computes them: `seconds // 3600`, `(seconds % 3600) // 60`,
      `seconds % 60` and the milliseconds truncated from its fraction. */
  function SourceFields(seconds: Offset): Clock {
    var hours := FloorDiv(seconds, 3600.0);
    var minutes := FloorDiv(Mod(seconds, 3600.0), 60.0);
    var secs := Mod(seconds, 60.0);
    var millis := ((secs - secs.Floor as real) * 1000.0).Floor;
    Clock(hours, minutes, secs.Floor, millis)
  }

  /** `n // d` on naturals: how many whole `d`s fit in `n`. */
  function Quotient(n: nat, d: nat): nat
    requires d > 0
    decreases n
  {
    if n < d then 0 else 1 + Quotient(n - d, d)
  }

  /** The quotient is the largest `q` with `q * d <= n`. */
  lemma {:induction false} QuotientBounds(n: nat, d: nat)
    requires d > 0
    ensures Quotient(n, d) * d <= n < Quotient(n, d) * d + d
    decreases n
  {
    if n >= d {
      QuotientBounds(n - d, d);
      var q := Quotient(n - d, d);
      assert (q + 1) * d == q * d + d;
    }
  }

  /** The fields of an offset of `n` whole milliseconds: whole hours, minutes
      of the hour, seconds of the minute and milliseconds. */
  function TimestampFields(n: nat): Clock {
    QuotientBounds(n, 3600000);
    var h := Quotient(n, 3600000);
    var r: nat := n - 3600000 * h;
    QuotientBounds(r, 60000);
    var m := Quotient(r, 60000);
    var t: nat := r - 60000 * m;
    QuotientBounds(t, 1000);
    var q := Quotient(t, 1000);
    Clock(h, m, q, t - 1000 * q)
  }

  /** Minutes and seconds are below 60, milliseconds below 1000, and the
      fields add back up to the offset. */
  lemma TimestampFieldsRange(n: nat)
    ensures var c := TimestampFields(n);
      && c.minutes < 60 && c.seconds < 60 && c.millis < 1000
      && c.hours * 3600000 + c.minutes * 60000 + c.seconds * 1000 + c.millis == n
  {
    var h := Quotient(n, 3600000);
    QuotientBounds(n, 3600000);
    var r := n - 3600000 * h;
    QuotientBounds(r, 60000);
    QuotientBounds(r - 60000 * Quotient(r, 60000), 1000);
  }

  lemma FloorDiv3600(x: Offset)
    ensures FloorDiv(x, 3600.0) == Quotient(Millis(x), 3600000)
  {
    var h := FloorDiv(x, 3600.0);
    assert (h * 3600000) as real <= x * 1000.0 < ((h + 1) * 3600000) as real;
    assert h * 3600000 <= Millis(x) < (h + 1) * 3600000;
    QuotientBounds(Millis(x), 3600000);
  }

  lemma FloorDiv60(x: Offset)
    ensures FloorDiv(x, 60.0) == Quotient(Millis(x), 60000)
  {
    var m := FloorDiv(x, 60.0);
    assert (m * 60000) as real <= x * 1000.0 < ((m + 1) * 60000) as real;
    assert m * 60000 <= Millis(x) < (m + 1) * 60000;
    QuotientBounds(Millis(x), 60000);
  }

  lemma FloorWhole(x: Offset)
    ensures x.Floor == Quotient(Millis(x), 1000)
  {
    var s := x.Floor;
    assert (s * 1000) as real <= x * 1000.0 < ((s + 1) * 1000) as real;
    assert s * 1000 <= Millis(x) < (s + 1) * 1000;
    QuotientBounds(Millis(x), 1000);
  }

  /** The source's floor divisions and remainders on the offset give exactly
      the fields of its whole milliseconds: hours are `seconds // 3600`, and
      nothing is rounded. */
  lemma SourceFieldsAreMillisFields(seconds: Offset)
    ensures SourceFields(seconds) == TimestampFields(Millis(seconds))
    ensures SourceFields(seconds).hours == (seconds / 3600.0).Floor
  {
    var c, n := SourceFields(seconds), Millis(seconds);
    var h := FloorDiv(seconds, 3600.0);
    FloorDiv3600(seconds);
    QuotientBounds(n, 3600000);
    var r := n - 3600000 * h;
    var withinHour := Mod(seconds, 3600.0);
    assert Millis(withinHour) == r;
    FloorDiv60(withinHour);
    var m := Quotient(r, 60000);
    QuotientBounds(r, 60000);
    assert c.minutes == m;
    var q := FloorDiv(seconds, 60.0);
    FloorDiv60(seconds);
    QuotientBounds(n, 60000);
    assert q == 60 * h + m;
    var secs := Mod(seconds, 60.0);
    var t := r - 60000 * m;
    assert Millis(secs) == t;
    FloorWhole(secs);
    assert c.seconds == Quotient(t, 1000);
    assert c.millis == t - 1000 * Quotient(t, 1000);
  }

  /** `f"{hours:02d}:{minutes:02d}:{seconds:02d},{milliseconds:03d}"` */
  function FormatClock(c: Clock): string {
    ZeroPad(c.hours, 2) + ":" + ZeroPad(c.minutes, 2) + ":" + ZeroPad(c.seconds, 2) + "," + ZeroPad(c.millis, 3)
  }

  /** `_format_timestamp(seconds)`, computed as the source computes it. */
  function FormatSeconds(seconds: Offset): string {
    FormatClock(SourceFields(seconds))
  }

  /** The timestamp of an offset of `ms` whole milliseconds. */
  function FormatTimestamp(ms: nat): string {
    FormatClock(TimestampFields(ms))
  }

  /** Formatting an offset is formatting its whole milliseconds, so the writer
      may work on milliseconds. */
  lemma FormatSecondsIsFormatTimestamp(seconds: Offset)
    ensures FormatSeconds(seconds) == FormatTimestamp(Millis(seconds))
  {
    SourceFieldsAreMillisFields(seconds);
  }

  /** Reads `H…H:MM:SS,mmm` back: the hours are everything before the last
      ten characters. */
  function ParseClock(s: string): Option<Clock> {
    if |s| < 12 then None
    else
      var n := |s|;
      var hh, mm, ss, ms := s[..n - 10], s[n - 9..n - 7], s[n - 6..n - 4], s[n - 3..];
      if s[n - 10] == ':' && s[n - 7] == ':' && s[n - 4] == ','
        && AllDigits(hh) && AllDigits(mm) && AllDigits(ss) && AllDigits(ms)
      then Some(Clock(DigitsValue(hh), DigitsValue(mm), DigitsValue(ss), DigitsValue(ms)))
      else None
  }

  /** The characters a timestamp is written with. */
  predicate ClockChar(ch: char) {
    IsDigit(ch) || ch == ':' || ch == ','
  }

  lemma FormatClockShape(c: Clock)
    requires c.minutes < 60 && c.seconds < 60 && c.millis < 1000
    ensures var s := FormatClock(c); var h := ZeroPad(c.hours, 2);
      && |s| == |h| + 10 && |h| >= 2
      && s[..|h|] == h && s[|h|] == ':' && s[|h| + 1..|h| + 3] == ZeroPad(c.minutes, 2)
      && s[|h| + 3] == ':' && s[|h| + 4..|h| + 6] == ZeroPad(c.seconds, 2)
      && s[|h| + 6] == ',' && s[|h| + 7..] == ZeroPad(c.millis, 3)
  {
    assert Pow10(2) == 100 && Pow10(3) == 1000;
    ZeroPadWidth(c.minutes, 2);
    ZeroPadWidth(c.seconds, 2);
    ZeroPadWidth(c.millis, 3);
    ClockLayout(ZeroPad(c.hours, 2), ZeroPad(c.minutes, 2), ZeroPad(c.seconds, 2), ZeroPad(c.millis, 3));
  }

  /** Where the four fields and the three separators sit in the timestamp. */
  lemma ClockLayout(h: string, m: string, sc: string, ml: string)
    requires |m| == 2 && |sc| == 2 && |ml| == 3
    ensures var s := h + ":" + m + ":" + sc + "," + ml;
      && |s| == |h| + 10
      && s[..|h|] == h && s[|h|] == ':' && s[|h| + 1..|h| + 3] == m
      && s[|h| + 3] == ':' && s[|h| + 4..|h| + 6] == sc
      && s[|h| + 6] == ',' && s[|h| + 7..] == ml
  {
    var s := h + ":" + m + ":" + sc + "," + ml;
    assert s[..|h|] == h;
    assert s[|h| + 1..|h| + 3] == m;
    assert s[|h| + 4..|h| + 6] == sc;
    assert s[|h| + 7..] == ml;
  }

  /** Every field reads back from the text: the format loses nothing. */
  lemma ParseFormatClock(c: Clock)
    requires c.minutes < 60 && c.seconds < 60 && c.millis < 1000
    ensures ParseClock(FormatClock(c)) == Some(c)
  {
    assert Pow10(2) == 100 && Pow10(3) == 1000;
    ZeroPadWidth(c.minutes, 2);
    ZeroPadWidth(c.seconds, 2);
    ZeroPadWidth(c.millis, 3);
    ParseClockLayout(ZeroPad(c.hours, 2), ZeroPad(c.minutes, 2), ZeroPad(c.seconds, 2), ZeroPad(c.millis, 3));
  }

  /** Four digit fields of the right widths, laid out as a timestamp, read
      back as their values. */
  lemma ParseClockLayout(h: string, m: string, sc: string, ml: string)
    requires |h| >= 2 && |m| == 2 && |sc| == 2 && |ml| == 3
    requires AllDigits(h) && AllDigits(m) && AllDigits(sc) && AllDigits(ml)
    ensures ParseClock(h + ":" + m + ":" + sc + "," + ml)
      == Some(Clock(DigitsValue(h), DigitsValue(m), DigitsValue(sc), DigitsValue(ml)))
  {
    ClockLayout(h, m, sc, ml);
    ParseClockFields(h + ":" + m + ":" + sc + "," + ml, h, m, sc, ml);
  }

  /** A string whose fields sit where a timestamp's do reads back as them. */
  lemma ParseClockFields(s: string, h: string, m: string, sc: string, ml: string)
    requires |s| >= 12
    requires s[..|s| - 10] == h && s[|s| - 10] == ':' && s[|s| - 9..|s| - 7] == m
    requires s[|s| - 7] == ':' && s[|s| - 6..|s| - 4] == sc
    requires s[|s| - 4] == ',' && s[|s| - 3..] == ml
    requires AllDigits(h) && AllDigits(m) && AllDigits(sc) && AllDigits(ml)
    ensures ParseClock(s) == Some(Clock(DigitsValue(h), DigitsValue(m), DigitsValue(sc), DigitsValue(ml)))
  {
  }

  lemma ParseFormatTimestamp(ms: nat)
    ensures ParseClock(FormatTimestamp(ms)) == Some(TimestampFields(ms))
  {
    TimestampFieldsRange(ms);
    ParseFormatClock(TimestampFields(ms));
  }

  /** A timestamp is made of digits, `:` and `,` only. */
  lemma FormatTimestampChars(ms: nat)
    ensures forall i :: 0 <= i < |FormatTimestamp(ms)| ==> ClockChar(FormatTimestamp(ms)[i])
  {
    var c := TimestampFields(ms);
    var s := FormatTimestamp(ms);
    var h := ZeroPad(c.hours, 2);
    TimestampFieldsRange(ms);
    FormatClockShape(c);
    forall i | 0 <= i < |s|
      ensures ClockChar(s[i])
    {
      if i < |h| {
        assert s[i] == h[i];
      } else if |h| + 1 <= i < |h| + 3 {
        assert s[i] == ZeroPad(c.minutes, 2)[i - |h| - 1];
      } else if |h| + 4 <= i < |h| + 6 {
        assert s[i] == ZeroPad(c.seconds, 2)[i - |h| - 4];
      } else if |h| + 7 <= i {
        assert s[i] == ZeroPad(c.millis, 3)[i - |h| - 7];
      }
    }
  }

  /** The timestamp is at least twelve characters, and exactly twelve when the
      offset is under a hundred hours. */
  lemma FormatTimestampLength(ms: nat)
    ensures |FormatTimestamp(ms)| >= 12
    ensures |FormatTimestamp(ms)| == 12 <==> TimestampFields(ms).hours < 100
  {
    var c := TimestampFields(ms);
    TimestampFieldsRange(ms);
    FormatClockShape(c);
    NatToStringLength(c.hours, 2);
    assert Pow10(2) == 100;
  }

  // ---------------------------------------------------------------------------
  // The SRT writer of extract_subtitles

  /** One recognised segment: its start and end offsets, in whole
      milliseconds, and its text. */
  datatype Segment = Segment(start: nat, end: nat, text: string)

  /** `f"{start} --> {end}"` */
  function TimingLine(seg: Segment): string {
    FormatTimestamp(seg.start) + " --> " + FormatTimestamp(seg.end)
  }

  /** Reads a timing line back: the two timestamps either side of ` --> `. */
  function ParseTimingLine(line: string): Option<(Clock, Clock)> {
    var p := IndexOf(line, ' ');
    if p + 5 <= |line| && line[p..p + 5] == " --> " then
      match (ParseClock(line[..p]), ParseClock(line[p + 5..]))
      case (Some(a), Some(b)) => Some((a, b))
      case _ => None
    else None
  }

  lemma ParseTimingLineOf(seg: Segment)
    ensures ParseTimingLine(TimingLine(seg)) == Some((TimestampFields(seg.start), TimestampFields(seg.end)))
  {
    TimestampHasNoSpace(seg.start);
    ParseArrowLine(FormatTimestamp(seg.start), FormatTimestamp(seg.end));
    ParseFormatTimestamp(seg.start);
    ParseFormatTimestamp(seg.end);
  }

  /** A line `a --> b` whose `a` has no space splits at its arrow. */
  lemma ParseArrowLine(a: string, b: string)
    requires forall k :: 0 <= k < |a| ==> a[k] != ' '
    ensures ParseTimingLine(a + " --> " + b) ==
      if ParseClock(a).Some? && ParseClock(b).Some? then Some((ParseClock(a).value, ParseClock(b).value)) else None
  {
    Slices3(a, " --> ", b);
    AppendAssoc(a, " --> ", b);
    IndexOfAfter(a, " --> " + b, ' ');
  }

  lemma TimestampHasNoSpace(ms: nat)
    ensures forall k :: 0 <= k < |FormatTimestamp(ms)| ==> FormatTimestamp(ms)[k] != ' '
  {
    FormatTimestampChars(ms);
  }

  lemma TimestampHasNoNewline(ms: nat)
    ensures '\n' !in FormatTimestamp(ms)
  {
    FormatTimestampChars(ms);
  }

  lemma TimingLineHasNoNewline(seg: Segment)
    ensures '\n' !in TimingLine(seg)
  {
    TimestampHasNoNewline(seg.start);
    TimestampHasNoNewline(seg.end);
    ArrowLineHasNoNewline(FormatTimestamp(seg.start), FormatTimestamp(seg.end));
  }

  lemma ArrowLineHasNoNewline(a: string, b: string)
    requires '\n' !in a && '\n' !in b
    ensures '\n' !in a + " --> " + b
  {
    NotInAppend3(a, " --> ", b, '\n');
  }

  /** `f"{i}\n{start} --> {end}\n{text}\n\n"`, the block written for the
      `i`-th segment. */
  function SrtBlock(i: nat, seg: Segment): string {
    NatToString(i) + "\n" + TimingLine(seg) + "\n" + Strip(seg.text) + "\n\n"
  }

  /** The lines of a block: the index, the timing line, the stripped text's
      own lines, and two empty lines. */
  lemma SrtBlockLines(i: nat, seg: Segment)
    ensures Split(SrtBlock(i, seg), '\n') ==
      [NatToString(i), TimingLine(seg)] + Split(Strip(seg.text), '\n') + ["", ""]
  {
    var index, timing, text := NatToString(i), TimingLine(seg), Strip(seg.text);
    assert '\n' !in index by {
      assert forall k :: 0 <= k < |index| ==> IsDigit(index[k]);
    }
    TimingLineHasNoNewline(seg);
    assert SrtBlock(i, seg) == index + ['\n'] + timing + ['\n'] + text + ['\n', '\n'];
    SplitRecord(index, timing, text, '\n');
  }

  /** A block reads back as its number, its segment's timestamps and its
      segment's stripped text. */
  lemma SrtBlockReadsBack(i: nat, seg: Segment)
    ensures var lines := Split(SrtBlock(i, seg), '\n');
      && |lines| >= 5
      && AllDigits(lines[0]) && DigitsValue(lines[0]) == i
      && ParseTimingLine(lines[1]) == Some((TimestampFields(seg.start), TimestampFields(seg.end)))
      && Join(lines[2..|lines| - 2], '\n') == Strip(seg.text)
      && lines[|lines| - 2..] == ["", ""]
  {
    var lines := Split(SrtBlock(i, seg), '\n');
    var textLines := Split(Strip(seg.text), '\n');
    SrtBlockLines(i, seg);
    assert lines[2..|lines| - 2] == textLines;
    JoinSplit(Strip(seg.text), '\n');
    NatToStringValue(i);
    ParseTimingLineOf(seg);
  }

  /** The file the loop has written after `segments`: block `k` carries the
      number `k`. */
  function SrtText(segments: seq<Segment>): string
    decreases |segments|
  {
    if segments == [] then ""
    else SrtText(segments[..|segments| - 1]) + SrtBlock(|segments|, segments[|segments| - 1])
  }

  /** The file after `i` segments is the file after `i - 1` and block `i`. */
  lemma SrtTextSnoc(segments: seq<Segment>, i: nat)
    requires 1 <= i <= |segments|
    ensures SrtText(segments[..i]) == SrtText(segments[..i - 1]) + SrtBlock(i, segments[i - 1])
  {
    assert segments[..i][..i - 1] == segments[..i - 1];
  }

  /** The blocks numbered 1 to N in transcription order. */
  function NumberedBlocks(segments: seq<Segment>): (r: seq<string>)
    ensures |r| == |segments|
  {
    Numbered(SrtBlock, segments)
  }

  /** Block `k` (from 0) is the block of segment `k` with the number `k + 1`. */
  lemma NumberedBlocksAt(segments: seq<Segment>, k: nat)
    requires k < |segments|
    ensures NumberedBlocks(segments)[k] == SrtBlock(k + 1, segments[k])
  {
    NumberedAt(SrtBlock, segments, k);
  }

  /** The file is the numbered blocks, one after the other. */
  lemma {:induction false} SrtTextIsNumberedBlocks(segments: seq<Segment>)
    ensures SrtText(segments) == Concat(NumberedBlocks(segments))
    decreases |segments|
  {
    if segments != [] {
      var n := |segments|;
      var init, block := segments[..n - 1], SrtBlock(n, segments[n - 1]);
      SrtTextIsNumberedBlocks(init);
      assert NumberedBlocks(segments) == NumberedBlocks(init) + [block];
      ConcatSnoc(NumberedBlocks(init), block);
    }
  }

  // ---------------------------------------------------------------------------
  // File names

  /** `os.path.join(a, b)` on POSIX: an absolute `b` replaces `a`; otherwise a
      slash is put between them unless `a` is empty or already ends in one. */
  function PathJoin(a: string, b: string): string {
    if |b| > 0 && b[0] == '/' then b
    else if a == "" || a[|a| - 1] == '/' then a + b
    else a + "/" + b
  }

  /** `os.path.basename(p)`: what follows the last slash. */
  function Basename(p: string): (r: string)
    ensures '/' !in r
    ensures |r| <= |p| && r == p[|p| - |r|..]
    ensures |r| < |p| ==> p[|p| - |r| - 1] == '/'
  {
    p[LastIndexOf(p, '/') + 1..]
  }

  predicate HasNonDot(s: string) {
    exists k :: 0 <= k < |s| && s[k] != '.'
  }

  /** Some character of `p` at an index in `[lo, hi)` is not a dot. */
  predicate NonDotBetween(p: string, lo: int, hi: int) {
    exists k :: lo <= k < hi && 0 <= k < |p| && p[k] != '.'
  }

  /** `p` has no extension: no dot of its last path component follows a
      character of that component other than a dot. */
  ghost predicate NoExtension(p: string) {
    forall k :: LastIndexOf(p, '/') < k < |p| && p[k] == '.' ==>
      forall m :: LastIndexOf(p, '/') < m < k ==> p[m] == '.'
  }

  /** The last dot of the last component, with a non-dot before it there,
      is an extension. */
  lemma ExtensionAtLastDot(p: string)
    requires LastIndexOf(p, '.') > LastIndexOf(p, '/')
    requires NonDotBetween(p, LastIndexOf(p, '/') + 1, LastIndexOf(p, '.'))
    ensures !NoExtension(p)
  {
    var sepIndex, dotIndex := LastIndexOf(p, '/'), LastIndexOf(p, '.');
    var m :| sepIndex + 1 <= m < dotIndex && 0 <= m < |p| && p[m] != '.';
    assert sepIndex < m < dotIndex && p[m] != '.' && p[dotIndex] == '.';
  }

  /** Without such a dot, no dot of the last component follows a non-dot. */
  lemma NoExtensionAtLastDot(p: string)
    requires !(LastIndexOf(p, '.') > LastIndexOf(p, '/')
               && NonDotBetween(p, LastIndexOf(p, '/') + 1, LastIndexOf(p, '.')))
    ensures NoExtension(p)
  {
    var sepIndex, dotIndex := LastIndexOf(p, '/'), LastIndexOf(p, '.');
    forall k | sepIndex < k < |p| && p[k] == '.'
      ensures forall m :: sepIndex < m < k ==> p[m] == '.'
    {
      assert k <= dotIndex;
    }
  }

  /** `os.path.splitext(p)[0]`: `p` without its last extension. The last dot
      of the last path component starts an extension only when some character
      before it in that component is not a dot, so `.bashrc` has none. */
  function SplitextRoot(p: string): (r: string)
    ensures |r| <= |p| && r == p[..|r|]
    ensures |r| < |p| ==> p[|r|] == '.' && forall k :: |r| < k < |p| ==> p[k] != '.' && p[k] != '/'
  {
    var sepIndex := LastIndexOf(p, '/');
    var dotIndex := LastIndexOf(p, '.');
    if dotIndex > sepIndex && NonDotBetween(p, sepIndex + 1, dotIndex) then
      assert forall k :: dotIndex < k < |p| ==> p[k] != '.' && p[k] != '/';
      p[..dotIndex]
    else
      assert p[..|p|] == p;
      p
  }

  /** The root differs from `p` exactly when `p` has an extension, and then
      the removed dot follows a non-dot of the last component. */
  lemma SplitextRootExtension(p: string)
    ensures var r := SplitextRoot(p);
      && (|r| < |p| ==> LastIndexOf(p, '/') < |r| && NonDotBetween(p, LastIndexOf(p, '/') + 1, |r|))
      && (r == p <==> NoExtension(p))
  {
    var sepIndex, dotIndex := LastIndexOf(p, '/'), LastIndexOf(p, '.');
    if dotIndex > sepIndex && NonDotBetween(p, sepIndex + 1, dotIndex) {
      ExtensionAtLastDot(p);
      assert |SplitextRoot(p)| == dotIndex;
    } else {
      NoExtensionAtLastDot(p);
    }
  }

  /** For a name with no slash the extension is what follows its last dot,
      when some character before that dot is not a dot. */
  lemma SplitextRootOfName(name: string)
    requires '/' !in name
    ensures var r := SplitextRoot(name);
      && (r == name <==> NoExtension(name))
      && (r != name ==> |r| < |name| && name[|r|] == '.' && '.' !in name[|r| + 1..] && HasNonDot(r))
  {
    var r := SplitextRoot(name);
    SplitextRootExtension(name);
    if r != name {
      assert LastIndexOf(name, '/') == -1;
      assert name[0..|r|] == r;
      var m :| 0 <= m < |r| && 0 <= m < |name| && name[m] != '.';
      assert r[m] == name[m];
      var tail := name[|r| + 1..];
      assert forall k :: 0 <= k < |tail| ==> tail[k] == name[|r| + 1 + k];
    }
  }

  /** `os.path.splitext(os.path.basename(file_path))[0] + '.srt'` */
  function SrtFilename(filePath: string): string {
    SplitextRoot(Basename(filePath)) + ".srt"
  }

  /** The SRT name is the media file's own name, its last extension (if any)
      replaced by `.srt`; it names a file in the upload folder itself. */
  lemma SrtFilenameShape(filePath: string)
    ensures var name := SrtFilename(filePath); var base := Basename(filePath);
      && '/' !in name
      && |name| >= 4 && name[|name| - 4..] == ".srt"
      && var root := name[..|name| - 4];
         |root| <= |base| && root == base[..|root|]
         && (root == base <==> NoExtension(base))
         && (root != base ==> |root| < |base| && base[|root|] == '.' && '.' !in base[|root| + 1..] && HasNonDot(root))
  {
    var base := Basename(filePath);
    var root := SplitextRoot(base);
    SplitextRootOfName(base);
    SrtNameParts(base, root, SrtFilename(filePath));
  }

  /** A prefix of a name without `/`, followed by `.srt`. */
  lemma SrtNameParts(base: string, root: string, name: string)
    requires '/' !in base && |root| <= |base| && root == base[..|root|]
    requires name == root + ".srt"
    ensures '/' !in name && |name| >= 4 && name[|name| - 4..] == ".srt" && name[..|name| - 4] == root
  {
    assert name[..|name| - 4] == root;
    assert '/' !in root by {
      assert forall k :: 0 <= k < |root| ==> root[k] == base[k];
    }
  }

  /** A prefix that is empty or ends in a slash does not change the base name. */
  lemma BasenameAfterSlash(prefix: string, b: string)
    requires prefix == "" || prefix[|prefix| - 1] == '/'
    ensures Basename(prefix + b) == Basename(b)
  {
    var j := LastIndexOf(b, '/');
    LastIndexOfAppend(prefix, b, '/');
    if j < 0 && prefix != "" {
      assert LastIndexOf(prefix, '/') == |prefix| - 1;
    }
    DropAppend(prefix, b, j + 1);
  }

  /** Joining a folder in front of a path does not change its base name. */
  lemma BasenameOfJoin(a: string, b: string)
    ensures Basename(PathJoin(a, b)) == Basename(b)
  {
    if |b| > 0 && b[0] == '/' {
    } else if a == "" || a[|a| - 1] == '/' {
      BasenameAfterSlash(a, b);
    } else {
      BasenameAfterSlash(a + "/", b);
    }
  }

  /** The SRT name of a stored upload depends only on the stored name. */
  lemma SrtFilenameOfJoin(folder: string, name: string)
    ensures SrtFilename(PathJoin(folder, name)) == SrtFilename(name)
  {
    BasenameOfJoin(folder, name);
  }

  // ---------------------------------------------------------------------------
  // Recogniser language and task

  /** `target_language.split('-')[0]`: the code up to its first `-`. */
  function WhisperLanguage(targetLanguage: string): (r: string)
    ensures '-' !in r
    ensures |r| <= |targetLanguage| && r == targetLanguage[..|r|]
    ensures |r| < |targetLanguage| ==> targetLanguage[|r|] == '-'
  {
    SplitHead(targetLanguage, '-');
    Split(targetLanguage, '-')[0]
  }

  /** `"translate" if whisper_lang != "en" else "transcribe"` */
  function WhisperTask(whisperLanguage: string): string {
    if whisperLanguage != "en" then "translate" else "transcribe"
  }

  /** `pt-BR` is heard as `pt`, but `pt_BR` (the form the language table
      uses) is passed on whole. */
  lemma WhisperLanguageExamples()
    ensures WhisperLanguage("pt-BR") == "pt"
    ensures WhisperLanguage("pt_BR") == "pt_BR"
  {
    var a := WhisperLanguage("pt-BR");
    assert |a| <= 2;
    assert "pt-BR"[..2] == "pt";
    var b := WhisperLanguage("pt_BR");
    assert |b| == 5;
  }

  /** The recogniser only transcribes (rather than translating into English)
      for `en` or an `en-` variant. */
  lemma TranscribeOnlyForEnglish(targetLanguage: string)
    ensures WhisperTask(WhisperLanguage(targetLanguage)) == "transcribe"
      <==> targetLanguage == "en" || (|targetLanguage| > 2 && targetLanguage[..3] == "en-")
  {
    var w := WhisperLanguage(targetLanguage);
    if |targetLanguage| > 2 && targetLanguage[..3] == "en-" {
      assert targetLanguage[2] == '-';
      assert |w| <= 2;
      assert w == targetLanguage[..2];
    }
    if w == "en" && targetLanguage != "en" {
      assert |targetLanguage| > 2 && targetLanguage[2] == '-';
      assert targetLanguage[..3] == w + "-";
    }
  }

  // ---------------------------------------------------------------------------
  // Job status and progress

  datatype Status = Pending | Processing | Completed | Failed

  /** What a database commit stores of a job: its status and progress. */
  datatype Snapshot = Snapshot(status: Status, progress: real)

  /** `50 + (i / total_segments * 50)` after the `i`-th of `n` segments. */
  function SegmentProgress(i: nat, n: nat): real
    requires 1 <= i <= n
  {
    50.0 + (i as real / n as real * 50.0)
  }

  /** Per-segment progress lies in (50, 100], grows with `i`, and reaches 100
      exactly at the last segment. */
  lemma SegmentProgressBounds(i: nat, j: nat, n: nat)
    requires 1 <= i <= j <= n
    ensures 50.0 < SegmentProgress(i, n) <= SegmentProgress(j, n) <= 100.0
    ensures SegmentProgress(n, n) == 100.0
  {
    RatioBounds(i, j, n);
  }

  lemma RatioBounds(i: nat, j: nat, n: nat)
    requires 1 <= i <= j <= n
    ensures 0.0 < i as real / n as real <= j as real / n as real <= 1.0
  {
    var r := n as real;
    assert (i as real / r) * r == i as real;
    assert (j as real / r) * r == j as real;
    assert 1.0 * r == r;
  }

  /** The commits of the segment loop after `k` of `n` segments. */
  function SegmentTrace(status: Status, k: nat, n: nat): (t: seq<Snapshot>)
    requires k <= n
    ensures |t| == k
  {
    if k == 0 then [] else SegmentTrace(status, k - 1, n) + [Snapshot(status, SegmentProgress(k, n))]
  }

  /** The `m`-th commit of the loop (from 0) reports segment `m + 1`. */
  lemma {:induction false} SegmentTraceAt(status: Status, k: nat, n: nat, m: nat)
    requires m < k <= n
    ensures SegmentTrace(status, k, n)[m] == Snapshot(status, SegmentProgress(m + 1, n))
    decreases k
  {
    if m < k - 1 {
      SegmentTraceAt(status, k - 1, n, m);
    }
  }

  /** The commits `extract_subtitles` makes when the recogniser answers
      `outcome`: 10 before transcribing; then, on success, 50 and one commit
      per segment. The status is left as it was. */
  function ExtractTrace(status: Status, outcome: Result<seq<Segment>>): (t: seq<Snapshot>)
    ensures t != []
  {
    match outcome
    case Failure(_) => [Snapshot(status, 10.0)]
    case Success(segments) =>
      [Snapshot(status, 10.0)] + ([Snapshot(status, 50.0)] + SegmentTrace(status, |segments|, |segments|))
  }

  /** After a successful transcription the last commit reports 50 or the
      last segment's progress. */
  lemma ExtractTraceSuccess(status: Status, segments: seq<Segment>)
    ensures Last(ExtractTrace(status, Success(segments))).progress
      == if segments == [] then 50.0 else SegmentProgress(|segments|, |segments|)
  {
    var n := |segments|;
    if n > 0 {
      SegmentTraceAt(status, n, n, n - 1);
    }
  }

  /** The commits `process_extraction` makes for an existing record. */
  function JobTrace(outcome: Result<seq<Segment>>): (t: seq<Snapshot>)
    ensures t != []
  {
    [Snapshot(Processing, 0.0)] + ExtractTrace(Processing, outcome)
    + [if outcome.Success? then Snapshot(Completed, 100.0) else Snapshot(Failed, 10.0)]
  }

  function Last(t: seq<Snapshot>): Snapshot
    requires t != []
  {
    t[|t| - 1]
  }

  ghost predicate ProgressNonDecreasing(t: seq<Snapshot>) {
    forall a, b :: 0 <= a <= b < |t| ==> t[a].progress <= t[b].progress
  }

  ghost predicate ProgressInRange(t: seq<Snapshot>) {
    forall a :: 0 <= a < |t| ==> 0.0 <= t[a].progress <= 100.0
  }

  /** The progress of snapshot `a` of a successful job with `n` segments. */
  function JobProgressAt(a: nat, n: nat): real
    requires a < n + 4
  {
    if a == 0 then 0.0
    else if a == 1 then 10.0
    else if a == 2 then 50.0
    else if a < n + 3 then SegmentProgress(a - 2, n)
    else 100.0
  }

  lemma JobTraceSuccessProgress(segments: seq<Segment>)
    ensures var t := JobTrace(Success(segments));
      |t| == |segments| + 4
      && forall a :: 0 <= a < |t| ==> t[a].progress == JobProgressAt(a, |segments|)
  {
    var n := |segments|;
    var t := JobTrace(Success(segments));
    var s := SegmentTrace(Processing, n, n);
    assert t == [Snapshot(Processing, 0.0), Snapshot(Processing, 10.0), Snapshot(Processing, 50.0)]
      + s + [Snapshot(Completed, 100.0)];
    forall a | 0 <= a < |t|
      ensures t[a].progress == JobProgressAt(a, n)
    {
      if 3 <= a < n + 3 {
        assert t[a] == s[a - 3];
        SegmentTraceAt(Processing, n, n, a - 3);
      }
    }
  }

  /** Progress never goes down over a job: 0, 10, 50, the per-segment values,
      then 100, or 0, 10, 10 when the recogniser fails. */
  lemma JobProgressNonDecreasing(outcome: Result<seq<Segment>>)
    ensures ProgressNonDecreasing(JobTrace(outcome))
  {
    var t := JobTrace(outcome);
    if outcome.Success? {
      var n := |outcome.value|;
      JobTraceSuccessProgress(outcome.value);
      forall a, b | 0 <= a <= b < |t|
        ensures t[a].progress <= t[b].progress
      {
        if 3 <= a < n + 3 && b < n + 3 {
          SegmentProgressBounds(a - 2, b - 2, n);
        } else if 3 <= a < n + 3 {
          SegmentProgressBounds(a - 2, n, n);
        } else if 3 <= b < n + 3 {
          SegmentProgressBounds(b - 2, b - 2, n);
        }
      }
    } else {
      assert t == [Snapshot(Processing, 0.0), Snapshot(Processing, 10.0), Snapshot(Failed, 10.0)];
    }
  }

  /** Every committed progress value is a percentage. */
  lemma JobProgressInRange(outcome: Result<seq<Segment>>)
    ensures ProgressInRange(JobTrace(outcome))
  {
    var t := JobTrace(outcome);
    if outcome.Success? {
      var n := |outcome.value|;
      JobTraceSuccessProgress(outcome.value);
      forall a | 0 <= a < |t|
        ensures 0.0 <= t[a].progress <= 100.0
      {
        if 3 <= a < n + 3 {
          SegmentProgressBounds(a - 2, a - 2, n);
          SegmentProgressBounds(a - 2, n, n);
        }
      }
    } else {
      assert t == [Snapshot(Processing, 0.0), Snapshot(Processing, 10.0), Snapshot(Failed, 10.0)];
    }
  }

  /** A job starts at `processing` with progress 0 and stays `processing` until
      its last commit, which is `completed` at 100 or `failed` with the
      progress of the commit before it. */
  lemma JobTraceEnds(outcome: Result<seq<Segment>>)
    ensures var t := JobTrace(outcome);
      && |t| >= 3
      && t[0] == Snapshot(Processing, 0.0)
      && (forall a :: 0 <= a < |t| - 1 ==> t[a].status == Processing)
      && (outcome.Success? ==> Last(t) == Snapshot(Completed, 100.0))
      && (outcome.Failure? ==> Last(t) == Snapshot(Failed, t[|t| - 2].progress))
  {
    var t := JobTrace(outcome);
    if outcome.Success? {
      var n := |outcome.value|;
      var s := SegmentTrace(Processing, n, n);
      assert t == [Snapshot(Processing, 0.0), Snapshot(Processing, 10.0), Snapshot(Processing, 50.0)]
        + s + [Snapshot(Completed, 100.0)];
      forall a | 0 <= a < |t| - 1
        ensures t[a].status == Processing
      {
        if 3 <= a {
          assert t[a] == s[a - 3];
          SegmentTraceAt(Processing, n, n, a - 3);
        }
      }
    } else {
      assert t == [Snapshot(Processing, 0.0), Snapshot(Processing, 10.0), Snapshot(Failed, 10.0)];
    }
  }

  /** With no segments no per-segment update runs: the job commits 0, 10, 50
      and 100. */
  lemma JobTraceNoSegments()
    ensures JobTrace(Success([])) == [
      Snapshot(Processing, 0.0), Snapshot(Processing, 10.0),
      Snapshot(Processing, 50.0), Snapshot(Completed, 100.0)]
  {
    assert SegmentTrace(Processing, 0, 0) == [];
  }

  /** The status moves a record may make between two commits. */
  predicate Allowed(from: Status, to: Status) {
    from == to || (from == Pending && to == Processing)
    || (from == Processing && (to == Completed || to == Failed))
  }

  /** A record's history: created `pending`, then only allowed moves. */
  ghost predicate Lifecycle(h: seq<Snapshot>) {
    h != [] && h[0].status == Pending
    && forall a :: 0 < a < |h| ==> Allowed(h[a - 1].status, h[a].status)
  }

  /** A new record run once goes `pending`, `processing`, then `completed` or
      `failed`, and nothing else. */
  lemma NewJobLifecycle(outcome: Result<seq<Segment>>)
    ensures Lifecycle([Snapshot(Pending, 0.0)] + JobTrace(outcome))
    ensures Last([Snapshot(Pending, 0.0)] + JobTrace(outcome)).status
      == if outcome.Success? then Completed else Failed
  {
    var t := JobTrace(outcome);
    var h := [Snapshot(Pending, 0.0)] + t;
    JobTraceEnds(outcome);
    forall a | 0 < a < |h|
      ensures Allowed(h[a - 1].status, h[a].status)
    {
      assert h[a] == t[a - 1];
      if a > 1 {
        assert h[a - 1] == t[a - 2];
      }
    }
  }

  // ---------------------------------------------------------------------------
  // The job record and the extractor

  /** One `f.write(...)` of the SRT loop: after the blocks of the first
      `i - 1` segments comes the block of segment `i`. */
  method WriteBlock(srt: string, segments: seq<Segment>, i: nat) returns (r: string)
    requires 1 <= i <= |segments| && srt == SrtText(segments[..i - 1])
    ensures r == SrtText(segments[..i])
  {
    var block := SrtBlock(i, segments[i - 1]);
    SrtTextSnoc(segments, i);
    r := srt + block;
  }

  /** The message of the exception `extract_subtitles` re-raises for `error`. */
  function ExtractionError(error: string): string {
    "Error extracting subtitles: " + error
  }

  /** A `SubtitleExtraction` row. Every database commit is logged in
      `commits`, so the values other readers could see are on record. */
  class SubtitleExtraction {
    const userId: nat
    const originalFilename: string
    const targetLanguage: string
    var srtFilename: string
    var status: Status
    var progress: real
    var errorMessage: Option<string>
    var completedAt: bool
    ghost var commits: seq<Snapshot>

    /** The record the dashboard inserts for an upload: `pending`, with no
        SRT file yet. */
    constructor (userId: nat, originalFilename: string, targetLanguage: string)
      ensures this.userId == userId && this.originalFilename == originalFilename
      ensures this.targetLanguage == targetLanguage
      ensures srtFilename == "" && status == Pending && progress == 0.0
      ensures errorMessage == None && !completedAt
      ensures commits == [Snapshot(Pending, 0.0)]
    {
      this.userId := userId;
      this.originalFilename := originalFilename;
      this.targetLanguage := targetLanguage;
      srtFilename := "";
      status := Pending;
      progress := 0.0;
      errorMessage := None;
      completedAt := false;
      commits := [Snapshot(Pending, 0.0)];
    }

    /** `extraction.progress = 50 + (i / total_segments * 50)` and a commit
        after the `i`-th of `n` segments: the log of the segment loop grows
        by one snapshot. */
    method CommitSegmentProgress(i: nat, n: nat, ghost before: seq<Snapshot>)
      requires 1 <= i <= n && commits == before + SegmentTrace(status, i - 1, n)
      modifies this
      ensures commits == before + SegmentTrace(status, i, n)
      ensures progress == SegmentProgress(i, n)
      ensures srtFilename == old(srtFilename) && status == old(status)
      ensures errorMessage == old(errorMessage) && completedAt == old(completedAt)
    {
      ghost var trace := SegmentTrace(status, i - 1, n);
      progress := SegmentProgress(i, n);
      Commit();
      assert commits == before + (trace + [Snapshot(status, SegmentProgress(i, n))]);
    }

    /** The start of `process_extraction`: the record is marked `processing`
        at 0 and committed. */
    method Start()
      modifies this
      ensures status == Processing && progress == 0.0
      ensures commits == old(commits) + [Snapshot(Processing, 0.0)]
      ensures srtFilename == old(srtFilename)
      ensures errorMessage == old(errorMessage) && completedAt == old(completedAt)
    {
      status := Processing;
      progress := 0.0;
      Commit();
    }

    /** The success branch of `process_extraction`: the SRT name is stored
        and the record is `completed` at 100, with its completion time set. */
    method Complete(srtFilename: string)
      modifies this
      ensures this.srtFilename == srtFilename && status == Completed && progress == 100.0 && completedAt
      ensures commits == old(commits) + [Snapshot(Completed, 100.0)]
      ensures errorMessage == old(errorMessage)
    {
      this.srtFilename := srtFilename;
      status := Completed;
      progress := 100.0;
      completedAt := true;
      Commit();
    }

    /** The failure branch of `process_extraction`: the record is `failed`
        with the error text, its progress where the failure left it. */
    method Fail(error: string)
      modifies this
      ensures status == Failed && errorMessage == Some(error) && progress == old(progress)
      ensures commits == old(commits) + [Snapshot(Failed, old(progress))]
      ensures srtFilename == old(srtFilename) && completedAt == old(completedAt)
    {
      status := Failed;
      errorMessage := Some(error);
      Commit();
    }

    /** `db.session.commit()` for this record. */
    method Commit()
      modifies this
      ensures commits == old(commits) + [Snapshot(status, progress)]
      ensures srtFilename == old(srtFilename) && status == old(status) && progress == old(progress)
      ensures errorMessage == old(errorMessage) && completedAt == old(completedAt)
    {
      commits := commits + [Snapshot(status, progress)];
    }
  }

  /** A `SubtitleExtractor`: its upload folder, its recogniser (media path,
      language, task) and the files it has written, by path. */
  class SubtitleExtractor {
    const uploadFolder: string
    const transcribe: (string, string, string) -> Result<seq<Segment>>
    var files: map<string, string>

    constructor (uploadFolder: string, transcribe: (string, string, string) -> Result<seq<Segment>>)
      ensures this.uploadFolder == uploadFolder && this.transcribe == transcribe
      ensures files == map[]
    {
      this.uploadFolder := uploadFolder;
      this.transcribe := transcribe;
      files := map[];
    }

    /** What the recogniser answers for `filePath` in `targetLanguage`. */
    function Transcription(filePath: string, targetLanguage: string): Result<seq<Segment>> {
      var whisperLanguage := WhisperLanguage(targetLanguage);
      transcribe(filePath, whisperLanguage, WhisperTask(whisperLanguage))
    }

    /** `extract_subtitles`: transcribes, writes the SRT file into the upload
        folder, committing progress along the way, and returns the SRT file's
        name; a recogniser failure is re-raised with a prefix. */
    method ExtractSubtitles(filePath: string, targetLanguage: string, extraction: SubtitleExtraction)
      returns (r: Result<string>)
      modifies this, extraction
      ensures var outcome := Transcription(filePath, targetLanguage);
        && r == (if outcome.Failure? then Failure(ExtractionError(outcome.error))
                 else Success(SrtFilename(filePath)))
        && extraction.commits == old(extraction.commits) + ExtractTrace(old(extraction.status), outcome)
        && extraction.progress == Last(ExtractTrace(old(extraction.status), outcome)).progress
        && files == if outcome.Failure? then old(files)
                    else old(files)[PathJoin(uploadFolder, SrtFilename(filePath)) := SrtText(outcome.value)]
      ensures extraction.status == old(extraction.status) && extraction.srtFilename == old(extraction.srtFilename)
      ensures extraction.errorMessage == old(extraction.errorMessage) && extraction.completedAt == old(extraction.completedAt)
    {
      ghost var status := extraction.status;
      extraction.progress := 10.0;
      extraction.Commit();
      var whisperLanguage := WhisperLanguage(targetLanguage);
      var result := transcribe(filePath, whisperLanguage, WhisperTask(whisperLanguage));
      if result.Failure? {
        return Failure(ExtractionError(result.error));
      }
      var srtFilename := SrtFilename(filePath);
      WriteTranscription(PathJoin(uploadFolder, srtFilename), result.value, extraction);
      ExtractTraceSuccess(status, result.value);
      AppendAssoc(old(extraction.commits), [Snapshot(status, 10.0)],
        [Snapshot(status, 50.0)] + SegmentTrace(status, |result.value|, |result.value|));
      return Success(srtFilename);
    }

    /** The successful half of `extract_subtitles`: progress 50 is committed,
        then the SRT file is written. */
    method WriteTranscription(srtPath: string, segments: seq<Segment>, extraction: SubtitleExtraction)
      modifies this, extraction
      ensures files == old(files)[srtPath := SrtText(segments)]
      ensures extraction.commits
        == old(extraction.commits) + ([Snapshot(extraction.status, 50.0)] + SegmentTrace(extraction.status, |segments|, |segments|))
      ensures extraction.progress == if segments == [] then 50.0 else SegmentProgress(|segments|, |segments|)
      ensures extraction.status == old(extraction.status) && extraction.srtFilename == old(extraction.srtFilename)
      ensures extraction.errorMessage == old(extraction.errorMessage) && extraction.completedAt == old(extraction.completedAt)
    {
      extraction.progress := 50.0;
      extraction.Commit();
      WriteSrt(srtPath, segments, extraction);
      AppendAssoc(old(extraction.commits), [Snapshot(extraction.status, 50.0)],
        SegmentTrace(extraction.status, |segments|, |segments|));
    }

    /** The `with open(srt_path, 'w')` block of `extract_subtitles`: block
        `i` is written for the `i`-th segment and the progress
        `50 + i / N * 50` is committed after it; the file then holds the
        whole text. */
    method WriteSrt(srtPath: string, segments: seq<Segment>, extraction: SubtitleExtraction)
      modifies this, extraction
      ensures files == old(files)[srtPath := SrtText(segments)]
      ensures extraction.commits == old(extraction.commits) + SegmentTrace(extraction.status, |segments|, |segments|)
      ensures extraction.progress == if segments == [] then old(extraction.progress)
                                     else SegmentProgress(|segments|, |segments|)
      ensures extraction.status == old(extraction.status) && extraction.srtFilename == old(extraction.srtFilename)
      ensures extraction.errorMessage == old(extraction.errorMessage) && extraction.completedAt == old(extraction.completedAt)
    {
      var srt := "";
      var total := |segments|;
      for i := 1 to total + 1
        modifies extraction
        invariant srt == SrtText(segments[..i - 1])
        invariant extraction.commits == old(extraction.commits) + SegmentTrace(extraction.status, i - 1, total)
        invariant extraction.progress == if i == 1 then old(extraction.progress) else SegmentProgress(i - 1, total)
        invariant extraction.status == old(extraction.status) && extraction.srtFilename == old(extraction.srtFilename)
        invariant extraction.errorMessage == old(extraction.errorMessage) && extraction.completedAt == old(extraction.completedAt)
      {
        srt := WriteBlock(srt, segments, i);
        extraction.CommitSegmentProgress(i, total, old(extraction.commits));
      }
      assert segments[..total] == segments;
      files := files[srtPath := srt];
    }

    /** `process_extraction`: nothing happens for an unknown id; otherwise the
        record is marked `processing` at 0, the upload is extracted, and the
        record ends `completed` at 100 with its SRT name, or `failed` with the
        error text and its progress where the failure left it. */
    method ProcessExtraction(jobs: map<nat, SubtitleExtraction>, extractionId: nat)
      modifies this, if extractionId in jobs then {jobs[extractionId]} else {}
      ensures extractionId !in jobs ==> files == old(files)
      ensures extractionId in jobs ==>
        var e := jobs[extractionId];
        var filePath := PathJoin(uploadFolder, e.originalFilename);
        var outcome := Transcription(filePath, e.targetLanguage);
        && e.commits == old(e.commits) + JobTrace(outcome)
        && e.status == Last(JobTrace(outcome)).status
        && e.progress == Last(JobTrace(outcome)).progress
        && (outcome.Success? ==>
              && e.srtFilename == SrtFilename(e.originalFilename) && e.completedAt
              && e.errorMessage == old(e.errorMessage)
              && files == old(files)[PathJoin(uploadFolder, e.srtFilename) := SrtText(outcome.value)])
        && (outcome.Failure? ==>
              && e.errorMessage == Some(ExtractionError(outcome.error))
              && e.srtFilename == old(e.srtFilename) && e.completedAt == old(e.completedAt)
              && files == old(files))
    {
      if extractionId in jobs {
        Process(jobs[extractionId]);
      }
    }

    /** `process_extraction` once the record is found. */
    method Process(extraction: SubtitleExtraction)
      modifies this, extraction
      ensures
        var filePath := PathJoin(uploadFolder, extraction.originalFilename);
        var outcome := Transcription(filePath, extraction.targetLanguage);
        && extraction.commits == old(extraction.commits) + JobTrace(outcome)
        && extraction.status == Last(JobTrace(outcome)).status
        && extraction.progress == Last(JobTrace(outcome)).progress
        && (outcome.Success? ==>
              && extraction.srtFilename == SrtFilename(extraction.originalFilename) && extraction.completedAt
              && extraction.errorMessage == old(extraction.errorMessage)
              && files == old(files)[PathJoin(uploadFolder, extraction.srtFilename) := SrtText(outcome.value)])
        && (outcome.Failure? ==>
              && extraction.errorMessage == Some(ExtractionError(outcome.error))
              && extraction.srtFilename == old(extraction.srtFilename)
              && extraction.completedAt == old(extraction.completedAt)
              && files == old(files))
    {
      extraction.Start();
      var filePath := PathJoin(uploadFolder, extraction.originalFilename);
      var r := ExtractSubtitles(filePath, extraction.targetLanguage, extraction);
      SrtFilenameOfJoin(uploadFolder, extraction.originalFilename);
      ghost var outcome := Transcription(filePath, extraction.targetLanguage);
      ghost var trace := [Snapshot(Processing, 0.0)] + ExtractTrace(Processing, outcome);
      AppendAssoc(old(extraction.commits), [Snapshot(Processing, 0.0)], ExtractTrace(Processing, outcome));
      match r {
        case Success(srtFilename) =>
          extraction.Complete(srtFilename);
          AppendAssoc(old(extraction.commits), trace, [Snapshot(Completed, 100.0)]);
        case Failure(e) =>
          extraction.Fail(e);
          AppendAssoc(old(extraction.commits), trace, [Snapshot(Failed, 10.0)]);
      }
    }
  }
}
