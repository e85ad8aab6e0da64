/** The shared helpers of src/util.c that finit, initctl and reboot use:
    progname(), strtobytes(), uptime() and sanitize(). */
module Util {
  import opened LibC

  /** The process-wide variables the helpers write: util.c's own `prognm`
      and the C library's `errno`. */
  class Globals {
    /** `char *prognm`: NULL until progname() runs, then the base name it found. */
    var prognm: Option<seq<char>>
    var errno: int

    constructor ()
      ensures prognm == None && errno == 0
    {
      prognm := None;
      errno := 0;
    }

    /** progname(arg0): points `prognm` at the base name of arg0 and returns it,
        as the offset of that pointer within arg0. */
    method Progname(arg0: seq<char>) returns (off: nat)
      requires NUL !in arg0
      modifies this`prognm
      ensures off == BaseOffset(arg0)
      ensures prognm == Some(arg0[off..])
    {
      var slash := LastIndex(arg0, '/');
      if slash.Some? {
        off := slash.value + 1;
      } else {
        off := 0;
      }
      prognm := Some(arg0[off..]);
    }

    /** uptime(secs, buf, len): formats secs as "N year N day N hour N min N sec"
        into buf, bounded by len; with a NULL buf it fails with EINVAL. */
    method Uptime(secs: int, buf: array?<char>, len: nat) returns (r: array?<char>)
      requires LONG_MIN <= secs <= LONG_MAX
      requires buf != null ==> len <= buf.Length
      modifies this`errno, buf
      ensures buf == null ==> r == null && errno == EINVAL
      ensures buf != null ==> r == buf && errno == old(errno)
      ensures buf != null ==> buf[..] == Store(old(buf[..]), len, UptimeText(Decompose(secs)))
    {
      if buf == null {
        errno := EINVAL;
        return null;
      }

      var t := secs;
      var years := Quot(t, YEAR);
      t := Rem(t, YEAR);
      var days := Quot(t, DAY);
      t := Rem(t, DAY);
      var hours := Quot(t, HOUR);
      t := Rem(t, HOUR);
      var mins := Quot(t, MINUTE);
      t := Rem(t, MINUTE);

      var y, d, h, m, s := "", "", "", "", "";
      if years != 0 { y := Bounded(DecimalText(years) + " year", 20); }
      if days != 0 { d := Bounded(DecimalText(days) + " day", 20); }
      if hours != 0 { h := Bounded(DecimalText(hours) + " hour", 20); }
      if mins != 0 { m := Bounded(DecimalText(mins) + " min", 20); }
      if t != 0 { s := Bounded(DecimalText(t) + " sec", 20); }

      var text := y + (if years != 0 then " " else "")
                + (d + (if days != 0 then " " else "")
                + (h + (if hours != 0 then " " else "")
                + (m + (if mins != 0 then " " else "")
                + s)));
      PieceFormat(years, "year", " year");
      PieceFormat(days, "day", " day");
      PieceFormat(hours, "hour", " hour");
      PieceFormat(mins, "min", " min");
      PieceFormat(t, "sec", " sec");
      assert text == UptimeText(Duration(years, days, hours, mins, t));
      DecomposeSteps(secs);
      Snprintf(buf, len, text);
      r := buf;
    }
  }

  // ============================================================ progname()

  /** Where the base name of a path starts: just past its last '/', or at 0. */
  function BaseOffset(arg0: seq<char>): (off: nat)
    ensures off <= |arg0|
    ensures '/' !in arg0[off..]
    ensures off > 0 ==> arg0[off - 1] == '/'
  {
    match LastIndex(arg0, '/')
    case Some(k) => k + 1
    case None => 0
  }

  /** The two properties of BaseOffset pin it down: the base name is the
      suffix after the last '/', or the whole path when it has no '/'. */
  lemma BaseOffsetUnique(arg0: seq<char>, off: nat)
    requires off <= |arg0|
    requires '/' !in arg0[off..]
    requires off > 0 ==> arg0[off - 1] == '/'
    ensures off == BaseOffset(arg0)
  {
  }

  /** progname() applied to its own result changes nothing. */
  lemma BaseNameIdempotent(arg0: seq<char>)
    ensures BaseOffset(arg0[BaseOffset(arg0)..]) == 0
  {
  }

  /** Sample paths: a full path, a bare name, and a path ending in '/'. */
  lemma BaseOffsetExamples()
    ensures BaseOffset("/sbin/finit") == 6
    ensures BaseOffset("initctl") == 0
    ensures BaseOffset("/usr/sbin/") == 10
  {
  }

  // ========================================================== strtobytes()

  /** The power of 1000 strtobytes() applies for the character that ends the
      digits: none at the terminator, 1 for 'k', 2 for 'M', 3 for 'G'; None
      when it refuses the character. */
  function SuffixExponent(c: char): (r: Option<nat>)
    ensures r.Some? <==> c == NUL || c == 'k' || c == 'M' || c == 'G'
    ensures r.Some? ==> r.value <= 3 && (r.value == 0 <==> c == NUL)
  {
    if c == NUL then Some(0)
    else if c == 'G' then Some(3)
    else if c == 'M' then Some(2)
    else if c == 'k' then Some(1)
    else None
  }

  function Pow1000(k: nat): (p: nat)
    ensures p >= 1
  {
    if k == 0 then 1 else 1000 * Pow1000(k - 1)
  }

  /** What strtobytes() computes for a buffer holding a C string, in
      unbounded integers: -1 for a refused suffix, otherwise the value of the
      leading digits scaled by the suffix. */
  function StrToBytesValue(buf: seq<char>): (r: int)
    requires NUL in buf
    ensures r >= -1
    ensures r == -1 <==> SuffixExponent(buf[Span(buf, IsDigit)]).None?
  {
    SpanBelow(buf, IsDigit, Strlen(buf));
    var pos := Span(buf, IsDigit);
    match SuffixExponent(buf[pos])
    case None => -1
    case Some(k) => DecimalValue(buf[..pos]) * Pow1000(k)
  }

  /** What strtobytes() leaves in the buffer: the suffix it accepted is
      overwritten with NUL; nothing else changes. */
  function StrToBytesBuffer(buf: seq<char>): (r: seq<char>)
    requires NUL in buf
    ensures |r| == |buf|
    ensures forall j :: 0 <= j < |buf| && j != Span(buf, IsDigit) ==> r[j] == buf[j]
    ensures StrToBytesValue(buf) != -1 ==> IsDigitString(r) && r[..Strlen(r)] == buf[..Span(buf, IsDigit)]
    ensures StrToBytesValue(buf) == -1 ==> r == buf
  {
    SpanBelow(buf, IsDigit, Strlen(buf));
    var pos := Span(buf, IsDigit);
    var r := if buf[pos] != NUL && SuffixExponent(buf[pos]).Some? then buf[pos := NUL] else buf;
    assert r[..pos] == buf[..pos];
    if SuffixExponent(buf[pos]).Some? then
      SpanIs(r, IsDigit, pos);
      SpanIs(r, NotNul, pos);
      r
    else r
  }

  /** strtobytes() computes in a C int; its behaviour is defined only where
      the scaled value fits. */
  predicate StrToBytesDefined(buf: seq<char>) {
    NUL in buf && StrToBytesValue(buf) <= INT_MAX
  }

  /** After an accepted suffix is overwritten, atoi() reads the digit
      prefix, and scaling it gives the value. */
  lemma StrToBytesAtoi(buf: seq<char>, k: nat)
    requires NUL in buf && Span(buf, IsDigit) < |buf|
    requires SuffixExponent(buf[Span(buf, IsDigit)]) == Some(k)
    ensures IsDigitString(StrToBytesBuffer(buf))
    ensures Atoi(StrToBytesBuffer(buf)) * Pow1000(k) == StrToBytesValue(buf)
  {
    var r := StrToBytesBuffer(buf);
    var pos := Span(buf, IsDigit);
    SpanIs(r, IsDigit, pos);
    assert r[..pos] == buf[..pos];
  }

  /** One turn of the `while (mod--) bytes *= 1000` loop. */
  lemma ScaleStep(b: nat, k: nat)
    ensures b * Pow1000(k + 1) == b * 1000 * Pow1000(k)
    ensures b * 1000 <= b * 1000 * Pow1000(k)
  {
    var p := Pow1000(k);
    assert Pow1000(k + 1) == 1000 * p;
    MulAtLeast(b * 1000, p);
  }

  lemma MulAtLeast(n: nat, p: nat)
    requires p >= 1
    ensures n <= n * p
  {
  }

  /** strtobytes(arg): parses a decimal size with an optional k, M or G suffix. */
  method StrToBytes(arg: array?<char>) returns (bytes: int32)
    requires arg != null ==> StrToBytesDefined(arg[..])
    modifies arg
    ensures arg == null ==> bytes == -1
    ensures arg != null ==> bytes as int == StrToBytesValue(old(arg[..]))
    ensures arg != null ==> arg[..] == StrToBytesBuffer(old(arg[..]))
  {
    if arg == null {
      return -1;
    }
    ghost var buf := arg[..];
    SpanBelow(buf, IsDigit, Strlen(buf));
    var mod: nat := 0;
    var pos := Span(arg[..], IsDigit);
    if arg[pos] != NUL {
      if arg[pos] == 'G' {
        mod := 3;
      } else if arg[pos] == 'M' {
        mod := 2;
      } else if arg[pos] == 'k' {
        mod := 1;
      } else {
        assert StrToBytesBuffer(buf) == buf;
        return -1;
      }
      arg[pos] := NUL;
    }
    StrToBytesAtoi(buf, mod);
    assert arg[..] == StrToBytesBuffer(buf);
    var n := Atoi(arg[..]);
    MulAtLeast(n, Pow1000(mod));
    bytes := n as int32;
    while mod != 0
      invariant arg[..] == StrToBytesBuffer(buf)
      invariant 0 <= bytes as int
      invariant bytes as int * Pow1000(mod) == StrToBytesValue(buf)
      decreases mod
    {
      ScaleStep(bytes as int, mod - 1);
      bytes := bytes * 1000;
      mod := mod - 1;
    }
  }

  /** The values strtobytes() gives for each accepted suffix: decimal
      multiples of 1000, not of 1024. */
  lemma {:induction false} StrToBytesScales(digits: seq<char>, c: char, rest: seq<char>)
    requires AllDigits(digits) && !IsDigit(c)
    requires NUL in [c] + rest
    ensures var buf := digits + [c] + rest;
      && (c == NUL ==> StrToBytesValue(buf) == DecimalValue(digits))
      && (c == 'k' ==> StrToBytesValue(buf) == DecimalValue(digits) * 1000)
      && (c == 'M' ==> StrToBytesValue(buf) == DecimalValue(digits) * 1000000)
      && (c == 'G' ==> StrToBytesValue(buf) == DecimalValue(digits) * 1000000000)
      && (c !in "kMG" && c != NUL ==> StrToBytesValue(buf) == -1)
  {
    var buf := digits + [c] + rest;
    SpanIs(buf, IsDigit, |digits|);
    assert buf[..|digits|] == digits;
  }

  /** Only the digits and the character after them decide the value: what
      follows the suffix is never read. */
  lemma StrToBytesIgnoresTail(buf1: seq<char>, buf2: seq<char>)
    requires NUL in buf1 && NUL in buf2
    requires Span(buf1, IsDigit) < |buf1| && Span(buf1, IsDigit) < |buf2|
    requires buf1[..Span(buf1, IsDigit) + 1] == buf2[..Span(buf1, IsDigit) + 1]
    ensures StrToBytesValue(buf1) == StrToBytesValue(buf2)
  {
    var pos := Span(buf1, IsDigit);
    assert forall j :: 0 <= j <= pos ==> buf2[j] == buf1[..pos + 1][j];
    SpanIs(buf2, IsDigit, pos);
    assert buf2[..pos] == buf1[..pos];
  }

  /** A bare suffix has an empty digit prefix and reads as 0. */
  lemma StrToBytesBareSuffix()
    ensures StrToBytesValue("k\0") == 0
  {
    StrToBytesScales("", 'k', "\0");
    assert "" + ['k'] + "\0" == "k\0";
  }

  /** Upper-case K is not a suffix strtobytes() knows. */
  lemma StrToBytesRefusesUpperK()
    ensures StrToBytesValue("10K\0") == -1
  {
    StrToBytesScales("10", 'K', "\0");
    assert "10" + ['K'] + "\0" == "10K\0";
  }

  /** "3G" is three thousand million, more than a C int holds, so it lies
      outside StrToBytesDefined. */
  lemma StrToBytesThreeGiga()
    ensures StrToBytesValue("3G\0") == 3000000000 > INT_MAX
  {
    StrToBytesScales("3", 'G', "\0");
    assert "3" + ['G'] + "\0" == "3G\0";
  }

  // ============================================================== uptime()

  /** The lengths uptime() divides by: a year of 31556926 seconds (365.2422
      days, close to the tropical year), a day, an hour and a minute. */
  const YEAR: int := 31556926
  const DAY: int := 86400
  const HOUR: int := 3600
  const MINUTE: int := 60

  const TERA: int := 1_000_000_000_000

  /** A number of seconds split the way uptime() prints it. */
  datatype Duration = Duration(years: int, days: int, hours: int, mins: int, secs: int)

  function Seconds(d: Duration): int {
    d.years * YEAR + d.days * DAY + d.hours * HOUR + d.mins * MINUTE + d.secs
  }

  /** uptime()'s arithmetic: C's truncating `/` and `%` by a year, a day, an
      hour and a minute in turn. The parts add back up to the input, and each
      lies within its unit. */
  function Decompose(t: int): (d: Duration)
    ensures Seconds(d) == t
    ensures t >= 0 ==>
              && 0 <= d.years && 0 <= d.days && d.days * DAY < YEAR
              && 0 <= d.hours < 24 && 0 <= d.mins < 60 && 0 <= d.secs < 60
              && Seconds(d) - d.years * YEAR < YEAR
    ensures t <= 0 ==>
              && d.years <= 0 && d.days <= 0 && -YEAR < d.days * DAY
              && -24 < d.hours <= 0 && -60 < d.mins <= 0 && -60 < d.secs <= 0
              && -YEAR < Seconds(d) - d.years * YEAR
  {
    var r1 := Rem(t, YEAR);
    var r2 := Rem(r1, DAY);
    var r3 := Rem(r2, HOUR);
    Duration(Quot(t, YEAR), Quot(r1, DAY), Quot(r2, HOUR), Quot(r3, MINUTE), Rem(r3, MINUTE))
  }

  /** Decompose's bounds leave only one way to split a non-negative number of
      seconds: the one uptime() prints. */
  lemma DecomposeUnique(t: int, d: Duration)
    requires t >= 0 && Seconds(d) == t
    requires 0 <= d.days && d.days * DAY < YEAR
    requires 0 <= d.hours < 24 && 0 <= d.mins < 60 && 0 <= d.secs < 60
    requires Seconds(d) - d.years * YEAR < YEAR
    ensures d == Decompose(t)
  {
    var r3 := d.mins * MINUTE + d.secs;
    var r2 := d.hours * HOUR + r3;
    var r1 := d.days * DAY + r2;
    TruncatedDivisionUnique(t, YEAR, d.years, r1);
    TruncatedDivisionUnique(r1, DAY, d.days, r2);
    TruncatedDivisionUnique(r2, HOUR, d.hours, r3);
    TruncatedDivisionUnique(r3, MINUTE, d.mins, d.secs);
  }

  /** Decompose divides in the order uptime() does. */
  lemma DecomposeSteps(t: int)
    ensures var r1 := Rem(t, YEAR); var r2 := Rem(r1, DAY); var r3 := Rem(r2, HOUR);
      Decompose(t) == Duration(Quot(t, YEAR), Quot(r1, DAY), Quot(r2, HOUR), Quot(r3, MINUTE), Rem(r3, MINUTE))
  {
  }

  /** One piece of uptime()'s text: snprintf(x, 20, "%ld <unit>", n) when the
      count is non-zero, the empty string otherwise. */
  function Piece(n: int, unit: seq<char>): (s: seq<char>)
    ensures s == [] <==> n == 0
    ensures NUL !in unit ==> NUL !in s
  {
    if n == 0 then [] else Bounded(DecimalText(n) + " " + unit, 20)
  }

  /** snprintf(piece, 20, "%ld <unit>", n) formats the piece. */
  lemma PieceFormat(n: int, unit: seq<char>, format: seq<char>)
    requires format == " " + unit
    ensures n != 0 ==> Piece(n, unit) == Bounded(DecimalText(n) + format, 20)
  {
    assert DecimalText(n) + " " + unit == DecimalText(n) + format;
  }

  /** The blank uptime() puts after a non-zero part. */
  function Sep(n: int): seq<char> {
    if n != 0 then " " else ""
  }

  /** The text uptime() formats for a duration. */
  function UptimeText(d: Duration): (s: seq<char>)
    ensures NUL !in s
  {
    Piece(d.years, "year") + Sep(d.years)
    + (Piece(d.days, "day") + Sep(d.days)
    + (Piece(d.hours, "hour") + Sep(d.hours)
    + (Piece(d.mins, "min") + Sep(d.mins)
    + Piece(d.secs, "sec"))))
  }

  /** A count below 10^12 under a unit name of at most four letters fits the
      20-byte piece buffer: snprintf() truncates nothing. */
  lemma PieceFits(n: int, unit: seq<char>)
    requires 0 < n < TERA && |unit| <= 4
    ensures Piece(n, unit) == DecimalText(n) + " " + unit
  {
    assert Pow10(12) == TERA;
    DecimalTextLength(n, 12);
  }

  const UNITS: seq<seq<char>> := ["year", "day", "hour", "min", "sec"]

  function Counts(d: Duration): seq<int> {
    [d.years, d.days, d.hours, d.mins, d.secs]
  }

  /** uptime()'s layout for any list of counts and unit names: each non-zero
      count as a piece, every piece but the last followed by one blank. */
  function Render(counts: seq<int>, units: seq<seq<char>>): seq<char>
    requires |counts| == |units|
  {
    if counts == [] then []
    else if |counts| == 1 then Piece(counts[0], units[0])
    else Piece(counts[0], units[0]) + Sep(counts[0]) + Render(counts[1..], units[1..])
  }

  /** One step of the layout: a part followed by the layout of the rest. */
  lemma RenderCons(n: int, u: seq<char>, counts: seq<int>, units: seq<seq<char>>)
    requires |counts| == |units| && counts != []
    ensures Render([n] + counts, [u] + units) == Piece(n, u) + Sep(n) + Render(counts, units)
  {
    assert ([n] + counts)[1..] == counts;
    assert ([u] + units)[1..] == units;
  }

  lemma UptimeTextRender(d: Duration)
    ensures UptimeText(d) == Render(Counts(d), UNITS)
  {
    assert Render([d.secs], ["sec"]) == Piece(d.secs, "sec");
    RenderCons(d.mins, "min", [d.secs], ["sec"]);
    RenderCons(d.hours, "hour", [d.mins, d.secs], ["min", "sec"]);
    RenderCons(d.days, "day", [d.hours, d.mins, d.secs], ["hour", "min", "sec"]);
    RenderCons(d.years, "year", [d.days, d.hours, d.mins, d.secs], ["day", "hour", "min", "sec"]);
  }

  /** Reads "<digits> <unit>" from the front of t, with the blank that follows
      every unit but the last; reads nothing, a count of 0, when t does not
      start that way. */
  function ReadPart(t: seq<char>, unit: seq<char>, last: bool): (nat, seq<char>)
  {
    var k := Span(t, IsDigit);
    var token := " " + unit + (if last then "" else " ");
    if 0 < k && StartsWith(t[k..], token) then (DecimalValue(t[..k]), t[k + |token|..])
    else (0, t)
  }

  /** Reads one count per unit name and requires the text to end there. */
  function Parse(t: seq<char>, units: seq<seq<char>>): (r: Option<seq<int>>)
    ensures r.Some? ==> |r.value| == |units|
  {
    if units == [] then (if t == [] then Some([]) else None)
    else
      var (n, rest) := ReadPart(t, units[0], |units| == 1);
      match Parse(rest, units[1..])
      case None => None
      case Some(ns) => Some([n] + ns)
  }

  /** Reads uptime()'s text back into a duration. */
  function ParseUptime(t: seq<char>): Option<Duration>
  {
    match Parse(t, UNITS)
    case None => None
    case Some(ns) => Some(Duration(ns[0], ns[1], ns[2], ns[3], ns[4]))
  }

  /** Counts uptime() prints without truncation, under short unit names. */
  predicate Printable(counts: seq<int>, units: seq<seq<char>>) {
    && |counts| == |units|
    && (forall j :: 0 <= j < |counts| ==> 0 <= counts[j] < TERA)
    && (forall j :: 0 <= j < |units| ==> 0 < |units[j]| <= 4)
  }

  predicate DistinctInitials(units: seq<seq<char>>) {
    forall i, j :: 0 <= i < j < |units| && 0 < |units[i]| && 0 < |units[j]| ==> units[i][0] != units[j][0]
  }

  /** t starts with digits, a blank and the character c. */
  predicate LedBy(t: seq<char>, c: char) {
    var k := Span(t, IsDigit);
    0 < k && k + 1 < |t| && t[k] == ' ' && t[k + 1] == c
  }

  lemma ReadPartSkips(t: seq<char>, unit: seq<char>, last: bool)
    requires 0 < |unit| && !LedBy(t, unit[0])
    ensures ReadPart(t, unit, last) == (0, t)
  {
  }

  /** The layout of the counts after the first, with the blank before it. */
  function RenderRest(counts: seq<int>, units: seq<seq<char>>): seq<char>
    requires |counts| == |units| && counts != []
  {
    if |counts| == 1 then [] else Sep(counts[0]) + Render(counts[1..], units[1..])
  }

  lemma RenderSplit(counts: seq<int>, units: seq<seq<char>>)
    requires |counts| == |units| && counts != []
    ensures Render(counts, units) == Piece(counts[0], units[0]) + RenderRest(counts, units)
  {
  }

  /** A non-zero first count lays out as its digits, a blank and its unit. */
  lemma RenderFirst(counts: seq<int>, units: seq<seq<char>>)
    requires Printable(counts, units) && counts != [] && counts[0] != 0
    ensures Render(counts, units) == DecimalText(counts[0]) + ([' '] + units[0] + RenderRest(counts, units))
  {
    PrintableFirst(counts, units);
    PieceFits(counts[0], units[0]);
    RenderSplit(counts, units);
  }

  lemma PrintableFirst(counts: seq<int>, units: seq<seq<char>>)
    requires Printable(counts, units) && counts != []
    ensures 0 <= counts[0] < TERA && 0 < |units[0]| <= 4
    ensures Printable(counts[1..], units[1..])
  {
  }

  lemma DistinctInitialsFirst(units: seq<seq<char>>)
    requires DistinctInitials(units) && units != []
    requires forall j :: 0 <= j < |units| ==> 0 < |units[j]|
    ensures DistinctInitials(units[1..])
    ensures forall j :: 0 <= j < |units[1..]| ==> units[1..][j][0] != units[0][0]
  {
    forall j | 0 <= j < |units[1..]| ensures units[1..][j][0] != units[0][0] {
      assert units[1..][j] == units[j + 1];
    }
  }

  /** After a run of digits, LedBy looks at the blank and the character after it. */
  lemma LedByDigits(digits: seq<char>, rest: seq<char>, c: char)
    requires 0 < |digits| && AllDigits(digits)
    requires 0 < |rest| && rest[0] == ' '
    ensures LedBy(digits + rest, c) <==> 1 < |rest| && rest[1] == c
  {
    SpanIs(digits + rest, IsDigit, |digits|);
  }

  lemma ReadPartReads(n: int, unit: seq<char>, last: bool, rest: seq<char>)
    requires 0 < n < TERA && |unit| <= 4
    ensures ReadPart(Piece(n, unit) + ((if last then "" else " ") + rest), unit, last) == (n, rest)
  {
    PieceFits(n, unit);
    var digits := DecimalText(n);
    var token := " " + unit + (if last then "" else " ");
    var t := Piece(n, unit) + ((if last then "" else " ") + rest);
    assert t == digits + (token + rest);
    SpanIs(t, IsDigit, |digits|);
    assert t[..|digits|] == digits;
    assert t[|digits|..] == token + rest;
    assert t[|digits| + |token|..] == rest;
    DecimalRoundTrip(n);
  }

  /** No text uptime() lays out is led by a character that is not the
      initial of one of its units. */
  lemma {:induction false} RenderNotLedBy(counts: seq<int>, units: seq<seq<char>>, c: char)
    requires Printable(counts, units)
    requires forall j :: 0 <= j < |units| ==> units[j][0] != c
    ensures !LedBy(Render(counts, units), c)
  {
    if counts == [] {
    } else if counts[0] == 0 {
      if |counts| > 1 {
        PrintableFirst(counts, units);
        assert Render(counts, units) == Render(counts[1..], units[1..]);
        RenderNotLedBy(counts[1..], units[1..], c);
      }
    } else {
      PrintableFirst(counts, units);
      RenderFirst(counts, units);
      var rest := [' '] + units[0] + RenderRest(counts, units);
      assert rest[1] == units[0][0];
      LedByDigits(DecimalText(counts[0]), rest, c);
    }
  }

  /** One step of the reader: the first part, then the rest. */
  lemma ParseStep(t: seq<char>, units: seq<seq<char>>, n: nat, rest: seq<char>, ns: seq<int>)
    requires units != []
    requires ReadPart(t, units[0], |units| == 1) == (n, rest)
    requires Parse(rest, units[1..]) == Some(ns)
    ensures Parse(t, units) == Some([n] + ns)
  {
  }

  /** A zero count adds nothing to the layout. */
  lemma RenderZero(counts: seq<int>, units: seq<seq<char>>)
    requires |counts| == |units| && counts != [] && counts[0] == 0
    ensures Render(counts, units) == Render(counts[1..], units[1..])
  {
  }

  /** The reader skips a unit whose count is zero. */
  lemma ParseSkipsZero(counts: seq<int>, units: seq<seq<char>>)
    requires Printable(counts, units) && DistinctInitials(units) && counts != [] && counts[0] == 0
    requires Parse(Render(counts[1..], units[1..]), units[1..]) == Some(counts[1..])
    ensures Parse(Render(counts, units), units) == Some(counts)
  {
    var tail := Render(counts[1..], units[1..]);
    PrintableFirst(counts, units);
    DistinctInitialsFirst(units);
    RenderZero(counts, units);
    RenderNotLedBy(counts[1..], units[1..], units[0][0]);
    ReadPartSkips(tail, units[0], |units| == 1);
    ParseStep(tail, units, 0, tail, counts[1..]);
    assert [0] + counts[1..] == counts;
  }

  /** The reader takes back a non-zero count. */
  lemma ParseReadsCount(counts: seq<int>, units: seq<seq<char>>)
    requires Printable(counts, units) && counts != [] && counts[0] != 0
    requires Parse(Render(counts[1..], units[1..]), units[1..]) == Some(counts[1..])
    ensures Parse(Render(counts, units), units) == Some(counts)
  {
    var last := |counts| == 1;
    var tail := Render(counts[1..], units[1..]);
    PrintableFirst(counts, units);
    RenderSplit(counts, units);
    assert RenderRest(counts, units) == (if last then "" else " ") + tail;
    ReadPartReads(counts[0], units[0], last, tail);
    ParseStep(Render(counts, units), units, counts[0], tail, counts[1..]);
    assert [counts[0]] + counts[1..] == counts;
  }

  /** Parsing undoes the layout: every count comes back, in its place. */
  lemma {:induction false} ParseRender(counts: seq<int>, units: seq<seq<char>>)
    requires Printable(counts, units) && DistinctInitials(units)
    ensures Parse(Render(counts, units), units) == Some(counts)
  {
    if counts != [] {
      PrintableFirst(counts, units);
      DistinctInitialsFirst(units);
      ParseRender(counts[1..], units[1..]);
      if counts[0] == 0 {
        ParseSkipsZero(counts, units);
      } else {
        ParseReadsCount(counts, units);
      }
    }
  }

  /** Every part of a non-negative `long` is below 10^12. */
  lemma DecomposePrintable(t: int)
    requires 0 <= t <= LONG_MAX
    ensures Printable(Counts(Decompose(t)), UNITS)
  {
    var d := Decompose(t);
    assert d.years < TERA;
  }

  lemma UnitsDistinct()
    ensures DistinctInitials(UNITS)
  {
  }

  /** uptime()'s text determines the duration it was made from, for every
      non-negative `long`: no part is lost, truncated or confused with another. */
  lemma UptimeRoundTrip(t: int)
    requires 0 <= t <= LONG_MAX
    ensures ParseUptime(UptimeText(Decompose(t))) == Some(Decompose(t))
  {
    var d := Decompose(t);
    UptimeTextRender(d);
    DecomposePrintable(t);
    UnitsDistinct();
    ParseRender(Counts(d), UNITS);
  }

  /** Zero seconds print as the empty string. */
  lemma UptimeZero()
    ensures UptimeText(Decompose(0)) == ""
  {
  }

  /** A last part other than the seconds keeps its blank. */
  lemma UptimeTrailingBlank()
    ensures UptimeText(Decompose(3600)) == "1 hour "
  {
  }

  /** Exactly one year prints as one year, not as 365 days and change. */
  lemma UptimeOneYear()
    ensures UptimeText(Decompose(YEAR)) == "1 year "
  {
  }

  // ============================================================ sanitize()

  /** isallowed(): the characters a job, id or name may hold. */
  predicate IsAllowed(c: char)
    ensures IsAllowed(c) ==> c != NUL
  {
    IsPrint(c)
  }

  /** Where sanitize()'s scan stops: at the first character that is not
      allowed, or at len. */
  function SanitizeStop(buf: seq<char>, len: nat): (i: nat)
    ensures i <= len && i <= |buf|
    ensures forall j :: 0 <= j < i ==> IsAllowed(buf[j])
    ensures i < len && i < |buf| ==> !IsAllowed(buf[i])
  {
    Min(Span(buf, IsAllowed), len)
  }

  /** sanitize() reads arg[i] before it tests i < len, and may write
      arg[i + 1]: both must lie inside the buffer. */
  predicate SanitizeInBounds(buf: seq<char>, len: nat) {
    var i := SanitizeStop(buf, len);
    i < |buf| && (i + 1 < len ==> i + 1 < |buf|)
  }

  /** What sanitize() returns, arg itself (accepted) or NULL, and what it
      leaves in the buffer. */
  datatype Sanitized = Sanitized(accepted: bool, buf: seq<char>)

  function SanitizeResult(buf: seq<char>, len: nat): (r: Sanitized)
    requires SanitizeInBounds(buf, len)
    ensures |r.buf| == |buf|
    ensures forall j :: 0 <= j < |buf| && j != SanitizeStop(buf, len) + 1 ==> r.buf[j] == buf[j]
    ensures !r.accepted ==> r.buf == buf
    ensures r.buf != buf ==> r.buf[SanitizeStop(buf, len) + 1] == NUL
    ensures SanitizeStop(buf, len) + 1 < len ==>
              r.accepted && r.buf == buf[SanitizeStop(buf, len) + 1 := NUL]
    ensures len <= SanitizeStop(buf, len) + 1 ==>
              (r.accepted <==> 0 < SanitizeStop(buf, len) && buf[SanitizeStop(buf, len)] == NUL)
  {
    var i := SanitizeStop(buf, len);
    if i + 1 < len then Sanitized(true, buf[i + 1 := NUL])
    else Sanitized(i > 0 && buf[i] == NUL, buf)
  }

  /** sanitize(arg, len): checks a user-supplied name and makes sure it is
      NUL terminated; returns arg, or NULL to reject it. */
  method Sanitize(arg: array<char>, len: nat) returns (r: array?<char>)
    requires SanitizeInBounds(arg[..], len)
    modifies arg
    ensures r == null || r == arg
    ensures Sanitized(r != null, arg[..]) == SanitizeResult(old(arg[..]), len)
  {
    var i := 0;
    while IsAllowed(arg[i]) && i < len
      invariant 0 <= i <= SanitizeStop(arg[..], len)
      decreases len - i
    {
      i := i + 1;
    }
    if i + 1 < len {
      arg[i + 1] := NUL;
      return arg;
    }
    if i > 0 && arg[i] == NUL {
      return arg;
    }
    return null;
  }

  /** An accepted name is a C string of at most len characters, all allowed
      except possibly the one the scan stopped at, which then ends it. */
  lemma SanitizeAcceptedString(buf: seq<char>, len: nat)
    requires SanitizeInBounds(buf, len) && SanitizeResult(buf, len).accepted
    ensures var r, i := SanitizeResult(buf, len).buf, SanitizeStop(buf, len);
      && NUL in r && Strlen(r) <= len
      && (Strlen(r) == i || Strlen(r) == i + 1)
      && (forall j :: 0 <= j < Strlen(r) && j != i ==> IsAllowed(r[j]))
  {
    var r, i := SanitizeResult(buf, len).buf, SanitizeStop(buf, len);
    if i + 1 < len {
      SpanBelow(r, NotNul, i + 1);
    } else {
      SpanBelow(r, NotNul, i);
    }
  }

  /** A name of 1 to len allowed characters, terminated by NUL, is accepted
      and comes back unchanged as a string. */
  lemma SanitizeAcceptsName(buf: seq<char>, len: nat, n: nat)
    requires 1 <= n <= len && n < |buf| && buf[n] == NUL
    requires forall j :: 0 <= j < n ==> IsAllowed(buf[j])
    requires n + 1 < len ==> n + 1 < |buf|
    ensures SanitizeInBounds(buf, len)
    ensures var r := SanitizeResult(buf, len);
      && r.accepted && NUL in r.buf
      && Strlen(r.buf) == n && r.buf[..n] == buf[..n]
  {
    SpanIs(buf, IsAllowed, n);
    var r := SanitizeResult(buf, len).buf;
    SpanIs(r, NotNul, n);
  }

  /** A buffer whose first len + 1 characters are all allowed is rejected:
      the name is too long. */
  lemma SanitizeRejectsLong(buf: seq<char>, len: nat)
    requires len < |buf|
    requires forall j :: 0 <= j <= len ==> IsAllowed(buf[j])
    ensures SanitizeInBounds(buf, len) && !SanitizeResult(buf, len).accepted
  {
    SpanBelow(buf + [NUL], IsAllowed, |buf|);
    assert SanitizeStop(buf, len) == len;
  }

  /** A character that is not allowed and not NUL survives: the NUL goes
      after it, so the accepted string ends with that character. */
  lemma SanitizeKeepsStopChar(buf: seq<char>, len: nat)
    requires SanitizeInBounds(buf, len)
    requires SanitizeStop(buf, len) + 1 < len && buf[SanitizeStop(buf, len)] != NUL
    ensures var r := SanitizeResult(buf, len);
      && r.accepted && NUL in r.buf
      && Strlen(r.buf) == SanitizeStop(buf, len) + 1
      && !IsAllowed(r.buf[SanitizeStop(buf, len)])
  {
    var r, i := SanitizeResult(buf, len).buf, SanitizeStop(buf, len);
    forall j | 0 <= j < i + 1 ensures NotNul(r[j]) {
      if j < i {
        assert IsAllowed(r[j]);
      }
    }
    SpanIs(r, NotNul, i + 1);
  }

  /** sanitize() run again on its own output returns the same and changes
      nothing more. */
  lemma SanitizeIdempotent(buf: seq<char>, len: nat)
    requires SanitizeInBounds(buf, len)
    ensures var r := SanitizeResult(buf, len);
      SanitizeInBounds(r.buf, len) && SanitizeResult(r.buf, len) == r
  {
    var r, i := SanitizeResult(buf, len), SanitizeStop(buf, len);
    if i + 1 < len {
      SpanIs(r.buf, IsAllowed, i);
    }
  }
}
