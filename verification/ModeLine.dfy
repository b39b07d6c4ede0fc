/** Mode names and the mode option of the kernel command line (drm_modes.c:521-528, 984-1143). */
module ModeLine {
  import opened Basics

  // --- Numbers in strings ---

  predicate IsDigit(c: char) { '0' <= c <= '9' }

  function Digit(c: char): nat
    requires IsDigit(c)
  {
    c as int - '0' as int
  }

  /** The characters from lo on and before hi are digits. */
  predicate Digits(s: string, lo: nat, hi: nat) {
    hi <= |s| && forall k :: lo <= k < hi ==> IsDigit(s[k])
  }

  /** No digit at i: another character, or the end. */
  predicate NoDigit(s: string, i: nat) {
    i >= |s| || !IsDigit(s[i])
  }

  /** The number written by the digits so far and those from lo to hi. */
  function ValueOf(s: string, lo: nat, hi: nat, soFar: nat): nat
    requires lo <= hi && Digits(s, lo, hi)
    decreases hi - lo
  {
    if lo == hi then soFar else ValueOf(s, lo + 1, hi, 10 * soFar + Digit(s[lo]))
  }

  /** simple_strtol at i, where there is no sign, kept in an unsigned int. */
  function Number(s: string, i: nat, soFar: nat): nat
    requires i <= |s|
    decreases |s| - i
  {
    if NoDigit(s, i) then soFar else Number(s, i + 1, (10 * soFar + Digit(s[i])) % U32)
  }

  /** Where the digits from i on end. */
  function Lead(s: string, i: nat): (end: nat)
    requires i <= |s|
    ensures i <= end <= |s| && Digits(s, i, end) && NoDigit(s, end)
    decreases |s| - i
  {
    if NoDigit(s, i) then i else Lead(s, i + 1)
  }

  lemma WrapDigit(v: nat, d: nat)
    ensures (10 * (v % U32) + d) % U32 == (10 * v + d) % U32
  {
  }

  lemma {:induction false} NumberIs(s: string, lo: nat, hi: nat, soFar: nat)
    requires lo <= hi && Digits(s, lo, hi) && NoDigit(s, hi)
    ensures Number(s, lo, soFar % U32) == ValueOf(s, lo, hi, soFar) % U32
    decreases hi - lo
  {
    if lo < hi {
      WrapDigit(soFar, Digit(s[lo]));
      NumberIs(s, lo + 1, hi, 10 * soFar + Digit(s[lo]));
    }
  }

  lemma {:induction false} LeadIs(s: string, lo: nat, hi: nat)
    requires lo <= hi && Digits(s, lo, hi) && NoDigit(s, hi)
    ensures Lead(s, lo) == hi
    decreases hi - lo
  {
    if lo < hi {
      LeadIs(s, lo + 1, hi);
    }
  }

  lemma {:induction false} OneMoreDigit(s: string, lo: nat, hi: nat, soFar: nat)
    requires lo <= hi < |s| && Digits(s, lo, hi + 1)
    ensures ValueOf(s, lo, hi + 1, soFar) == 10 * ValueOf(s, lo, hi, soFar) + Digit(s[hi])
    decreases hi - lo
  {
    if lo < hi {
      OneMoreDigit(s, lo + 1, hi, 10 * soFar + Digit(s[lo]));
    }
  }

  /** `part` stands at `lo`. */
  predicate At(s: string, lo: nat, part: string) {
    lo + |part| <= |s| && forall k :: 0 <= k < |part| ==> s[lo + k] == part[k]
  }

  lemma AtSplit(s: string, lo: nat, a: string, b: string)
    requires At(s, lo, a + b)
    ensures At(s, lo, a) && At(s, lo + |a|, b)
  {
    assert forall k :: 0 <= k < |a| ==> (a + b)[k] == a[k];
    assert forall k :: 0 <= k < |b| ==> (a + b)[|a| + k] == b[k];
  }

  predicate Numeral(s: string) { Digits(s, 0, |s|) && s != "" }

  function Value(s: string): nat
    requires Digits(s, 0, |s|)
  {
    ValueOf(s, 0, |s|, 0)
  }

  lemma {:induction false} SameValue(s: string, lo: nat, part: string, k: nat, soFar: nat)
    requires At(s, lo, part) && Digits(part, 0, |part|) && k <= |part|
    ensures Digits(s, lo, lo + |part|)
    ensures ValueOf(s, lo + k, lo + |part|, soFar) == ValueOf(part, k, |part|, soFar)
    decreases |part| - k
  {
    assert forall j :: lo <= j < lo + |part| ==> s[j] == part[j - lo];
    if k < |part| {
      SameValue(s, lo, part, k + 1, 10 * soFar + Digit(part[k]));
    }
  }

  /** %d of a natural number. */
  function Printed(n: nat): (s: string)
    ensures Numeral(s) && Value(s) == n
  {
    var d := ('0' as int + n % 10) as char;
    if n < 10 then
      OneMoreDigit([d], 0, 0, 0);
      [d]
    else
      var s := Printed(n / 10);
      SameValue(s + [d], 0, s, 0, 0);
      OneMoreDigit(s + [d], 0, |s|, 0);
      s + [d]
  }

  // --- The scan ---

  datatype Force = Unspecified | ForceOn | ForceDigital | ForceOff

  /** The local variables of the scan. */
  datatype Flags = Flags(yres: Option<nat>, bpp: Option<nat>, refresh: Option<nat>, cvt: bool, rb: bool,
                         interlace: bool, margins: bool, force: Force, wasDigit: bool)

  const START := Flags(None, None, None, false, false, false, false, Unspecified, false)

  /** One character, with the number that is read behind it; none where the scan gives up. `digital` is
      whether the connector is a DVI-I or HDMI-B one. The case of 'x' falls through into the digits'. */
  function Step(c: char, number: nat, st: Flags, digital: bool): Option<Flags> {
    match c
    case '@' =>
      if st.refresh.None? && st.bpp.None? && st.yres.None? && !st.cvt && !st.rb && st.wasDigit
      then Some(st.(refresh := Some(number), wasDigit := false)) else None
    case '-' =>
      if st.bpp.None? && st.yres.None? && !st.cvt && !st.rb && st.wasDigit
      then Some(st.(bpp := Some(number), wasDigit := false)) else None
    case 'x' =>
      if st.yres.None? && st.wasDigit then Some(st.(yres := Some(number), wasDigit := true)) else None
    case 'M' => if st.yres.Some? || st.cvt || st.wasDigit then None else Some(st.(cvt := true))
    case 'R' => if st.yres.Some? || st.cvt || st.rb || st.wasDigit then None else Some(st.(rb := true))
    case 'm' => if st.cvt || st.yres.Some? || st.wasDigit then None else Some(st.(margins := true))
    case 'i' => if st.cvt || st.yres.Some? || st.wasDigit then None else Some(st.(interlace := true))
    case 'e' => if Late(st) then None else Some(st.(force := ForceOn))
    case 'D' => if Late(st) then None else Some(st.(force := if digital then ForceDigital else ForceOn))
    case 'd' => if Late(st) then None else Some(st.(force := ForceOff))
    case _ => if IsDigit(c) then Some(st.(wasDigit := true)) else None
  }

  /** Too late for a force option. */
  predicate Late(st: Flags) {
    st.yres.Some? || st.bpp.Some? || st.refresh.Some? || st.wasDigit || st.force != Unspecified
  }

  /** The scan of the first n characters, from the right. */
  function Scan(name: string, n: nat, st: Flags, digital: bool): Option<Flags>
    requires n <= |name|
  {
    if n == 0 then Some(st)
    else
      var next := Step(name[n - 1], Number(name, n, 0), st, digital);
      if next.None? then None else Scan(name, n - 1, next.value, digital)
  }

  /** What is set in struct drm_cmdline_mode. */
  datatype Cmdline = Cmdline(res: Option<(nat, nat)>, refresh: Option<nat>, bpp: Option<nat>, cvt: bool, rb: bool,
                             interlace: bool, margins: bool, force: Force)

  function Result(res: Option<(nat, nat)>, st: Flags): Cmdline {
    Cmdline(res, st.refresh, st.bpp, st.cvt, st.rb, st.interlace, st.margins, st.force)
  }

  /** What the parser makes of a scan that got to the start of the string. */
  function Finished(name: string, st: Flags): Option<Cmdline> {
    if st.yres.Some? then
      if Lead(name, 0) < |name| && name[Lead(name, 0)] == 'x' then Some(Result(Some((Number(name, 0, 0), st.yres.value)), st))
      else None
    else if st.wasDigit then None
    else Some(Result(None, st))
  }

  /** drm_mode_parse_command_line_for_connector; none where it returns false. */
  function Parse(name: string, digital: bool): Option<Cmdline> {
    var scanned := Scan(name, |name|, START, digital);
    if scanned.None? then None else Finished(name, scanned.value)
  }

  // --- The documented grammar ---

  /** <xres>x<yres>[M][R][-<bpp>][@<refresh>][i][m][eDd] */
  datatype Line = Line(xres: string, yres: string, cvt: bool, rb: bool, bpp: Option<string>, refresh: Option<string>,
                       interlace: bool, margins: bool, force: Option<char>)

  predicate WellFormed(g: Line) {
    && Numeral(g.xres) && Numeral(g.yres)
    && (g.bpp.Some? ==> Numeral(g.bpp.value))
    && (g.refresh.Some? ==> Numeral(g.refresh.value))
    && (g.force.Some? ==> g.force.value in {'e', 'D', 'd'})
  }

  function Flag(on: bool, c: char): string { if on then [c] else "" }

  function Part(c: char, n: Option<string>): string { if n.Some? then [c] + n.value else "" }

  function Forced(c: Option<char>): string { if c.Some? then [c.value] else "" }

  function Text(g: Line): string {
    g.xres + ("x" + (g.yres + (Flag(g.cvt, 'M') + (Flag(g.rb, 'R') + (Part('-', g.bpp) + (Part('@', g.refresh) +
      (Flag(g.interlace, 'i') + (Flag(g.margins, 'm') + Forced(g.force)))))))))
  }

  function Read(n: Option<string>): Option<nat>
    requires n.Some? ==> Numeral(n.value)
  {
    if n.Some? then Some(Value(n.value) % U32) else None
  }

  function ForceOf(c: Option<char>, digital: bool): Force {
    if c.None? then Unspecified
    else if c.value == 'd' then ForceOff
    else if c.value == 'D' && digital then ForceDigital
    else ForceOn
  }

  /** The fields a line of the grammar stands for. */
  function Meaning(g: Line, digital: bool): Cmdline
    requires WellFormed(g)
  {
    Cmdline(Some((Value(g.xres) % U32, Value(g.yres) % U32)), Read(g.refresh), Read(g.bpp), g.cvt, g.rb,
            g.interlace, g.margins, ForceOf(g.force, digital))
  }

  lemma {:induction false} ScanDigits(name: string, lo: nat, hi: nat, st: Flags, digital: bool)
    requires lo < hi && Digits(name, lo, hi)
    ensures Scan(name, hi, st, digital) == Scan(name, lo, st.(wasDigit := true), digital)
    decreases hi - lo
  {
    assert IsDigit(name[hi - 1]);
    if lo < hi - 1 {
      ScanDigits(name, lo, hi - 1, st.(wasDigit := true), digital);
    }
  }

  /** No option of the left part has been read yet. */
  predicate Early(st: Flags) {
    st.yres.None? && st.bpp.None? && !st.cvt && !st.rb && !st.wasDigit
  }

  /** The variables with a one-letter option set, if it is there. */
  function Set(st: Flags, on: bool, c: char): Flags {
    if !on then st
    else match c
      case 'M' => st.(cvt := true)
      case 'R' => st.(rb := true)
      case 'i' => st.(interlace := true)
      case _ => st.(margins := true)
  }

  lemma ScanFlag(name: string, lo: nat, on: bool, c: char, st: Flags, digital: bool)
    requires At(name, lo, Flag(on, c)) && c in {'M', 'R', 'i', 'm'} && NoDigit(name, lo + |Flag(on, c)|)
    requires st.yres.None? && !st.cvt && (c == 'M' || !st.rb) && !st.wasDigit
    ensures Scan(name, lo + |Flag(on, c)|, st, digital) == Scan(name, lo, Set(st, on, c), digital)
    ensures NoDigit(name, lo)
  {
    if on {
      assert name[lo] == Flag(on, c)[0] == c;
    }
  }

  /** A number behind its sign at `lo`. */
  lemma ScanNumber(name: string, lo: nat, c: char, digits: string, st: Flags, digital: bool)
    requires At(name, lo, [c] + digits) && Numeral(digits) && NoDigit(name, lo + 1 + |digits|)
    ensures name[lo] == c && Number(name, lo + 1, 0) == Value(digits) % U32
    ensures Scan(name, lo + 1 + |digits|, st, digital) == Scan(name, lo + 1, st.(wasDigit := true), digital)
  {
    AtSplit(name, lo, [c], digits);
    SameValue(name, lo + 1, digits, 0, 0);
    NumberIs(name, lo + 1, lo + 1 + |digits|, 0);
    ScanDigits(name, lo + 1, lo + 1 + |digits|, st, digital);
    assert name[lo + 0] == [c][0];
  }

  lemma ScanRefresh(name: string, lo: nat, n: Option<string>, st: Flags, digital: bool)
    requires At(name, lo, Part('@', n)) && (n.Some? ==> Numeral(n.value)) && NoDigit(name, lo + |Part('@', n)|)
    requires Early(st) && st.refresh.None?
    ensures Scan(name, lo + |Part('@', n)|, st, digital) == Scan(name, lo, st.(refresh := Read(n)), digital)
    ensures NoDigit(name, lo)
  {
    if n.Some? {
      ScanNumber(name, lo, '@', n.value, st, digital);
    }
  }

  lemma ScanBpp(name: string, lo: nat, n: Option<string>, st: Flags, digital: bool)
    requires At(name, lo, Part('-', n)) && (n.Some? ==> Numeral(n.value)) && NoDigit(name, lo + |Part('-', n)|)
    requires Early(st)
    ensures Scan(name, lo + |Part('-', n)|, st, digital) == Scan(name, lo, st.(bpp := Read(n)), digital)
    ensures NoDigit(name, lo)
  {
    if n.Some? {
      ScanNumber(name, lo, '-', n.value, st, digital);
    }
  }

  lemma ScanForced(name: string, lo: nat, c: Option<char>, digital: bool)
    requires At(name, lo, Forced(c)) && (c.Some? ==> c.value in {'e', 'D', 'd'}) && lo + |Forced(c)| == |name|
    ensures Scan(name, |name|, START, digital) == Scan(name, lo, START.(force := ForceOf(c, digital)), digital)
    ensures NoDigit(name, lo)
  {
    if c.Some? {
      assert name[lo + 0] == Forced(c)[0];
    }
  }

  /** The variables once the options of a line are read. */
  function Chosen(g: Line, digital: bool): Flags
    requires WellFormed(g)
  {
    Flags(None, Read(g.bpp), Read(g.refresh), g.cvt, g.rb, g.interlace, g.margins, ForceOf(g.force, digital), false)
  }

  /** The options of a line, which stand at `lo` and are read first. */
  lemma ScanOptions(name: string, lo: nat, g: Line, digital: bool)
    requires WellFormed(g) && lo <= |name|
    requires At(name, lo, Flag(g.cvt, 'M') + (Flag(g.rb, 'R') + (Part('-', g.bpp) + (Part('@', g.refresh) +
      (Flag(g.interlace, 'i') + (Flag(g.margins, 'm') + Forced(g.force)))))))
    requires lo + |Flag(g.cvt, 'M')| + |Flag(g.rb, 'R')| + |Part('-', g.bpp)| + |Part('@', g.refresh)|
      + |Flag(g.interlace, 'i')| + |Flag(g.margins, 'm')| + |Forced(g.force)| == |name|
    ensures NoDigit(name, lo) && Scan(name, |name|, START, digital) == Scan(name, lo, Chosen(g, digital), digital)
  {
    var a, b, c, d, e, f := Flag(g.cvt, 'M'), Flag(g.rb, 'R'), Part('-', g.bpp), Part('@', g.refresh),
                            Flag(g.interlace, 'i'), Flag(g.margins, 'm');
    var last := Forced(g.force);
    AtSplit(name, lo, a, b + (c + (d + (e + (f + last)))));
    AtSplit(name, lo + |a|, b, c + (d + (e + (f + last))));
    AtSplit(name, lo + |a| + |b|, c, d + (e + (f + last)));
    AtSplit(name, lo + |a| + |b| + |c|, d, e + (f + last));
    AtSplit(name, lo + |a| + |b| + |c| + |d|, e, f + last);
    AtSplit(name, lo + |a| + |b| + |c| + |d| + |e|, f, last);
    ScanParts(name, lo, lo + |a|, lo + |a| + |b|, lo + |a| + |b| + |c|, lo + |a| + |b| + |c| + |d|,
              lo + |a| + |b| + |c| + |d| + |e|, lo + |a| + |b| + |c| + |d| + |e| + |f|, g, digital);
  }

  /** The options from the refresh rate on, each at its place. */
  lemma ScanTail(name: string, l4: nat, l5: nat, l6: nat, l7: nat, g: Line, digital: bool)
    requires WellFormed(g) && l7 + |Forced(g.force)| == |name| && At(name, l7, Forced(g.force))
    requires l5 == l4 + |Part('@', g.refresh)| && At(name, l4, Part('@', g.refresh))
    requires l6 == l5 + |Flag(g.interlace, 'i')| && At(name, l5, Flag(g.interlace, 'i'))
    requires l7 == l6 + |Flag(g.margins, 'm')| && At(name, l6, Flag(g.margins, 'm'))
    ensures NoDigit(name, l4) && Scan(name, |name|, START, digital) == Scan(name, l4, Tail(g, digital), digital)
  {
    ScanForced(name, l7, g.force, digital);
    var st := START.(force := ForceOf(g.force, digital));
    ScanFlag(name, l6, g.margins, 'm', st, digital);
    ScanFlag(name, l5, g.interlace, 'i', Set(st, g.margins, 'm'), digital);
    ScanRefresh(name, l4, g.refresh, Set(Set(st, g.margins, 'm'), g.interlace, 'i'), digital);
  }

  function Tail(g: Line, digital: bool): Flags
    requires WellFormed(g)
  {
    Flags(None, None, Read(g.refresh), false, false, g.interlace, g.margins, ForceOf(g.force, digital), false)
  }

  /** The options, each at its place. */
  lemma ScanParts(name: string, l1: nat, l2: nat, l3: nat, l4: nat, l5: nat, l6: nat, l7: nat, g: Line, digital: bool)
    requires WellFormed(g) && l7 + |Forced(g.force)| == |name| && At(name, l7, Forced(g.force))
    requires l2 == l1 + |Flag(g.cvt, 'M')| && At(name, l1, Flag(g.cvt, 'M'))
    requires l3 == l2 + |Flag(g.rb, 'R')| && At(name, l2, Flag(g.rb, 'R'))
    requires l4 == l3 + |Part('-', g.bpp)| && At(name, l3, Part('-', g.bpp))
    requires l5 == l4 + |Part('@', g.refresh)| && At(name, l4, Part('@', g.refresh))
    requires l6 == l5 + |Flag(g.interlace, 'i')| && At(name, l5, Flag(g.interlace, 'i'))
    requires l7 == l6 + |Flag(g.margins, 'm')| && At(name, l6, Flag(g.margins, 'm'))
    ensures NoDigit(name, l1) && Scan(name, |name|, START, digital) == Scan(name, l1, Chosen(g, digital), digital)
  {
    ScanTail(name, l4, l5, l6, l7, g, digital);
    var st := Tail(g, digital);
    ScanBpp(name, l3, g.bpp, st, digital);
    st := st.(bpp := Read(g.bpp));
    ScanFlag(name, l2, g.rb, 'R', st, digital);
    ScanFlag(name, l1, g.cvt, 'M', Set(st, g.rb, 'R'), digital);
  }

  /** The resolution, which is read last. */
  lemma ScanResolution(name: string, xres: string, yres: string, st: Flags, digital: bool)
    requires Numeral(xres) && Numeral(yres) && st.yres.None?
    requires At(name, 0, xres) && At(name, |xres|, ['x'] + yres) && NoDigit(name, |xres| + 1 + |yres|)
    ensures Scan(name, |xres| + 1 + |yres|, st, digital) == Some(st.(yres := Some(Value(yres) % U32), wasDigit := true))
    ensures Lead(name, 0) == |xres| && name[|xres|] == 'x' && Number(name, 0, 0) == Value(xres) % U32
  {
    ScanNumber(name, |xres|, 'x', yres, st, digital);
    SameValue(name, 0, xres, 0, 0);
    NumberIs(name, 0, |xres|, 0);
    LeadIs(name, 0, |xres|);
    ScanDigits(name, 0, |xres|, st.(yres := Some(Value(yres) % U32), wasDigit := true), digital);
  }

  /** The parts of a line, at their places. */
  lemma TextSplits(g: Line, name: string, options: string)
    requires name == g.xres + ("x" + (g.yres + options))
    ensures At(name, 0, g.xres) && At(name, |g.xres|, ['x'] + g.yres) && At(name, |g.xres| + 1 + |g.yres|, options)
    ensures |name| == |g.xres| + 1 + |g.yres| + |options|
  {
    AtSplit(name, 0, g.xres, "x" + (g.yres + options));
    assert "x" + (g.yres + options) == ['x'] + g.yres + options;
    AtSplit(name, |g.xres|, ['x'] + g.yres, options);
  }

  /** Every line of the documented grammar parses to exactly its fields, although it is read from the right. */
  lemma GrammarParses(g: Line, digital: bool)
    requires WellFormed(g)
    ensures Parse(Text(g), digital) == Some(Meaning(g, digital))
  {
    var name := Text(g);
    TextSplits(g, name, Flag(g.cvt, 'M') + (Flag(g.rb, 'R') + (Part('-', g.bpp) + (Part('@', g.refresh) +
      (Flag(g.interlace, 'i') + (Flag(g.margins, 'm') + Forced(g.force)))))));
    ScanOptions(name, |g.xres| + 1 + |g.yres|, g, digital);
    ScanResolution(name, g.xres, g.yres, Chosen(g, digital), digital);
  }

  // --- Every accepted resolution ---

  /** Once the x is passed only digits are accepted. */
  lemma {:induction false} OnlyDigitsLeft(name: string, n: nat, st: Flags, digital: bool)
    requires n <= |name| && st.yres.Some? && st.wasDigit && Scan(name, n, st, digital).Some?
    ensures Digits(name, 0, n) && Scan(name, n, st, digital).value == st
    decreases n
  {
    if n > 0 {
      DigitStep(name[n - 1], Number(name, n, 0), st, digital);
      OnlyDigitsLeft(name, n - 1, st, digital);
    }
  }

  lemma DigitStep(c: char, number: nat, st: Flags, digital: bool)
    requires st.yres.Some? && st.wasDigit && Step(c, number, st, digital).Some?
    ensures IsDigit(c) && Step(c, number, st, digital).value == st
  {
  }

  lemma StepShape(c: char, number: nat, st: Flags, digital: bool)
    requires st.yres.None? && Step(c, number, st, digital).Some?
    ensures var t := Step(c, number, st, digital).value;
      if c == 'x' then st.wasDigit && t.wasDigit && t.yres == Some(number)
      else t.yres.None? && (t.wasDigit ==> IsDigit(c))
  {
  }

  /** There is an x with digits to its left, and a number to its right that ends at `end`. */
  ghost predicate Splits(s: string, x: nat, end: nat) {
    x + 1 < end <= |s| && s[x] == 'x' && Digits(s, 0, x) && Digits(s, x + 1, end) && NoDigit(s, end)
  }

  /** If the scan finds a height, that is where it comes from. */
  lemma {:induction false} HeightFound(name: string, n: nat, st: Flags, digital: bool) returns (x: nat, end: nat)
    requires n <= |name| && st.yres.None? && Scan(name, n, st, digital).Some? && Scan(name, n, st, digital).value.yres.Some?
    requires st.wasDigit ==> n < |name| && IsDigit(name[n])
    ensures Splits(name, x, end) && Scan(name, n, st, digital).value.yres.value == ValueOf(name, x + 1, end, 0) % U32
    decreases n
  {
    var next := Step(name[n - 1], Number(name, n, 0), st, digital).value;
    StepShape(name[n - 1], Number(name, n, 0), st, digital);
    if name[n - 1] == 'x' {
      OnlyDigitsLeft(name, n - 1, next, digital);
      x, end := n - 1, Lead(name, n);
      NumberIs(name, n, end, 0);
    } else {
      x, end := HeightFound(name, n - 1, next, digital);
    }
  }

  /** Whatever string it is: if a height is found the line is accepted, and with exactly the digits on
      both sides of the x. The width's digits may be missing, which makes it 0; the parser's branch for
      a width that does not run up to the x is never taken. */
  lemma ResolutionIsThere(name: string, digital: bool) returns (x: nat, end: nat)
    requires Scan(name, |name|, START, digital).Some? && Scan(name, |name|, START, digital).value.yres.Some?
    ensures Splits(name, x, end) && (x == 0 <==> name[0] == 'x')
    ensures Parse(name, digital).Some?
    ensures Parse(name, digital).value.res == Some((ValueOf(name, 0, x, 0) % U32, ValueOf(name, x + 1, end, 0) % U32))
  {
    x, end := HeightFound(name, |name|, START, digital);
    NumberIs(name, 0, x, 0);
    LeadIs(name, 0, x);
  }

  /** A height alone is a resolution, of width 0. */
  lemma HeightAlone(name: string, digital: bool)
    requires name == "x480"
    ensures Parse(name, digital) == Some(Cmdline(Some((0, 480)), None, None, false, false, false, false, Unspecified))
  {
    var digit := START.(wasDigit := true);
    assert Number(name, 4, 48) == 48 && Number(name, 3, 48) == 480 && Number(name, 2, 4) == 480;
    assert Number(name, 1, 0) == 480;
    assert Scan(name, 0, digit.(yres := Some(480)), digital) == Some(digit.(yres := Some(480)));
    assert Scan(name, 1, digit, digital) == Some(digit.(yres := Some(480)));
    assert Scan(name, 2, digit, digital) == Scan(name, 1, digit, digital);
    assert Scan(name, 3, digit, digital) == Scan(name, 2, digit, digital);
    assert Scan(name, 4, START, digital) == Scan(name, 3, digit, digital);
    assert Lead(name, 0) == 0 && Number(name, 0, 0) == 0;
  }

  // --- The loop ---

  /** The loop of drm_mode_parse_command_line_for_connector and what follows it. */
  method ParseCommandLine(name: string, digital: bool) returns (r: Option<Cmdline>)
    ensures r == Parse(name, digital)
  {
    var st := START;
    var i := |name| - 1;
    while i >= 0
      invariant -1 <= i < |name|
      invariant Scan(name, |name|, START, digital) == Scan(name, i + 1, st, digital)
    {
      var number, _ := ReadNumber(name, i + 1);
      var next := Step(name[i], number, st, digital);
      if next.None? { return None; }
      st := next.value;
      i := i - 1;
    }
    r := Finish(name, st);
  }

  /** What follows the loop. */
  method Finish(name: string, st: Flags) returns (r: Option<Cmdline>)
    ensures r == Finished(name, st)
  {
    if st.yres.Some? {
      var xres, end := ReadNumber(name, 0);
      if end < |name| && name[end] == 'x' {
        return Some(Result(Some((xres, st.yres.value)), st));
      }
      return None;
    }
    if st.wasDigit { return None; }
    return Some(Result(None, st));
  }

  /** simple_strtol at i with an end pointer, digit by digit. */
  method ReadNumber(s: string, i: nat) returns (n: nat, end: nat)
    requires i <= |s|
    ensures end == Lead(s, i) && n == Number(s, i, 0)
  {
    n, end := 0, i;
    while end < |s| && IsDigit(s[end])
      invariant end <= |s| && Lead(s, end) == Lead(s, i) && Number(s, end, n) == Number(s, i, 0)
    {
      n := (10 * n + Digit(s[end])) % U32;
      end := end + 1;
    }
  }

  // --- Names ---

  /** drm_mode_set_name; the longest name has 22 characters of the 31 there is room for. */
  function Name(hdisplay: nat, vdisplay: nat, interlaced: bool): string {
    Printed(hdisplay) + "x" + Printed(vdisplay) + if interlaced then "i" else ""
  }

  /** A mode's name parses back to its width, height and interlace flag, and to nothing else. */
  lemma NameRoundTrip(hdisplay: nat, vdisplay: nat, interlaced: bool, digital: bool)
    requires hdisplay < U32 && vdisplay < U32
    ensures Parse(Name(hdisplay, vdisplay, interlaced), digital) ==
      Some(Cmdline(Some((hdisplay, vdisplay)), None, None, false, false, interlaced, false, Unspecified))
  {
    var g := Line(Printed(hdisplay), Printed(vdisplay), false, false, None, None, interlaced, false, None);
    NameIsText(hdisplay, vdisplay, interlaced);
    GrammarParses(g, digital);
  }

  lemma NameIsText(hdisplay: nat, vdisplay: nat, interlaced: bool)
    ensures Text(Line(Printed(hdisplay), Printed(vdisplay), false, false, None, None, interlaced, false, None)) ==
      Name(hdisplay, vdisplay, interlaced)
  {
  }
}
