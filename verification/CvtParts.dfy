/** What the fields of a mode come to (drm_modes.c:95-272), after VESA CVT 1.1, section 5.3. */
module CvtParts {

  import Arith
  import opened Basics
  import opened Cvt

  // --- Width and height ---

  /** The width is in whole character cells, and so is each border: the most cells within 1.8% of it. */
  lemma WidthIs(h: nat, margins: bool) returns (cells: nat, border: nat)
    ensures Width(h, margins) == 8 * cells + 2 * border && 8 * cells <= h < 8 * cells + 8
    ensures border % 8 == 0 && if margins then 1000 * border <= 18 * (8 * cells) < 1000 * (border + 8) else border == 0
  {
    cells, border := h / 8, HMargin(h, margins);
  }

  /** The lines of a field, with borders of the most lines within 1.8% of them. */
  lemma HeightIs(v: nat, interlaced: bool, margins: bool) returns (lines: nat, border: nat)
    ensures lines == (if interlaced then v / 2 else v)
    ensures Active(v, interlaced, margins) == lines + 2 * border && border == VMargin(v, interlaced, margins)
    ensures if margins then 1000 * border <= 18 * lines < 1000 * (border + 1) else border == 0
  {
    lines, border := Field(v, interlaced), VMargin(v, interlaced, margins);
  }

  // --- The clock ---

  /** In steps of 250 kHz, the fastest clock at which the line takes its period at least. */
  predicate Paced(clock: nat, htotal: nat, hperiod: nat) {
    clock % 250 == 0 && clock * hperiod <= htotal * 1_000_000 < (clock + 250) * hperiod
  }

  lemma PacedIs(htotal: nat, hperiod: nat, clock: nat)
    requires hperiod > 0
    ensures Paced(clock, htotal, hperiod) <==> clock == TrueClock(htotal, hperiod)
  {
    var c := TrueClock(htotal, hperiod);
    TrueClockPaces(htotal * 1_000_000, hperiod, c);
    if Paced(clock, htotal, hperiod) { OneStep(htotal * 1_000_000, hperiod, clock, c); }
  }

  lemma TrueClockPaces(n: nat, hperiod: nat, c: nat)
    requires hperiod > 0 && c <= n / hperiod < c + 250
    ensures c * hperiod <= n < (c + 250) * hperiod
  {
    DivBounds(n, hperiod);
    Arith.MulLeft(c, n / hperiod, hperiod);
    Arith.MulLeft(n / hperiod + 1, c + 250, hperiod);
  }

  lemma OneStep(n: nat, hperiod: nat, c: nat, d: nat)
    requires hperiod > 0 && c % 250 == 0 && d % 250 == 0
    requires c * hperiod <= n < (c + 250) * hperiod && d * hperiod <= n < (d + 250) * hperiod
    ensures c == d
  {
    Arith.MulOrder(c, d + 250, hperiod);
    Arith.MulOrder(d, c + 250, hperiod);
  }

  /** The clock is that one exactly for lines of up to 4294 pixels (drm_modes.c:265). */
  lemma ClockPaces(htotal: nat, hperiod: nat)
    requires 0 < hperiod <= 10_000_000
    ensures Paced(Clock(htotal, hperiod), htotal, hperiod) <==> htotal <= 4294
  {
    ClockIsExact(htotal, hperiod);
    PacedIs(htotal, hperiod, Clock(htotal, hperiod));
  }

  // --- Vertical blanking ---

  /** The fewest lines that take longer than `us`, and no fewer than `floor`. */
  predicate IsLeast(n: nat, hperiod: nat, us: nat, floor: nat) {
    n >= floor && n * hperiod > us && (n > floor ==> (n - 1) * hperiod <= us)
  }

  lemma FewestLines(hperiod: nat, us: nat, floor: nat, n: nat)
    requires hperiod > 0 && n == if us / hperiod + 1 < floor then floor else us / hperiod + 1
    ensures IsLeast(n, hperiod, us, floor)
  {
    DivBounds(us, hperiod);
    var q := us / hperiod;
    Arith.MulLeft(q + 1, n, hperiod);
    assert (q + 1) * hperiod == hperiod * q + hperiod && q * hperiod == hperiod * q;
  }

  /** The lines of each field. */
  function FieldLines(m: Mode): nat { if m.interlaced then m.vtotal / 2 else m.vtotal }

  /** Half of the blanking is behind the sync, which is 8% of the line wide, less what rounds its start up to a cell. */
  predicate LineTells(m: Mode) {
    && m.hsyncEnd - m.hdisplay == m.htotal - m.hsyncEnd
    && m.hsyncStart % 8 == 0 && m.htotal * 8 / 100 - 8 <= m.hsyncEnd - m.hsyncStart < m.htotal * 8 / 100
  }

  /** Under reduced blanking there are 160 pixels of it, and a sync of 32 that ends in their middle. */
  predicate ReducedLineTells(m: Mode) {
    m.htotal - m.hdisplay == 160 && m.hsyncEnd - m.hdisplay == m.htotal - m.hsyncEnd && m.hsyncEnd - m.hsyncStart == 32
  }

  /** Three lines after the picture comes the sync; an interlaced frame has two equal fields. */
  predicate FrameTells(m: Mode, height: nat, vsync: nat, interlaced: bool) {
    && m.vdisplay == height && m.vsyncStart == height + 3 && m.vsyncEnd == m.vsyncStart + vsync
    && m.interlaced == interlaced && (interlaced ==> m.vtotal % 2 == 0)
  }

  /** Sync and back porch are the fewest lines that take 550 us, and the back porch has three at least. */
  predicate PorchTells(m: Mode, active: nat, hp: nat, vsync: nat) {
    var porch := FieldLines(m) - active - 3;
    porch >= 0 && IsLeast(porch, hp, 550_000, vsync + 3)
  }

  /** The blanking is the fewest lines that take 460 us, and has room for porches of three and six. */
  predicate BlankTells(m: Mode, active: nat, hp: nat, vsync: nat) {
    var blank := FieldLines(m) - active;
    blank >= 0 && IsLeast(blank, hp, 460_000, 3 + vsync + 6)
  }

  predicate ClockTells(m: Mode, hp: nat) {
    hp <= 10_000_000 ==> (Paced(m.clock, m.htotal, hp) <==> m.htotal <= 4294)
  }

  // --- The modes ---

  lemma LaidIsTimed(width: nat, height: nat, active: nat, vsync: nat, interlaced: bool, hp: nat, blank: nat)
    requires hp > 0 && HBlank(width, hp) == Some(blank)
    ensures Laid(width, height, active, vsync, interlaced, Some(hp)) ==
      Some(Timed(width, height, blank, hp, vsync, Fields(active + SyncAndPorch(hp, vsync) + 3, interlaced), interlaced))
    ensures blank % 16 == 0
  {
    BlankIsPairs(width, hp);
  }

  lemma StandardPorch(m: Mode, active: nat, hp: nat, vsync: nat)
    requires hp > 0 && m.vtotal == Fields(active + SyncAndPorch(hp, vsync) + 3, m.interlaced)
    ensures PorchTells(m, active, hp, vsync)
  {
    FewestLines(hp, 550_000, vsync + 3, SyncAndPorch(hp, vsync));
  }

  lemma TimedTells(width: nat, height: nat, blank: nat, hp: nat, vsync: nat, lines: nat, interlaced: bool, m: Mode)
    requires hp > 0 && blank % 16 == 0 && m == Timed(width, height, blank, hp, vsync, Fields(lines, interlaced), interlaced)
    ensures m.hdisplay == width && m.htotal == width + blank && LineTells(m)
    ensures FrameTells(m, height, vsync, interlaced) && ClockTells(m, hp)
  {
    LineParts(width, blank, m);
    TwoFields(lines);
    ClockParts(m, hp);
  }

  lemma LineParts(width: nat, blank: nat, m: Mode)
    requires m.hdisplay == width && m.htotal == width + blank && m.hsyncEnd == width + blank / 2 && blank % 16 == 0
    requires m.hsyncStart == HSyncStart(m.hsyncEnd, m.htotal)
    ensures LineTells(m)
  {
    HalfOf(blank);
    SyncWidth(width, blank);
  }

  lemma HalfOf(n: nat)
    requires n % 16 == 0
    ensures n / 2 == n - n / 2
  {
    Arith.DivModUnique(n, 8 * (n / 16), 2, 0);
  }

  lemma TwoFields(lines: nat)
    ensures Fields(lines, true) % 2 == 0
  {
  }

  lemma ClockParts(m: Mode, hp: nat)
    requires hp > 0 && m.clock == Clock(m.htotal, hp)
    ensures ClockTells(m, hp)
  {
    if hp <= 10_000_000 { ClockPaces(m.htotal, hp); }
  }

  lemma StandardIsTimed(h: nat, v: nat, vrefresh: nat, interlaced: bool, margins: bool, hp: nat, blank: nat, vsync: nat)
    requires HPeriod(FieldRate(vrefresh, interlaced), Active(v, interlaced, margins), interlaced) == Some(hp) && hp > 0
    requires HBlank(Width(h, margins), hp) == Some(blank) && vsync == VSync(h, v)
    ensures blank % 16 == 0
    ensures Standard(h, v, vrefresh, interlaced, margins) ==
      Some(Timed(Width(h, margins), v + 2 * VMargin(v, interlaced, margins), blank, hp, vsync,
                 Fields(Active(v, interlaced, margins) + SyncAndPorch(hp, vsync) + 3, interlaced), interlaced))
  {
    LaidIsTimed(Width(h, margins), v + 2 * VMargin(v, interlaced, margins), Active(v, interlaced, margins), vsync, interlaced, hp, blank);
  }

  /** The fields of a mode without reduced blanking: its blanking is the one of its period, and the
      vertical sync is as wide as the aspect ratio says. */
  lemma StandardTells(h: nat, v: nat, vrefresh: nat, interlaced: bool, margins: bool, m: Mode) returns (hp: nat)
    requires Standard(h, v, vrefresh, interlaced, margins) == Some(m)
    ensures HPeriod(FieldRate(vrefresh, interlaced), Active(v, interlaced, margins), interlaced) == Some(hp) && hp > 0
    ensures m.hdisplay == Width(h, margins) && HBlank(m.hdisplay, hp) == Some(m.htotal - m.hdisplay)
    ensures LineTells(m) && FrameTells(m, v + 2 * VMargin(v, interlaced, margins), VSync(h, v), interlaced) && ClockTells(m, hp)
  {
    var blank;
    hp, blank := StandardParts(h, v, vrefresh, interlaced, margins);
    var vsync := VSync(h, v);
    StandardIsTimed(h, v, vrefresh, interlaced, margins, hp, blank, vsync);
    TimedTells(Width(h, margins), v + 2 * VMargin(v, interlaced, margins), blank, hp, vsync,
               Active(v, interlaced, margins) + SyncAndPorch(hp, vsync) + 3, interlaced, m);
  }

  lemma StandardPorchTells(h: nat, v: nat, vrefresh: nat, interlaced: bool, margins: bool, hp: nat, m: Mode)
    requires Standard(h, v, vrefresh, interlaced, margins) == Some(m)
    requires HPeriod(FieldRate(vrefresh, interlaced), Active(v, interlaced, margins), interlaced) == Some(hp) && hp > 0
    ensures PorchTells(m, Active(v, interlaced, margins), hp, VSync(h, v))
  {
    var hp', blank := StandardParts(h, v, vrefresh, interlaced, margins);
    StandardIsTimed(h, v, vrefresh, interlaced, margins, hp', blank, VSync(h, v));
    StandardPorch(m, Active(v, interlaced, margins), hp, VSync(h, v));
  }

  /** The fields of a mode with reduced blanking. */
  lemma ReducedTells(h: nat, v: nat, vrefresh: nat, interlaced: bool, margins: bool) returns (hp: nat)
    requires Reduced(h, v, vrefresh, interlaced, margins).Some?
    ensures HPeriodReduced(FieldRate(vrefresh, interlaced), Active(v, interlaced, margins)) == Some(hp) && hp > 0
    ensures var m := Reduced(h, v, vrefresh, interlaced, margins).value;
      && m.hdisplay == Width(h, margins) && ReducedLineTells(m)
      && FrameTells(m, v + 2 * VMargin(v, interlaced, margins), VSync(h, v), interlaced)
      && BlankTells(m, Active(v, interlaced, margins), hp, VSync(h, v)) && ClockTells(m, hp)
  {
    hp := HPeriodReduced(FieldRate(vrefresh, interlaced), Active(v, interlaced, margins)).value;
    ReducedBlank(Reduced(h, v, vrefresh, interlaced, margins).value, Active(v, interlaced, margins), hp, VSync(h, v));
    if hp <= 10_000_000 { ClockPaces(Width(h, margins) + 160, hp); }
  }

  lemma ReducedBlank(m: Mode, active: nat, hp: nat, vsync: nat)
    requires hp > 0 && m.vtotal == Fields(active + BlankLines(hp, vsync), m.interlaced)
    ensures BlankTells(m, active, hp, vsync)
  {
    FewestLines(hp, 460_000, vsync + 9, BlankLines(hp, vsync));
  }

  // --- Frames ---

  /** Whole frames of an interlaced mode: its lines and one for the two half lines, at the rate asked for, take a
      second less at most those that were counted on in ns; and, unless the porch was clamped, plus at most two
      lines of each frame, if and only if the field rate is at most 1818 and its product with the half lines
      stays within 32 bits. */
  lemma InterlacedFrameTime(h: nat, v: nat, vrefresh: nat, margins: bool, hp: nat)
    requires 2 * Wanted(vrefresh) < U32
    requires HPeriod(FieldRate(vrefresh, true), Active(v, true, margins), true) == Some(hp) && hp > 0
    requires Standard(h, v, vrefresh, true, margins).Some?
    ensures var rate, m := Wanted(vrefresh), Standard(h, v, vrefresh, true, margins).value;
      var lines := 2 * (Active(v, true, margins) + 3) + 1;
      && 1_000_000_000 - lines * rate < (m.vtotal + 1) * hp * rate
      && (PorchFree(hp, VSync(h, v)) ==>
           ((m.vtotal + 1) * hp * rate <= 1_000_000_000 + hp * (2 * rate) <==> 2 * rate <= 1818 && lines * (2 * rate) < U32))
  {
    var rate, m := Wanted(vrefresh), Standard(h, v, vrefresh, true, margins).value;
    FieldTime(2 * rate, Active(v, true, margins), VSync(h, v), true, hp);
    assert m.vtotal + 1 == HalfLines(Active(v, true, margins), hp, VSync(h, v), true);
    Twice(2 * (Active(v, true, margins) + 3) + 1, m.vtotal + 1, hp, rate);
  }

  lemma Twice(lines: nat, all: nat, hp: nat, rate: nat)
    ensures lines * (2 * rate) == 2 * (lines * rate) && all * hp * (2 * rate) == 2 * (all * hp * rate)
    ensures hp * (2 * (2 * rate)) == 2 * (hp * (2 * rate))
  {
  }

  /** Whole frames of a progressive mode with reduced blanking, the same way, for rates up to 2173. */
  lemma ReducedFrameTime(h: nat, v: nat, vrefresh: nat, margins: bool, hp: nat)
    requires HPeriodReduced(FieldRate(vrefresh, false), Active(v, false, margins)) == Some(hp) && hp > 0
    ensures Reduced(h, v, vrefresh, false, margins).Some?
    ensures var rate, m := Wanted(vrefresh), Reduced(h, v, vrefresh, false, margins).value;
      && 1_000_000_000 - m.vdisplay * rate < m.vtotal * hp * rate
      && (460_000 / hp + 1 >= VSync(h, v) + 9 ==>
           (m.vtotal * hp * rate <= 1_000_000_000 + hp * rate <==> rate <= 2173 && m.vdisplay * rate < U32))
  {
    ReducedFieldTime(Wanted(vrefresh), Active(v, false, margins), VSync(h, v), hp);
  }

  // --- The duty cycle ---

  /** The blanking's share of the line falls from 30% by 300% of the period in ms, rounded up, to 20% and no further. */
  lemma DutyFalls(hp: nat)
    requires hp <= 100_000
    ensures Duty(hp) >= 20_000 && 1000 * Duty(hp) >= 30_000_000 - 300 * hp
    ensures Duty(hp) > 20_000 ==> 1000 * (Duty(hp) - 1) < 30_000_000 - 300 * hp
  {
    DutyIs(hp);
  }
}
