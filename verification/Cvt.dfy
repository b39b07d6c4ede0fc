/** Coordinated video timings (drm_modes.c:95-272), after VESA CVT 1.1, section 5.3. */
module Cvt {

  import Arith
  import opened Basics

  /** Sizes below this keep signed sums and products within an int; beyond it C leaves them undefined. */
  const LIMIT: nat := 0x400_0000

  /** What an unsigned int holds. */
  function Unsigned(n: int): (r: nat)
    ensures r < U32 && (0 <= n < U32 ==> r == n)
  {
    n % U32
  }

  /** What an int holds. */
  function Signed(n: int): (r: int)
    ensures -0x8000_0000 <= n < 0x8000_0000 ==> r == n
  {
    (n + 0x8000_0000) % U32 - 0x8000_0000
  }

  // --- Steps ---

  /** The field rate, by default 60 Hz. */
  function FieldRate(vrefresh: nat, interlaced: bool): nat {
    var rate := if vrefresh == 0 then 60 else vrefresh;
    if interlaced then Unsigned(rate * 2) else rate
  }

  function Rounded(hdisplay: nat): (r: nat)
    ensures r % 8 == 0 && r <= hdisplay < r + 8
  {
    hdisplay - hdisplay % 8
  }

  /** Left and right borders are whole character cells. */
  function HMargin(hdisplay: nat, margins: bool): (m: nat)
    ensures m % 8 == 0
  {
    if margins then Rounded(Rounded(hdisplay) * 18 / 1000) else 0
  }

  function Field(vdisplay: nat, interlaced: bool): nat {
    if interlaced then vdisplay / 2 else vdisplay
  }

  function VMargin(vdisplay: nat, interlaced: bool, margins: bool): nat {
    if margins then Field(vdisplay, interlaced) * 18 / 1000 else 0
  }

  function Active(vdisplay: nat, interlaced: bool, margins: bool): nat {
    Field(vdisplay, interlaced) + 2 * VMargin(vdisplay, interlaced, margins)
  }

  /** The width of the vertical sync tells the aspect ratio. */
  function VSync(h: nat, v: nat): (n: nat)
    ensures 4 <= n <= 10
  {
    if v % 3 == 0 && v * 4 / 3 == h then 4
    else if v % 9 == 0 && v * 16 / 9 == h then 5
    else if v % 10 == 0 && v * 16 / 10 == h then 6
    else if v % 4 == 0 && v * 5 / 4 == h then 7
    else if v % 9 == 0 && v * 15 / 9 == h then 7
    else 10
  }

  /** The aspect ratios that are told apart. 16:10 is only seen in multiples of ten lines, and 15:9 of nine. */
  lemma VSyncTells(h: nat, v: nat)
    ensures VSync(h, v) == 4 <==> 3 * h == 4 * v
    ensures VSync(h, v) == 5 <==> 9 * h == 16 * v && v > 0
    ensures VSync(h, v) == 6 <==> 5 * h == 8 * v && v > 0 && v % 10 == 0
    ensures VSync(h, v) == 7 <==> (4 * h == 5 * v || (3 * h == 5 * v && v % 9 == 0)) && v > 0
  {
    Ratio43(h, v);
    Ratio169(h, v);
    Ratio54(h, v);
    Ratios15(h, v);
  }

  lemma RatioIs(h: nat, v: nat, num: nat, den: nat)
    requires den > 0 && v % den == 0
    ensures v * num / den == h <==> den * h == num * v
  {
    var k := v / den;
    assert v == k * den && v * num == k * num * den && num * v == k * num * den;
    Arith.DivModUnique(v * num, k * num, den, 0);
    Arith.MulOrder(h, k * num, den);
    Arith.MulOrder(k * num, h, den);
  }

  lemma Ratio43(h: nat, v: nat)
    ensures v % 3 == 0 && v * 4 / 3 == h <==> 3 * h == 4 * v
  {
    if v % 3 == 0 { RatioIs(h, v, 4, 3); } else { assert v == 3 * (h - v) + (4 * v - 3 * h); }
  }

  lemma Ratio169(h: nat, v: nat)
    ensures v % 9 == 0 && v * 16 / 9 == h <==> 9 * h == 16 * v
  {
    if v % 9 == 0 { RatioIs(h, v, 16, 9); } else { assert v == 9 * (4 * h - 7 * v) + 4 * (16 * v - 9 * h); }
  }

  lemma Ratio54(h: nat, v: nat)
    ensures v % 4 == 0 && v * 5 / 4 == h <==> 4 * h == 5 * v
  {
    if v % 4 == 0 { RatioIs(h, v, 5, 4); } else { assert v == 4 * (h - v) + (5 * v - 4 * h); }
  }

  lemma Ratios15(h: nat, v: nat)
    ensures v % 10 == 0 && v * 16 / 10 == h <==> 5 * h == 8 * v && v % 10 == 0
    ensures v % 9 == 0 && v * 15 / 9 == h <==> 3 * h == 5 * v && v % 9 == 0
  {
    if v % 10 == 0 { RatioIs(h, v, 16, 10); }
    if v % 9 == 0 { RatioIs(h, v, 15, 9); }
  }

  /** What `n / d` on unsigned ints comes to; there is no result for d = 0. */
  function Divided(n: nat, d: nat): Option<nat> {
    if d == 0 then None else Some(n / d)
  }

  /** The horizontal period in ns: what is left of a field's second after the sync and back porch time,
      over its lines. Both are doubled for the half line of an interlaced field. */
  function HPeriod(rate: nat, active: nat, interlaced: bool): Option<nat> {
    var time := Signed(Unsigned(1_000_000_000 - 550_000 * rate));
    var lines := (active + 3) * 2 + if interlaced then 1 else 0;
    Divided(Unsigned(time * 2), Unsigned(lines * rate))
  }

  function HPeriodReduced(rate: nat, active: nat): Option<nat> {
    var time := Signed(Unsigned(1_000_000_000 - 460_000 * rate));
    Divided(Unsigned(time), Unsigned(active * rate))
  }

  /** Lines in sync and back porch: enough for 550 us, and no fewer than the sync and three. */
  function SyncAndPorch(hperiod: nat, vsync: nat): nat
    requires hperiod > 0
  {
    var lines := 550_000 / hperiod + 1;
    if lines < vsync + 3 then vsync + 3 else lines
  }

  /** Lines of vertical blanking under reduced blanking: enough for 460 us, and no fewer than the porches and the sync. */
  function BlankLines(hperiod: nat, vsync: nat): nat
    requires hperiod > 0
  {
    var lines := 460_000 / hperiod + 1;
    if lines < vsync + 9 then vsync + 9 else lines
  }

  /** The ideal blanking duty cycle in thousandths of a percent, at least 20%. */
  function Duty(hperiod: nat): nat {
    var duty := Unsigned(30 * 1000 - Unsigned(300 * hperiod) / 1000);
    if duty < 20_000 then 20_000 else duty
  }

  /** Blanking pixels, in whole pairs of character cells. */
  function HBlank(hdisplay: nat, hperiod: nat): Option<nat> {
    match Divided(Unsigned(hdisplay * Duty(hperiod)), Unsigned(100_000 - Duty(hperiod)))
    case None => None
    case Some(blank) => Some(blank - blank % 16)
  }

  function Clock(htotal: nat, hperiod: nat): nat
    requires hperiod > 0
  {
    var clock := Unsigned(htotal * 1000 * 1000) / hperiod;
    clock - clock % 250
  }

  // --- Modes ---

  /** The timing fields of struct drm_display_mode. */
  datatype Mode = Mode(clock: nat, hdisplay: nat, hsyncStart: int, hsyncEnd: nat, htotal: nat,
                       vdisplay: nat, vsyncStart: nat, vsyncEnd: nat, vtotal: nat, interlaced: bool)

  /** Where the horizontal sync starts: 8% of the line before its end, in whole character cells. */
  function HSyncStart(hsyncEnd: nat, htotal: nat): int {
    var start := hsyncEnd - htotal * 8 / 100;
    start + 8 - start % 8
  }

  function Fields(n: nat, interlaced: bool): nat { if interlaced then n * 2 else n }

  /** drm_cvt_mode without reduced blanking; nothing where it divides by zero. */
  function Standard(h: nat, v: nat, vrefresh: nat, interlaced: bool, margins: bool): Option<Mode> {
    var active := Active(v, interlaced, margins);
    Laid(Width(h, margins), v + 2 * VMargin(v, interlaced, margins), active, VSync(h, v), interlaced,
         HPeriod(FieldRate(vrefresh, interlaced), active, interlaced))
  }

  function Width(h: nat, margins: bool): (w: nat)
    ensures w % 8 == 0 && w > h - 8
  {
    Cells8(Rounded(h), HMargin(h, margins));
    Rounded(h) + 2 * HMargin(h, margins)
  }

  lemma Cells8(a: nat, b: nat)
    requires a % 8 == 0 && b % 8 == 0
    ensures (a + 2 * b) % 8 == 0
  {
  }

  /** The mode once the horizontal period is known. */
  function Laid(width: nat, height: nat, active: nat, vsync: nat, interlaced: bool, period: Option<nat>): Option<Mode> {
    match period
    case None => None
    case Some(hperiod) =>
      if hperiod == 0 then None
      else match HBlank(width, hperiod)
        case None => None
        case Some(blank) =>
          Some(Timed(width, height, blank, hperiod, vsync, Fields(active + SyncAndPorch(hperiod, vsync) + 3, interlaced), interlaced))
  }

  /** The fields of the mode, from its blanking and its lines on. */
  function Timed(width: nat, height: nat, blank: nat, hperiod: nat, vsync: nat, vtotal: nat, interlaced: bool): Mode
    requires hperiod > 0
  {
    Mode(Clock(width + blank, hperiod),
         width, HSyncStart(width + blank / 2, width + blank), width + blank / 2, width + blank,
         height, height + 3, height + 3 + vsync, vtotal, interlaced)
  }

  /** drm_cvt_mode with reduced blanking. */
  function Reduced(h: nat, v: nat, vrefresh: nat, interlaced: bool, margins: bool): Option<Mode> {
    var width, height := Width(h, margins), v + 2 * VMargin(v, interlaced, margins);
    var active := Active(v, interlaced, margins);
    match HPeriodReduced(FieldRate(vrefresh, interlaced), active)
    case None => None
    case Some(hperiod) =>
      if hperiod == 0 then None
      else Some(Mode(Clock(width + 160, hperiod),
                     width, width + 48, width + 80, width + 160,
                     height, height + 3, height + 3 + VSync(h, v),
                     Fields(active + BlankLines(hperiod, VSync(h, v)), interlaced), interlaced))
  }

  // --- A field takes the time it should ---

  lemma DivBounds(n: nat, d: nat)
    requires d > 0
    ensures d * (n / d) <= n < d * (n / d) + d
  {
  }

  /** The products of `Budget`, by name. */
  lemma BudgetBounds(time: nat, m: nat, us: nat, hperiod: nat, extra: nat, weight: nat, a: nat, b: nat)
    requires m > 0 && hperiod > 0 && hperiod == time / m && extra >= us / hperiod + 1
    requires a == m * hperiod && b == hperiod * extra
    ensures time - m < a <= time
    ensures us * weight <= b * weight
    ensures extra == us / hperiod + 1 ==> b * weight <= us * weight + hperiod * weight
  {
    DivBounds(time, m);
    DivBounds(us, hperiod);
    assert hperiod * (us / hperiod + 1) == hperiod * (us / hperiod) + hperiod;
    Arith.MulLeft(us / hperiod + 1, extra, hperiod);
    Arith.MulLeft(us, b, weight);
    if extra == us / hperiod + 1 {
      Arith.MulLeft(b, us + hperiod, weight);
      assert (us + hperiod) * weight == us * weight + hperiod * weight;
    }
  }

  /** A period divided out of `time` over `lines` lines at that rate, where `time` leaves out `us`, `k`
      times, of the total, and the `extra` lines it takes to fill `us` fill the total up to a line of each
      kind; if `time` leaves out less, they fill it all the more. */
  lemma Budget(total: nat, us: nat, k: nat, lines: nat, rate: nat, time: nat, hperiod: nat, extra: nat)
    requires lines * rate > 0 && hperiod > 0 && hperiod == time / (lines * rate) && time + us * (k * rate) >= total
    requires extra >= us / hperiod + 1
    ensures total - lines * rate < (lines + k * extra) * hperiod * rate
    ensures extra == us / hperiod + 1 && time + us * (k * rate) == total ==>
      (lines + k * extra) * hperiod * rate <= total + hperiod * (k * rate)
  {
    BudgetBounds(time, lines * rate, us, hperiod, extra, k * rate, lines * rate * hperiod, hperiod * extra);
    BudgetSum(lines, k, extra, hperiod, rate);
  }

  lemma BudgetSum(lines: nat, k: nat, extra: nat, hperiod: nat, rate: nat)
    ensures (lines + k * extra) * hperiod * rate == lines * rate * hperiod + (hperiod * extra) * (k * rate)
  {
    assert (lines + k * extra) * hperiod == lines * hperiod + k * extra * hperiod;
    assert lines * hperiod * rate == lines * rate * hperiod;
    assert k * extra * hperiod * rate == (hperiod * extra) * (k * rate);
  }

  /** The lines of a mode, twice, with the half line of an interlaced field. */
  function HalfLines(active: nat, hperiod: nat, vsync: nat, interlaced: bool): nat
    requires hperiod > 0
  {
    2 * (active + 3 + SyncAndPorch(hperiod, vsync)) + if interlaced then 1 else 0
  }

  /** A difference in 32 bits: exact if it is not negative, and otherwise too large by 2^32 at least. */
  lemma Wrapped(x: int)
    requires x < U32
    ensures Unsigned(x) >= x && (Unsigned(x) == x <==> x >= 0) && (x < 0 ==> Unsigned(x) >= x + U32)
  {
  }

  /** Doubling in 32 bits does not care for the sign. */
  lemma DoubledTime(x: int)
    ensures Unsigned(Signed(Unsigned(x)) * 2) == Unsigned(x * 2)
  {
    var k := x / U32;
    assert x == k * U32 + x % U32;
    assert x * 2 == (x % U32) * 2 + (2 * k) * U32;
    ModTurns((x % U32) * 2, 2 * k);
    ModTurns((x % U32) * 2, -2);
  }

  lemma ModTurns(x: int, k: int)
    ensures (x + k * U32) % U32 == x % U32
  {
  }

  /** The porch is as long as it should be, not its minimum. */
  predicate PorchFree(hp: nat, vsync: nat)
    requires hp > 0
  {
    550_000 / hp + 1 >= vsync + 3
  }

  /** Drawn at the horizontal period, the fields of a second miss it by less than their lines in ns below,
      for any rate; and, unless the porch was clamped to its minimum, by no more than their last porch
      lines above, if and only if the rate is at most 1818 and its product with the lines stays within
      32 bits (drm_modes.c:182-199). Counted in half lines, so that it covers interlaced fields. */
  lemma FieldTime(rate: nat, active: nat, vsync: nat, interlaced: bool, hp: nat)
    requires HPeriod(rate, active, interlaced) == Some(hp) && hp > 0
    ensures var lines, all := (active + 3) * 2 + (if interlaced then 1 else 0), HalfLines(active, hp, vsync, interlaced);
      && 2_000_000_000 - lines * rate < all * hp * rate
      && (PorchFree(hp, vsync) ==>
           (all * hp * rate <= 2_000_000_000 + hp * (2 * rate) <==> rate <= 1818 && lines * rate < U32))
  {
    var lines := (active + 3) * 2 + if interlaced then 1 else 0;
    var time := Unsigned(2_000_000_000 - 1_100_000 * rate);
    assert lines * rate != 0;
    DoubledTime(1_000_000_000 - 550_000 * rate);
    Wrapped(2_000_000_000 - 1_100_000 * rate);
    assert HalfLines(active, hp, vsync, interlaced) == lines + 2 * SyncAndPorch(hp, vsync);
    Filled(2_000_000_000, 550_000, 2, lines, rate, time, hp, SyncAndPorch(hp, vsync), 1818);
  }

  /** The bounds of `Budget` when the division is in 32 bits, and `time` wraps for rates beyond `limit`. */
  lemma Filled(total: nat, us: nat, k: nat, lines: nat, rate: nat, time: nat, hp: nat, extra: nat, limit: nat)
    requires 0 < rate && k <= lines && 0 < lines && 0 < hp && Divided(time, Unsigned(lines * rate)) == Some(hp)
    requires extra >= us / hp + 1 && 2 * total < U32
    requires if rate <= limit then time + us * (k * rate) == total else time + us * (k * rate) >= total + U32
    ensures total - lines * rate < (lines + k * extra) * hp * rate
    ensures extra == us / hp + 1 ==>
      ((lines + k * extra) * hp * rate <= total + hp * (k * rate) <==> rate <= limit && lines * rate < U32)
  {
    FilledBelow(total, us, k, lines, rate, time, hp, extra);
    if extra == us / hp + 1 {
      FilledAbove(total, us, k, lines, rate, lines * rate, k * rate, hp * (us / hp), time, hp, limit);
      BudgetSum(lines, k, extra, hp, rate);
      LastLine(hp, us / hp, k * rate);
      Compare(total, (lines + k * extra) * hp * rate, lines * rate * hp, hp * (us / hp) * (k * rate), hp * (k * rate));
    }
  }

  lemma FilledBelow(total: nat, us: nat, k: nat, lines: nat, rate: nat, time: nat, hp: nat, extra: nat)
    requires 0 < hp && 0 < lines * rate && Divided(time, Unsigned(lines * rate)) == Some(hp)
    requires extra >= us / hp + 1 && total < U32 && time + us * (k * rate) >= total
    ensures total - lines * rate < (lines + k * extra) * hp * rate
  {
    if lines * rate < U32 {
      Budget(total, us, k, lines, rate, time, hp, extra);
    } else {
      NotNegative(lines + k * extra, hp, rate);
    }
  }

  lemma NotNegative(a: nat, b: nat, c: nat)
    ensures a * b * c >= 0
  {
    assert a * b >= 0;
  }

  /** Without the last line of each kind: `m` counts active lines, `c` is the rest of a field's time, `w` what it counts for. */
  lemma FilledAbove(total: nat, us: nat, k: nat, lines: nat, rate: nat, m: nat, w: nat, c: nat, time: nat, hp: nat, limit: nat)
    requires k <= lines && 0 < hp && 0 < m && m == lines * rate && w == k * rate && c == hp * (us / hp)
    requires Divided(time, Unsigned(m)) == Some(hp) && 2 * total < U32
    requires if rate <= limit then time + us * w == total else time + us * w >= total + U32
    ensures m * hp + c * w <= total <==> rate <= limit && m < U32
  {
    assert c * w >= 0;
    if m >= U32 {
      Arith.MulLeft(1, hp, m);
    } else if rate > limit {
      Overfilled(total, us, k, lines, rate, m, w, c, time, hp);
    } else {
      DivBounds(time, m);
      DivBounds(us, hp);
      Arith.MulLeft(c, us, w);
    }
  }

  /** With the last line of each kind or without. */
  lemma Compare(total: int, sum: int, a: int, cw: int, hpw: int)
    requires sum == a + (cw + hpw)
    ensures sum <= total + hpw <==> a + cw <= total
  {
  }

  lemma LastLine(hp: nat, n: nat, weight: nat)
    ensures (hp * (n + 1)) * weight == (hp * n) * weight + hp * weight
  {
    assert hp * (n + 1) == hp * n + hp;
  }

  /** The period is too long even without the last line of each kind. */
  lemma Overfilled(total: nat, us: nat, k: nat, lines: nat, rate: nat, m: nat, w: nat, c: nat, time: nat, hp: nat)
    requires k <= lines && 0 < hp && 0 < m && hp == time / m && m == lines * rate && w == k * rate && c == hp * (us / hp)
    requires 2 * total < U32 && time + us * w >= total + U32
    ensures m * hp + c * w > total
  {
    DivBounds(us, hp);
    DivBounds(time, m);
    Arith.MulLeft(k, lines, rate);
    TooLong(total, us, m, w, c, time, hp);
  }

  lemma TooLong(total: nat, us: nat, m: nat, w: nat, c: nat, time: nat, hp: nat)
    requires 0 < hp && w <= m && us <= c + hp && time < m * hp + m
    requires 2 * total < U32 && time + us * w >= total + U32
    ensures m * hp + c * w > total
  {
    Arith.MulLeft(1, hp, m);
    Arith.MulLeft(w, m, hp);
    Arith.MulLeft(us, c + hp, w);
    assert (c + hp) * w == c * w + hp * w;
    Exceeds(total, us * w, m * hp, m, c * w, hp * w, time);
  }

  /** The same of the products by name. */
  lemma Exceeds(total: nat, usw: nat, a: nat, m: nat, cw: nat, hpw: nat, time: nat)
    requires m <= a && hpw <= a && time - m < a && usw <= cw + hpw
    requires 2 * total < U32 && time + usw >= total + U32
    ensures a + cw > total
  {
  }

  /** The frames a second that are asked for. */
  function Wanted(vrefresh: nat): nat { if vrefresh == 0 then 60 else vrefresh }

  /** Whole frames of a progressive mode: the mode's lines, at the rate asked for, take a second less at most
      its displayed lines and three in ns; and, unless the porch was clamped, plus at most a line of each frame,
      if and only if the rate is at most 1818 and its product with the lines stays within 32 bits. */
  lemma FrameTime(h: nat, v: nat, vrefresh: nat, margins: bool, hp: nat)
    requires h < LIMIT && v < LIMIT
    requires HPeriod(FieldRate(vrefresh, false), Active(v, false, margins), false) == Some(hp) && hp > 0
    requires Standard(h, v, vrefresh, false, margins).Some?
    ensures var rate, m := Wanted(vrefresh), Standard(h, v, vrefresh, false, margins).value;
      && 1_000_000_000 - (m.vdisplay + 3) * rate < m.vtotal * hp * rate
      && (PorchFree(hp, VSync(h, v)) ==>
           (m.vtotal * hp * rate <= 1_000_000_000 + hp * rate <==> rate <= 1818 && 2 * ((m.vdisplay + 3) * rate) < U32))
  {
    TotalIs(h, v, margins, Wanted(vrefresh), vrefresh, hp);
    ProgressiveTime(Wanted(vrefresh), Active(v, false, margins), VSync(h, v), hp);
  }

  lemma TotalIs(h: nat, v: nat, margins: bool, rate: nat, vrefresh: nat, hp: nat)
    requires rate == FieldRate(vrefresh, false) && HPeriod(rate, Active(v, false, margins), false) == Some(hp) && hp > 0
    requires Standard(h, v, vrefresh, false, margins).Some?
    ensures var m := Standard(h, v, vrefresh, false, margins).value;
      m.vdisplay == Active(v, false, margins) && m.vtotal == Active(v, false, margins) + 3 + SyncAndPorch(hp, VSync(h, v))
  {
  }

  lemma ProgressiveTime(rate: nat, active: nat, vsync: nat, hp: nat)
    requires HPeriod(rate, active, false) == Some(hp) && hp > 0
    ensures var vtotal := active + 3 + SyncAndPorch(hp, vsync);
      && 1_000_000_000 - (active + 3) * rate < vtotal * hp * rate
      && (PorchFree(hp, vsync) ==>
           (vtotal * hp * rate <= 1_000_000_000 + hp * rate <==> rate <= 1818 && 2 * ((active + 3) * rate) < U32))
  {
    FieldTime(rate, active, vsync, false, hp);
    Halves(active + 3, active + 3 + SyncAndPorch(hp, vsync), hp, rate);
  }

  lemma Halves(lines: nat, all: nat, hp: nat, rate: nat)
    ensures lines * 2 * rate == 2 * (lines * rate) && 2 * all * hp * rate == 2 * (all * hp * rate) && hp * (2 * rate) == 2 * (hp * rate)
  {
    assert 2 * all * hp == 2 * (all * hp);
  }

  /** The same under reduced blanking, with 460 us and rates up to 2173 (drm_modes.c:237-254). */
  lemma ReducedFieldTime(rate: nat, active: nat, vsync: nat, hp: nat)
    requires HPeriodReduced(rate, active) == Some(hp) && hp > 0
    ensures var all := active + BlankLines(hp, vsync);
      && 1_000_000_000 - active * rate < all * hp * rate
      && (460_000 / hp + 1 >= vsync + 9 ==>
           (all * hp * rate <= 1_000_000_000 + hp * rate <==> rate <= 2173 && active * rate < U32))
  {
    var time := Unsigned(1_000_000_000 - 460_000 * rate);
    SignIsLost(1_000_000_000 - 460_000 * rate);
    Wrapped(1_000_000_000 - 460_000 * rate);
    assert active * rate != 0;
    assert 1 * rate == rate && 1 * BlankLines(hp, vsync) == BlankLines(hp, vsync);
    Filled(1_000_000_000, 460_000, 1, active, rate, time, hp, BlankLines(hp, vsync), 2173);
  }

  lemma SignIsLost(x: int)
    ensures Unsigned(Signed(Unsigned(x))) == Unsigned(x)
  {
    ModTurns(x % U32, -1);
  }

  /** 640x480 at 2000 Hz, which the mode option can ask for: the porch is not clamped, and the frames of a
      second take more than three. */
  lemma FastModeTakesTooLong(h: nat, v: nat, vrefresh: nat, hp: nat)
    requires h == 640 && v == 480 && vrefresh == 2000 && hp == 2_119
    ensures HPeriod(vrefresh, v, false) == Some(hp) && PorchFree(hp, VSync(h, v))
    ensures HasLines(Standard(h, v, vrefresh, false, false), 743) && 743 * hp * vrefresh > 3 * 1_000_000_000
  {
    FastPeriod(v, vrefresh);
    FastPorch(h, v, hp);
    StandardTotal(h, v, vrefresh, hp, 259, 743);
  }

  predicate HasLines(m: Option<Mode>, vtotal: nat) { m.Some? && m.value.vtotal == vtotal }

  lemma SomeBlank(width: nat, hp: nat)
    requires width <= 100_000 && hp <= 100_000
    ensures HBlank(width, hp).Some?
  {
    DutyIs(hp);
    Arith.MulLeft(Duty(hp), 30_000, width);
    BlankIsWide(width, hp);
  }

  lemma FastPorch(h: nat, v: nat, hp: nat)
    requires h == 640 && v == 480 && hp == 2_119
    ensures 550_000 / hp == 259 && VSync(h, v) <= 10 && PorchFree(hp, VSync(h, v))
  {
  }

  lemma StandardTotal(h: nat, v: nat, vrefresh: nat, hp: nat, porch: nat, vtotal: nat)
    requires h % 8 == 0 && h <= 100_000 && vrefresh > 0 && 0 < hp <= 100_000 && HPeriod(vrefresh, v, false) == Some(hp)
    requires porch == 550_000 / hp && porch >= 13 && vtotal == v + porch + 4
    ensures HasLines(Standard(h, v, vrefresh, false, false), vtotal)
  {
    WholeCells(h);
    SomeBlank(h, hp);
    StandardIs(h, v, vrefresh, h, hp, HBlank(h, hp).value);
  }

  lemma FastPeriod(v: nat, vrefresh: nat)
    requires v == 480 && vrefresh == 2000
    ensures HPeriod(vrefresh, v, false) == Some(2_119)
  {
    DoubledTime(1_000_000_000 - 550_000 * vrefresh);
    assert Unsigned(-200_000_000) == 4_094_967_296;
    assert 4_094_967_296 / 1_932_000 == 2_119;
  }

  /** 640x480 at 2200 Hz with reduced blanking: they take more than five. */
  lemma FastReducedModeTakesTooLong(h: nat, v: nat, vrefresh: nat, hp: nat)
    requires h == 640 && v == 480 && vrefresh == 2200 && hp == 4_055
    ensures HPeriodReduced(vrefresh, v) == Some(hp) && 460_000 / hp + 1 >= VSync(h, v) + 9
    ensures HasLines(Reduced(h, v, vrefresh, false, false), 594) && 594 * hp * vrefresh > 5 * 1_000_000_000
  {
    FastReducedPeriod(v, vrefresh);
    assert 460_000 / hp == 113;
    ReducedTotal(h, v, vrefresh, hp, 113);
  }

  lemma FastReducedPeriod(v: nat, vrefresh: nat)
    requires v == 480 && vrefresh == 2200
    ensures HPeriodReduced(vrefresh, v) == Some(4_055)
  {
    SignIsLost(1_000_000_000 - 460_000 * vrefresh);
    assert Unsigned(-12_000_000) == 4_282_967_296;
    assert 4_282_967_296 / 1_056_000 == 4_055;
  }

  lemma ReducedTotal(h: nat, v: nat, vrefresh: nat, hp: nat, porch: nat)
    requires vrefresh > 0 && hp > 0 && HPeriodReduced(vrefresh, v) == Some(hp) && porch == 460_000 / hp && porch >= 19
    ensures HasLines(Reduced(h, v, vrefresh, false, false), v + porch + 1)
  {
  }

  // --- The parts of a line and of a frame are in order ---

  predicate Ordered(m: Mode) {
    && m.hdisplay <= m.hsyncStart < m.hsyncEnd <= m.htotal
    && m.vdisplay <= m.vsyncStart < m.vsyncEnd <= m.vtotal
  }

  lemma DutyIs(hperiod: nat)
    requires hperiod <= 100_000
    ensures 20_000 <= Duty(hperiod) <= 30_000
  {
  }

  lemma QuarterAtLeast(width: nat, duty: nat, d: nat)
    requires duty >= 20_000 && 0 < d <= 80_000
    ensures width < 4 * (width * duty / d + 1)
  {
    Arith.MulLeft(20_000, duty, width);
    var q := width * duty / d;
    DivBounds(width * duty, d);
    assert d * (q + 1) == d * q + d;
    Arith.MulLeft(d, 80_000, q + 1);
  }

  /** The blanking is at least a quarter of the active line, less the rounding. */
  lemma BlankIsWide(width: nat, hperiod: nat)
    requires hperiod <= 100_000 && width * Duty(hperiod) < U32
    ensures HBlank(width, hperiod).Some? && HBlank(width, hperiod).value % 16 == 0
    ensures width < 4 * (HBlank(width, hperiod).value + 16)
  {
    DutyIs(hperiod);
    QuarterAtLeast(width, Duty(hperiod), 100_000 - Duty(hperiod));
  }

  /** The blanking is the largest multiple of two character cells whose share of the line is within the duty cycle. */
  lemma BlankShare(width: nat, hperiod: nat, duty: nat, b: nat)
    requires hperiod <= 100_000 && duty == Duty(hperiod) && width * duty < U32 && HBlank(width, hperiod) == Some(b)
    ensures b % 16 == 0 && b * 100_000 <= duty * (width + b) && duty * (width + (b + 16)) < (b + 16) * 100_000
  {
    DutyIs(hperiod);
    var q := BlankIs(width, hperiod, duty, b);
    LargestShare(width, duty, 100_000 - duty, q, b);
  }

  lemma BlankIs(width: nat, hperiod: nat, duty: nat, b: nat) returns (q: nat)
    requires duty == Duty(hperiod) && duty <= 30_000 && width * duty < U32 && HBlank(width, hperiod) == Some(b)
    ensures q == width * duty / (100_000 - duty) && b == q - q % 16
  {
    q := width * duty / (100_000 - duty);
  }

  lemma LargestShare(width: nat, duty: nat, d: nat, q: nat, b: nat)
    requires d > 0 && d + duty == 100_000 && q == width * duty / d && b <= q < b + 16
    ensures b * 100_000 <= duty * (width + b) && duty * (width + (b + 16)) < (b + 16) * 100_000
  {
    QuotientBounds(width * duty, d, q, b);
    Within(width, duty, b, d);
    Beyond(width, duty, b + 16, d);
  }

  lemma Within(width: nat, duty: nat, b: nat, d: nat)
    requires d + duty == 100_000 && d * b <= width * duty
    ensures b * 100_000 <= duty * (width + b)
  {
    Share(width, duty, b, d);
  }

  lemma Beyond(width: nat, duty: nat, b: nat, d: nat)
    requires d + duty == 100_000 && width * duty < d * b
    ensures duty * (width + b) < b * 100_000
  {
    Share(width, duty, b, d);
  }

  lemma QuotientBounds(n: nat, d: nat, q: nat, b: nat)
    requires d > 0 && q == n / d && b <= q < b + 16
    ensures d * b <= n < d * (b + 16)
  {
    DivBounds(n, d);
    Arith.MulLeft(b, q, d);
    Arith.MulLeft(q + 1, b + 16, d);
    assert d * (q + 1) == d * q + d;
  }

  lemma Share(width: nat, duty: nat, b: nat, d: nat)
    requires d + duty == 100_000
    ensures duty * (width + b) - b * 100_000 == width * duty - d * b
  {
    assert duty * (width + b) == width * duty + b * duty;
    assert b * 100_000 == b * duty + d * b;
  }

  /** The horizontal sync is 8% of the line, less what rounds its start up to a character cell. */
  lemma SyncWidth(width: nat, blank: nat)
    ensures var w, htotal := width + blank / 2 - HSyncStart(width + blank / 2, width + blank), width + blank;
      htotal * 8 / 100 - 8 <= w < htotal * 8 / 100 && HSyncStart(width + blank / 2, htotal) % 8 == 0
  {
  }

  /** When a line's parts are in order: the line has the 113 pixels whose 8% make more than a character cell
      of sync, and the sync reaches back into the active line by no more than rounding takes back. */
  predicate LineFits(width: nat, blank: nat) {
    width + blank >= 113 && (width + blank) * 8 / 100 <= blank / 2 + 8
  }

  lemma LineOrder(width: nat, blank: nat)
    requires width % 8 == 0 && blank % 16 == 0
    ensures var start, end, htotal := HSyncStart(width + blank / 2, width + blank), width + blank / 2, width + blank;
      width <= start < end <= htotal <==> LineFits(width, blank)
  {
    EightPercent(width + blank);
    WholeCell(width, blank);
    StartOf(width, width + blank / 2, width + blank, (width + blank) * 8 / 100);
  }

  lemma EightPercent(n: nat)
    ensures n * 8 / 100 > 8 <==> n >= 113
  {
  }

  lemma WholeCell(width: nat, blank: nat)
    requires width % 8 == 0 && blank % 16 == 0
    ensures (width + blank / 2) % 8 == 0 && width + blank / 2 <= width + blank
  {
  }

  lemma StartOf(width: nat, end: nat, htotal: nat, sync: nat)
    requires width % 8 == 0 && end % 8 == 0 && sync == htotal * 8 / 100
    ensures HSyncStart(end, htotal) < end <==> sync > 8
    ensures width <= HSyncStart(end, htotal) <==> sync <= end - width + 8
  {
    StartRounds(width, end, sync);
  }

  /** Rounding up to the next cell, of a start that is `sync` pixels before a cell's boundary. */
  lemma StartRounds(width: nat, end: nat, sync: nat)
    requires width % 8 == 0 && end % 8 == 0
    ensures var start := (end - sync) + 8 - (end - sync) % 8;
      (start < end <==> sync > 8) && (width <= start <==> sync <= end - width + 8)
  {
  }

  lemma TimedOrder(width: nat, height: nat, blank: nat, hperiod: nat, vsync: nat, vtotal: nat, interlaced: bool)
    requires hperiod > 0 && 0 < vsync && height + 3 + vsync <= vtotal && width % 8 == 0 && blank % 16 == 0
    ensures Ordered(Timed(width, height, blank, hperiod, vsync, vtotal, interlaced)) <==> LineFits(width, blank)
  {
    LineOrder(width, blank);
  }

  /** A mode whose period and blanking can be computed is one; its vertical parts are in order, and its
      horizontal parts are if and only if the blanking fits the line, whether or not the product it comes
      from has left 32 bits. */
  lemma StandardOrder(h: nat, v: nat, vrefresh: nat, interlaced: bool, margins: bool, hp: nat, blank: nat)
    requires h < LIMIT && v < LIMIT
    requires HPeriod(FieldRate(vrefresh, interlaced), Active(v, interlaced, margins), interlaced) == Some(hp) && hp > 0
    requires HBlank(Width(h, margins), hp) == Some(blank)
    ensures var m := Standard(h, v, vrefresh, interlaced, margins);
      && m.Some? && (Ordered(m.value) <==> LineFits(Width(h, margins), blank))
      && m.value.vdisplay <= m.value.vsyncStart < m.value.vsyncEnd <= m.value.vtotal
  {
    LinesInside(v, interlaced, margins);
    LaidOrder(Width(h, margins), v + 2 * VMargin(v, interlaced, margins), Active(v, interlaced, margins), VSync(h, v),
              interlaced, Some(hp));
  }

  /** Nothing else is a mode. */
  lemma StandardParts(h: nat, v: nat, vrefresh: nat, interlaced: bool, margins: bool) returns (hp: nat, blank: nat)
    requires Standard(h, v, vrefresh, interlaced, margins).Some?
    ensures HPeriod(FieldRate(vrefresh, interlaced), Active(v, interlaced, margins), interlaced) == Some(hp) && hp > 0
    ensures HBlank(Width(h, margins), hp) == Some(blank)
  {
    hp := HPeriod(FieldRate(vrefresh, interlaced), Active(v, interlaced, margins), interlaced).value;
    blank := HBlank(Width(h, margins), hp).value;
  }

  /** From 320 pixels on, for periods of up to 100 us, and as long as the blanking product stays within 32
      bits, display, sync start, sync end and total are in order. */
  lemma WideModeIsOrdered(h: nat, v: nat, vrefresh: nat, interlaced: bool, margins: bool, hp: nat)
    requires h < LIMIT && v < LIMIT
    requires HPeriod(FieldRate(vrefresh, interlaced), Active(v, interlaced, margins), interlaced) == Some(hp) && 0 < hp <= 100_000
    requires 320 <= Width(h, margins) && Width(h, margins) * Duty(hp) < U32
    ensures var m := Standard(h, v, vrefresh, interlaced, margins); m.Some? && Ordered(m.value)
  {
    BlankIsWide(Width(h, margins), hp);
    var blank := HBlank(Width(h, margins), hp).value;
    WideEnoughFits(Width(h, margins), hp, blank);
    StandardOrder(h, v, vrefresh, interlaced, margins, hp, blank);
  }

  lemma LaidOrder(width: nat, height: nat, active: nat, vsync: nat, interlaced: bool, period: Option<nat>)
    requires width % 8 == 0 && 4 <= vsync && height <= Fields(active + 1, interlaced)
    ensures var m := Laid(width, height, active, vsync, interlaced, period);
      m.Some? ==> m.value.hdisplay == width <= m.value.htotal && HBlank(width, period.value) == Some(m.value.htotal - width)
                  && (Ordered(m.value) <==> LineFits(width, m.value.htotal - width))
                  && m.value.vdisplay <= m.value.vsyncStart < m.value.vsyncEnd <= m.value.vtotal
  {
    if period.Some? && period.value > 0 && HBlank(width, period.value).Some? {
      var blank := HBlank(width, period.value).value;
      BlankIsPairs(width, period.value);
      TimedOrder(width, height, blank, period.value, vsync,
        Fields(active + SyncAndPorch(period.value, vsync) + 3, interlaced), interlaced);
    }
  }

  lemma BlankIsPairs(width: nat, hperiod: nat)
    ensures HBlank(width, hperiod).Some? ==> HBlank(width, hperiod).value % 16 == 0
  {
    if HBlank(width, hperiod).Some? {
      Pairs(Divided(Unsigned(width * Duty(hperiod)), Unsigned(100_000 - Duty(hperiod))).value);
    }
  }

  lemma Pairs(n: nat)
    ensures (n - n % 16) % 16 == 0
  {
  }

  /** From 320 pixels on, and as long as the blanking product stays within 32 bits, the blanking fits. */
  lemma WideEnoughFits(width: nat, hperiod: nat, blank: nat)
    requires 320 <= width && width % 8 == 0 && hperiod <= 100_000 && width * Duty(hperiod) < U32
    requires HBlank(width, hperiod) == Some(blank)
    ensures LineFits(width, blank)
  {
    BlankIsWide(width, hperiod);
  }

  /** A mode whose intermediate values are known. */
  lemma StandardIs(h: nat, v: nat, vrefresh: nat, width: nat, hperiod: nat, blank: nat)
    requires Width(h, false) == width && HPeriod(FieldRate(vrefresh, false), v, false) == Some(hperiod) && hperiod > 0
    requires HBlank(width, hperiod) == Some(blank)
    ensures Standard(h, v, vrefresh, false, false) ==
      Some(Timed(width, v, blank, hperiod, VSync(h, v), v + SyncAndPorch(hperiod, VSync(h, v)) + 3, false))
  {
    LaidIs(width, v, VSync(h, v), hperiod, blank);
  }

  lemma LaidIs(width: nat, v: nat, vsync: nat, hperiod: nat, blank: nat)
    requires hperiod > 0 && HBlank(width, hperiod) == Some(blank)
    ensures Laid(width, v, v, vsync, false, Some(hperiod)) ==
      Some(Timed(width, v, blank, hperiod, vsync, v + SyncAndPorch(hperiod, vsync) + 3, false))
  {
  }

  lemma WidePeriod(v: nat, vrefresh: nat)
    requires v == 240 && vrefresh == 60
    ensures HPeriod(FieldRate(vrefresh, false), v, false) == Some(66_323)
  {
  }

  /** The blanking from its intermediate values. */
  lemma BlankOf(width: nat, hperiod: nat, duty: nat, product: nat, q: nat)
    requires duty == Duty(hperiod) && duty <= 30_000 && product == Unsigned(width * duty) && q == product / (100_000 - duty)
    ensures HBlank(width, hperiod) == Some(q - q % 16)
  {
  }

  lemma WideDuty()
    ensures Duty(66_323) == 20_000
  {
    assert Unsigned(300 * 66_323) / 1000 == 19_896;
  }

  /** What is left of 214752 * 20000. */
  lemma WideProduct()
    ensures Unsigned(4_295_040_000) == 72_704
  {
  }

  lemma WideBlank(width: nat)
    requires width == 214_752
    ensures HBlank(width, 66_323) == Some(0)
  {
    WideDuty();
    WideProduct();
    BlankOf(width, 66_323, 20_000, 72_704, 0);
  }

  lemma WholeCells(h: nat)
    requires h % 8 == 0
    ensures Width(h, false) == h
  {
  }

  /** A mode without blanking, out of order. */
  predicate Unblanked(m: Option<Mode>) {
    m.Some? && m.value.htotal == m.value.hdisplay && !Ordered(m.value)
  }

  /** 214752x240 at 60 Hz: the product has left 32 bits, there is no blanking left, and the sync has no place. */
  lemma WideModeLosesBlanking(h: nat, v: nat, vrefresh: nat)
    requires h == 214_752 && v == 240 && vrefresh == 60
    ensures Unblanked(Standard(h, v, vrefresh, false, false))
  {
    var hp := WideParts(h, v, vrefresh);
    Unordered(h, v, vrefresh, hp);
  }

  predicate BlankGone(width: nat, period: Option<nat>, hp: nat) {
    900 <= width && period == Some(hp) && hp > 0 && HBlank(width, hp) == Some(0)
  }

  lemma WideParts(h: nat, v: nat, vrefresh: nat) returns (hp: nat)
    requires h == 214_752 && v == 240 && vrefresh == 60
    ensures BlankGone(Width(h, false), HPeriod(FieldRate(vrefresh, false), v, false), hp)
  {
    WholeCells(h);
    WidePeriod(v, vrefresh);
    WideBlank(h);
    hp := 66_323;
  }

  /** Without any blanking, lines of 900 pixels and more are out of order. */
  lemma Unordered(h: nat, v: nat, vrefresh: nat, hp: nat)
    requires h < LIMIT && v < LIMIT && BlankGone(Width(h, false), HPeriod(FieldRate(vrefresh, false), v, false), hp)
    ensures Unblanked(Standard(h, v, vrefresh, false, false))
  {
    StandardOrder(h, v, vrefresh, false, false, hp, 0);
    StandardIs(h, v, vrefresh, Width(h, false), hp, 0);
  }

  /** The fields of a frame hold its lines, but for an odd one of an interlaced frame. */
  lemma LinesInside(v: nat, interlaced: bool, margins: bool)
    ensures v + 2 * VMargin(v, interlaced, margins) <= Fields(Active(v, interlaced, margins) + 1, interlaced)
  {
  }

  lemma ReducedIsOrdered(h: nat, v: nat, vrefresh: nat, interlaced: bool, margins: bool)
    requires h < LIMIT && v < LIMIT
    ensures var m := Reduced(h, v, vrefresh, interlaced, margins); m.Some? ==> Ordered(m.value)
  {
  }

  // --- The pixel clock ---

  /** The clock the lines call for, in kHz, in steps of 250. */
  function TrueClock(htotal: nat, hperiod: nat): (c: nat)
    requires hperiod > 0
    ensures c <= htotal * 1_000_000 / hperiod < c + 250 && c % 250 == 0
  {
    var clock := htotal * 1_000_000 / hperiod;
    clock - clock % 250
  }

  lemma DivFurther(n: nat, m: nat, d: nat)
    requires 0 < d <= 10_000_000 && n + U32 <= m
    ensures n / d + 250 < m / d
  {
    DivBounds(n, d);
    DivBounds(m, d);
    var q, r := n / d, m / d;
    assert (q + 250) * d == d * q + 250 * d && r * d == d * r;
    Arith.MulOrder(q + 250, r, d);
  }

  /** The clock is what the lines call for exactly for lines of up to 4294 pixels: beyond, the product
      with 10^6 leaves 32 bits (drm_modes.c:265). */
  lemma ClockIsExact(htotal: nat, hperiod: nat)
    requires 0 < hperiod <= 10_000_000
    ensures Clock(htotal, hperiod) == TrueClock(htotal, hperiod) <==> htotal <= 4294
  {
    var n := htotal * 1_000_000;
    if htotal > 4294 {
      var w := n % U32;
      assert w + U32 <= n;
      DivFurther(w, n, hperiod);
    }
  }

  /** 4096x2160 at 60 Hz has lines of 5664 pixels, which call for 760 MHz. It gets 183.5. */
  lemma WideModeLosesClock(h: nat, v: nat, vrefresh: nat)
    requires h == 4096 && v == 2160 && vrefresh == 60
    ensures var m := Standard(h, v, vrefresh, false, false);
      m.Some? && m.value.htotal == 5664 && m.value.clock == 183_500
    ensures HPeriod(FieldRate(vrefresh, false), v, false) == Some(7_451) && TrueClock(5664, 7_451) == 760_000
  {
    WholeCells(h);
    LongPeriod(v, vrefresh);
    LongLine(h);
    StandardIs(h, v, vrefresh, h, 7_451, 1568);
  }

  lemma LongPeriod(v: nat, vrefresh: nat)
    requires v == 2160 && vrefresh == 60
    ensures HPeriod(FieldRate(vrefresh, false), v, false) == Some(7_451)
  {
  }

  lemma LongLine(width: nat)
    requires width == 4096
    ensures HBlank(width, 7_451) == Some(1568) && Clock(5664, 7_451) == 183_500 && TrueClock(5664, 7_451) == 760_000
  {
    assert Unsigned(300 * 7_451) / 1000 == 2_235;
    assert Duty(7_451) == 27_765;
  }
}
