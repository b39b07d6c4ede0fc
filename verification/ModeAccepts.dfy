/** Which mode options are accepted, and as what (drm_modes.c:984-1143). */
module ModeAccepts {
  import opened Basics
  import opened ModeLine

  predicate IsForce(c: char) { c in {'e', 'D', 'd'} }

  predicate IsSign(c: char) { c in {'@', '-', 'x'} }

  predicate IsFlag(c: char) { c in {'M', 'R', 'm', 'i'} }

  /** Whether a may stand somewhere to the left of b. */
  predicate MayPrecede(a: char, b: char) {
    if b == 'x' then IsDigit(a)
    else if b == 'M' then IsDigit(a) || a == 'x' || IsForce(a)
    else if b == 'R' then a !in {'@', '-', 'R'}
    else if b == '-' then a !in {'@', '-'} && !IsForce(a)
    else if b == '@' then a != '@' && !IsForce(a)
    else IsForce(b) ==> !IsForce(a)
  }

  /** The i-th character is a known one and agrees with all that stands to its right. A number
      follows each sign, and to the left of a digit there is a sign or another digit. */
  predicate Fits(s: string, i: nat)
    requires i < |s|
  {
    && (IsDigit(s[i]) || IsSign(s[i]) || IsFlag(s[i]) || IsForce(s[i]))
    && (forall j :: i < j < |s| ==> MayPrecede(s[i], s[j]))
    && (IsSign(s[i]) ==> !NoDigit(s, i + 1))
    && (!NoDigit(s, i + 1) ==> IsDigit(s[i]) || IsSign(s[i]))
  }

  /** The strings that are accepted: every character fits, and digits at the front need an x. */
  predicate Allowed(s: string) {
    && (forall i: nat :: i < |s| ==> Fits(s, i))
    && (NoDigit(s, 0) || 'x' in s)
  }

  /** The number at k. */
  function NumberAt(s: string, k: nat): nat
    requires k <= |s|
  {
    ValueOf(s, k, Lead(s, k), 0) % U32
  }

  /** The character c stands at n or to its right. */
  ghost predicate Has(s: string, n: nat, c: char) {
    exists k :: n <= k < |s| && s[k] == c
  }

  /** From n on there is the sign c exactly if there is a number, and it is the one behind the sign. */
  ghost predicate Signed(s: string, n: nat, c: char, number: Option<nat>) {
    && (number.Some? <==> Has(s, n, c))
    && (forall k :: n <= k < |s| && s[k] == c ==> number == Some(NumberAt(s, k + 1)))
  }

  /** The force letter from n on, if there is one, is the one that counts. */
  ghost predicate ForcedBy(s: string, n: nat, digital: bool, force: Force) {
    && (force == Unspecified <==> forall k :: n <= k < |s| ==> !IsForce(s[k]))
    && (forall k :: n <= k < |s| && IsForce(s[k]) ==>
         force == if s[k] == 'd' then ForceOff else if s[k] == 'D' && digital then ForceDigital else ForceOn)
  }

  ghost predicate Numbers(s: string, n: nat, yres: Option<nat>, refresh: Option<nat>, bpp: Option<nat>) {
    Signed(s, n, 'x', yres) && Signed(s, n, '@', refresh) && Signed(s, n, '-', bpp)
  }

  ghost predicate Letters(s: string, n: nat, cvt: bool, rb: bool, interlace: bool, margins: bool) {
    (cvt <==> Has(s, n, 'M')) && (rb <==> Has(s, n, 'R')) && (interlace <==> Has(s, n, 'i')) && (margins <==> Has(s, n, 'm'))
  }

  /** The variables tell what stands from n on. */
  ghost predicate Tells(s: string, n: nat, digital: bool, st: Flags) {
    && Numbers(s, n, st.yres, st.refresh, st.bpp)
    && Letters(s, n, st.cvt, st.rb, st.interlace, st.margins)
    && ForcedBy(s, n, digital, st.force)
    && (st.wasDigit <==> n < |s| && (IsDigit(s[n]) || s[n] == 'x'))
  }

  lemma NumberIsAt(s: string, k: nat)
    requires k <= |s|
    ensures Number(s, k, 0) == NumberAt(s, k)
  {
    NumberIs(s, k, Lead(s, k), 0);
  }

  lemma HasLeft(s: string, i: nat, c: char)
    requires i < |s|
    ensures Has(s, i, c) <==> s[i] == c || Has(s, i + 1, c)
  {
  }

  /** What stands from i + 1 on lets `a` stand to its left. */
  ghost predicate Free(s: string, i: nat, a: char) {
    forall j :: i < j < |s| ==> MayPrecede(a, s[j])
  }

  lemma FreeIs(s: string, i: nat, a: char, digital: bool, st: Flags)
    requires Tells(s, i + 1, digital, st)
    ensures Free(s, i, a) <==>
      && (st.yres.Some? ==> MayPrecede(a, 'x')) && (st.cvt ==> MayPrecede(a, 'M')) && (st.rb ==> MayPrecede(a, 'R'))
      && (st.bpp.Some? ==> MayPrecede(a, '-')) && (st.refresh.Some? ==> MayPrecede(a, '@'))
      && (st.force != Unspecified ==> !IsForce(a))
  {
    if st.force != Unspecified && Free(s, i, a) {
      var k :| i < k < |s| && IsForce(s[k]);
      assert MayPrecede(a, s[k]);
    }
  }

  /** A character is accepted if and only if it fits what has been read. */
  lemma StepFits(s: string, i: nat, number: nat, digital: bool, st: Flags)
    requires i < |s| && Tells(s, i + 1, digital, st)
    ensures Step(s[i], number, st, digital).Some? <==> Fits(s, i)
  {
    FreeIs(s, i, s[i], digital, st);
  }

  lemma SignedLeft(s: string, i: nat, c: char, was: Option<nat>, now: Option<nat>)
    requires i < |s| && Signed(s, i + 1, c, was)
    requires if s[i] == c then was.None? && now == Some(NumberAt(s, i + 1)) else now == was
    ensures Signed(s, i, c, now)
  {
    HasLeft(s, i, c);
  }

  lemma ForcedLeft(s: string, i: nat, digital: bool, was: Force, now: Force)
    requires i < |s| && ForcedBy(s, i + 1, digital, was)
    requires if IsForce(s[i]) then was == Unspecified && now == ForceOf(Some(s[i]), digital) else now == was
    ensures ForcedBy(s, i, digital, now)
  {
  }

  /** The numbers and the force after a step. */
  lemma StepSets(c: char, number: nat, st: Flags, digital: bool)
    requires Step(c, number, st, digital).Some?
    ensures var t := Step(c, number, st, digital).value;
      && (if c == 'x' then st.yres.None? && t.yres == Some(number) else t.yres == st.yres)
      && (if c == '@' then st.refresh.None? && t.refresh == Some(number) else t.refresh == st.refresh)
      && (if c == '-' then st.bpp.None? && t.bpp == Some(number) else t.bpp == st.bpp)
      && (if IsForce(c) then st.force == Unspecified && t.force == ForceOf(Some(c), digital) else t.force == st.force)
      && t.wasDigit == (IsDigit(c) || c == 'x')
      && t.cvt == (st.cvt || c == 'M') && t.rb == (st.rb || c == 'R')
      && t.interlace == (st.interlace || c == 'i') && t.margins == (st.margins || c == 'm')
  {
  }

  lemma StepTells(s: string, i: nat, digital: bool, st: Flags)
    requires i < |s| && Tells(s, i + 1, digital, st) && Step(s[i], NumberAt(s, i + 1), st, digital).Some?
    ensures Tells(s, i, digital, Step(s[i], NumberAt(s, i + 1), st, digital).value)
  {
    var t := Step(s[i], NumberAt(s, i + 1), st, digital).value;
    StepSets(s[i], NumberAt(s, i + 1), st, digital);
    SignedLeft(s, i, 'x', st.yres, t.yres);
    SignedLeft(s, i, '@', st.refresh, t.refresh);
    SignedLeft(s, i, '-', st.bpp, t.bpp);
    ForcedLeft(s, i, digital, st.force, t.force);
    HasLeft(s, i, 'M');
    HasLeft(s, i, 'R');
    HasLeft(s, i, 'i');
    HasLeft(s, i, 'm');
  }

  lemma {:induction false} ScanFits(s: string, n: nat, digital: bool, st: Flags)
    requires n <= |s| && Tells(s, n, digital, st) && forall j: nat :: n <= j < |s| ==> Fits(s, j)
    ensures Scan(s, n, st, digital).Some? <==> forall j: nat :: j < |s| ==> Fits(s, j)
    ensures Scan(s, n, st, digital).Some? ==> Tells(s, 0, digital, Scan(s, n, st, digital).value)
    decreases n
  {
    if n > 0 {
      NumberIsAt(s, n);
      StepFits(s, n - 1, Number(s, n, 0), digital, st);
      if Fits(s, n - 1) {
        StepTells(s, n - 1, digital, st);
        ScanFits(s, n - 1, digital, Step(s[n - 1], Number(s, n, 0), st, digital).value);
      }
    }
  }

  /** The parser, for every string: it is accepted if and only if it is allowed, and then it stands for the
      numbers behind its signs, for the letters that are in it, and for the width it begins with. */
  lemma ParseIs(s: string, digital: bool)
    ensures Parse(s, digital).Some? <==> Allowed(s)
    ensures Allowed(s) ==> var m := Parse(s, digital).value;
      && (m.res.Some? <==> 'x' in s) && Signed(s, 0, '@', m.refresh) && Signed(s, 0, '-', m.bpp)
      && (m.res.Some? ==> m.res.value.0 == NumberAt(s, 0) && Signed(s, 0, 'x', Some(m.res.value.1)))
      && Letters(s, 0, m.cvt, m.rb, m.interlace, m.margins)
      && ForcedBy(s, 0, digital, m.force)
  {
    ScanFits(s, |s|, digital, START);
    var scanned := Scan(s, |s|, START, digital);
    if scanned.Some? {
      NumberIsAt(s, 0);
      if scanned.value.yres.Some? { var _, _ := ResolutionIsThere(s, digital); }
    }
  }
}
