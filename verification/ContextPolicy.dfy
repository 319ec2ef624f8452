/**
 The context policy (crates/rupi-core/src/context.rs): thresholds derived from a profile
 and a window, and the ladder of decisions taken against them.
 Fractions are exact reals here.
 */
module ContextPolicy {
  import opened Text

  // ----- Thresholds -----

  datatype Profile = Aggressive | Balanced | Relaxed

  datatype Fractions = Fractions(warn: real, reduce: real, compact: real, recentTarget: real, workingCap: nat)

  function FractionsOf(profile: Profile): Fractions {
    match profile
    case Aggressive => Fractions(0.45, 0.55, 0.65, 0.15, 32_000)
    case Balanced => Fractions(0.60, 0.70, 0.80, 0.25, 64_000)
    case Relaxed => Fractions(0.75, 0.82, 0.90, 0.35, 96_000)
  }

  const CONSTRAINED_WINDOW := 64_000
  const LARGE_WINDOW := 192_000

  datatype Thresholds = Thresholds(warn: nat, reduce: nat, compact: nat, checkpoint: nat, recentTarget: nat)

  function Min(a: int, b: int): int {
    if a <= b then a else b
  }

  function Max(a: int, b: int): int {
    if a <= b then b else a
  }

  function Clamp(n: int, low: int, high: int): int {
    Max(low, Min(n, high))
  }

  function MinReal(a: real, b: real): real {
    if a <= b then a else b
  }

  function ClampReal(a: real, low: real, high: real): real {
    if a < low then low else MinReal(a, high)
  }

  /** The compact threshold before rounding, the anchor of the others. */
  function Anchor(profile: Profile, window: nat): (anchor: real)
    ensures 0.0 <= anchor <= 96_000.0
  {
    var f := FractionsOf(profile);
    var effective := Min(window, LARGE_WINDOW) as real;
    var fraction := f.compact - if window <= CONSTRAINED_WINDOW then 0.05 else 0.0;
    MinReal(Times(effective, fraction), f.workingCap as real)
  }

  function Times(a: real, b: real): (c: real)
    ensures a >= 0.0 && b >= 0.0 ==> c >= 0.0
  {
    a * b
  }

  function Scaled(profile: Profile, anchor: real, fraction: real): nat
    requires anchor >= 0.0
  {
    FloorOfProduct(anchor, Ratio(profile, fraction))
  }

  function Ratio(profile: Profile, fraction: real): (ratio: real)
    ensures ratio >= 0.0
  {
    ClampReal(fraction / FractionsOf(profile).compact, 0.05, 1.5)
  }

  function Held(profile: Profile, window: nat): (held: real)
    ensures held >= 0.0
  {
    MinReal(Min(window, LARGE_WINDOW) as real, FractionsOf(profile).workingCap as real)
  }

  function RecentTarget(profile: Profile, window: nat): nat {
    FloorOfProduct(Held(profile, window), FractionsOf(profile).recentTarget)
  }

  function FloorOfProduct(a: real, b: real): nat
    requires a >= 0.0 && b >= 0.0
  {
    (a * b).Floor
  }

  function Derived(profile: Profile, window: nat): Thresholds {
    var f := FractionsOf(profile);
    var anchor := Anchor(profile, window);
    Thresholds(
      Scaled(profile, anchor, f.warn),
      Scaled(profile, anchor, f.reduce),
      anchor.Floor,
      anchor.Floor + Max(anchor.Floor / 10, 4_096),
      RecentTarget(profile, window))
  }

  function ForProfile(profile: Profile, window: nat): Thresholds {
    Normalized(Derived(profile, window), window)
  }

  function Normalized(t: Thresholds, window: nat): Thresholds {
    if window < 3 then Thresholds(0, 0, 0, 0, 0)
    else
      var compact := Clamp(t.compact, 1, window - 2);
      var reduce := Min(t.reduce, compact);
      Thresholds(
        Min(t.warn, reduce),
        reduce,
        compact,
        Clamp(t.checkpoint, compact + 1, window - 1),
        Min(t.recentTarget, compact - 1))
  }

  /** The order the ladder of decisions needs. */
  predicate IsLadder(t: Thresholds, window: nat) {
    && t.warn <= t.reduce <= t.compact < t.checkpoint < window
    && t.recentTarget < t.compact
  }

  /** Normalising makes a ladder, and it leaves alone what is one: no other thresholds stay as they are. */
  lemma NormalizedIsLadder(t: Thresholds, window: nat)
    ensures window >= 3 ==> IsLadder(Normalized(t, window), window)
    ensures window >= 3 ==> (Normalized(t, window) == t <==> IsLadder(t, window))
    ensures window < 3 ==> Normalized(t, window) == Thresholds(0, 0, 0, 0, 0)
    ensures Normalized(Normalized(t, window), window) == Normalized(t, window)
  {
  }

  function Distance(a: int, b: int): nat {
    if a <= b then b - a else a - b
  }

  /** It moves the thresholds no further than to the nearest ladder, the compact threshold first. */
  lemma NormalizedIsNearest(t: Thresholds, l: Thresholds, window: nat)
    requires window >= 3 && IsLadder(l, window)
    ensures
      var n := Normalized(t, window);
      && Distance(n.compact, t.compact) <= Distance(l.compact, t.compact)
      && (l.compact == n.compact ==>
            && Distance(n.checkpoint, t.checkpoint) <= Distance(l.checkpoint, t.checkpoint)
            && Distance(n.recentTarget, t.recentTarget) <= Distance(l.recentTarget, t.recentTarget)
            && Distance(n.reduce, t.reduce) <= Distance(l.reduce, t.reduce)
            && (l.reduce == n.reduce ==> Distance(n.warn, t.warn) <= Distance(l.warn, t.warn)))
  {
  }

  predicate AtMost(a: Thresholds, b: Thresholds) {
    && a.warn <= b.warn && a.reduce <= b.reduce && a.compact <= b.compact
    && a.checkpoint <= b.checkpoint && a.recentTarget <= b.recentTarget
  }

  lemma NormalizedIsMonotone(a: Thresholds, b: Thresholds, v: nat, w: nat)
    requires AtMost(a, b) && v <= w
    ensures AtMost(Normalized(a, v), Normalized(b, w))
  {
  }

  lemma AnchorIsMonotone(profile: Profile, v: nat, w: nat)
    requires v <= w
    ensures Anchor(profile, v) <= Anchor(profile, w)
  {
    match profile {
      case Aggressive =>
      case Balanced =>
      case Relaxed =>
    }
  }

  lemma ProductIsMonotone(a: real, b: real, c: real, d: real)
    requires 0.0 <= a <= b && 0.0 <= c <= d
    ensures a * c <= b * d
  {
    var x, y := b - a, d - c;
    NonNegativeProduct(x, c);
    NonNegativeProduct(b, y);
    assert x * c == b * c - a * c && b * y == b * d - b * c;
  }

  lemma NonNegativeProduct(a: real, b: real)
    requires a >= 0.0 && b >= 0.0
    ensures a * b >= 0.0
  {
  }

  lemma FloorIsMonotone(a: real, b: real)
    requires a <= b
    ensures a.Floor <= b.Floor
  {
  }

  lemma FloorIsOrdered(a: real, b: real, c: real, d: real)
    requires 0.0 <= a <= b && 0.0 <= c <= d
    ensures FloorOfProduct(a, c) <= FloorOfProduct(b, d)
  {
    ProductIsMonotone(a, b, c, d);
  }

  lemma RecentTargetIsOrdered(p: Profile, q: Profile, v: nat, w: nat)
    requires 0.0 <= FractionsOf(p).recentTarget <= FractionsOf(q).recentTarget
    requires FractionsOf(p).workingCap <= FractionsOf(q).workingCap && v <= w
    ensures RecentTarget(p, v) <= RecentTarget(q, w)
  {
    hide FractionsOf, FloorOfProduct, Held;
    assert Held(p, v) <= Held(q, w) by { HeldIsOrdered(p, q, v, w); }
    FloorIsOrdered(Held(p, v), Held(q, w), FractionsOf(p).recentTarget, FractionsOf(q).recentTarget);
  }

  lemma HeldIsOrdered(p: Profile, q: Profile, v: nat, w: nat)
    requires FractionsOf(p).workingCap <= FractionsOf(q).workingCap && v <= w
    ensures Held(p, v) <= Held(q, w)
  {
    hide FractionsOf;
  }

  /** A larger window never lowers a threshold. */
  lemma ThresholdsAreMonotone(profile: Profile, v: nat, w: nat)
    requires v <= w
    ensures AtMost(ForProfile(profile, v), ForProfile(profile, w))
  {
    hide Scaled, Anchor, RecentTarget, Normalized;
    var f, a, b := FractionsOf(profile), Anchor(profile, v), Anchor(profile, w);
    AnchorIsMonotone(profile, v, w);
    ScaledIsOrdered(profile, profile, a, b, f.warn, f.warn);
    ScaledIsOrdered(profile, profile, a, b, f.reduce, f.reduce);
    FloorIsMonotone(a, b);
    RecentTargetIsOrdered(profile, profile, v, w);
    NormalizedIsMonotone(Derived(profile, v), Derived(profile, w), v, w);
  }

  /** From the large window on they do not depend on the window. */
  lemma LargeWindowsAreAlike(profile: Profile, window: nat)
    requires window >= LARGE_WINDOW
    ensures ForProfile(profile, window) == ForProfile(profile, LARGE_WINDOW)
  {
    match profile {
      case Aggressive =>
      case Balanced =>
      case Relaxed =>
    }
  }

  /** A more patient profile has higher thresholds in every window. */
  lemma ProfilesAreOrdered(window: nat)
    ensures AtMost(ForProfile(Aggressive, window), ForProfile(Balanced, window))
    ensures AtMost(ForProfile(Balanced, window), ForProfile(Relaxed, window))
  {
    hide Normalized, Derived;
    DerivedIsOrdered(Aggressive, Balanced, window);
    DerivedIsOrdered(Balanced, Relaxed, window);
    NormalizedIsMonotone(Derived(Aggressive, window), Derived(Balanced, window), window, window);
    NormalizedIsMonotone(Derived(Balanced, window), Derived(Relaxed, window), window, window);
  }

  /** One profile is as patient as another, fraction by fraction. */
  predicate IsCalmer(p: Profile, q: Profile) {
    var f, g := FractionsOf(p), FractionsOf(q);
    && Ratio(p, f.warn) <= Ratio(q, g.warn)
    && Ratio(p, f.reduce) <= Ratio(q, g.reduce)
    && f.compact <= g.compact
    && f.recentTarget <= g.recentTarget
    && f.workingCap <= g.workingCap
  }

  lemma ScaledIsOrdered(p: Profile, q: Profile, a: real, b: real, f: real, g: real)
    requires 0.0 <= a <= b && Ratio(p, f) <= Ratio(q, g)
    ensures Scaled(p, a, f) <= Scaled(q, b, g)
  {
    hide Ratio, FloorOfProduct;
    FloorIsOrdered(a, b, Ratio(p, f), Ratio(q, g));
  }

  lemma AnchorIsOrdered(p: Profile, q: Profile, window: nat)
    requires FractionsOf(p).compact <= FractionsOf(q).compact && FractionsOf(p).workingCap <= FractionsOf(q).workingCap
    ensures Anchor(p, window) <= Anchor(q, window)
  {
    var effective := Min(window, LARGE_WINDOW) as real;
    var cut := if window <= CONSTRAINED_WINDOW then 0.05 else 0.0;
    FractionIsLarge(p);
    hide FractionsOf, MinReal, Times;
    var a, b := FractionsOf(p).compact - cut, FractionsOf(q).compact - cut;
    TimesIsMonotone(effective, a, b);
    MinRealIsMonotone(
      Times(effective, a), Times(effective, b), FractionsOf(p).workingCap as real, FractionsOf(q).workingCap as real);
  }

  lemma TimesIsMonotone(a: real, b: real, c: real)
    requires a >= 0.0 && 0.0 <= b <= c
    ensures Times(a, b) <= Times(a, c)
  {
    ProductIsMonotone(a, a, b, c);
  }

  lemma FractionIsLarge(p: Profile)
    ensures FractionsOf(p).compact >= 0.65
  {
  }

  lemma MinRealIsMonotone(a: real, b: real, c: real, d: real)
    requires a <= b && c <= d
    ensures MinReal(a, c) <= MinReal(b, d)
  {
  }

  lemma DerivedIsOrdered(p: Profile, q: Profile, window: nat)
    requires IsCalmer(p, q)
    ensures AtMost(Derived(p, window), Derived(q, window))
  {
    hide Scaled, RecentTarget, Anchor;
    var a, b := Anchor(p, window), Anchor(q, window);
    AnchorIsOrdered(p, q, window);
    ScaledIsOrdered(p, q, a, b, FractionsOf(p).warn, FractionsOf(q).warn);
    ScaledIsOrdered(p, q, a, b, FractionsOf(p).reduce, FractionsOf(q).reduce);
    FloorIsMonotone(a, b);
    RecentTargetIsOrdered(p, q, window, window);
  }

  // ----- The thresholds in whole numbers -----

  /** The fractions of a profile in hundredths: warn, reduce, compact, recent target. */
  function Hundredths(profile: Profile): (int, int, int, int) {
    match profile
    case Aggressive => (45, 55, 65, 15)
    case Balanced => (60, 70, 80, 25)
    case Relaxed => (75, 82, 90, 35)
  }

  /** The most tokens a profile works with. */
  function CapOf(profile: Profile): nat {
    match profile
    case Aggressive => 32_000
    case Balanced => 64_000
    case Relaxed => 96_000
  }

  lemma CapIs(profile: Profile)
    ensures CapOf(profile) == FractionsOf(profile).workingCap
  {
  }

  function Share(hundredths: nat, fraction: nat, compact: nat, cap: nat): nat
    requires compact > 0
  {
    Min(Quotient(hundredths * fraction, 100 * compact), Quotient(cap * fraction, compact))
  }

  function Quotient(a: nat, b: nat): nat
    requires b > 0
  {
    a / b
  }

  /** A hundred times the compact threshold in front of the cap. */
  function CompactHundredths(profile: Profile, window: nat): nat {
    var compact := Hundredths(profile).2;
    (if window <= 192_000 then window else 192_000) * if window <= 64_000 then compact - 5 else compact
  }

  /** Thresholds by division of whole numbers. */
  function InWholeNumbers(profile: Profile, window: nat): Thresholds {
    var (warn, reduce, compact, recent) := Hundredths(profile);
    var cap := CapOf(profile);
    var w := if window <= 192_000 then window else 192_000;
    var hundredths := CompactHundredths(profile, window);
    var c := Min(hundredths / 100, cap);
    Thresholds(
      Share(hundredths, warn, compact, cap),
      Share(hundredths, reduce, compact, cap),
      c,
      if c < 40_960 then c + 4_096 else c + c / 10,
      Min(w, cap) * recent / 100)
  }

  lemma FloorOfQuotient(a: nat, b: int, r: real)
    requires b > 0 && r * b as real == a as real
    ensures r.Floor == a / b
  {
    var q := a / b;
    assert q * b <= a < (q + 1) * b;
    ProductAsReal(q, b);
    ProductAsReal(q + 1, b);
    QuotientIsBetween(q, r, b as real);
  }

  lemma ProductAsReal(a: int, b: int)
    ensures (a * b) as real == a as real * b as real
  {
  }

  lemma QuotientIsBetween(q: int, r: real, b: real)
    requires b > 0.0 && q as real * b <= r * b < (q + 1) as real * b
    ensures q as real <= r < (q + 1) as real
  {
  }

  lemma FloorOfMin(a: real, b: real)
    ensures MinReal(a, b).Floor == Min(a.Floor, b.Floor)
  {
  }

  /** `n` is a hundred times the share of the window that the anchor starts from. */
  ghost predicate IsShare(profile: Profile, window: nat, n: nat) {
    n as real == 100.0 * (Min(window, LARGE_WINDOW) as real
                          * (FractionsOf(profile).compact - if window <= CONSTRAINED_WINDOW then 0.05 else 0.0))
  }

  lemma AnchorIs(profile: Profile, window: nat, n: nat)
    requires IsShare(profile, window, n)
    ensures Anchor(profile, window) == MinReal(n as real / 100.0, FractionsOf(profile).workingCap as real)
  {
    hide FractionsOf;
  }

  /** Scaling a minimum of two quotients. */
  lemma ScaledMinimum(n: nat, cap: nat, ratio: real, hundredths: nat, compact: int)
    requires ratio >= 0.0 && compact > 0 && ratio * compact as real == hundredths as real
    ensures (MinReal(n as real / 100.0, cap as real) * ratio).Floor == Share(n, hundredths, compact, cap)
  {
    hide MinReal, Min;
    var a, b := n as real / 100.0, cap as real;
    MinOfProducts(a, b, ratio);
    FloorOfMin(a * ratio, b * ratio);
    assert a * 100 as real == n as real && b * 1 as real == cap as real;
    ScaledQuotient(a, n, 100, ratio, hundredths, compact);
    ScaledQuotient(b, cap, 1, ratio, hundredths, compact);
  }

  lemma ScaledInWholeNumbers(profile: Profile, window: nat, n: nat, fraction: real, hundredths: nat)
    requires IsShare(profile, window, n)
    requires Ratio(profile, fraction) * Hundredths(profile).2 as real == hundredths as real
    ensures Scaled(profile, Anchor(profile, window), fraction) ==
            Share(n, hundredths, Hundredths(profile).2, FractionsOf(profile).workingCap)
  {
    hide Ratio, Anchor, IsShare, MinReal, FractionsOf, Share;
    AnchorIs(profile, window, n);
    ScaledMinimum(n, FractionsOf(profile).workingCap, Ratio(profile, fraction), hundredths, Hundredths(profile).2);
  }

  lemma MinOfProducts(a: real, b: real, c: real)
    requires c >= 0.0
    ensures MinReal(a, b) * c == MinReal(a * c, b * c)
  {
    if a <= b { assert a * c <= b * c; } else { assert a * c >= b * c; }
  }

  lemma ScaledQuotient(a: real, n: nat, d: int, ratio: real, hundredths: nat, compact: int)
    requires d > 0 && compact > 0 && a * d as real == n as real && ratio * compact as real == hundredths as real
    ensures (a * ratio).Floor == n * hundredths / (d * compact)
  {
    var x, y := d as real, compact as real;
    assert (a * ratio) * (x * y) == (a * x) * (ratio * y);
    assert (d * compact) as real == x * y && (n * hundredths) as real == n as real * hundredths as real;
    FloorOfQuotient(n * hundredths, d * compact, a * ratio);
  }

  lemma RecentInWholeNumbers(profile: Profile, window: nat)
    ensures RecentTarget(profile, window) ==
            Min(Min(window, LARGE_WINDOW), FractionsOf(profile).workingCap) * Hundredths(profile).3 / 100
  {
    var n := Min(Min(window, LARGE_WINDOW), FractionsOf(profile).workingCap);
    assert Held(profile, window) == n as real;
    ScaledQuotient(n as real, n, 1, FractionsOf(profile).recentTarget, Hundredths(profile).3, 100);
  }

  /** The thresholds are what division of whole numbers gives, before they are normalised. */
  lemma DerivedInWholeNumbers(profile: Profile, window: nat)
    ensures Derived(profile, window) == InWholeNumbers(profile, window)
  {
    hide Scaled, Anchor, RecentTarget, Ratio, IsShare, Share, FractionsOf, CompactHundredths, CapOf;
    CapIs(profile);
    var (warn, reduce, _, _) := Hundredths(profile);
    var n := CompactHundredths(profile, window);
    var f := FractionsOf(profile);
    ShareIs(profile, window);
    RatiosAre(profile);
    ScaledInWholeNumbers(profile, window, n, f.warn, warn);
    ScaledInWholeNumbers(profile, window, n, f.reduce, reduce);
    AnchorInWholeNumbers(profile, window, n);
    RecentInWholeNumbers(profile, window);
  }

  lemma ShareIs(profile: Profile, window: nat)
    ensures IsShare(profile, window, CompactHundredths(profile, window))
  {
  }

  lemma RatiosAre(profile: Profile)
    ensures
      var (warn, reduce, compact, _) := Hundredths(profile);
      && Ratio(profile, FractionsOf(profile).warn) * compact as real == warn as real
      && Ratio(profile, FractionsOf(profile).reduce) * compact as real == reduce as real
  {
  }

  lemma AnchorInWholeNumbers(profile: Profile, window: nat, n: nat)
    requires IsShare(profile, window, n)
    ensures Anchor(profile, window).Floor == Min(n / 100, FractionsOf(profile).workingCap)
  {
    hide FractionsOf, Anchor, IsShare;
    AnchorIs(profile, window, n);
    FloorOfMin(n as real / 100.0, FractionsOf(profile).workingCap as real);
    FloorOfQuotient(n, 100, n as real / 100.0);
  }

  // ----- Overrides -----

  datatype Overrides = Overrides(
    warn: Option<nat>, reduce: Option<nat>, compact: Option<nat>, checkpoint: Option<nat>, recentTarget: Option<nat>)

  const NO_OVERRIDES := Overrides(None, None, None, None, None)

  function OrElse(o: Option<nat>, n: nat): nat {
    if o.Some? then o.value else n
  }

  function Requested(t: Thresholds, o: Overrides): Thresholds {
    Thresholds(
      OrElse(o.warn, t.warn), OrElse(o.reduce, t.reduce), OrElse(o.compact, t.compact),
      OrElse(o.checkpoint, t.checkpoint), OrElse(o.recentTarget, t.recentTarget))
  }

  function WithOverrides(t: Thresholds, o: Overrides, window: nat): (Thresholds, bool) {
    var requested := Requested(t, o);
    var normalized := Normalized(requested, window);
    (normalized, normalized != requested)
  }

  /** A policy as it is constructed: thresholds for the window it was made for. */
  datatype Policy = Policy(profile: Profile, thresholds: Thresholds, overrides: Overrides, referenceWindow: nat)

  function NewPolicy(profile: Profile, window: nat, overrides: Overrides): Policy {
    Policy(profile, ForProfile(profile, window), overrides, window)
  }

  function BaseThresholds(p: Policy, window: nat): Thresholds {
    if window == p.referenceWindow then p.thresholds else ForProfile(p.profile, window)
  }

  function ThresholdsWithStatus(p: Policy, window: nat): (Thresholds, bool) {
    WithOverrides(BaseThresholds(p, window), p.overrides, window)
  }

  function ThresholdsFor(p: Policy, window: nat): Thresholds {
    ThresholdsWithStatus(p, window).0
  }

  datatype ConfigurationWarning = TooSmall(window: nat) | Clamped(window: nat, thresholds: Thresholds)

  function WarningFor(p: Policy, window: nat): Option<ConfigurationWarning> {
    if window < 3 then Some(TooSmall(window))
    else
      var (thresholds, adjusted) := ThresholdsWithStatus(p, window);
      if adjusted then Some(Clamped(window, thresholds)) else None
  }

  /** Whatever a policy holds and whatever is overridden, the thresholds in force are a ladder. */
  lemma ThresholdsAreLadder(p: Policy, window: nat)
    requires window >= 3
    ensures IsLadder(ThresholdsFor(p, window), window)
  {
    NormalizedIsLadder(Requested(BaseThresholds(p, window), p.overrides), window);
  }

  /** A threshold is what an override asks for, else what the profile has. */
  predicate Overridden(asked: Option<nat>, own: nat, n: nat) {
    match asked
    case Some(value) => n == value
    case None => n == own
  }

  /** A policy keeps the thresholds of the window it was made for and derives those of any other. */
  predicate AreOwn(p: Policy, window: nat, own: Thresholds) {
    own == if window != p.referenceWindow then ForProfile(p.profile, window) else p.thresholds
  }

  predicate AreOverridden(o: Overrides, own: Thresholds, t: Thresholds) {
    && Overridden(o.warn, own.warn, t.warn) && Overridden(o.reduce, own.reduce, t.reduce)
    && Overridden(o.compact, own.compact, t.compact) && Overridden(o.checkpoint, own.checkpoint, t.checkpoint)
    && Overridden(o.recentTarget, own.recentTarget, t.recentTarget)
  }

  /**
   There is no warning exactly when the window has room and the requested thresholds are a ladder,
   and then they are in force. A warning carries the window, and the thresholds in force if there are any.
   */
  lemma WarningIs(p: Policy, window: nat)
    ensures
      var requested := Requested(BaseThresholds(p, window), p.overrides);
      && AreOwn(p, window, BaseThresholds(p, window))
      && AreOverridden(p.overrides, BaseThresholds(p, window), requested)
      && (WarningFor(p, window) == None <==> window >= 3 && IsLadder(requested, window))
      && (WarningFor(p, window) == None ==> ThresholdsFor(p, window) == requested)
      && (WarningFor(p, window).Some? ==>
            WarningFor(p, window).value ==
            if window < 3 then TooSmall(window) else Clamped(window, ThresholdsFor(p, window)))
  {
    hide Normalized, IsLadder;
    if window >= 3 { NormalizedIsLadder(Requested(BaseThresholds(p, window), p.overrides), window); }
  }

  /** Without overrides nothing is warned about, after a change of model as well. */
  lemma NoOverridesNoWarning(profile: Profile, made: nat, window: nat)
    requires window >= 3
    ensures WarningFor(NewPolicy(profile, made, NO_OVERRIDES), window) == None
    ensures ThresholdsFor(NewPolicy(profile, made, NO_OVERRIDES), window) == ForProfile(profile, window)
  {
    hide Normalized, Derived;
    NormalizedIsLadder(Derived(profile, window), window);
  }

  // ----- Decisions -----

  datatype Level = L0Payload | L1Ordinary | L2Phase | L3Checkpoint

  predicate RequiresSafeBoundary(level: Level) {
    level == L1Ordinary || level == L2Phase || level == L3Checkpoint
  }

  function Cooldown(level: Level): nat {
    match level
    case L0Payload => 0
    case L1Ordinary => 30_000
    case L2Phase => 60_000
    case L3Checkpoint => 120_000
  }

  /** Reasons, with the numbers their texts carry. */
  datatype Reason =
    | WindowTooSmall
    | OverflowReported
    | Exceeds(tokens: nat, threshold: nat)
    | WorkingAt(tokens: nat, checkpoint: nat)

  datatype Action =
    | Keep
    | Warn(tokens: nat, threshold: nat)
    | ReducePayload(recentTarget: nat)
    | Compact(level: Level, reason: Reason, target: nat)
    | SuggestCheckpoint(reason: Reason)
    | Refuse(reason: Reason)

  datatype Decision = Decision(action: Action, tokens: nat, level: Option<Level>)

  datatype State = State(
    window: nat,
    estimated: nat,
    measured: Option<nat>,
    recent: nat,
    atSafeBoundary: bool,
    sinceCompaction: nat,
    overflowObserved: bool)

  function EffectiveTokens(s: State): nat {
    OrElse(s.measured, s.estimated)
  }

  function Evaluate(p: Policy, s: State): Decision {
    var tokens := EffectiveTokens(s);
    if s.window < 3 then Decision(Refuse(WindowTooSmall), tokens, None)
    else
      var t := ThresholdsFor(p, s.window);
      if s.overflowObserved then
        if tokens > t.compact && s.atSafeBoundary then
          Decision(Compact(L1Ordinary, OverflowReported, t.recentTarget), tokens, Some(L1Ordinary))
        else Decision(Refuse(Exceeds(tokens, t.compact)), tokens, None)
      else if tokens >= t.checkpoint then
        if s.atSafeBoundary && s.sinceCompaction >= Cooldown(L3Checkpoint) then
          Decision(SuggestCheckpoint(WorkingAt(tokens, t.checkpoint)), tokens, Some(L3Checkpoint))
        else Decision(Warn(tokens, t.checkpoint), tokens, None)
      else if tokens >= t.compact then
        if s.atSafeBoundary && s.sinceCompaction >= Cooldown(L1Ordinary) then
          Decision(Compact(L1Ordinary, Exceeds(tokens, t.compact), t.recentTarget), tokens, Some(L1Ordinary))
        else Decision(Warn(tokens, t.compact), tokens, None)
      else if tokens >= t.reduce || s.recent > t.recentTarget then
        Decision(ReducePayload(t.recentTarget), tokens, Some(L0Payload))
      else if tokens >= t.warn then Decision(Warn(tokens, t.warn), tokens, None)
      else Decision(Keep, tokens, None)
  }

  /** The bands of the ladder. */
  datatype Band = Calm | Warned | Reducing | Compacting | Checkpointing

  function BandOf(t: Thresholds, tokens: nat): Band {
    if tokens < t.warn then Calm
    else if tokens < t.reduce then Warned
    else if tokens < t.compact then Reducing
    else if tokens < t.checkpoint then Compacting
    else Checkpointing
  }

  /** Measured tokens count, and estimated ones where none were measured. */
  predicate Counts(s: State, tokens: nat) {
    Overridden(s.measured, s.estimated, tokens)
  }

  /** The level a decision is filed under. */
  function LevelOf(a: Action): Option<Level> {
    match a
    case Compact(_, _, _) => Some(L1Ordinary)
    case SuggestCheckpoint(_) => Some(L3Checkpoint)
    case ReducePayload(_) => Some(L0Payload)
    case _ => None
  }

  /** When each action is taken, by the band the request lies in, and what it carries. */
  lemma DecisionIs(p: Policy, s: State)
    ensures
      var d := Evaluate(p, s);
      var t, tokens, a := ThresholdsFor(p, s.window), d.tokens, d.action;
      var band := BandOf(t, tokens);
      var oversized := s.recent > t.recentTarget;
      && Counts(s, tokens) && d.level == LevelOf(a)
      && (s.window < 3 ==> a == Refuse(WindowTooSmall))
      && (s.window >= 3 ==>
          && (a.Compact? <==>
                s.atSafeBoundary
                && (if s.overflowObserved then tokens > t.compact
                    else band == Compacting && s.sinceCompaction >= 30_000))
          && (a.SuggestCheckpoint? <==>
                s.atSafeBoundary && !s.overflowObserved && band == Checkpointing && s.sinceCompaction >= 120_000)
          && (a.Refuse? <==> s.overflowObserved && !(s.atSafeBoundary && tokens > t.compact))
          && (a.ReducePayload? <==>
                !s.overflowObserved && (band == Reducing || ((band == Calm || band == Warned) && oversized)))
          && (a == Keep <==> !s.overflowObserved && band == Calm && !oversized)
          && (a.Warn? ==> a.tokens == tokens && a.threshold <= tokens
                          && a.threshold == match band
                                            case Checkpointing => t.checkpoint
                                            case Compacting => t.compact
                                            case _ => t.warn)
          && (a.Compact? ==>
                && a.level == L1Ordinary && a.target == t.recentTarget
                && a.reason == if s.overflowObserved then OverflowReported else Exceeds(tokens, t.compact))
          && (a.SuggestCheckpoint? ==> a.reason == WorkingAt(tokens, t.checkpoint))
          && (a.ReducePayload? ==> a.recentTarget == t.recentTarget)
          && (a.Refuse? ==> a.reason == Exceeds(tokens, t.compact)))
  {
    hide ThresholdsFor;
    if s.window >= 3 { ThresholdsAreLadder(p, s.window); }
  }

  /** From the second level on each waits twice as long as the one before, and no other waits. */
  lemma CooldownsDouble()
    ensures Cooldown(L0Payload) == 0 && Cooldown(L1Ordinary) == 30_000
    ensures Cooldown(L2Phase) == 2 * Cooldown(L1Ordinary) && Cooldown(L3Checkpoint) == 2 * Cooldown(L2Phase)
  {
  }

  predicate IsStructural(a: Action) {
    a.Compact? || a.SuggestCheckpoint?
  }

  /** Structural actions wait for a safe boundary and, but for an overflow, for their cooldown. */
  lemma StructuralActionsWait(p: Policy, s: State)
    ensures
      var d := Evaluate(p, s);
      && (IsStructural(d.action) <==> d.level.Some? && RequiresSafeBoundary(d.level.value))
      && (IsStructural(d.action) ==>
            s.atSafeBoundary && (s.sinceCompaction >= Cooldown(d.level.value) || s.overflowObserved))
  {
  }

  /**
   A compaction aims below the size that asks for another one: from its target on, and up to
   the compact threshold, only an overflow or too small a window leads to one.
   */
  lemma TargetIsQuiet(p: Policy, before: State, after: State)
    requires Evaluate(p, before).action.Compact?
    requires after.window == before.window && !after.overflowObserved
    requires EffectiveTokens(after) <= Evaluate(p, before).action.target
    ensures !IsStructural(Evaluate(p, after).action) && !Evaluate(p, after).action.Refuse?
    ensures EffectiveTokens(before) > Evaluate(p, before).action.target
  {
    ThresholdsAreLadder(p, before.window);
  }

  /** What a refusal says is so; a decision that is none says nothing. */
  predicate RefusalIsTrue(s: State, a: Action) {
    a.Refuse? ==>
      match a.reason
      case WindowTooSmall => s.window < 3
      case OverflowReported => s.overflowObserved
      case Exceeds(tokens, threshold) => tokens > threshold
      case WorkingAt(tokens, checkpoint) => tokens >= checkpoint
  }

  /**
   A refusal after an overflow says that the request exceeds the compact threshold, with the
   numbers. Exactly when a request reports an overflow without exceeding it, that is not so; at a
   safe boundary it never is.
   */
  lemma RefusalIsTrueIff(p: Policy, s: State)
    ensures
      var a, t := Evaluate(p, s).action, ThresholdsFor(p, s.window);
      && (RefusalIsTrue(s, a) <==> s.window < 3 || !s.overflowObserved || EffectiveTokens(s) > t.compact)
      && (a.Refuse? && s.window >= 3 ==> a.reason == Exceeds(EffectiveTokens(s), t.compact))
      && (a.Refuse? && s.window >= 3 && s.atSafeBoundary ==> !RefusalIsTrue(s, a))
  {
    hide ThresholdsFor;
  }

  /** A reduction says that the recent messages exceed their target. */
  predicate ReductionIsTrue(s: State, a: Action) {
    a.ReducePayload? ==> s.recent > a.recentTarget
  }

  /** That is not so exactly when the whole request lies in the reducing band and they do not exceed it. */
  lemma ReductionIsTrueIff(p: Policy, s: State)
    ensures
      var t := ThresholdsFor(p, s.window);
      ReductionIsTrue(s, Evaluate(p, s).action) <==>
      !(s.window >= 3 && !s.overflowObserved && BandOf(t, EffectiveTokens(s)) == Reducing && s.recent <= t.recentTarget)
  {
    hide ThresholdsFor;
    if s.window >= 3 { ThresholdsAreLadder(p, s.window); }
  }

  /** A compaction without an overflow says that the request exceeds the threshold. */
  predicate CompactionIsTrue(a: Action) {
    a.Compact? ==>
      match a.reason
      case Exceeds(tokens, threshold) => tokens > threshold
      case _ => true
  }

  /** That is not so exactly when the request has the size of the threshold and is compacted for it. */
  lemma CompactionIsTrueIff(p: Policy, s: State)
    ensures
      var a, t := Evaluate(p, s).action, ThresholdsFor(p, s.window);
      && (CompactionIsTrue(a) <==>
            !(s.window >= 3 && !s.overflowObserved && s.atSafeBoundary && s.sinceCompaction >= 30_000
              && EffectiveTokens(s) == t.compact))
      && (a.Compact? ==>
            a.reason == if s.overflowObserved then OverflowReported else Exceeds(EffectiveTokens(s), t.compact))
  {
    hide ThresholdsFor;
    if s.window >= 3 { ThresholdsAreLadder(p, s.window); }
  }

  // ----- The failures, shown -----

  /** The thresholds of the balanced profile in a window of 100 000 tokens. */
  lemma BalancedThresholds()
    ensures ThresholdsFor(NewPolicy(Balanced, 100_000, NO_OVERRIDES), 100_000) ==
            Thresholds(48_000, 56_000, 64_000, 70_400, 16_000)
  {
    hide Derived, Normalized;
    NoOverridesNoWarning(Balanced, 100_000, 100_000);
    DerivedInWholeNumbers(Balanced, 100_000);
    BalancedNumbers();
  }

  lemma BalancedNumbers()
    ensures InWholeNumbers(Balanced, 100_000) == Thresholds(48_000, 56_000, 64_000, 70_400, 16_000)
    ensures
      var t := Thresholds(48_000, 56_000, 64_000, 70_400, 16_000);
      Normalized(t, 100_000) == t
  {
  }

  /** A request of the balanced profile in that window. */
  function Balanced100(tokens: nat, recent: nat, since: nat, overflow: bool): State {
    State(100_000, tokens, None, recent, true, since, overflow)
  }

  /** Ten tokens are refused for exceeding 64 000. */
  lemma RefusalBelowThreshold()
    ensures
      var p := NewPolicy(Balanced, 100_000, NO_OVERRIDES);
      Evaluate(p, Balanced100(10, 10, 0, true)).action == Refuse(Exceeds(10, 64_000))
  {
    hide ThresholdsFor;
    BalancedThresholds();
  }

  /** A reduction for recent messages over their target, of which there are none. */
  lemma ReductionWithoutRecent()
    ensures
      var p, s := NewPolicy(Balanced, 100_000, NO_OVERRIDES), Balanced100(63_999, 0, 60_000, false);
      Evaluate(p, s).action == ReducePayload(16_000) && !ReductionIsTrue(s, Evaluate(p, s).action)
  {
    hide ThresholdsFor;
    BalancedThresholds();
  }

  /** A compaction for exceeding a threshold that is just reached. */
  lemma CompactionAtThreshold()
    ensures
      var p := NewPolicy(Balanced, 100_000, NO_OVERRIDES);
      Evaluate(p, Balanced100(64_000, 0, 60_000, false)).action == Compact(L1Ordinary, Exceeds(64_000, 64_000), 16_000)
  {
    hide ThresholdsFor;
    BalancedThresholds();
  }

  // ----- Severity -----

  function Severity(a: Action): nat {
    match a
    case Keep => 0
    case Warn(_, _) => 1
    case ReducePayload(_) => 2
    case Compact(_, _, _) => 3
    case SuggestCheckpoint(_) => 4
    case Refuse(_) => 5
  }

  function WithTokens(s: State, tokens: nat): State {
    s.(measured := Some(tokens))
  }

  ghost predicate SeverityIsMonotone(p: Policy, s: State) {
    forall m: nat, n: nat :: m <= n ==>
      Severity(Evaluate(p, WithTokens(s, m)).action) <= Severity(Evaluate(p, WithTokens(s, n)).action)
  }

  /** When more tokens never make the decision milder, by what can be checked before the call. */
  predicate LadderIsOpen(p: Policy, s: State) {
    var t := ThresholdsFor(p, s.window);
    || (s.atSafeBoundary && s.sinceCompaction >= Cooldown(L3Checkpoint))
    || (!(s.atSafeBoundary && s.sinceCompaction >= Cooldown(L1Ordinary))
        && t.reduce == t.compact && s.recent <= t.recentTarget)
  }

  /**
   More tokens make the decision at least as severe exactly when no cooldown is running at a safe
   boundary, or when neither compaction nor payload reduction can come up. Between the two
   cooldowns it never holds: a checkpoint that has to wait falls back to a warning. After an overflow
   it fails at every safe boundary: a small request is refused and a larger one is compacted.
   */
  lemma SeverityIsMonotoneIff(p: Policy, s: State)
    ensures SeverityIsMonotone(p, s) <==>
            s.window < 3 || (if s.overflowObserved then !s.atSafeBoundary else LadderIsOpen(p, s))
  {
    hide ThresholdsFor;
    if s.window < 3 {
    } else if s.overflowObserved {
      var t := ThresholdsFor(p, s.window);
      assert s.atSafeBoundary ==>
        Severity(Evaluate(p, WithTokens(s, t.compact)).action) >
        Severity(Evaluate(p, WithTokens(s, t.compact + 1)).action);
    } else {
      SeverityOnLadder(p, s);
    }
  }

  lemma SeverityOnLadder(p: Policy, s: State)
    requires s.window >= 3 && !s.overflowObserved
    ensures SeverityIsMonotone(p, s) <==> LadderIsOpen(p, s)
  {
    hide ThresholdsFor;
    var t := ThresholdsFor(p, s.window);
    ThresholdsAreLadder(p, s.window);
    if !LadderIsOpen(p, s) {
      var (low, high) :=
        if s.atSafeBoundary && s.sinceCompaction >= Cooldown(L1Ordinary) then (t.compact, t.checkpoint)
        else if t.reduce < t.compact then (t.reduce, t.compact)
        else (0, t.compact);
      assert Severity(Evaluate(p, WithTokens(s, low)).action) > Severity(Evaluate(p, WithTokens(s, high)).action);
    }
  }

  /** A minute after a compaction the compact threshold compacts, and the checkpoint threshold only warns. */
  lemma SeverityDrops()
    ensures
      var p := NewPolicy(Balanced, 100_000, NO_OVERRIDES);
      && Evaluate(p, Balanced100(64_000, 0, 60_000, false)).action.Compact?
      && Evaluate(p, Balanced100(70_400, 0, 60_000, false)).action == Warn(70_400, 70_400)
      && !SeverityIsMonotone(p, Balanced100(0, 0, 60_000, false))
  {
    hide ThresholdsFor;
    BalancedThresholds();
    SeverityIsMonotoneIff(NewPolicy(Balanced, 100_000, NO_OVERRIDES), Balanced100(0, 0, 60_000, false));
  }

  // ----- Runs -----

  /** One request: the time since the request in front, what is measured, and whether history was rewritten. */
  datatype Step = Step(
    elapsed: nat, window: nat, tokens: nat, recent: nat, atSafeBoundary: bool, overflowObserved: bool, rewritten: bool)

  /** A session that never compacted has waited longer than any cooldown. */
  const NEVER := 0xFFFF_FFFF_FFFF_FFFF

  /** The milliseconds since the last rewriting at the time of a step, when there was one. */
  function SinceAt(since: Option<nat>, step: Step): Option<nat> {
    match since
    case None => None
    case Some(ms) => Some(ms + step.elapsed)
  }

  function StateAt(since: Option<nat>, step: Step): State {
    var at := SinceAt(since, step);
    State(step.window, step.tokens, None, step.recent, step.atSafeBoundary, OrElse(at, NEVER), step.overflowObserved)
  }

  function SinceBehind(since: Option<nat>, step: Step): Option<nat> {
    if step.rewritten then Some(0) else SinceAt(since, step)
  }

  /** The levels of the structural actions carried out in a run, those an overflow called for left out. */
  function Levels(p: Policy, since: Option<nat>, steps: seq<Step>): seq<Level>
    decreases |steps|
  {
    if steps == [] then []
    else
      var step := steps[0];
      var d := Evaluate(p, StateAt(since, step));
      var counts := step.rewritten && IsStructural(d.action) && !step.overflowObserved && d.level.Some?;
      (if counts then [d.level.value] else [])
      + Levels(p, SinceBehind(since, step), steps[1..])
  }

  function Duration(steps: seq<Step>): nat {
    if steps == [] then 0 else steps[0].elapsed + Duration(steps[1..])
  }

  function TotalCooldown(levels: seq<Level>): nat {
    if levels == [] then 0 else Cooldown(levels[0]) + TotalCooldown(levels[1..])
  }

  lemma TotalOfCons(level: Level, levels: seq<Level>)
    ensures TotalCooldown([level] + levels) == Cooldown(level) + TotalCooldown(levels)
  {
    assert ([level] + levels)[1..] == levels;
  }

  /**
   In every run the cooldowns of all structural actions carried out fit into its time: the
   first one may come at once in a session that never compacted, the others have to wait.
   */
  lemma {:induction false} CooldownsFit(p: Policy, since: Option<nat>, steps: seq<Step>)
    ensures
      var levels := Levels(p, since, steps);
      TotalCooldown(levels) <=
      Duration(steps)
      + (match since
         case Some(ms) => ms
         case None => if levels == [] then 0 else Cooldown(levels[0]))
    decreases |steps|
  {
    hide Evaluate, IsStructural;
    if steps != [] {
      var step := steps[0];
      var s := StateAt(since, step);
      var d := Evaluate(p, s);
      StructuralActionsWait(p, s);
      var rest := Levels(p, SinceBehind(since, step), steps[1..]);
      CooldownsFit(p, SinceBehind(since, step), steps[1..]);
      if step.rewritten && IsStructural(d.action) && !step.overflowObserved {
        TotalOfCons(d.level.value, rest);
      } else {
        assert Levels(p, since, steps) == rest;
      }
    }
  }

  /** One request over the compact threshold that is compacted. */
  function Compacted100(elapsed: nat): Step {
    Step(elapsed, 100_000, 64_000, 0, true, false, true)
  }

  /** Half a minute behind the first compaction a second one is carried out, and a millisecond earlier none is. */
  lemma SecondCompaction()
    ensures
      var p := NewPolicy(Balanced, 100_000, NO_OVERRIDES);
      && Levels(p, None, [Compacted100(0), Compacted100(30_000)]) == [L1Ordinary, L1Ordinary]
      && Levels(p, None, [Compacted100(0), Compacted100(29_999)]) == [L1Ordinary]
  {
    hide ThresholdsFor;
    BalancedThresholds();
    SecondLevels(30_000);
    SecondLevels(29_999);
  }

  lemma SecondLevels(elapsed: nat)
    ensures
      var p := NewPolicy(Balanced, 100_000, NO_OVERRIDES);
      Levels(p, None, [Compacted100(0), Compacted100(elapsed)]) ==
      if elapsed >= 30_000 then [L1Ordinary, L1Ordinary] else [L1Ordinary]
  {
    hide ThresholdsFor;
    var p := NewPolicy(Balanced, 100_000, NO_OVERRIDES);
    BalancedThresholds();
    var a, b := Compacted100(0), Compacted100(elapsed);
    assert [a, b][1..] == [b] && [b][1..] == [];
    assert Levels(p, Some(0), [b]) == if elapsed >= 30_000 then [L1Ordinary] else [];
    assert Evaluate(p, StateAt(None, a)).level == Some(L1Ordinary);
  }
}
