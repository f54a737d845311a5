/** `clamp_pct` and `additions_deletions_ratio`, over exact reals. */
module Percent {
  import opened Common

  /** What Python's `float(p)` makes of a value: a number, NaN, or nothing at all
      (the `TypeError`/`ValueError`/`OverflowError` cases). */
  datatype Number = Num(x: real) | NaN | Uncoercible

  function Max(a: real, b: real): real { if a >= b then a else b }
  function MinReal(a: real, b: real): real { if a <= b then a else b }

  /** `clamp_pct(p)`: always within [0, 100]; a number already in range is kept, a
      number below (above) the range gives 0 (100), and NaN or a value `float()`
      rejects gives exactly 0. */
  function ClampPct(p: Number): (r: real)
    ensures 0.0 <= r <= 100.0
    ensures p.Num? && 0.0 <= p.x <= 100.0 ==> r == p.x
    ensures p.Num? && p.x < 0.0 ==> r == 0.0
    ensures p.Num? && p.x > 100.0 ==> r == 100.0
    ensures !p.Num? ==> r == 0.0
  {
    match p
    case Num(x) => Max(0.0, MinReal(100.0, x))
    case _ => 0.0
  }

  /** Clamping is idempotent: a clamped value passes through unchanged. */
  lemma ClampIdempotent(p: Number)
    ensures ClampPct(Num(ClampPct(p))) == ClampPct(p)
  {
  }

  /** Clamping never reverses the order of two numbers. */
  lemma ClampMonotone(x: real, y: real)
    requires x <= y
    ensures ClampPct(Num(x)) <= ClampPct(Num(y))
  {
  }

  /** A change count on a project, as `float(item.get(key) or 0)` sees it: missing or
      falsy (`None`, `0`, `""`, `[]`, `False`), a value `float()` converts (a number
      or a numeric string), or a truthy value it rejects. */
  datatype Count = Missing | Given(v: real) | Malformed

  /** `float(item.get(key) or 0)`. */
  function CountValue(c: Count): Result<real>
  {
    match c
    case Missing => Ok(0.0)
    case Given(v) => Ok(v)
    case Malformed => ValueError
  }

  /** The four counters `additions_deletions_ratio` reads from a project. */
  datatype Changes = Changes(aiAdditions: Count, aiDeletions: Count,
                             humanAdditions: Count, humanDeletions: Count)

  predicate Readable(c: Changes)
  {
    CountValue(c.aiAdditions).Ok? && CountValue(c.aiDeletions).Ok?
    && CountValue(c.humanAdditions).Ok? && CountValue(c.humanDeletions).Ok?
  }

  /** Human plus AI additions, floored at 0. */
  function Additions(c: Changes): real
    requires Readable(c)
  {
    Max(0.0, CountValue(c.humanAdditions).value + CountValue(c.aiAdditions).value)
  }

  /** Human plus AI deletions, floored at 0. */
  function Deletions(c: Changes): real
    requires Readable(c)
  {
    Max(0.0, CountValue(c.humanDeletions).value + CountValue(c.aiDeletions).value)
  }

  /** The two bar widths of a project row, as percentages. */
  datatype Ratio = Ratio(additions: real, deletions: real)

  /** `additions_deletions_ratio(item)`. It raises exactly when a counter is not a
      number. Otherwise both shares lie in [0, 100]; with no changes at all they are
      both 0, and with some changes the additions share is the additions'
      proportion of all changes and the two shares sum to exactly 100. */
  function AdditionsDeletionsRatio(c: Changes): (r: Result<Ratio>)
    ensures r.Ok? <==> Readable(c)
    ensures r.Ok? ==> 0.0 <= r.value.additions <= 100.0 && 0.0 <= r.value.deletions <= 100.0
    ensures r.Ok? && Additions(c) + Deletions(c) <= 0.0 ==> r.value == Ratio(0.0, 0.0)
    ensures r.Ok? && Additions(c) + Deletions(c) > 0.0 ==>
      && r.value.additions == Additions(c) / (Additions(c) + Deletions(c)) * 100.0
      && r.value.additions + r.value.deletions == 100.0
  {
    if !Readable(c) then ValueError
    else
      var additions := Additions(c);
      var deletions := Deletions(c);
      var total := additions + deletions;
      if total <= 0.0 then Ok(Ratio(0.0, 0.0))
      else
        var share := additions / total * 100.0;
        assert 0.0 <= share <= 100.0 by { ShareInRange(additions, total); }
        var additionsPct := ClampPct(Num(share));
        var deletionsPct := ClampPct(Num(100.0 - additionsPct));
        Ok(Ratio(additionsPct, deletionsPct))
  }

  /** A part of a positive whole is between 0 and 100 percent of it. */
  lemma ShareInRange(part: real, total: real)
    requires 0.0 <= part <= total && total > 0.0
    ensures 0.0 <= part / total * 100.0 <= 100.0
  {
    assert part / total <= 1.0;
  }

  /** No changes, or only negative counts, give an empty bar. */
  lemma RatioNoChanges(c: Changes)
    requires Readable(c)
    requires Additions(c) == 0.0 && Deletions(c) == 0.0
    ensures AdditionsDeletionsRatio(c) == Ok(Ratio(0.0, 0.0))
  {
  }

  /** 30 human additions and 10 human deletions give 75% and 25%. */
  lemma RatioExample()
    ensures AdditionsDeletionsRatio(Changes(Missing, Missing, Given(30.0), Given(10.0)))
         == Ok(Ratio(75.0, 25.0))
  {
  }
}
