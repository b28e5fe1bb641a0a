/** Splitting a duration into hours, minutes and seconds the way the components do it:
    `Math.floor(seconds / 3600)`, `Math.floor((seconds % 3600) / 60)` and
    `Math.floor(seconds % 60)`, where `seconds = ms / 1000`.

    `Math.floor` of a quotient by a positive constant is Dafny's `/` on `int`, which
    rounds towards minus infinity for a positive divisor. JavaScript's `%` truncates
    (the remainder takes the sign of the dividend); `JsRem` writes that out. Since
    `(ms / 1000) % 3600 == JsRem(ms, 3600000) / 1000` exactly, every field is computed
    on milliseconds without rounding. */
module TimeFormat {

  const MsPerSecond := 1000
  const MsPerMinute := 60000
  const MsPerHour := 3600000

  /** JavaScript's `a % b` for a positive divisor: what is left of `a` after taking
      away `b` as often as possible without changing sign. */
  function JsRem(a: int, b: int): (r: int)
    requires b > 0
    ensures -b < r < b
    ensures a >= 0 ==> 0 <= r <= a
    ensures a <= 0 ==> a <= r <= 0
  {
    if a >= 0 then a % b else -((-a) % b)
  }

  /** Away from the sign, `JsRem` agrees with Dafny's Euclidean `%`. */
  lemma JsRemNonNegative(a: int, b: int)
    requires a >= 0 && b > 0
    ensures JsRem(a, b) == a % b
  {
  }

  /** The remainder takes the sign of the dividend: negating `a` negates it. */
  lemma JsRemOdd(a: int, b: int)
    requires b > 0
    ensures JsRem(-a, b) == -JsRem(a, b)
  {
  }

  /** `Math.floor(seconds / 3600)`: the whole hours, rounded downwards. */
  function HoursOf(ms: int): (h: int)
    ensures h * MsPerHour <= ms < h * MsPerHour + MsPerHour
    ensures ms >= 0 ==> h >= 0
  {
    ms / MsPerHour
  }

  /** `Math.floor((seconds % 3600) / 60)`: for a non-negative duration, the minutes
      left over after the whole hours. */
  function MinutesOf(ms: int): (m: int)
    ensures -60 <= m < 60
    ensures ms >= 0 ==> 0 <= m && HoursOf(ms) * 60 + m == ms / MsPerMinute
  {
    var r1 := JsRem(ms, MsPerHour);
    if ms >= 0 then
      var h := ms / MsPerHour;
      assert ms == MsPerHour * h + r1;
      var m := r1 / MsPerMinute;
      var r2 := r1 % MsPerMinute;
      assert r1 == MsPerMinute * m + r2;
      assert ms == MsPerMinute * (60 * h + m) + r2;
      m
    else
      r1 / MsPerMinute
  }

  /** `Math.floor(seconds % 60)`: for a non-negative duration, the seconds left over
      after the whole minutes. */
  function SecondsOf(ms: int): (s: int)
    ensures -60 <= s < 60
    ensures ms >= 0 ==> 0 <= s && (ms / MsPerMinute) * 60 + s == ms / MsPerSecond
  {
    var r := JsRem(ms, MsPerMinute);
    if ms >= 0 then
      var m := ms / MsPerMinute;
      assert ms == MsPerMinute * m + r;
      var s := r / MsPerSecond;
      assert r == MsPerSecond * s + r % MsPerSecond;
      assert ms == MsPerSecond * (60 * m + s) + r % MsPerSecond;
      s
    else
      r / MsPerSecond
  }

  /** For a non-negative duration the three fields are the usual clock reading: minutes
      and seconds below 60, and together they give the whole seconds of the duration. */
  lemma Decompose(ms: int)
    requires ms >= 0
    ensures HoursOf(ms) >= 0
    ensures 0 <= MinutesOf(ms) < 60 && 0 <= SecondsOf(ms) < 60
    ensures HoursOf(ms) * 3600 + MinutesOf(ms) * 60 + SecondsOf(ms) == ms / 1000
  {
    var h := ms / MsPerHour;
    var r1 := ms % MsPerHour;
    assert ms == MsPerHour * h + r1;
    var m := r1 / MsPerMinute;
    var r2 := r1 % MsPerMinute;
    assert r1 == MsPerMinute * m + r2;
    assert 0 <= m < 60;
    assert ms == MsPerMinute * (60 * h + m) + r2;
    assert ms % MsPerMinute == r2;
    var s := r2 / MsPerSecond;
    assert r2 == MsPerSecond * s + r2 % MsPerSecond;
    assert ms == MsPerSecond * (3600 * h + 60 * m + s) + r2 % MsPerSecond;
    assert ms / 1000 == 3600 * h + 60 * m + s;
  }

  /** Whatever the sign, minutes and seconds stay within -60 and 59 (a negative duration
      floors its fields downwards). */
  lemma FieldsBounded(ms: int)
    ensures -60 <= MinutesOf(ms) < 60 && -60 <= SecondsOf(ms) < 60
  {
    var r1 := JsRem(ms, MsPerHour);
    var r2 := JsRem(ms, MsPerMinute);
    assert -MsPerHour < r1 < MsPerHour;
    assert -MsPerMinute < r2 < MsPerMinute;
  }

  /** The hour field is positive exactly from one full hour on. */
  lemma HoursPositive(ms: int)
    ensures HoursOf(ms) > 0 <==> ms >= MsPerHour
  {
  }

  /** The "hours and minutes" reading of a non-negative duration is its whole minutes. */
  lemma HoursAndMinutes(ms: int)
    requires ms >= 0
    ensures HoursOf(ms) >= 0 && 0 <= MinutesOf(ms) < 60
    ensures HoursOf(ms) * 60 + MinutesOf(ms) == ms / MsPerMinute
  {
    var h := ms / MsPerHour;
    var r1 := ms % MsPerHour;
    assert ms == MsPerHour * h + r1;
    var m := r1 / MsPerMinute;
    var r2 := r1 % MsPerMinute;
    assert r1 == MsPerMinute * m + r2;
    assert ms == MsPerMinute * (60 * h + m) + r2;
  }

  /** `Math.round(num / den)` for a positive `den`: the nearest integer, halves rounded
      upwards. */
  function RoundDiv(num: int, den: int): (r: int)
    requires den > 0
    ensures 2 * den * r - den <= 2 * num < 2 * den * r + den
  {
    (2 * num + den) / (2 * den)
  }

  /** Rounding a non-negative quotient never gives a negative number. */
  lemma RoundDivNonNegative(num: int, den: int)
    requires den > 0 && num >= 0
    ensures RoundDiv(num, den) >= 0
  {
    assert 2 * num + den >= 0 && 2 * den > 0;
  }
}
