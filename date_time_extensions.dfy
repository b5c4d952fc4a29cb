/**
 * RoundToNearest: a DateTime moved to the nearest multiple of a TimeSpan, on ticks.
 * The C# remainder and division truncate toward zero; both are written out here.
 */
module DateTimeExtensions {
  import opened Wrappers

  /** The largest tick count a DateTime holds (23:59:59.9999999 on 31 December 9999). */
  const MaxTicks: int := 3155378975999999999

  const TicksPerHour: int := 36000000000
  const TicksPerDay: int := 24 * TicksPerHour

  datatype DateTimeKind = Unspecified | Utc | Local

  datatype DateTime = DateTime(ticks: int, kind: DateTimeKind)
  {
    ghost predicate Valid() { 0 <= ticks <= MaxTicks }
  }

  datatype TimeSpan = TimeSpan(ticks: int)

  /** DivideByZeroException from `%` by a zero block; ArgumentOutOfRangeException from the DateTime constructor. */
  datatype RoundingError = DivideByZero | TicksOutOfRange

  /** C# integer division: the quotient truncated toward zero. */
  function TruncDiv(a: int, b: int): (q: int)
    requires b != 0
    ensures a >= 0 && b > 0 ==> q == a / b
  {
    var m := (if a < 0 then -a else a) / (if b < 0 then -b else b);
    if (a < 0) != (b < 0) then -m else m
  }

  /** C# remainder: it takes the sign of the dividend. */
  function TruncRem(a: int, b: int): (r: int)
    requires b != 0
    ensures a >= 0 && b > 0 ==> r == a % b
  {
    a - b * TruncDiv(a, b)
  }

  /** The rounding, with the exceptions it can throw as failures. */
  function RoundToNearest(dateTime: DateTime, block: TimeSpan): (r: Result<DateTime, RoundingError>)
    requires dateTime.Valid()
    ensures r == Failure(DivideByZero) <==> block.ticks == 0
    ensures r.Success? ==> r.value.Valid() && r.value.kind == dateTime.kind
  {
    if block.ticks == 0 then Failure(DivideByZero)
    else
      var delta := TruncRem(dateTime.ticks, block.ticks);
      var roundUp := delta > TruncDiv(block.ticks, 2);
      var offset := if roundUp then block.ticks else 0;
      var ticks := dateTime.ticks + offset - delta;
      if 0 <= ticks <= MaxTicks then Success(DateTime(ticks, dateTime.kind))
      else Failure(TicksOutOfRange)
  }

  /** For a positive block: the tick count RoundToNearest aims at, before the range check. */
  function Target(t: nat, b: int): (u: int)
    requires b > 0
    ensures u % b == 0
    ensures u == t - t % b || u == t - t % b + b
  {
    MultipleOfBlock(t - t % b, b, t / b);
    MultipleOfBlock(t - t % b + b, b, t / b + 1);
    if t % b <= b / 2 then t - t % b else t - t % b + b
  }

  lemma MultipleOfBlock(u: int, b: int, k: int)
    requires b > 0 && u == k * b
    ensures u % b == 0
  {
    var m := k - u / b;
    assert u == (u / b) * b + u % b;
    assert m * b == u % b by {
      assert m * b == k * b - (u / b) * b;
    }
    if m >= 1 {
      MulMonotone(1, m, b);
    } else if m <= -1 {
      MulMonotone(m, -1, b);
    }
  }

  /**
   * With a positive block the result is the lower multiple when the remainder is at
   * most half the block (an exact half rounds down), the next multiple otherwise, and
   * it fails only when that multiple lies past the last representable tick.
   */
  lemma RoundsToTarget(dateTime: DateTime, block: TimeSpan)
    requires dateTime.Valid() && block.ticks > 0
    ensures var r := RoundToNearest(dateTime, block);
            var u := Target(dateTime.ticks, block.ticks);
            && (r.Success? <==> u <= MaxTicks)
            && (r.Success? ==> r.value == DateTime(u, dateTime.kind))
  {
  }

  /** The result is a multiple of the block. */
  lemma RoundedIsMultiple(dateTime: DateTime, block: TimeSpan)
    requires dateTime.Valid() && block.ticks > 0
    requires RoundToNearest(dateTime, block).Success?
    ensures RoundToNearest(dateTime, block).value.ticks % block.ticks == 0
  {
    RoundsToTarget(dateTime, block);
  }

  /** The result lies within half a block (integer division) of the input. */
  lemma WithinHalfBlock(dateTime: DateTime, block: TimeSpan)
    requires dateTime.Valid() && block.ticks > 0
    requires RoundToNearest(dateTime, block).Success?
    ensures var d := RoundToNearest(dateTime, block).value.ticks - dateTime.ticks;
            -(block.ticks / 2) <= d <= block.ticks / 2
  {
    RoundsToTarget(dateTime, block);
  }

  /** No multiple of the block is closer to the input than the result. */
  lemma {:induction false} NearestMultiple(t: nat, b: int, k: int)
    requires b > 0
    ensures Distance(Target(t, b), t) <= Distance(k * b, t)
  {
    var q, delta := t / b, t % b;
    assert t == q * b + delta;
    if k <= q {
      MulMonotone(k, q, b);
      assert t - k * b >= delta;
    } else {
      MulMonotone(q + 1, k, b);
      assert k * b - t >= b - delta;
    }
  }

  function Distance(x: int, y: int): nat
  {
    if x >= y then x - y else y - x
  }

  lemma MulMonotone(i: int, j: int, b: int)
    requires i <= j && b > 0
    ensures i * b <= j * b
  {
    assert j * b - i * b == (j - i) * b;
  }

  /** An input already on a multiple of the block comes back unchanged. */
  lemma MultipleUnchanged(dateTime: DateTime, block: TimeSpan)
    requires dateTime.Valid() && block.ticks > 0
    requires dateTime.ticks % block.ticks == 0
    ensures RoundToNearest(dateTime, block) == Success(dateTime)
  {
    RoundsToTarget(dateTime, block);
  }

  /** Rounding a rounded value again changes nothing. */
  lemma RoundingIsIdempotent(dateTime: DateTime, block: TimeSpan)
    requires dateTime.Valid() && block.ticks > 0
    requires RoundToNearest(dateTime, block).Success?
    ensures var once := RoundToNearest(dateTime, block).value;
            RoundToNearest(once, block) == Success(once)
  {
    RoundedIsMultiple(dateTime, block);
    MultipleUnchanged(RoundToNearest(dateTime, block).value, block);
  }

  /** The three cases of the unit tests, taken from any midnight. */
  lemma TestCases(midnight: nat, kind: DateTimeKind)
    requires midnight % TicksPerDay == 0 && midnight + TicksPerDay <= MaxTicks
    ensures RoundToNearest(DateTime(midnight + 11 * TicksPerHour, kind), TimeSpan(TicksPerDay))
            == Success(DateTime(midnight, kind))
    ensures RoundToNearest(DateTime(midnight + 13 * TicksPerHour, kind), TimeSpan(TicksPerDay))
            == Success(DateTime(midnight + TicksPerDay, kind))
    ensures RoundToNearest(DateTime(midnight + 11 * TicksPerHour, kind), TimeSpan(12 * TicksPerHour))
            == Success(DateTime(midnight + 12 * TicksPerHour, kind))
  {
    var d := midnight / TicksPerDay;
    var hour := TicksPerHour;
    assert midnight == d * (24 * hour);
    assert midnight == (2 * d) * (12 * hour);
    OffsetRemainder(d, 24 * hour, 11 * hour);
    OffsetRemainder(d, 24 * hour, 13 * hour);
    OffsetRemainder(2 * d, 12 * hour, 11 * hour);
    RoundsToTarget(DateTime(midnight + 11 * hour, kind), TimeSpan(24 * hour));
    RoundsToTarget(DateTime(midnight + 13 * hour, kind), TimeSpan(24 * hour));
    RoundsToTarget(DateTime(midnight + 11 * hour, kind), TimeSpan(12 * hour));
  }

  lemma OffsetRemainder(k: int, b: int, r: int)
    requires b > 0 && 0 <= r < b
    ensures (k * b + r) % b == r
  {
    var t := k * b + r;
    var m := t / b - k;
    assert t == (t / b) * b + t % b;
    assert m * b == r - t % b by {
      assert m * b == (t / b) * b - k * b;
    }
    if m >= 1 {
      MulMonotone(1, m, b);
    } else if m <= -1 {
      MulMonotone(m, -1, b);
    }
  }
}
