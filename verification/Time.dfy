/** Times of day (kernel/kern/time.c) with the source's widths: unsigned 64-bit seconds, signed 32-bit microseconds. */
module Time {
  import opened Range

  const HALF: int := 0x8000_0000
  const U64: nat := 0x1_0000_0000_0000_0000
  const MICROS: int := 1_000_000

  type u64 = x: nat | x < U64
  type i32 = x: int | -HALF <= x < HALF

  /** Conversion to a signed 32-bit integer. */
  function S32(x: int): i32 {
    (x + HALF) % W - HALF
  }

  /** Conversion to an unsigned 64-bit integer. */
  function Wrap64(x: int): u64 {
    x % U64
  }

  lemma S32Id(x: int)
    ensures S32(x) == x <==> -HALF <= x < HALF
  {
  }

  lemma S32Shift(x: int, k: int)
    ensures S32(x + W * k) == S32(x)
  {
    ModShift(x + HALF, k);
  }

  lemma ModShift(x: int, k: int)
    ensures (x + W * k) % W == x % W
  {
    var q, r := x / W, x % W;
    assert x + W * k == W * (q + k) + r && 0 <= r < W;
    ModIs(x + W * k, q + k, r);
  }

  lemma ModIs(x: int, q: int, r: int)
    requires x == W * q + r && 0 <= r < W
    ensures x % W == r
  {
  }

  /** Intermediate conversions make no difference. */
  lemma S32Sum(x: int, y: int)
    ensures S32(S32(x) + y) == S32(x + y) && S32(x + S32(y)) == S32(x + y)
  {
    var k, m := (x + HALF) / W, (y + HALF) / W;
    assert S32(x) == x - W * k && S32(y) == y - W * m;
    S32Shift(x + y, -k);
    S32Shift(x + y, -m);
  }

  lemma S32Wrap64(x: int)
    ensures S32(Wrap64(x)) == S32(x)
  {
    var k := x / U64;
    assert Wrap64(x) == x - U64 * k && U64 * k == W * (W * k);
    S32Shift(x, -(W * k));
  }

  datatype Timeval = Timeval(sec: u64, usec: i32)

  /** The instant a time of day names, in microseconds since the epoch. */
  function Value(t: Timeval): int {
    t.sec * MICROS + t.usec
  }

  predicate Normal(t: Timeval) {
    0 <= t.usec < MICROS
  }

  /** C's division and remainder, which truncate towards zero. */
  function Quot(x: int, d: int): int
    requires d > 0
  {
    if x >= 0 then x / d else -((-x) / d)
  }

  function Rem(x: int, d: int): int
    requires d > 0
  {
    x - d * Quot(x, d)
  }

  /** time_normalise. */
  function Normalise(t: Timeval): Timeval {
    var s, us := Quot(t.usec, MICROS), Rem(t.usec, MICROS);
    if us < 0 then Timeval(Wrap64(Wrap64(t.sec + s) - 1), S32(us + MICROS)) else Timeval(Wrap64(t.sec + s), S32(us))
  }

  /** The instants that normalised times can name. */
  predicate Nameable(v: int) {
    0 <= v < U64 * MICROS
  }

  /** The seconds, before they wrap, and the microseconds of a normalised time. */
  lemma Split(t: Timeval) returns (c: int, u: int)
    ensures Value(t) == c * MICROS + u && 0 <= u < MICROS && Normalise(t) == Timeval(Wrap64(c), u)
  {
    hide Wrap64;
    var s, us := Quot(t.usec, MICROS), Rem(t.usec, MICROS);
    c, u := if us < 0 then t.sec + s - 1 else t.sec + s, if us < 0 then us + MICROS else us;
    CarryWraps(t.sec + s);
  }

  /** Normalising always brings the microseconds in range, and names the same instant exactly when it can be named. */
  lemma NormaliseValue(t: Timeval)
    ensures Normal(Normalise(t)) && (Value(Normalise(t)) == Value(t) <==> Nameable(Value(t)))
  {
    hide Normalise;
    var c, u := Split(t);
    assert Nameable(Value(t)) <==> 0 <= c < U64;
  }

  lemma CarryWraps(x: int)
    ensures Wrap64(Wrap64(x) - 1) == Wrap64(x - 1)
  {
  }

  /** The instant before the epoch has no name: it becomes the last one. */
  lemma NormaliseWraps()
    ensures Normalise(Timeval(0, -1)) == Timeval(U64 - 1, 999_999) && Value(Timeval(0, -1)) == -1
  {
    hide Normalise;
    var c, u := Split(Timeval(0, -1));
    assert c == -1;
  }

  /** time_add: normalises the time added to, but adds the difference as it is. */
  function TimeAdd(dest: Timeval, diff: Timeval): Timeval {
    var d := Normalise(dest);
    Timeval(Wrap64(d.sec + diff.sec), S32(d.usec + diff.usec))
  }

  /** Neither the seconds nor the microseconds of the sum leave their range. */
  predicate SumFits(dest: Timeval, diff: Timeval) {
    0 <= Value(dest) / MICROS + diff.sec < U64 && Value(dest) % MICROS + diff.usec < HALF
  }

  /** It names the sum of the instants exactly when the parts of the sum fit; the result may need normalising again. */
  lemma TimeAddExact(dest: Timeval, diff: Timeval)
    ensures Value(TimeAdd(dest, diff)) == Value(dest) + Value(diff) <==> SumFits(dest, diff)
    ensures TimeAdd(dest, diff).usec == S32(Value(dest) % MICROS + diff.usec)
  {
    hide Normalise, Wrap64;
    var c, u := Split(dest);
    Parts(c, u);
    var x := u + diff.usec;
    var k := SumWraps(c, diff.sec);
    var e := (x + HALF) / W;
    assert S32(x) == x - W * e && 0 <= e <= 1;
    assert Value(TimeAdd(dest, diff)) - Value(dest) - Value(diff) == -(U64 * MICROS * k + W * e);
    assert U64 * MICROS * k + W * e == 0 <==> k == 0 && e == 0;
  }

  lemma Parts(c: int, u: int)
    requires 0 <= u < MICROS
    ensures (c * MICROS + u) / MICROS == c && (c * MICROS + u) % MICROS == u
  {
  }

  lemma SumWraps(c: int, d: int) returns (k: int)
    ensures Wrap64(Wrap64(c) + d) == c + d - U64 * k && (k == 0 <==> 0 <= c + d < U64)
  {
    k := (c + d) / U64;
    assert Wrap64(Wrap64(c) + d) == Wrap64(c + d);
  }

  /** With a normalised difference nothing but the end of the nameable instants is in the way. */
  lemma TimeAddValue(dest: Timeval, diff: Timeval)
    requires Nameable(Value(dest)) && Normal(diff) && Nameable(Value(dest) + Value(diff))
    ensures Value(TimeAdd(dest, diff)) == Value(dest) + Value(diff)
    ensures TimeAdd(dest, diff).usec == Normalise(dest).usec + diff.usec
  {
    NormaliseValue(dest);
    TimeAddExact(dest, diff);
    var d := Normalise(dest);
    assert Value(dest) / MICROS == d.sec && Value(dest) % MICROS == d.usec;
  }

  /** A difference of almost 2^31 microseconds takes the sum below zero. */
  lemma TimeAddWraps()
    ensures TimeAdd(Timeval(0, 1), Timeval(0, HALF - 1)).usec == -HALF && !SumFits(Timeval(0, 1), Timeval(0, HALF - 1))
  {
  }

  /** time_cmp looks at the seconds and microseconds as they are; its normalised copies go unused. */
  function TimeCmp(a: Timeval, b: Timeval): i32 {
    if a.sec < b.sec then -1 else if a.sec > b.sec then 1 else S32(a.usec - b.usec)
  }

  /** The microseconds do not outweigh the difference of the seconds, and their own difference does not wrap. */
  predicate CmpFits(a: Timeval, b: Timeval) {
    if a.sec == b.sec then -HALF <= a.usec - b.usec < HALF
    else if a.sec < b.sec then a.usec - b.usec <= (b.sec - a.sec) * MICROS
    else b.usec - a.usec < (a.sec - b.sec) * MICROS
  }

  /** The result says which instant is earlier exactly for such times. */
  lemma TimeCmpExact(a: Timeval, b: Timeval)
    ensures (TimeCmp(a, b) <= 0 <==> Value(a) <= Value(b)) <==> CmpFits(a, b)
  {
    SecondsApart(a, b);
    if a.sec == b.sec { S32Id(a.usec - b.usec); }
  }

  lemma SecondsApart(a: Timeval, b: Timeval)
    ensures Value(b) - Value(a) == (b.sec - a.sec) * MICROS + (b.usec - a.usec)
  {
  }

  /** On normalised times it is the order of the instants. */
  lemma TimeCmpOrder(a: Timeval, b: Timeval)
    requires Normal(a) && Normal(b)
    ensures TimeCmp(a, b) <= 0 <==> Value(a) <= Value(b)
    ensures TimeCmp(a, b) == 0 <==> a == b
  {
    TimeCmpExact(a, b);
  }

  /** Away from the ends of the seconds, the normalised times are those that compare rightly with every normalised
      time. */
  lemma TimeCmpNormal(a: Timeval)
    requires 0 < a.sec < U64 - 1
    ensures Normal(a) <==> forall b :: Normal(b) ==> CmpFits(a, b) && CmpFits(b, a)
  {
    if a.usec >= MICROS {
      var b := Timeval(a.sec + 1, 0);
      assert Normal(b) && !(CmpFits(a, b) && CmpFits(b, a));
    } else if a.usec < 0 {
      var b := Timeval(a.sec - 1, 999_999);
      assert Normal(b) && !(CmpFits(a, b) && CmpFits(b, a));
    }
  }

  /** Two seconds written as microseconds count as earlier than one second. */
  lemma TimeCmpUnnormalised()
    ensures TimeCmp(Timeval(0, 2_000_000), Timeval(1, 0)) < 0 && Value(Timeval(0, 2_000_000)) > Value(Timeval(1, 0))
  {
  }

  /** The delay timers_convert_far_to_near computes: unsigned 64-bit seconds, then signed 32-bit microseconds. */
  function Delay(time: Timeval, now: Timeval): i32 {
    S32(S32(Wrap64(Wrap64(time.sec - now.sec) * MICROS)) + S32(time.usec - now.usec))
  }

  /** All the wrapping amounts to one conversion of the true distance. */
  lemma DelayValue(time: Timeval, now: Timeval)
    ensures Delay(time, now) == S32(Value(time) - Value(now))
  {
    var d, u := time.sec - now.sec, time.usec - now.usec;
    var k := d / U64;
    assert Wrap64(d) * MICROS == d * MICROS - U64 * (k * MICROS);
    S32Wrap64(Wrap64(d) * MICROS);
    assert U64 * (k * MICROS) == W * (W * (k * MICROS));
    S32Shift(d * MICROS, -(W * (k * MICROS)));
    S32Sum(Wrap64(Wrap64(d) * MICROS), S32(u));
    S32Sum(d * MICROS, u);
    S32Sum(d * MICROS, S32(u));
  }
}
