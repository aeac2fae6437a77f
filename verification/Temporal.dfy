/** Seconds and nanoseconds in two uint32 words: normalisation, sums and differences. */
module Temporal {
  const BILLION := 1_000_000_000
  const MAX_UINT32 := 0xFFFF_FFFF

  /** A time or a duration. */
  datatype Temporal = Temporal(sec: nat, nsec: nat)

  predicate Words(t: Temporal)
  {
    t.sec <= MAX_UINT32 && t.nsec <= MAX_UINT32
  }

  /** A call either yields a value or panics with "Time is out of range". */
  datatype Result = Ok(t: Temporal) | Panic

  /** Go's / and % truncate toward zero. */
  function Quo(a: int, b: int): int
    requires b > 0
  {
    if a >= 0 then a / b else -(-a / b)
  }

  function Rem(a: int, b: int): int
    requires b > 0
  {
    a - b * Quo(a, b)
  }

  function Normalize(sec: int, nsec: int): Result
  {
    var s := if nsec > BILLION then sec + Quo(nsec, BILLION)
             else if nsec < 0 then sec + Quo(nsec, BILLION) - 1 else sec;
    var n := if nsec > BILLION then Rem(nsec, BILLION) else if nsec < 0 then Rem(nsec, BILLION) + BILLION else nsec;
    if s < 0 || s > MAX_UINT32 then Panic else Ok(Temporal(s, n))
  }

  function ToNSec(t: Temporal): nat
  {
    t.sec * BILLION + t.nsec
  }

  function Add(t: Temporal, d: Temporal): Result
  {
    Normalize(t.sec + d.sec, t.nsec + d.nsec)
  }

  /** Sub and Diff. */
  function Sub(t: Temporal, d: Temporal): Result
  {
    Normalize(t.sec - d.sec, t.nsec - d.nsec)
  }

  function Cmp(a: Temporal, b: Temporal): int
  {
    if ToNSec(a) > ToNSec(b) then 1 else if ToNSec(a) < ToNSec(b) then -1 else 0
  }

  /** uint64 to int64, as FromNSec converts. */
  function ToInt64(n: nat): int
    requires n < 0x1_0000_0000_0000_0000
  {
    if n < 0x8000_0000_0000_0000 then n else n - 0x1_0000_0000_0000_0000
  }

  function FromNSec(n: nat): Result
    requires n < 0x1_0000_0000_0000_0000
  {
    Normalize(0, ToInt64(n))
  }

  /** Normalising keeps the instant, to the nanosecond; the nanoseconds end up in [0, 10^9], the upper end
      included because the test is strict. For each sign of the nanoseconds, when it panics. */
  lemma NormalizeExact(sec: int, nsec: int)
    ensures var r := Normalize(sec, nsec);
            var total := sec * 1_000_000_000 + nsec;
            && (r.Ok? ==>
                  && r.t.sec * 1_000_000_000 + r.t.nsec == total
                  && r.t.sec < 0x1_0000_0000 && r.t.nsec <= 1_000_000_000)
            && (r.Ok? <==> if nsec < 0 then 0 < total <= 0x1_0000_0000 * 1_000_000_000
                           else if nsec <= 1_000_000_000 then 0 <= sec < 0x1_0000_0000
                           else 0 <= total < 0x1_0000_0000 * 1_000_000_000)
  {
  }

  /** A full second of nanoseconds stays as it is, one nanosecond more is carried, and none is left negative. */
  lemma NormalizeExamples()
    ensures Normalize(1, 1_000_000_000) == Ok(Temporal(1, 1_000_000_000))
    ensures Normalize(1, 1_000_000_001) == Ok(Temporal(2, 1))
    ensures Normalize(2, -1) == Ok(Temporal(1, 999_999_999))
    ensures Normalize(0, -1) == Panic && Normalize(0x1_0000_0000, 0) == Panic
  {
  }

  /** Comparing is comparing instants. */
  lemma CmpExact(a: Temporal, b: Temporal)
    ensures var gap := (a.sec * 1_000_000_000 + a.nsec) - (b.sec * 1_000_000_000 + b.nsec);
            Cmp(a, b) == if gap > 0 then 1 else if gap < 0 then -1 else 0
  {
  }

  /** Sums and differences are exact whenever they return. */
  lemma ArithmeticExact(t: Temporal, d: Temporal)
    ensures ToNSec(t) == t.sec * 1_000_000_000 + t.nsec
    ensures Add(t, d).Ok? ==> ToNSec(Add(t, d).t) == ToNSec(t) + ToNSec(d)
    ensures Sub(t, d).Ok? ==> ToNSec(Sub(t, d).t) == ToNSec(t) - ToNSec(d)
  {
  }

  /** What is added can be taken off again: the result denotes the same instant. */
  lemma AddThenSub(t: Temporal, d: Temporal)
    requires Words(t) && Words(d) && t.nsec <= BILLION && d.nsec <= BILLION && Add(t, d).Ok?
    ensures var back := Sub(Add(t, d).t, d);
            back.Ok? && Cmp(back.t, t) == 0
  {
  }

  /** Between operands as normalisation leaves them, subtraction panics exactly when the first is earlier,
      or when both denote one instant but are written differently. */
  lemma SubPanicsIff(a: Temporal, b: Temporal)
    requires Words(a) && Words(b) && a.nsec <= BILLION && b.nsec <= BILLION
    ensures Sub(a, b).Ok? <==> Cmp(a, b) > 0 || a == b
  {
  }

  /** So with less than a second of nanoseconds, Cmp alone decides. */
  lemma SubGuardedByCmp(a: Temporal, b: Temporal)
    requires Words(a) && Words(b) && a.nsec < BILLION && b.nsec < BILLION
    ensures Sub(a, b).Ok? <==> Cmp(a, b) >= 0
  {
  }

  /** One instant, two normalised spellings: Cmp calls them equal, yet neither can be subtracted from the
      other. */
  lemma FullSecondBreaksSub()
    ensures var a, b := Temporal(1, 0), Temporal(0, BILLION);
            Cmp(a, b) == 0 && Normalize(0, BILLION) == Ok(b) && Sub(a, b).Panic? && Sub(b, a).Panic?
  {
  }

  /** FromNSec inverts ToNSec, and returns exactly for the counts below 2^32 seconds; counts from 2^63 on
      wrap to negative and panic with the rest. */
  lemma FromNSecExact(n: nat)
    requires n < 0x1_0000_0000_0000_0000
    ensures FromNSec(n).Ok? <==> n < 0x1_0000_0000 * 1_000_000_000
    ensures FromNSec(n).Ok? ==> FromNSec(n).t.sec * 1_000_000_000 + FromNSec(n).t.nsec == ToNSec(FromNSec(n).t) == n
  {
  }

  /** The mutable form, whose methods write the two words in place. */
  class Cell {
    var Sec: nat
    var NSec: nat

    constructor ()
      ensures Current() == Temporal(0, 0)
    {
      Sec, NSec := 0, 0;
    }

    function Current(): Temporal
      reads this
    {
      Temporal(Sec, NSec)
    }

    /** False stands for the panic, which leaves the words alone. */
    method FromNSec(n: nat) returns (ok: bool)
      requires n < 0x1_0000_0000_0000_0000
      modifies this
      ensures ok <==> n < (MAX_UINT32 + 1) * BILLION
      ensures if ok then ToNSec(Current()) == n && NSec <= BILLION else Current() == old(Current())
    {
      FromNSecExact(n);
      NormalizeExact(0, ToInt64(n));
      var r := Normalize(0, ToInt64(n));
      ok := r.Ok?;
      if ok {
        Sec, NSec := r.t.sec, r.t.nsec;
      }
    }

    method NormalizeInPlace() returns (ok: bool)
      requires Words(Current())
      modifies this
      ensures if ok then ToNSec(Current()) == ToNSec(old(Current())) && NSec <= BILLION
              else Current() == old(Current()) && ToNSec(Current()) >= (MAX_UINT32 + 1) * BILLION
    {
      NormalizeExact(Sec, NSec);
      var r := Normalize(Sec, NSec);
      ok := r.Ok?;
      if ok {
        Sec, NSec := r.t.sec, r.t.nsec;
      }
    }
  }
}
