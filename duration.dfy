/**
  A whole number of seconds, converted into hours, minutes and seconds with
  floor division and modulus.  The script computes this twice, once for 3672
  seconds and once for 5000 seconds; both blocks are instances of `Decompose`.
 */
module DurationConverter {

  const SecondsPerHour: nat := 3600
  const SecondsPerMinute: nat := 60
  const MinutesPerHour: nat := 60

  /** The (hours, minutes, seconds) triple the script produces. */
  datatype Duration = Duration(hours: nat, minutes: nat, seconds: nat)

  /** The number of seconds a triple stands for; the inverse of `Decompose`. */
  function TotalSeconds(d: Duration): nat {
    d.hours * SecondsPerHour + d.minutes * SecondsPerMinute + d.seconds
  }

  /** Minutes and seconds are both below 60, as on a clock face. */
  predicate Normalized(d: Duration) {
    d.minutes < MinutesPerHour && d.seconds < SecondsPerMinute
  }

  /**
    The first step: whole hours (`n // 3600`) and the seconds left over
    (`n % 3600`).  The hour count is the floor of n / 3600, and the remainder
    is what is left of n once those hours are taken away.
   */
  function SplitHours(n: nat): (p: (nat, nat))
    ensures p.0 * SecondsPerHour <= n < (p.0 + 1) * SecondsPerHour
    ensures p.1 == n - p.0 * SecondsPerHour
    ensures p.1 < SecondsPerHour
  {
    (n / SecondsPerHour, n % SecondsPerHour)
  }

  /**
    The second step: whole minutes (`remaining // 60`) and the final seconds
    (`remaining % 60`) of the seconds left over after the hours.  When that
    remainder is below an hour, the minute count is below 60.
   */
  function SplitMinutes(remaining: nat): (p: (nat, nat))
    ensures p.0 * SecondsPerMinute + p.1 == remaining
    ensures p.1 < SecondsPerMinute
    ensures remaining < SecondsPerHour ==> p.0 < MinutesPerHour
  {
    (remaining / SecondsPerMinute, remaining % SecondsPerMinute)
  }

  /**
    The whole conversion.  The result is normalized, adds back up to the input,
    and its minutes and seconds together make up exactly the seconds left over
    after the whole hours.
   */
  function Decompose(n: nat): (d: Duration)
    ensures Normalized(d)
    ensures TotalSeconds(d) == n
    ensures d.hours * SecondsPerHour <= n < (d.hours + 1) * SecondsPerHour
    ensures d.minutes * SecondsPerMinute + d.seconds == n - d.hours * SecondsPerHour
  {
    var (hours, remaining) := SplitHours(n);
    var (minutes, secs) := SplitMinutes(remaining);
    Duration(hours, minutes, secs)
  }

  /** Quotient and remainder are the only pair with `n == q * k + r` and `0 <= r < k`. */
  lemma QuotientUnique(n: nat, k: nat, q: nat, r: nat)
    requires k == 60 || k == 3600
    requires r < k && n == q * k + r
    ensures n / k == q && n % k == r
  {
    assert n == (n / k) * k + n % k && n % k < k;
  }

  /**
    Every normalized triple is what `Decompose` gives back for the seconds it
    stands for: the decomposition is the only normalized one.
   */
  lemma DecomposeTotalSeconds(d: Duration)
    requires Normalized(d)
    ensures Decompose(TotalSeconds(d)) == d
  {
    var n := TotalSeconds(d);
    var remaining := d.minutes * 60 + d.seconds;
    assert remaining < 3600;
    assert n == d.hours * 3600 + remaining;
    QuotientUnique(n, 3600, d.hours, remaining);
    QuotientUnique(remaining, 60, d.minutes, d.seconds);
  }

  /**
    An independent reference for the conversion: take away one whole hour at a
    time while an hour remains, then one whole minute at a time while a minute
    remains; whatever is left are the seconds.
   */
  function ReferenceDecompose(n: nat): (d: Duration)
    ensures Normalized(d)
    ensures TotalSeconds(d) == n
    decreases n
  {
    if n >= SecondsPerHour then
      var rest := ReferenceDecompose(n - SecondsPerHour);
      rest.(hours := rest.hours + 1)
    else if n >= SecondsPerMinute then
      var rest := ReferenceDecompose(n - SecondsPerMinute);
      rest.(minutes := rest.minutes + 1)
    else
      Duration(0, 0, n)
  }

  /** Floor division and modulus give the same triple as repeated subtraction. */
  lemma DecomposeMatchesReference(n: nat)
    ensures Decompose(n) == ReferenceDecompose(n)
  {
    DecomposeTotalSeconds(ReferenceDecompose(n));
  }

  /** Two inputs with the same decomposition are the same input. */
  lemma DecomposeInjective(a: nat, b: nat)
    ensures Decompose(a) == Decompose(b) <==> a == b
  {
    if Decompose(a) == Decompose(b) {
      assert a == TotalSeconds(Decompose(a));
    }
  }

  /** The first block of the script: 3672 seconds are 1 hour, 1 minute, 12 seconds. */
  lemma FirstExample()
    ensures Decompose(3672) == Duration(1, 1, 12)
  {
  }

  /** The second block of the script: 5000 seconds are 1 hour, 23 minutes, 20 seconds. */
  lemma SecondExample()
    ensures Decompose(5000) == Duration(1, 23, 20)
  {
  }

  /** At zero and on either side of a full hour the conversion rolls over as a clock does. */
  lemma HourBoundaries()
    ensures Decompose(0) == Duration(0, 0, 0)
    ensures Decompose(3599) == Duration(0, 59, 59)
    ensures Decompose(3600) == Duration(1, 0, 0)
  {
  }
}
