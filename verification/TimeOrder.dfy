/**
  The element type of the timer heap: an end time, compared the way std::pair<long, long> is.
  Only the order matters to the heap, so the two fields are unbounded.
 */
module TimeOrder {

  datatype Time = Time(sec: int, usec: int)

  predicate Leq(a: Time, b: Time) {
    a.sec < b.sec || (a.sec == b.sec && a.usec <= b.usec)
  }

  predicate Less(a: Time, b: Time) {
    !Leq(b, a)
  }

  /** A time as gettimeofday gives it. */
  predicate IsTimeval(a: Time) {
    0 <= a.usec < 1_000_000
  }

  /** The moment in microseconds. */
  function Micros(a: Time): int {
    1_000_000 * a.sec + a.usec
  }

  /** The order of the pairs is the order of the moments. */
  lemma LeqIsEarlier(a: Time, b: Time)
    requires IsTimeval(a) && IsTimeval(b)
    ensures Leq(a, b) <==> Micros(a) <= Micros(b)
    ensures Less(a, b) <==> Micros(a) < Micros(b)
  {
  }

  /** The microseconds of the first time make up for its fewer seconds. */
  predicate MakesUp(a: Time, b: Time) {
    a.sec < b.sec && a.usec >= 1_000_000 * (b.sec - a.sec) + b.usec
  }

  /** For times as they come, also with a million microseconds or more: when the order is that of the moments. */
  lemma OrderOfMoments(a: Time, b: Time)
    ensures (Leq(a, b) <==> Micros(a) <= Micros(b)) && (Leq(b, a) <==> Micros(b) <= Micros(a))
       <==> !MakesUp(a, b) && !MakesUp(b, a)
  {
  }

  /** Adding two times without a carry makes such times: one second and 1.4 more are sorted in front of two. */
  lemma UncarriedComesTooEarly()
    ensures Leq(Time(1, 1_400_000), Time(2, 0)) && Micros(Time(1, 1_400_000)) > Micros(Time(2, 0))
  {
  }
}
