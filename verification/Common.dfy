/** Shared vocabulary: optional values, results, and the clock. */
module Common {

  datatype Option<+T> = None | Some(value: T)

  datatype Result<+T, +E> = Ok(value: T) | Err(error: E)

  /** Nanoseconds since the zero instant of Go's `time.Time`; 0 is the value for which `IsZero` holds. */
  type Time = int

  const ZERO_TIME: Time := 0

  const MICROSECOND: int := 1000

  /** `Time.Truncate(time.Microsecond)`: rounds down to a whole microsecond since the zero instant. */
  function TruncateToMicrosecond(t: Time): (r: Time)
    ensures r <= t < r + MICROSECOND
    ensures r % MICROSECOND == 0
  {
    t - t % MICROSECOND
  }

  function Max(a: int, b: int): int { if a < b then b else a }

  /** `strings.Join`. */
  function Join(parts: seq<string>, separator: string): string {
    if parts == [] then ""
    else if |parts| == 1 then parts[0]
    else parts[0] + separator + Join(parts[1..], separator)
  }

  /** No element occurs twice. */
  ghost predicate Distinct<T>(s: seq<T>) {
    forall i, j :: 0 <= i < j < |s| ==> s[i] != s[j]
  }

  /** The members of a sequence. */
  function Members<T>(s: seq<T>): set<T> { set x | x in s }

  lemma {:induction false} SubsetSize<T>(a: set<T>, b: set<T>)
    requires a <= b
    ensures |a| <= |b|
    decreases a
  {
    if a != {} {
      var x :| x in a;
      SubsetSize(a - {x}, b - {x});
    }
  }
}
