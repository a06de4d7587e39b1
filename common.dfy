/** Values shared by every part of the model: optional values, results with an
    error, and wall-clock time as Go's time.Time reduces it. */
module Common {

  datatype Option<+T> = None | Some(value: T)

  datatype Result<+T, +E> = Ok(value: T) | Err(error: E)

  /** How a Go call ends: it returns a value, or it panics (a nil pointer
      dereference); a panic ends the request. */
  datatype Outcome<+T> = Returned(value: T) | Panicked

  /** The nanoseconds within a second. */
  newtype Nanos = n: int | 0 <= n < 1_000_000_000

  /** A point in time as Go's time.Time keeps it: whole seconds since the
      Unix epoch and the nanoseconds after them. */
  datatype Time = Time(sec: int, nsec: Nanos)

  /** time.Time.Unix(): the whole seconds, the nanoseconds dropped. */
  function Unix(t: Time): int
  {
    t.sec
  }

  /** t.Add(d * time.Second). */
  function AddSeconds(t: Time, d: int): (r: Time)
    ensures Unix(r) == Unix(t) + d && r.nsec == t.nsec
  {
    Time(t.sec + d, t.nsec)
  }

  /** An 8-bit byte. */
  newtype byte = b: int | 0 <= b < 256

  predicate IsDigit(c: char) { '0' <= c <= '9' }

  predicate IsAsciiLetter(c: char) { 'a' <= c <= 'z' || 'A' <= c <= 'Z' }

  predicate IsAlnum(c: char) { IsDigit(c) || IsAsciiLetter(c) }

  predicate AllDigits(s: string) { forall i :: 0 <= i < |s| ==> IsDigit(s[i]) }
}
