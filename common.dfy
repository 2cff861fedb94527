/** Shared vocabulary of the gate functions: optional values, the errors the
    gates raise, and small sequence helpers. */
module GateCommon {

  datatype Option<T> = None | Some(value: T)

  /** The exceptions the gates of fc/gate.py raise, one constructor each. */
  datatype GateError =
    | DiscardExceedsEvents   // ValueError in start_end: more events to discard than there are
    | WrongChannelCount      // assertion in density2d: exactly two channels
    | ChannelOutOfRange      // IndexError from data[:, channels]
    | TooFewEvents           // assertion in density2d: more than one event
    | TargetUnreachable      // IndexError from np.nonzero(csvH >= n)[0][0] on an empty result

  datatype Result<T> = Ok(value: T) | Err(error: GateError)

  /** Sum of a sequence, peeled from the end (like a running total). */
  function Sum(s: seq<int>): int
  {
    if s == [] then 0 else Sum(s[..|s| - 1]) + s[|s| - 1]
  }

  predicate StrictlyIncreasing(s: seq<int>)
  {
    forall i, j :: 0 <= i < j < |s| ==> s[i] < s[j]
  }

  predicate NonDecreasing(s: seq<int>)
  {
    forall i, j :: 0 <= i < j < |s| ==> s[i] <= s[j]
  }

  /** The sequence 0, 1, ..., n - 1 (np.arange(n)). */
  function Range(n: nat): (r: seq<nat>)
    ensures |r| == n && forall i :: 0 <= i < n ==> r[i] == i
  {
    seq(n, i => i)
  }
}
