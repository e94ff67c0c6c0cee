/** What the firmware's buffers hold, and two small types shared by the models. */
module Bytes {

  newtype byte = b: int | 0 <= b < 256

  datatype Option<T> = None | Some(value: T)

  /** An IPv4 address in network order. */
  type Ip4 = a: seq<byte> | |a| == 4 witness [0, 0, 0, 0]

  /** The payload that arrives in pieces. */
  function Concat(parts: seq<seq<byte>>): seq<byte>
  {
    if parts == [] then [] else parts[0] + Concat(parts[1..])
  }

  lemma SliceOfSlice(s: seq<byte>, a: nat, b: nat, lo: nat, hi: nat)
    requires a <= b <= |s| && lo <= hi <= b - a
    ensures s[a..b][lo..hi] == s[a + lo..a + hi]
  {
    var x, y := s[a..b][lo..hi], s[a + lo..a + hi];
    assert forall k :: 0 <= k < hi - lo ==> x[k] == s[a..b][lo + k] == s[a + lo + k] == y[k];
  }

  lemma SliceOfDrop(s: seq<byte>, a: nat, lo: nat, hi: nat)
    requires a <= |s| && lo <= hi <= |s| - a
    ensures s[a..][lo..hi] == s[a + lo..a + hi]
  {
    assert s[a..] == s[a..|s|];
    SliceOfSlice(s, a, |s|, lo, hi);
  }
}
