/** NUL-terminated strings inside a byte buffer. */
module CStrings {
  import opened Bytes

  /** The index of the first NUL from i on, or the end of the memory. */
  function End(mem: seq<byte>, i: nat): (e: nat)
    requires i <= |mem|
    ensures i <= e <= |mem|
    ensures e < |mem| ==> mem[e] == 0
    ensures forall k :: i <= k < e ==> mem[k] != 0
    decreases |mem| - i
  {
    if i == |mem| || mem[i] == 0 then i else End(mem, i + 1)
  }

  lemma EndIsUnique(mem: seq<byte>, i: nat, e: nat)
    requires i <= e <= |mem|
    requires e < |mem| ==> mem[e] == 0
    requires forall k :: i <= k < e ==> mem[k] != 0
    ensures End(mem, i) == e
  {
  }

  predicate NoNul(s: seq<byte>) { forall k :: 0 <= k < |s| ==> s[k] != 0 }

  function CStr(mem: seq<byte>, i: nat): (s: seq<byte>)
    requires i <= |mem|
    ensures NoNul(s)
  {
    mem[i..End(mem, i)]
  }

  /** The memory after a string and its terminator were copied to o. */
  function PutText(mem: seq<byte>, o: nat, value: seq<byte>): (r: seq<byte>)
    requires o + |value| < |mem|
    ensures |r| == |mem|
  {
    mem[..o] + value + [0] + mem[o + |value| + 1..]
  }

  lemma PutTextReadsBack(mem: seq<byte>, o: nat, size: nat, value: seq<byte>)
    requires |value| < size && o + size <= |mem| && NoNul(value)
    ensures var slot := PutText(mem, o, value)[o..o + size];
            CStr(slot, 0) == value && slot[|value|] == 0
  {
    var r := PutText(mem, o, value);
    var slot := r[o..o + size];
    forall k | 0 <= k < |value|
      ensures slot[k] == value[k]
    {
      assert r[o + k] == value[k];
    }
    EndIsUnique(slot, 0, |value|);
    assert slot[0..|value|] == value;
  }

  lemma PutTextAt(mem: seq<byte>, o: nat, value: seq<byte>, at: nat)
    requires o + |value| < |mem| && at < |mem| && (at < o || o + |value| < at)
    ensures PutText(mem, o, value)[at] == mem[at]
  {
  }

  lemma PutTextElsewhere(mem: seq<byte>, o: nat, value: seq<byte>, lo: nat, hi: nat)
    requires o + |value| < |mem| && lo <= hi <= |mem|
    requires hi <= o || o + |value| < lo
    ensures PutText(mem, o, value)[lo..hi] == mem[lo..hi]
  {
  }
}
