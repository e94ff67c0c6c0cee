/**
 The option area of a DHCP message (section 2 of RFC 2132): the tag-length-value reader
 `opt_find` and the three writers of `access_point_httpd/dhcpserver/dhcpserver.c`.
 */
module DhcpOptions {
  import opened Bytes
  import opened DhcpLease

  const OPT_PAD: byte := 0
  const OPT_END: byte := 255
  const AREA := 308

  datatype Opt = Opt(code: byte, value: seq<byte>)

  predicate Writable(o: Opt)
  {
    o.code != OPT_END && |o.value| < 256
  }

  function EncodeOne(o: Opt): (bytes: seq<byte>)
    requires Writable(o)
    ensures |bytes| == 2 + |o.value|
  {
    [o.code, |o.value| as byte] + o.value
  }

  predicate AllWritable(opts: seq<Opt>)
  {
    forall k :: 0 <= k < |opts| ==> Writable(opts[k])
  }

  function Encode(opts: seq<Opt>): seq<byte>
    requires AllWritable(opts)
  {
    if opts == [] then [] else EncodeOne(opts[0]) + Encode(opts[1..])
  }

  // ----- reading -----

  /** Where `opt_find` stops when it continues at i: an index, or -1 for NULL. */
  function FindFrom(area: seq<byte>, i: nat, cmd: byte): (pos: int)
    requires AREA < |area|
    ensures -1 <= pos < AREA
    decreases AREA - i
  {
    if AREA <= i || area[i] == OPT_END then -1
    else if area[i] == cmd then i
    else FindFrom(area, i + 2 + area[i + 1] as nat, cmd)
  }

  /** `opt_find` over the bytes that start at `base`. */
  method OptFind(mem: array<byte>, base: nat, cmd: byte) returns (pos: int)
    requires base + AREA < mem.Length
    ensures pos == FindFrom(mem[base..], 0, cmd)
  {
    var i := 0;
    while i < AREA && mem[base + i] != OPT_END
      invariant FindFrom(mem[base..], i, cmd) == FindFrom(mem[base..], 0, cmd)
      decreases AREA - i
    {
      if mem[base + i] == cmd {
        return i;
      }
      i := i + 2 + mem[base + i + 1] as nat;
    }
    return -1;
  }

  // ----- the reference meaning of a list of options -----

  /** The bytes stand in the area from index i on. */
  ghost predicate At(area: seq<byte>, i: nat, bytes: seq<byte>)
  {
    i + |bytes| <= |area| && forall j :: 0 <= j < |bytes| ==> area[i + j] == bytes[j]
  }

  lemma AtSplit(area: seq<byte>, i: nat, a: seq<byte>, b: seq<byte>)
    requires At(area, i, a + b)
    ensures At(area, i, a) && At(area, i + |a|, b)
  {
    forall j | 0 <= j < |a|
      ensures area[i + j] == a[j]
    {
      assert (a + b)[j] == a[j];
    }
    forall j | 0 <= j < |b|
      ensures area[i + |a| + j] == b[j]
    {
      assert (a + b)[|a| + j] == b[j];
    }
  }

  lemma AtOption(area: seq<byte>, i: nat, o: Opt, cmd: byte)
    requires Writable(o) && At(area, i, EncodeOne(o))
    ensures area[i] == o.code && area[i + 1] as nat == |o.value| && At(area, i + 2, o.value)
    ensures AREA < |area| && i < AREA ==>
      FindFrom(area, i, cmd) == if o.code == cmd then i else FindFrom(area, i + |EncodeOne(o)|, cmd)
  {
    AtSplit(area, i, [o.code, |o.value| as byte], o.value);
    var head := [o.code, |o.value| as byte];
    assert area[i + 0] == head[0] && area[i + 1] == head[1];
  }

  /** The first option with this code, as an index into the list, or |opts|. */
  function FirstWith(opts: seq<Opt>, cmd: byte): (k: nat)
    ensures k <= |opts|
    ensures k < |opts| ==> opts[k].code == cmd
    ensures forall j :: 0 <= j < k ==> opts[j].code != cmd
  {
    if opts == [] || opts[0].code == cmd then 0 else 1 + FirstWith(opts[1..], cmd)
  }

  /** The reader stands at an option with this value, which ends inside the area. */
  ghost predicate FoundValue(area: seq<byte>, pos: int, value: seq<byte>)
  {
    && 0 <= pos && pos + 2 + |value| < AREA < |area|
    && area[pos + 1] as nat == |value|
    && At(area, pos + 2, value)
  }

  lemma {:induction false} FindInOptions(area: seq<byte>, i: nat, opts: seq<Opt>, cmd: byte)
    requires AREA < |area| && cmd != OPT_END
    requires AllWritable(opts)
    requires i + |Encode(opts)| < AREA
    requires At(area, i, Encode(opts)) && area[i + |Encode(opts)|] == OPT_END
    ensures var k := FirstWith(opts, cmd);
            if k == |opts| then FindFrom(area, i, cmd) == -1
            else FoundValue(area, FindFrom(area, i, cmd), opts[k].value)
    decreases |opts|
  {
    if opts == [] {
    } else {
      var o, rest := opts[0], opts[1..];
      assert Encode(opts) == EncodeOne(o) + Encode(rest);
      AtSplit(area, i, EncodeOne(o), Encode(rest));
      AtOption(area, i, o, cmd);
      if o.code != cmd {
        FindInOptions(area, i + |EncodeOne(o)|, rest, cmd);
        assert FirstWith(opts, cmd) == 1 + FirstWith(rest, cmd);
      }
    }
  }

  /**
   Option round trip: after any list of options written from the start of the area and closed
   by END inside it, the reader finds the first option written with a code, with exactly its
   value, and finds nothing for a code that was never written.
   */
  lemma OptionRoundTrip(area: seq<byte>, opts: seq<Opt>, cmd: byte)
    requires AREA < |area| && cmd != OPT_END
    requires AllWritable(opts)
    requires |Encode(opts)| < AREA
    requires At(area, 0, Encode(opts)) && area[|Encode(opts)|] == OPT_END
    ensures FindFrom(area, 0, cmd) == -1 <==> forall o :: o in opts ==> o.code != cmd
    ensures var k := FirstWith(opts, cmd);
            k < |opts| ==> FoundValue(area, FindFrom(area, 0, cmd), opts[k].value)
  {
    FindInOptions(area, 0, opts, cmd);
  }

  /** The walk that section 3.1 of RFC 2132 asks for, in which PAD is a single byte. */
  function RfcFindFrom(area: seq<byte>, i: nat, cmd: byte): int
    requires AREA < |area|
    decreases AREA - i
  {
    if AREA <= i || area[i] == OPT_END then -1
    else if area[i] == cmd then i
    else RfcFindFrom(area, i + (if area[i] == OPT_PAD then 1 else 2 + area[i + 1] as nat), cmd)
  }

  /** From i on, wherever an option could start, PAD bytes come in pairs. */
  predicate PadsInPairs(area: seq<byte>, i: nat)
    requires AREA < |area|
    decreases AREA - i
  {
    if AREA <= i || area[i] == OPT_END then true
    else if area[i] == OPT_PAD then i + 1 == AREA || (area[i + 1] == OPT_PAD && PadsInPairs(area, i + 2))
    else PadsInPairs(area, i + 2 + area[i + 1] as nat)
  }

  /**
   Where PADs come in pairs an area is read as the RFC says, whatever its other bytes: the code
   takes each pair for an empty option.
   */
  lemma {:induction false} AgreesWithRfcOnPairs(area: seq<byte>, i: nat, cmd: byte)
    requires AREA < |area| && PadsInPairs(area, i)
    ensures FindFrom(area, i, cmd) == RfcFindFrom(area, i, cmd)
    decreases AREA - i
  {
    if AREA <= i || area[i] == OPT_END || area[i] == cmd {
    } else if area[i] == OPT_PAD {
      if i + 1 < AREA {
        AgreesWithRfcOnPairs(area, i + 2, cmd);
      }
    } else {
      AgreesWithRfcOnPairs(area, i + 2 + area[i + 1] as nat, cmd);
    }
  }

  /** No option that the walk from i on meets is a PAD. */
  predicate NoPadFrom(area: seq<byte>, i: nat)
    requires AREA < |area|
    decreases AREA - i
  {
    AREA <= i || area[i] == OPT_END || (area[i] != OPT_PAD && NoPadFrom(area, i + 2 + area[i + 1] as nat))
  }

  lemma {:induction false} NoPadIsPairs(area: seq<byte>, i: nat)
    requires AREA < |area| && NoPadFrom(area, i)
    ensures PadsInPairs(area, i)
    decreases AREA - i
  {
    if AREA <= i || area[i] == OPT_END {
    } else {
      NoPadIsPairs(area, i + 2 + area[i + 1] as nat);
    }
  }

  /** An area that starts with n PADs and goes on with options without any. */
  ghost predicate PadsThenOptions(area: seq<byte>, n: nat)
  {
    && AREA < |area|
    && (forall k :: 0 <= k < n && k < |area| ==> area[k] == OPT_PAD)
    && NoPadFrom(area, n)
  }

  ghost predicate ReadAsRfc(area: seq<byte>)
    requires AREA < |area|
  {
    forall cmd :: FindFrom(area, 0, cmd) == RfcFindFrom(area, 0, cmd)
  }

  lemma {:induction false} EvenPadsArePairs(area: seq<byte>, n: nat, i: nat)
    requires PadsThenOptions(area, n) && i <= n && ((n - i) % 2 == 0 || AREA <= n)
    ensures PadsInPairs(area, i)
    decreases n - i
  {
    if i == n {
      NoPadIsPairs(area, n);
    } else if i < AREA {
      if i + 1 < AREA {
        EvenPadsArePairs(area, n, i + 2);
      }
    }
  }

  /** n PADs, a message type, END to the end: the input on which an odd n fails. */
  function PaddedMessageType(n: nat): (area: seq<byte>)
    requires n < AREA
    ensures AREA < |area|
  {
    seq(n, _ => OPT_PAD) + [53, 1, 1] + seq(AREA, _ => OPT_END)
  }

  lemma {:induction false} OddPadsHide(n: nat, i: nat)
    requires n < AREA && n % 2 == 1 && i % 2 == 0 && i < n
    ensures FindFrom(PaddedMessageType(n), i, 53) == -1
    decreases n - i
  {
    var area := PaddedMessageType(n);
    assert area[i] == OPT_PAD;
    if i == n - 1 {
      assert area[i + 1] == 53;
    } else {
      assert area[i + 1] == OPT_PAD;
      OddPadsHide(n, i + 2);
    }
  }

  lemma {:induction false} RfcFindsBehindPads(n: nat, i: nat)
    requires i <= n < AREA
    ensures RfcFindFrom(PaddedMessageType(n), i, 53) == n
    decreases n - i
  {
    var area := PaddedMessageType(n);
    if i == n {
      assert area[i] == 53;
    } else {
      assert area[i] == OPT_PAD;
      RfcFindsBehindPads(n, i + 1);
    }
  }

  /**
   The code reads every area with n leading PADs as the RFC says exactly when n is even, or so
   large that nothing but PADs fits.
   */
  lemma {:induction false} LeadingPadsExactly(n: nat)
    ensures (forall area :: PadsThenOptions(area, n) ==> ReadAsRfc(area)) <==> n % 2 == 0 || 308 <= n
  {
    if n % 2 == 0 || AREA <= n {
      forall area | PadsThenOptions(area, n)
        ensures ReadAsRfc(area)
      {
        forall cmd
          ensures FindFrom(area, 0, cmd) == RfcFindFrom(area, 0, cmd)
        {
          EvenPadsArePairs(area, n, 0);
          AgreesWithRfcOnPairs(area, 0, cmd);
        }
      }
    } else {
      var area := PaddedMessageType(n);
      OddPadsHide(n, 0);
      RfcFindsBehindPads(n, 0);
      assert area[n] == 53 && area[n + 1] == 1 && area[n + 2] == 1 && area[n + 3] == OPT_END;
      assert NoPadFrom(area, n + 3);
      assert PadsThenOptions(area, n);
      assert !ReadAsRfc(area);
    }
  }

  /** A PAD in front of the message type hides it: its tag 53 is taken for the length of the PAD. */
  lemma PadHidesMessageType(area: seq<byte>)
    requires AREA < |area| && area[..5] == [OPT_PAD, 53, 1, 1, OPT_END] && area[55] == OPT_END
    ensures RfcFindFrom(area, 0, 53) == 1
    ensures FindFrom(area, 0, 53) == -1
  {
    assert area[..5][0] == 0 && area[..5][1] == 53;
  }

  // ----- writing -----

  /** The memory after `bytes` were written at pos. */
  function Put(mem: seq<byte>, pos: nat, bytes: seq<byte>): (r: seq<byte>)
    requires pos + |bytes| <= |mem|
    ensures |r| == |mem|
  {
    mem[..pos] + bytes + mem[pos + |bytes|..]
  }

  lemma PutTwice(mem: seq<byte>, pos: nat, a: seq<byte>, b: seq<byte>)
    requires pos + |a| + |b| <= |mem|
    ensures Put(Put(mem, pos, a), pos + |a|, b) == Put(mem, pos, a + b)
  {
  }

  method OptWriteN(mem: array<byte>, opt: nat, cmd: byte, data: seq<byte>) returns (next: nat)
    requires |data| < 256 && opt + 2 + |data| <= mem.Length
    modifies mem
    ensures mem[..] == Put(old(mem[..]), opt, [cmd, |data| as byte] + data)
    ensures next == opt + 2 + |data|
  {
    mem[opt] := cmd;
    mem[opt + 1] := |data| as byte;
    forall k | 0 <= k < |data| {
      mem[opt + 2 + k] := data[k];
    }
    next := opt + 2 + |data|;
  }

  method OptWriteU8(mem: array<byte>, opt: nat, cmd: byte, val: byte) returns (next: nat)
    requires opt + 3 <= mem.Length
    modifies mem
    ensures mem[..] == Put(old(mem[..]), opt, [cmd, 1, val])
    ensures next == opt + 3
  {
    mem[opt] := cmd;
    mem[opt + 1] := 1;
    mem[opt + 2] := val;
    next := opt + 3;
  }

  /** The bytes of a 32-bit value, most significant first. */
  function BigEndian(val: nat): (bytes: seq<byte>)
    requires val < TICK_RANGE
    ensures |bytes| == 4
    ensures val == ((bytes[0] as int * 256 + bytes[1] as int) * 256 + bytes[2] as int) * 256 + bytes[3] as int
  {
    [(val / 256 / 256 / 256) as byte, (val / 256 / 256 % 256) as byte, (val / 256 % 256) as byte, (val % 256) as byte]
  }

  method OptWriteU32(mem: array<byte>, opt: nat, cmd: byte, val: nat) returns (next: nat)
    requires val < TICK_RANGE && opt + 6 <= mem.Length
    modifies mem
    ensures mem[..] == Put(old(mem[..]), opt, [cmd, 4] + BigEndian(val))
    ensures next == opt + 6
  {
    mem[opt] := cmd;
    mem[opt + 1] := 4;
    mem[opt + 2] := (val / 256 / 256 / 256) as byte;
    mem[opt + 3] := (val / 256 / 256 % 256) as byte;
    mem[opt + 4] := (val / 256 % 256) as byte;
    mem[opt + 5] := (val % 256) as byte;
    next := opt + 6;
  }
}
