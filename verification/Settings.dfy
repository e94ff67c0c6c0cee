/**
 The settings record of `runtime_settings.c` as the bytes of `tls_mqtt_settings` (built without
 TLS), and the table-driven store `process_post_field` of `main.c`.
 */
module Settings {
  import opened Bytes
  import opened CStrings

  /** Size of the record: a 4-byte flag, eight text fields, one byte of padding, a 4-byte flag. */
  const SIZE := 812
  const END_FLAG := 808
  const TEXT_END := 807

  /** SETTINGS_FLAG 0x00A5A5A5 in memory. */
  const SETTINGS_FLAG: seq<byte> := [0xA5, 0xA5, 0xA5, 0]

  datatype Field = Field(name: seq<byte>, offset: nat, size: nat)

  function Ascii(s: string): (r: seq<byte>)
    ensures |r| == |s| && forall i :: 0 <= i < |s| ==> r[i] as int == s[i] as int % 256
  {
    seq(|s|, i requires 0 <= i < |s| => (s[i] as int % 256) as byte)
  }

  const FIELDS: seq<Field> := [
    Field(Ascii("wifi_ssid"), 4, 33),
    Field(Ascii("wifi_pass"), 37, 64),
    Field(Ascii("tls_mqtt_broker_hostname"), 101, 200),
    Field(Ascii("tls_mqtt_broker_port"), 301, 6),
    Field(Ascii("tls_mqtt_broker_CN"), 307, 200),
    Field(Ascii("tls_mqtt_client_id"), 507, 100),
    Field(Ascii("tls_mqtt_client_name"), 607, 100),
    Field(Ascii("tls_mqtt_client_password"), 707, 100)]

  /** The text members of `tls_mqtt_settings` in the order of their declaration, with their sizes. */
  const MEMBERS: seq<(string, nat)> := [
    ("wifi_ssid", 33),
    ("wifi_pass", 64),
    ("tls_mqtt_broker_hostname", 200),
    ("tls_mqtt_broker_port", 6),
    ("tls_mqtt_broker_CN", 200),
    ("tls_mqtt_client_id", 100),
    ("tls_mqtt_client_name", 100),
    ("tls_mqtt_client_password", 100)]

  /** Behind the 4-byte flag the members lie without gaps. */
  function MemberOffset(k: nat): nat
    requires k <= |MEMBERS|
  {
    if k == 0 then 4 else MemberOffset(k - 1) + MEMBERS[k - 1].1
  }

  lemma FirstMembers()
    ensures MemberOffset(1) == 37 && MemberOffset(2) == 101 && MemberOffset(3) == 301 && MemberOffset(4) == 307
  {
    assert MemberOffset(1) == 37;
    assert MemberOffset(2) == 101;
    assert MemberOffset(3) == 301;
  }

  /** The table gives each name the offset and size of the member of that name. */
  lemma TableMatchesStruct(k: nat)
    requires k < |MEMBERS|
    ensures |FIELDS| == |MEMBERS|
    ensures FIELDS[k] == Field(Ascii(MEMBERS[k].0), MemberOffset(k), MEMBERS[k].1)
  {
    FirstMembers();
    assert MemberOffset(5) == 507;
    assert MemberOffset(6) == 607;
    assert MemberOffset(7) == 707;
  }

  lemma MemberInside(k: nat)
    requires k < |MEMBERS|
    ensures MemberOffset(k) + MEMBERS[k].1 <= SIZE
  {
    TableMatchesStruct(k);
  }

  /** The text ends behind the last member, and the final flag is aligned to four bytes. */
  lemma StructSize()
    ensures TEXT_END == MemberOffset(|MEMBERS|)
    ensures TEXT_END <= END_FLAG < TEXT_END + 4 && END_FLAG % 4 == 0 && SIZE == END_FLAG + 4
    ensures SETTINGS_FLAG[0] as int + 0x100 * SETTINGS_FLAG[1] as int + 0x1_0000 * SETTINGS_FLAG[2] as int
            + 0x100_0000 * SETTINGS_FLAG[3] as int == 0xA5A5A5
  {
    TableMatchesStruct(7);
  }

  lemma NamesAreDistinct(i: nat, j: nat)
    requires i < j < |FIELDS|
    ensures FIELDS[i].name != FIELDS[j].name
  {
    assert FIELDS[0].name[5] == 's' as byte && FIELDS[1].name[5] == 'p' as byte;
    assert FIELDS[2].name[9] == 'b' as byte && FIELDS[7].name[9] == 'c' as byte;
    assert FIELDS[3].name[9] == 'b' as byte && FIELDS[6].name[9] == 'c' as byte;
    assert FIELDS[4].name[9] == 'b' as byte && FIELDS[5].name[9] == 'c' as byte;
  }

  /** The slots lie one behind the other between the two flags. */
  lemma SlotsAreDisjoint(i: nat, j: nat)
    requires i < j < |FIELDS|
    ensures 4 <= FIELDS[i].offset && FIELDS[i].offset + FIELDS[i].size <= FIELDS[j].offset
    ensures FIELDS[j].offset + FIELDS[j].size <= TEXT_END
    ensures 0 < FIELDS[i].size && 0 < FIELDS[j].size
  {
  }

  lemma SlotInside(i: nat)
    requires i < |FIELDS|
    ensures 4 <= FIELDS[i].offset && FIELDS[i].offset + FIELDS[i].size <= TEXT_END && 0 < FIELDS[i].size
  {
  }

  /** The record and the `settings_changed` flag. */
  datatype Store = Store(mem: seq<byte>, changed: bool)

  type Pair = (seq<byte>, seq<byte>)

  /** The first field from i on with this name, or |FIELDS|. */
  function FieldFrom(key: seq<byte>, i: nat): (k: nat)
    requires i <= |FIELDS|
    ensures i <= k <= |FIELDS|
    ensures k < |FIELDS| ==> FIELDS[k].name == key
    ensures forall j :: i <= j < k ==> FIELDS[j].name != key
    decreases |FIELDS| - i
  {
    if i == |FIELDS| || FIELDS[i].name == key then i else FieldFrom(key, i + 1)
  }

  /** This pair is stored in field i. */
  predicate Accepts(i: nat, p: Pair)
  {
    i < |FIELDS| && FIELDS[i].name == p.0 && 0 < |p.1| < FIELDS[i].size
  }

  /** The record after a value and its terminator were copied to a slot. */
  function Copied(mem: seq<byte>, i: nat, value: seq<byte>): (r: seq<byte>)
    requires |mem| == SIZE && i < |FIELDS| && |value| < FIELDS[i].size
    ensures |r| == SIZE
  {
    SlotInside(i);
    PutText(mem, FIELDS[i].offset, value)
  }

  function StorePair(s: Store, p: Pair): Store
    requires |s.mem| == SIZE
  {
    var i := FieldFrom(p.0, 0);
    if Accepts(i, p) then Store(Copied(s.mem, i, p.1), true) else s
  }

  function StoreAll(s: Store, pairs: seq<Pair>): (r: Store)
    requires |s.mem| == SIZE
    ensures |r.mem| == SIZE
    decreases |pairs|
  {
    if pairs == [] then s else StoreAll(StorePair(s, pairs[0]), pairs[1..])
  }

  // ----- what a sequence of posted pairs leaves in the record -----

  function Slot(mem: seq<byte>, i: nat): (r: seq<byte>)
    requires |mem| == SIZE && i < |FIELDS|
    ensures |r| == FIELDS[i].size
  {
    SlotInside(i);
    mem[FIELDS[i].offset..FIELDS[i].offset + FIELDS[i].size]
  }

  /** The text of a field and whether it ends inside its slot. */
  function Text(mem: seq<byte>, i: nat): seq<byte>
    requires |mem| == SIZE && i < |FIELDS|
  {
    CStr(Slot(mem, i), 0)
  }

  predicate Terminated(mem: seq<byte>, i: nat)
    requires |mem| == SIZE && i < |FIELDS|
  {
    0 in Slot(mem, i)
  }

  /** The text at the bytes of member k of the struct. */
  function MemberText(mem: seq<byte>, k: nat): seq<byte>
    requires |mem| == SIZE && k < |MEMBERS|
  {
    MemberInside(k);
    CStr(mem[MemberOffset(k)..MemberOffset(k) + MEMBERS[k].1], 0)
  }

  lemma TextIsMember(mem: seq<byte>, k: nat)
    requires |mem| == SIZE && k < |MEMBERS|
    ensures |FIELDS| == |MEMBERS| && FIELDS[k].name == Ascii(MEMBERS[k].0) && FIELDS[k].size == MEMBERS[k].1
    ensures Text(mem, k) == MemberText(mem, k)
  {
    TableMatchesStruct(k);
  }

  lemma CopiedSlots(mem: seq<byte>, i: nat, value: seq<byte>, j: nat)
    requires |mem| == SIZE && i < |FIELDS| && |value| < FIELDS[i].size && NoNul(value)
    requires j < |FIELDS|
    ensures var r := Copied(mem, i, value);
            && (i == j ==> Text(r, i) == value && Terminated(r, i))
            && (i != j ==> Slot(r, j) == Slot(mem, j))
            && r[..4] == mem[..4] && r[TEXT_END..] == mem[TEXT_END..]
  {
    SlotInside(i);
    SlotInside(j);
    var o := FIELDS[i].offset;
    var r := Copied(mem, i, value);
    PutTextElsewhere(mem, o, value, 0, 4);
    assert r[..4] == r[0..4] && mem[..4] == mem[0..4];
    PutTextElsewhere(mem, o, value, TEXT_END, SIZE);
    assert r[TEXT_END..] == r[TEXT_END..SIZE] && mem[TEXT_END..] == mem[TEXT_END..SIZE];
    if i == j {
      PutTextReadsBack(mem, o, FIELDS[i].size, value);
    } else {
      if i < j {
        SlotsAreDisjoint(i, j);
      } else {
        SlotsAreDisjoint(j, i);
      }
      PutTextElsewhere(mem, o, value, FIELDS[j].offset, FIELDS[j].offset + FIELDS[j].size);
    }
  }

  lemma AcceptingFieldIsUnique(i: nat, p: Pair)
    requires Accepts(i, p)
    ensures FieldFrom(p.0, 0) == i
  {
    var k := FieldFrom(p.0, 0);
    if k < i {
      NamesAreDistinct(k, i);
    }
  }

  /** j is the last pair that field i accepts. */
  ghost predicate LastAccepted(pairs: seq<Pair>, i: nat, j: nat)
  {
    && j < |pairs|
    && Accepts(i, pairs[j])
    && forall k :: j < k < |pairs| ==> !Accepts(i, pairs[k])
  }

  ghost predicate AllNoNul(pairs: seq<Pair>) { forall j :: 0 <= j < |pairs| ==> NoNul(pairs[j].1) }

  /** One pair: the field that accepts it takes the value, nothing else moves. */
  lemma StorePairEffect(s: Store, p: Pair, i: nat)
    requires |s.mem| == SIZE && i < |FIELDS| && NoNul(p.1)
    ensures var r := StorePair(s, p);
            && |r.mem| == SIZE
            && (Accepts(i, p) ==> Text(r.mem, i) == p.1 && Terminated(r.mem, i) && r.changed)
            && (!Accepts(i, p) ==> Slot(r.mem, i) == Slot(s.mem, i))
            && r.mem[..4] == s.mem[..4] && r.mem[TEXT_END..] == s.mem[TEXT_END..]
            && (r.changed <==> s.changed || Accepts(FieldFrom(p.0, 0), p))
  {
    var k := FieldFrom(p.0, 0);
    if Accepts(i, p) {
      AcceptingFieldIsUnique(i, p);
    }
    if Accepts(k, p) {
      CopiedSlots(s.mem, k, p.1, i);
    }
  }

  /** The last acceptable value of each field wins; a field that no pair fits keeps its bytes. */
  lemma {:induction false} LastValueWins(s: Store, pairs: seq<Pair>, i: nat)
    requires |s.mem| == SIZE && i < |FIELDS| && AllNoNul(pairs)
    ensures forall j: nat :: LastAccepted(pairs, i, j) ==> Text(StoreAll(s, pairs).mem, i) == pairs[j].1
    ensures (forall j :: 0 <= j < |pairs| ==> !Accepts(i, pairs[j])) ==>
      Slot(StoreAll(s, pairs).mem, i) == Slot(s.mem, i)
    decreases |pairs|
  {
    if pairs == [] {
    } else {
      var p, rest := pairs[0], pairs[1..];
      StorePairEffect(s, p, i);
      LastValueWins(StorePair(s, p), rest, i);
      assert forall k :: 0 <= k < |rest| ==> rest[k] == pairs[k + 1];
      forall j: nat | LastAccepted(pairs, i, j) ensures Text(StoreAll(s, pairs).mem, i) == pairs[j].1 {
        assert j > 0 ==> LastAccepted(rest, i, j - 1);
      }
    }
  }

  lemma SlotAt(mem: seq<byte>, i: nat, k: nat)
    requires |mem| == SIZE && i < |FIELDS| && k < FIELDS[i].size
    ensures FIELDS[i].offset + k < SIZE && Slot(mem, i)[k] == mem[FIELDS[i].offset + k]
  {
    SlotInside(i);
  }

  lemma StorePairTail(s: Store, p: Pair, i: nat, k: nat)
    requires |s.mem| == SIZE && i < |FIELDS| && k < FIELDS[i].size
    requires Accepts(i, p) ==> |p.1| < k
    ensures |StorePair(s, p).mem| == SIZE && Slot(StorePair(s, p).mem, i)[k] == Slot(s.mem, i)[k]
  {
    var f := FieldFrom(p.0, 0);
    if Accepts(f, p) {
      SlotInside(i);
      SlotInside(f);
      if f < i {
        SlotsAreDisjoint(f, i);
      } else if i < f {
        SlotsAreDisjoint(i, f);
      }
      PutTextAt(s.mem, FIELDS[f].offset, p.1, FIELDS[i].offset + k);
      SlotAt(s.mem, i, k);
      SlotAt(StorePair(s, p).mem, i, k);
    }
  }

  /** Bytes of a slot behind every value stored in it are untouched. */
  lemma {:induction false} SlotTailIsKept(s: Store, pairs: seq<Pair>, i: nat, k: nat)
    requires |s.mem| == SIZE && i < |FIELDS| && k < FIELDS[i].size
    requires forall j :: 0 <= j < |pairs| && Accepts(i, pairs[j]) ==> |pairs[j].1| < k
    ensures Slot(StoreAll(s, pairs).mem, i)[k] == Slot(s.mem, i)[k]
    decreases |pairs|
  {
    if pairs == [] {
    } else {
      StorePairTail(s, pairs[0], i, k);
      SlotTailIsKept(StorePair(s, pairs[0]), pairs[1..], i, k);
    }
  }

  /** Text stays terminated inside its slot; both flag words and the padding are untouched. */
  lemma {:induction false} FrameIsKept(s: Store, pairs: seq<Pair>, i: nat)
    requires |s.mem| == SIZE && i < |FIELDS| && AllNoNul(pairs)
    ensures Terminated(s.mem, i) ==> Terminated(StoreAll(s, pairs).mem, i)
    ensures StoreAll(s, pairs).mem[..4] == s.mem[..4]
    ensures StoreAll(s, pairs).mem[TEXT_END..] == s.mem[TEXT_END..]
    decreases |pairs|
  {
    if pairs == [] {
    } else {
      StorePairEffect(s, pairs[0], i);
      FrameIsKept(StorePair(s, pairs[0]), pairs[1..], i);
    }
  }

  /** `settings_changed` is raised exactly when some pair was stored. */
  lemma {:induction false} ChangedExactly(s: Store, pairs: seq<Pair>)
    requires |s.mem| == SIZE
    ensures StoreAll(s, pairs).changed <==>
      s.changed || exists j :: 0 <= j < |pairs| && Accepts(FieldFrom(pairs[j].0, 0), pairs[j])
    decreases |pairs|
  {
    if pairs == [] {
    } else {
      var rest := pairs[1..];
      ChangedExactly(StorePair(s, pairs[0]), rest);
      if j :| 0 <= j < |pairs| && Accepts(FieldFrom(pairs[j].0, 0), pairs[j]) {
        assert j > 0 ==> rest[j - 1] == pairs[j];
      }
    }
  }

  lemma {:induction false} StoreAllConcat(s: Store, a: seq<Pair>, b: seq<Pair>)
    requires |s.mem| == SIZE
    ensures StoreAll(s, a + b) == StoreAll(StoreAll(s, a), b)
    decreases |a|
  {
    if a == [] {
      assert a + b == b;
    } else {
      assert (a + b)[1..] == a[1..] + b;
      StoreAllConcat(StorePair(s, a[0]), a[1..], b);
    }
  }

  // ----- the code -----

  class SettingsRecord {
    const mem: array<byte>
    var changed: bool

    ghost predicate Valid() { mem.Length == SIZE }

    ghost function View(): Store
      reads this, mem
    {
      Store(mem[..], changed)
    }

    /** `process_post_field`: every table entry is compared with the key. */
    method ProcessPostField(key: seq<byte>, value: seq<byte>)
      requires Valid()
      modifies this`changed, mem
      ensures View() == StorePair(old(View()), (key, value))
    {
      ghost var s, k := View(), FieldFrom(key, 0);
      for i := 0 to |FIELDS|
        invariant View() == if k < i && Accepts(k, (key, value)) then Store(Copied(s.mem, k, value), true) else s
      {
        if FIELDS[i].name == key {
          if k < i {
            NamesAreDistinct(k, i);
          }
          if |value| < FIELDS[i].size && |value| > 0 {
            Copy(i, value);
            changed := true;
          }
        }
      }
    }

    /** The memcpy of a value with its terminator. */
    method Copy(i: nat, value: seq<byte>)
      requires Valid() && i < |FIELDS| && |value| < FIELDS[i].size
      modifies mem
      ensures mem[..] == Copied(old(mem[..]), i, value)
    {
      SlotInside(i);
      var o := FIELDS[i].offset;
      forall k | 0 <= k < |value| {
        mem[o + k] := value[k];
      }
      mem[o + |value|] := 0;
    }
  }
}
