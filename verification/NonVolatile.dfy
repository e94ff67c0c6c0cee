/**
 The flash storage of `non_volatile.c`: data kept in the last 4096-byte segments of a flash
 that is erased to 0xFF and programmed by clearing bits.
 */
module NonVolatile {
  import opened Bytes

  const FLASH_SIZE := 0x20_0000
  const SEGMENT := 4096
  const PAGE := 256
  /** Lengths are uint16_t. */
  const MAX_LENGTH := 65_535

  /** `number_of_segments`: the result is truncated to eight bits. */
  function NumberOfSegments(length: nat, segment: nat): nat
    requires segment > 0
  {
    (length + segment - 1) / segment % 256
  }

  /** Bitwise and of the lowest n bits. */
  function AndBits(a: nat, b: nat, n: nat): (r: nat)
    ensures r <= a && r <= b
  {
    if n == 0 then 0 else
      2 * AndBits(a / 2, b / 2, n - 1) + (if a % 2 == 1 && b % 2 == 1 then 1 else 0)
  }

  /** What a cell holds after it is programmed: bits can only be cleared. */
  function Programmed(cell: byte, data: byte): byte
  {
    AndBits(cell as nat, data as nat, 8) as byte
  }

  function Ones(n: nat): nat { if n == 0 then 0 else 2 * Ones(n - 1) + 1 }

  lemma {:induction false} AndWithOnes(b: nat, n: nat)
    requires b <= Ones(n)
    ensures AndBits(Ones(n), b, n) == b
    decreases n
  {
    if n == 0 {
    } else {
      AndWithOnes(b / 2, n - 1);
    }
  }

  lemma ErasedTakesData(data: byte)
    ensures Programmed(0xFF, data) == data
  {
    assert Ones(8) == 255;
    AndWithOnes(data as nat, 8);
  }

  // ----- the flash operations, as functions of the cells -----

  function Erased(cells: seq<byte>, start: nat, count: nat): (r: seq<byte>)
    requires start + count <= |cells|
    ensures |r| == |cells|
  {
    seq(|cells|, i requires 0 <= i < |cells| => if start <= i < start + count then 0xFF else cells[i])
  }

  function ProgrammedRange(cells: seq<byte>, start: nat, data: seq<byte>): (r: seq<byte>)
    requires start + |data| <= |cells|
    ensures |r| == |cells|
  {
    seq(|cells|, i requires 0 <= i < |cells| =>
      if start <= i < start + |data| then Programmed(cells[i], data[i - start]) else cells[i])
  }

  /** Where data of this length starts. */
  function StartOf(length: nat): nat
    requires length <= MAX_LENGTH
  {
    FLASH_SIZE - SEGMENT * NumberOfSegments(length, SEGMENT)
  }

  function PagesOf(length: nat): nat { NumberOfSegments(length, PAGE) }

  /** Programmed pages lie inside the erased segments at the end of the flash. */
  lemma PagesFitSegments(length: nat)
    requires length <= MAX_LENGTH
    ensures NumberOfSegments(length, SEGMENT) == (length + SEGMENT - 1) / SEGMENT
    ensures PagesOf(length) * PAGE <= SEGMENT * NumberOfSegments(length, SEGMENT) <= 0x1_0000
    ensures length <= SEGMENT * NumberOfSegments(length, SEGMENT)
    ensures PagesOf(length) == (if length <= 65_280 then (length + PAGE - 1) / PAGE else 0)
    ensures length <= 65_280 <==> length <= PagesOf(length) * PAGE
  {
  }

  /** The cells after a write; `source` is the data and whatever memory follows it. */
  function Written(cells: seq<byte>, source: seq<byte>, length: nat): (r: seq<byte>)
    requires |cells| == FLASH_SIZE && length <= MAX_LENGTH && PagesOf(length) * PAGE <= |source|
    ensures |r| == FLASH_SIZE
  {
    PagesFitSegments(length);
    ProgrammedRange(Erased(cells, StartOf(length), FLASH_SIZE - StartOf(length)), StartOf(length),
                    source[..PagesOf(length) * PAGE])
  }

  function Stored(cells: seq<byte>, length: nat): (data: seq<byte>)
    requires |cells| == FLASH_SIZE && length <= MAX_LENGTH
    ensures |data| == length
  {
    PagesFitSegments(length);
    cells[StartOf(length)..StartOf(length) + length]
  }

  /** Every cell after a write: programmed pages, erased rest of the tail, untouched below. */
  lemma WrittenCell(cells: seq<byte>, source: seq<byte>, length: nat, i: nat)
    requires |cells| == FLASH_SIZE && length <= MAX_LENGTH && PagesOf(length) * PAGE <= |source|
    requires i < FLASH_SIZE
    ensures Written(cells, source, length)[i] ==
      if i < StartOf(length) then cells[i]
      else if i < StartOf(length) + PagesOf(length) * PAGE then source[i - StartOf(length)]
      else 0xFF
  {
    PagesFitSegments(length);
    if StartOf(length) <= i < StartOf(length) + PagesOf(length) * PAGE {
      ErasedTakesData(source[i - StartOf(length)]);
    }
  }

  /** The read after a write, cell by cell: beyond the programmed pages it sees erased flash. */
  lemma ReadBack(cells: seq<byte>, source: seq<byte>, length: nat)
    requires |cells| == FLASH_SIZE && length <= MAX_LENGTH && PagesOf(length) * PAGE <= |source|
    requires length <= |source|
    ensures Stored(Written(cells, source, length), length) ==
      if length <= 65_280 then source[..length] else seq(length, _ => 0xFF)
  {
    PagesFitSegments(length);
    var got := Stored(Written(cells, source, length), length);
    forall k | 0 <= k < length
      ensures got[k] == if length <= 65_280 then source[k] else 0xFF
    {
      WrittenCell(cells, source, length, StartOf(length) + k);
    }
  }

  /**
   Flash round trip: a write reads back exactly when the 8-bit page count did not wrap, or when
   there was nothing to program.  The code is exact for every length up to 65,280.
   */
  lemma RoundTripExactly(cells: seq<byte>, source: seq<byte>, length: nat)
    requires |cells| == FLASH_SIZE && length <= MAX_LENGTH && PagesOf(length) * PAGE <= |source|
    requires length <= |source|
    ensures Stored(Written(cells, source, length), length) == source[..length] <==>
      length <= 65_280 || forall k :: 0 <= k < length ==> source[k] == 0xFF
  {
    ReadBack(cells, source, length);
    if length > 65_280 {
      var erased := seq(length, _ => 0xFF as byte);
      assert erased == source[..length] ==> forall k :: 0 <= k < length ==> source[..length][k] == erased[k];
      assert forall k :: 0 <= k < length ==> source[..length][k] == source[k];
    }
  }

  /** Nothing below the segments of the data changes. */
  lemma NothingElseChanges(cells: seq<byte>, source: seq<byte>, length: nat)
    requires |cells| == FLASH_SIZE && length <= MAX_LENGTH && PagesOf(length) * PAGE <= |source|
    ensures Written(cells, source, length)[..StartOf(length)] == cells[..StartOf(length)]
  {
  }

  /** The address of data of this length: whole 4096-byte segments at the end of 2 MB. */
  function TailAddress(length: nat): nat
    requires length <= MAX_LENGTH
  {
    0x20_0000 - 4096 * ((length + 4095) / 4096)
  }

  /** Where a write puts the data, what it leaves alone, and where a read looks, by address. */
  lemma TailExactly(cells: seq<byte>, source: seq<byte>, length: nat, i: nat)
    requires |cells| == FLASH_SIZE && length <= MAX_LENGTH && PagesOf(length) * PAGE <= |source|
    requires i < FLASH_SIZE
    ensures 0 <= TailAddress(length) <= 0x20_0000 - length
    ensures i < TailAddress(length) ==> Written(cells, source, length)[i] == cells[i]
    ensures TailAddress(length) <= i < TailAddress(length) + length && length <= 65_280 ==>
      i - TailAddress(length) < |source| && Written(cells, source, length)[i] == source[i - TailAddress(length)]
    ensures Stored(cells, length) == cells[TailAddress(length)..TailAddress(length) + length]
  {
    PagesFitSegments(length);
    WrittenCell(cells, source, length, i);
  }

  // ----- the code -----

  class Flash {
    const cells: array<byte>

    ghost predicate Valid() { cells.Length == FLASH_SIZE }

    method RangeErase(start: nat, count: nat)
      requires Valid() && start + count <= FLASH_SIZE && start % SEGMENT == 0 && count % SEGMENT == 0
      modifies cells
      ensures cells[..] == Erased(old(cells[..]), start, count)
    {
      forall i | start <= i < start + count {
        cells[i] := 0xFF;
      }
    }

    method RangeProgram(start: nat, data: seq<byte>)
      requires Valid() && start + |data| <= FLASH_SIZE && start % PAGE == 0 && |data| % PAGE == 0
      modifies cells
      ensures cells[..] == ProgrammedRange(old(cells[..]), start, data)
    {
      forall i | start <= i < start + |data| {
        cells[i] := Programmed(cells[i], data[i - start]);
      }
    }

    /** `write_in_non_volatile`. */
    method Write(source: seq<byte>, length: nat)
      requires Valid() && length <= MAX_LENGTH && PagesOf(length) * PAGE <= |source|
      modifies cells
      ensures cells[..] == Written(old(cells[..]), source, length)
    {
      PagesFitSegments(length);
      var numSegments := NumberOfSegments(length, SEGMENT);
      var writeStart := FLASH_SIZE - SEGMENT * numSegments;
      var numberOfPages := NumberOfSegments(length, PAGE);
      RangeErase(writeStart, SEGMENT * numSegments);
      RangeProgram(writeStart, source[..numberOfPages * PAGE]);
    }

    /** `read_from_non_volatile`. */
    method Read(length: nat) returns (buffer: seq<byte>)
      requires Valid() && length <= MAX_LENGTH
      ensures buffer == Stored(cells[..], length)
    {
      PagesFitSegments(length);
      var numSegments := NumberOfSegments(length, SEGMENT);
      var readStart := FLASH_SIZE - SEGMENT * numSegments;
      buffer := cells[readStart..readStart + length];
    }
  }
}
