/**
 The settings record in flash, `runtime_settings.c`, and the boot prelude of `core1_entry` in
 `main.c` that makes sure there is a valid one.
 */
module SettingsFlash {
  import opened Bytes
  import opened Settings
  import opened NonVolatile

  /** The result of `read_settings_from_flash` for what was read. */
  function Status(image: seq<byte>): nat
    requires |image| == SIZE
  {
    if image[..4] != SETTINGS_FLAG then 2 else if image[..4] != image[END_FLAG..] then 3 else 0
  }

  /** `write_settings_in_flash` sets both flags of the record first. */
  function Flagged(mem: seq<byte>): (r: seq<byte>)
    requires |mem| == SIZE
    ensures |r| == SIZE && Status(r) == 0
  {
    var r := SETTINGS_FLAG + mem[4..END_FLAG] + SETTINGS_FLAG;
    assert r[..4] == SETTINGS_FLAG && r[END_FLAG..] == SETTINGS_FLAG;
    r
  }

  lemma FlaggedKeepsValid(mem: seq<byte>)
    requires |mem| == SIZE && Status(mem) == 0
    ensures Flagged(mem) == mem
  {
  }

  /** The bytes behind the record that fill its last flash page. */
  type Padding = p: seq<byte> | |p| == 212 witness seq(212, _ => 0)

  /** The flash after the record was written. */
  function Saved(flash: seq<byte>, mem: seq<byte>, padding: Padding): (r: seq<byte>)
    requires |flash| == FLASH_SIZE && |mem| == SIZE
    ensures |r| == FLASH_SIZE
  {
    Written(flash, mem + padding, SIZE)
  }

  lemma SavedReadsBack(flash: seq<byte>, mem: seq<byte>, padding: Padding)
    requires |flash| == FLASH_SIZE && |mem| == SIZE
    ensures Stored(Saved(flash, mem, padding), SIZE) == mem
  {
    ReadBack(flash, mem + padding, SIZE);
    assert (mem + padding)[..SIZE] == mem;
  }

  /** The boot prelude of `core1_entry`: the record in RAM and the flash it leaves behind. */
  function Boot(flash: seq<byte>, defaults: seq<byte>, padding: Padding): (r: (seq<byte>, seq<byte>))
    requires |flash| == FLASH_SIZE && |defaults| == SIZE
    ensures |r.0| == SIZE && |r.1| == FLASH_SIZE
  {
    var image := Stored(flash, SIZE);
    if Status(image) == 0 then (image, flash)
    else (Flagged(defaults), Saved(flash, Flagged(defaults), padding))
  }

  /**
   From any flash contents the boot prelude leaves RAM equal to a flash image that reads back
   with status 0; a valid image is taken as it is, anything else is replaced by the defaults.
   */
  lemma BootIsDurable(flash: seq<byte>, defaults: seq<byte>, padding: Padding)
    requires |flash| == FLASH_SIZE && |defaults| == SIZE
    ensures var (ram, after) := Boot(flash, defaults, padding);
            && Stored(after, SIZE) == ram
            && Status(ram) == 0
            && (Status(Stored(flash, SIZE)) == 0 ==> after == flash && ram == Stored(flash, SIZE))
            && (Status(Stored(flash, SIZE)) != 0 ==> ram[4..END_FLAG] == defaults[4..END_FLAG])
            && after[..StartOf(SIZE)] == flash[..StartOf(SIZE)]
  {
    SavedReadsBack(flash, Flagged(defaults), padding);
    NothingElseChanges(flash, Flagged(defaults) + padding, SIZE);
  }

  /** Both flag words of a record image have the value 0x00A5A5A5. */
  predicate HasFlags(image: seq<byte>)
    requires |image| == 812
  {
    image[..4] == [0xA5, 0xA5, 0xA5, 0] && image[808..] == [0xA5, 0xA5, 0xA5, 0]
  }

  /** The boot prelude by address: the record lies 4096 bytes below the end of the flash. */
  lemma BootExactly(flash: seq<byte>, defaults: seq<byte>, padding: Padding)
    requires |flash| == 0x20_0000 && |defaults| == 812
    ensures var image, (ram, after) := flash[0x1F_F000..0x1F_F32C], Boot(flash, defaults, padding);
      && (HasFlags(image) ==> ram == image && after == flash)
      && (!HasFlags(image) ==> HasFlags(ram) && ram[4..808] == defaults[4..808])
      && after[0x1F_F000..0x1F_F32C] == ram && after[..0x1F_F000] == flash[..0x1F_F000]
  {
    var after := Boot(flash, defaults, padding).1;
    BootIsDurable(flash, defaults, padding);
    PagesFitSegments(SIZE);
    assert Stored(flash, SIZE) == flash[0x1F_F000..0x1F_F32C] && Stored(after, SIZE) == after[0x1F_F000..0x1F_F32C];
  }

  // ----- the code -----

  class SettingsStore {
    const flash: Flash
    const record: SettingsRecord

    ghost predicate Valid() { flash.Valid() && record.Valid() && flash.cells != record.mem }

    constructor (flash: Flash, record: SettingsRecord)
      requires flash.Valid() && record.Valid() && flash.cells != record.mem
      ensures Valid() && this.flash == flash && this.record == record
    {
      this.flash, this.record := flash, record;
    }

    method Overwrite(settings: SettingsRecord, image: seq<byte>)
      requires settings.Valid() && |image| == SIZE
      modifies settings.mem
      ensures settings.mem[..] == image
    {
      forall i | 0 <= i < SIZE {
        settings.mem[i] := image[i];
      }
    }

    /** `read_settings_from_flash`. */
    method ReadSettings(settings: SettingsRecord?) returns (res: nat)
      requires flash.Valid() && (settings != null ==> settings.Valid() && flash.cells != settings.mem)
      modifies if settings == null then {} else {settings.mem}
      ensures settings == null ==> res == 1
      ensures settings != null ==>
        && settings.mem[..] == Stored(flash.cells[..], SIZE) && res == Status(settings.mem[..])
        && (res == 2 <==> settings.mem[..4] != [0xA5, 0xA5, 0xA5, 0])
        && (res == 0 <==> HasFlags(settings.mem[..]))
        && (res == 0 || res == 2 || res == 3)
    {
      if settings == null {
        return 1;
      }
      var image := flash.Read(SIZE);
      Overwrite(settings, image);
      if settings.mem[..4] != SETTINGS_FLAG {
        return 2;
      }
      if settings.mem[..4] != settings.mem[END_FLAG..] {
        return 3;
      }
      return 0;
    }

    /** `write_settings_in_flash`, which does nothing without a record. */
    method WriteSettings(settings: SettingsRecord?, padding: Padding)
      requires flash.Valid() && (settings != null ==> settings.Valid() && flash.cells != settings.mem)
      modifies if settings == null then {} else {settings.mem, flash.cells}
      ensures settings != null ==>
        && settings.mem[..] == Flagged(old(settings.mem[..]))
        && flash.cells[..] == Saved(old(flash.cells[..]), Flagged(old(settings.mem[..])), padding)
    {
      if settings == null {
        return;
      }
      ghost var before := settings.mem[..];
      forall i | 0 <= i < 4 {
        settings.mem[i] := SETTINGS_FLAG[i];
      }
      forall i | END_FLAG <= i < SIZE {
        settings.mem[i] := SETTINGS_FLAG[i - END_FLAG];
      }
      assert settings.mem[..] == Flagged(before);
      flash.Write(settings.mem[..] + padding, SIZE);
    }

    /** The boot prelude: read the record, or install and save the defaults. */
    method BootPrelude(defaults: seq<byte>, padding: Padding)
      requires Valid() && |defaults| == SIZE
      modifies record.mem, flash.cells
      ensures (record.mem[..], flash.cells[..]) == Boot(old(flash.cells[..]), defaults, padding)
    {
      var res := ReadSettings(record);
      if res != 0 {
        Overwrite(record, defaults);
        WriteSettings(record, padding);
      }
    }
  }
}
