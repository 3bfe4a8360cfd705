/** The sizes MetadataProvider computes up front, before anything is written. */
module HfsSizes {
  import opened Wrappers
  import opened HfsLayout

  const COMMON_NAME: bv32 := 0x1
  const COMMON_DEVICE: bv32 := 0x2
  const COMMON_FSID: bv32 := 0x4
  const COMMON_OBJECT_TYPE: bv32 := 0x8
  const COMMON_OBJECT_TAG: bv32 := 0x10
  const COMMON_OBJECT_ID: bv32 := 0x20
  const COMMON_PERMANENT_ID: bv32 := 0x40
  const COMMON_PARENT_ID: bv32 := 0x80
  const COMMON_SCRIPT: bv32 := 0x100
  const COMMON_CREATION_TIME: bv32 := 0x200
  const COMMON_MODIFICATION_TIME: bv32 := 0x400
  const COMMON_CHANGE_TIME: bv32 := 0x800
  const COMMON_ACCESS_TIME: bv32 := 0x1000
  const COMMON_BACKUP_TIME: bv32 := 0x2000
  const COMMON_FINDER_INFO: bv32 := 0x4000
  const COMMON_OWNER_ID: bv32 := 0x8000
  const COMMON_GROUP_ID: bv32 := 0x1_0000
  const COMMON_ACCESS_MASK: bv32 := 0x2_0000
  const COMMON_FLAGS: bv32 := 0x4_0000
  const COMMON_USER_ACCESS: bv32 := 0x20_0000

  const VOLUME_FILESYSTEM_TYPE: bv32 := 0x1
  const VOLUME_SIGNATURE: bv32 := 0x2
  const VOLUME_SIZE: bv32 := 0x4
  const VOLUME_SPACE_FREE: bv32 := 0x8
  const VOLUME_SPACE_AVAILABLE: bv32 := 0x10
  const VOLUME_MINIMUM_ALLOCATION: bv32 := 0x20
  const VOLUME_ALLOCATION_CLUMP: bv32 := 0x40
  const VOLUME_IO_BLOCK_SIZE: bv32 := 0x80
  const VOLUME_OBJECT_COUNT: bv32 := 0x100
  const VOLUME_FILE_COUNT: bv32 := 0x200
  const VOLUME_DIRECTORY_COUNT: bv32 := 0x400
  const VOLUME_MAX_OBJECT_COUNT: bv32 := 0x800
  const VOLUME_MOUNT_POINT: bv32 := 0x1000
  const VOLUME_NAME: bv32 := 0x2000
  const VOLUME_MOUNT_FLAGS: bv32 := 0x4000
  const VOLUME_MOUNTED_DEVICE: bv32 := 0x8000
  const VOLUME_ENCODINGS_USED: bv32 := 0x1_0000
  const VOLUME_CAPABILITIES: bv32 := 0x2_0000
  const VOLUME_ATTRIBUTES: bv32 := 0x4000_0000

  const DIRECTORY_LINK_COUNT: bv32 := 0x1
  const DIRECTORY_ENTRY_COUNT: bv32 := 0x2
  const DIRECTORY_MOUNT_STATUS: bv32 := 0x4

  const FILE_LINK_COUNT: bv32 := 0x1
  const FILE_TOTAL_SIZE: bv32 := 0x2
  const FILE_ALLOCATION_SIZE: bv32 := 0x4
  const FILE_IO_BLOCK_SIZE: bv32 := 0x8
  const FILE_DEVICE_TYPE: bv32 := 0x20
  const FILE_DATA_LENGTH: bv32 := 0x200
  const FILE_DATA_ALLOCATION_SIZE: bv32 := 0x400
  const FILE_RESOURCE_LENGTH: bv32 := 0x1000
  const FILE_RESOURCE_ALLOCATION_SIZE: bv32 := 0x2000

  /** if (asked) size += amount; */
  function When(asked: bool, amount: nat): nat {
    if asked then amount else 0
  }

  /** What one attribute adds to the fixed part. */
  function Cost(request: AttributeRequest, target: Target, id: nat): nat {
    if Asked(request, target, id) then ShapeOf(target, id).value.Size() else 0
  }

  lemma {:induction false} Quad(request: AttributeRequest, target: Target, id: nat)
    ensures FixedTo(request, target, id + 4)
            == FixedTo(request, target, id) + Cost(request, target, id) + Cost(request, target, id + 1)
               + Cost(request, target, id + 2) + Cost(request, target, id + 3)
  {
    hide Asked, ShapeOf;
    assert FixedTo(request, target, id + 1) == FixedTo(request, target, id) + Cost(request, target, id);
    assert FixedTo(request, target, id + 2) == FixedTo(request, target, id + 1) + Cost(request, target, id + 1);
    assert FixedTo(request, target, id + 3) == FixedTo(request, target, id + 2) + Cost(request, target, id + 2);
  }

  lemma {:induction false} Idle(request: AttributeRequest, target: Target, first: nat, end: nat)
    requires first <= end
    requires forall id | first <= id < end :: ShapeOf(target, id).None?
    ensures FixedTo(request, target, first) == FixedTo(request, target, end)
    decreases end
  {
    if first < end {
      Idle(request, target, first, end - 1);
    }
  }

  lemma EarlyCommonCosts(request: AttributeRequest, target: Target)
    ensures Cost(request, target, 0) == When(Meets(request.common, COMMON_NAME), 8)
    ensures Cost(request, target, 1) == When(Meets(request.common, COMMON_DEVICE), 4)
    ensures Cost(request, target, 2) == When(Meets(request.common, COMMON_FSID), 8)
    ensures Cost(request, target, 3) == When(Meets(request.common, COMMON_OBJECT_TYPE), 4)
    ensures Cost(request, target, 4) == When(Meets(request.common, COMMON_OBJECT_TAG), 4)
    ensures Cost(request, target, 5) == When(Meets(request.common, COMMON_OBJECT_ID), 8)
    ensures Cost(request, target, 6) == When(Meets(request.common, COMMON_PERMANENT_ID), 8)
    ensures Cost(request, target, 7) == When(Meets(request.common, COMMON_PARENT_ID), 8)
    ensures Cost(request, target, 8) == When(Meets(request.common, COMMON_SCRIPT), 4)
    ensures Cost(request, target, 9) == When(Meets(request.common, COMMON_CREATION_TIME), 8)
  {
    Flags();
    hide Flag, Meets;
  }

  lemma LateCommonCosts(request: AttributeRequest, target: Target)
    ensures Cost(request, target, 10) == When(Meets(request.common, COMMON_MODIFICATION_TIME), 8)
    ensures Cost(request, target, 11) == When(Meets(request.common, COMMON_CHANGE_TIME), 8)
    ensures Cost(request, target, 12) == When(Meets(request.common, COMMON_ACCESS_TIME), 8)
    ensures Cost(request, target, 13) == When(Meets(request.common, COMMON_BACKUP_TIME), 8)
    ensures Cost(request, target, 14) == When(Meets(request.common, COMMON_FINDER_INFO), 32)
    ensures Cost(request, target, 15) == When(Meets(request.common, COMMON_OWNER_ID), 4)
    ensures Cost(request, target, 16) == When(Meets(request.common, COMMON_GROUP_ID), 4)
    ensures Cost(request, target, 17) == When(Meets(request.common, COMMON_ACCESS_MASK), 4)
    ensures Cost(request, target, 18) == When(Meets(request.common, COMMON_FLAGS), 4)
    ensures Cost(request, target, 21) == When(Meets(request.common, COMMON_USER_ACCESS), 4)
    ensures Cost(request, target, 19) == Cost(request, target, 20) == 0
  {
    Flags();
    hide Flag, Meets;
  }

  method CommonFixedSize(mask: bv32, ghost request: AttributeRequest, ghost target: Target) returns (size: nat)
    requires mask == request.common
    ensures size == FixedTo(request, target, 32)
  {
    hide *;
    CommonSum(mask, request, target);
    size := 0;
    size := size + When(Meets(mask, COMMON_NAME), 8);
    size := size + When(Meets(mask, COMMON_DEVICE), 4);
    size := size + When(Meets(mask, COMMON_FSID), 8);
    size := size + When(Meets(mask, COMMON_OBJECT_TYPE), 4);
    size := size + When(Meets(mask, COMMON_OBJECT_TAG), 4);
    size := size + When(Meets(mask, COMMON_OBJECT_ID), 8);
    size := size + When(Meets(mask, COMMON_PERMANENT_ID), 8);
    size := size + When(Meets(mask, COMMON_PARENT_ID), 8);
    size := size + When(Meets(mask, COMMON_SCRIPT), 4);
    size := size + When(Meets(mask, COMMON_CREATION_TIME), 8);
    size := size + When(Meets(mask, COMMON_MODIFICATION_TIME), 8);
    size := size + When(Meets(mask, COMMON_CHANGE_TIME), 8);
    size := size + When(Meets(mask, COMMON_ACCESS_TIME), 8);
    size := size + When(Meets(mask, COMMON_BACKUP_TIME), 8);
    size := size + When(Meets(mask, COMMON_FINDER_INFO), 32);
    size := size + When(Meets(mask, COMMON_OWNER_ID), 4);
    size := size + When(Meets(mask, COMMON_GROUP_ID), 4);
    size := size + When(Meets(mask, COMMON_ACCESS_MASK), 4);
    size := size + When(Meets(mask, COMMON_FLAGS), 4);
    size := size + When(Meets(mask, COMMON_USER_ACCESS), 4);
  }

  lemma CommonSum(mask: bv32, request: AttributeRequest, target: Target)
    requires mask == request.common
    ensures FixedTo(request, target, 32)
            == When(Meets(mask, COMMON_NAME), 8)
               + When(Meets(mask, COMMON_DEVICE), 4)
               + When(Meets(mask, COMMON_FSID), 8)
               + When(Meets(mask, COMMON_OBJECT_TYPE), 4)
               + When(Meets(mask, COMMON_OBJECT_TAG), 4)
               + When(Meets(mask, COMMON_OBJECT_ID), 8)
               + When(Meets(mask, COMMON_PERMANENT_ID), 8)
               + When(Meets(mask, COMMON_PARENT_ID), 8)
               + When(Meets(mask, COMMON_SCRIPT), 4)
               + When(Meets(mask, COMMON_CREATION_TIME), 8)
               + When(Meets(mask, COMMON_MODIFICATION_TIME), 8)
               + When(Meets(mask, COMMON_CHANGE_TIME), 8)
               + When(Meets(mask, COMMON_ACCESS_TIME), 8)
               + When(Meets(mask, COMMON_BACKUP_TIME), 8)
               + When(Meets(mask, COMMON_FINDER_INFO), 32)
               + When(Meets(mask, COMMON_OWNER_ID), 4)
               + When(Meets(mask, COMMON_GROUP_ID), 4)
               + When(Meets(mask, COMMON_ACCESS_MASK), 4)
               + When(Meets(mask, COMMON_FLAGS), 4)
               + When(Meets(mask, COMMON_USER_ACCESS), 4)
  {
    hide *;
    Nothing(request, target);
    EarlyCommonCosts(request, target);
    LateCommonCosts(request, target);
    Quad(request, target, 0);
    Quad(request, target, 4);
    Quad(request, target, 8);
    Quad(request, target, 12);
    Quad(request, target, 16);
    LastTwo(request, target, 20);
    CommonIdle(request, target);
  }

  lemma CommonIdle(request: AttributeRequest, target: Target)
    ensures FixedTo(request, target, 22) == FixedTo(request, target, 32)
  {
    Idle(request, target, 22, 32);
  }

  lemma Nothing(request: AttributeRequest, target: Target)
    ensures FixedTo(request, target, 0) == 0
  {}

  lemma LastTwo(request: AttributeRequest, target: Target, id: nat)
    ensures FixedTo(request, target, id + 2)
            == FixedTo(request, target, id) + Cost(request, target, id) + Cost(request, target, id + 1)
  {
    hide Asked, ShapeOf;
    assert FixedTo(request, target, id + 1) == FixedTo(request, target, id) + Cost(request, target, id);
  }

  // ---------- The target's own group ----------

  /** What the first bits of a list add to a size when each that is set adds the same. */
  function Weight(mask: bv32, bits: seq<bv32>, count: nat, each: nat): nat
    requires count <= |bits|
    decreases count
  {
    if count == 0 then 0 else Weight(mask, bits, count - 1, each) + When(Meets(mask, bits[count - 1]), each)
  }

  /** for (const auto bit : bits) if (mask & bit) size += each; */
  method AddEach(mask: bv32, bits: seq<bv32>, each: nat, size: nat) returns (sum: nat)
    ensures sum == size + Weight(mask, bits, |bits|, each)
  {
    sum := size;
    for i := 0 to |bits|
      invariant sum == size + Weight(mask, bits, i, each)
    {
      if Meets(mask, bits[i]) {
        sum := sum + each;
      }
    }
  }

  const FILE_WORDS: seq<bv32> := [FILE_LINK_COUNT, FILE_IO_BLOCK_SIZE, FILE_DEVICE_TYPE]
  const FILE_WIDES: seq<bv32> := [
    FILE_TOTAL_SIZE, FILE_ALLOCATION_SIZE, FILE_DATA_LENGTH, FILE_DATA_ALLOCATION_SIZE, FILE_RESOURCE_LENGTH,
    FILE_RESOURCE_ALLOCATION_SIZE]

  lemma FileWords(mask: bv32, each: nat)
    ensures |FILE_WORDS| == 3
    ensures Weight(mask, FILE_WORDS, 3, each)
            == When(Meets(mask, FILE_LINK_COUNT), each)
               + When(Meets(mask, FILE_IO_BLOCK_SIZE), each)
               + When(Meets(mask, FILE_DEVICE_TYPE), each)
  {
    hide Meets, When;
  }

  lemma FileWides(mask: bv32, each: nat)
    ensures |FILE_WIDES| == 6
    ensures Weight(mask, FILE_WIDES, 6, each)
            == When(Meets(mask, FILE_TOTAL_SIZE), each)
               + When(Meets(mask, FILE_ALLOCATION_SIZE), each)
               + When(Meets(mask, FILE_DATA_LENGTH), each)
               + When(Meets(mask, FILE_DATA_ALLOCATION_SIZE), each)
               + When(Meets(mask, FILE_RESOURCE_LENGTH), each)
               + When(Meets(mask, FILE_RESOURCE_ALLOCATION_SIZE), each)
  {
    hide Meets, When;
  }

  lemma FileCosts(request: AttributeRequest)
    ensures Cost(request, File, 32) == When(Meets(request.file, FILE_LINK_COUNT), 4)
    ensures Cost(request, File, 33) == When(Meets(request.file, FILE_TOTAL_SIZE), 8)
    ensures Cost(request, File, 34) == When(Meets(request.file, FILE_ALLOCATION_SIZE), 8)
    ensures Cost(request, File, 35) == When(Meets(request.file, FILE_IO_BLOCK_SIZE), 4)
    ensures Cost(request, File, 37) == When(Meets(request.file, FILE_DEVICE_TYPE), 4)
    ensures Cost(request, File, 41) == When(Meets(request.file, FILE_DATA_LENGTH), 8)
    ensures Cost(request, File, 42) == When(Meets(request.file, FILE_DATA_ALLOCATION_SIZE), 8)
    ensures Cost(request, File, 44) == When(Meets(request.file, FILE_RESOURCE_LENGTH), 8)
    ensures Cost(request, File, 45) == When(Meets(request.file, FILE_RESOURCE_ALLOCATION_SIZE), 8)
    ensures Cost(request, File, 36) == Cost(request, File, 38) == Cost(request, File, 39) == 0
    ensures Cost(request, File, 40) == Cost(request, File, 43) == 0
  {
    Flags();
    hide Flag, Meets;
  }

  method FileFixedSize(mask: bv32, ghost request: AttributeRequest) returns (size: nat)
    requires mask == request.file
    ensures FixedTo(request, File, 32) + size == FixedTo(request, File, 64)
  {
    hide FixedTo, Cost, Meets, When, Weight;
    size := AddEach(mask, FILE_WORDS, 4, 0);
    size := AddEach(mask, FILE_WIDES, 8, size);
    FileWords(mask, 4);
    FileWides(mask, 8);
    FileCosts(request);
    Quad(request, File, 32);
    Quad(request, File, 36);
    Quad(request, File, 40);
    LastTwo(request, File, 44);
    Idle(request, File, 46, 64);
  }

  const VOLUME_WORDS: seq<bv32> := [
    VOLUME_FILESYSTEM_TYPE, VOLUME_SIGNATURE, VOLUME_IO_BLOCK_SIZE, VOLUME_OBJECT_COUNT, VOLUME_FILE_COUNT,
    VOLUME_DIRECTORY_COUNT, VOLUME_MAX_OBJECT_COUNT, VOLUME_MOUNT_FLAGS]
  const VOLUME_WIDES: seq<bv32> := [
    VOLUME_SIZE, VOLUME_SPACE_FREE, VOLUME_SPACE_AVAILABLE, VOLUME_MINIMUM_ALLOCATION, VOLUME_ALLOCATION_CLUMP,
    VOLUME_ENCODINGS_USED]
  const VOLUME_STRINGS: seq<bv32> := [VOLUME_MOUNT_POINT, VOLUME_NAME, VOLUME_MOUNTED_DEVICE]

  lemma VolumeWords(mask: bv32, each: nat)
    ensures |VOLUME_WORDS| == 8
    ensures Weight(mask, VOLUME_WORDS, 8, each)
            == When(Meets(mask, VOLUME_FILESYSTEM_TYPE), each)
               + When(Meets(mask, VOLUME_SIGNATURE), each)
               + When(Meets(mask, VOLUME_IO_BLOCK_SIZE), each)
               + When(Meets(mask, VOLUME_OBJECT_COUNT), each)
               + When(Meets(mask, VOLUME_FILE_COUNT), each)
               + When(Meets(mask, VOLUME_DIRECTORY_COUNT), each)
               + When(Meets(mask, VOLUME_MAX_OBJECT_COUNT), each)
               + When(Meets(mask, VOLUME_MOUNT_FLAGS), each)
  {
    hide Meets, When;
  }

  lemma VolumeWides(mask: bv32, each: nat)
    ensures |VOLUME_WIDES| == 6
    ensures Weight(mask, VOLUME_WIDES, 6, each)
            == When(Meets(mask, VOLUME_SIZE), each)
               + When(Meets(mask, VOLUME_SPACE_FREE), each)
               + When(Meets(mask, VOLUME_SPACE_AVAILABLE), each)
               + When(Meets(mask, VOLUME_MINIMUM_ALLOCATION), each)
               + When(Meets(mask, VOLUME_ALLOCATION_CLUMP), each)
               + When(Meets(mask, VOLUME_ENCODINGS_USED), each)
  {
    hide Meets, When;
  }

  lemma VolumeStrings(mask: bv32, each: nat)
    ensures |VOLUME_STRINGS| == 3
    ensures Weight(mask, VOLUME_STRINGS, 3, each)
            == When(Meets(mask, VOLUME_MOUNT_POINT), each)
               + When(Meets(mask, VOLUME_NAME), each)
               + When(Meets(mask, VOLUME_MOUNTED_DEVICE), each)
  {
    hide Meets, When;
  }

  lemma EarlyVolumeCosts(request: AttributeRequest)
    ensures Cost(request, Volume, 32) == When(Meets(request.volume, VOLUME_FILESYSTEM_TYPE), 4)
    ensures Cost(request, Volume, 33) == When(Meets(request.volume, VOLUME_SIGNATURE), 4)
    ensures Cost(request, Volume, 34) == When(Meets(request.volume, VOLUME_SIZE), 8)
    ensures Cost(request, Volume, 35) == When(Meets(request.volume, VOLUME_SPACE_FREE), 8)
    ensures Cost(request, Volume, 36) == When(Meets(request.volume, VOLUME_SPACE_AVAILABLE), 8)
    ensures Cost(request, Volume, 37) == When(Meets(request.volume, VOLUME_MINIMUM_ALLOCATION), 8)
    ensures Cost(request, Volume, 38) == When(Meets(request.volume, VOLUME_ALLOCATION_CLUMP), 8)
    ensures Cost(request, Volume, 39) == When(Meets(request.volume, VOLUME_IO_BLOCK_SIZE), 4)
    ensures Cost(request, Volume, 40) == When(Meets(request.volume, VOLUME_OBJECT_COUNT), 4)
  {
    Flags();
    hide Flag, Meets;
  }

  lemma LateVolumeCosts(request: AttributeRequest)
    ensures Cost(request, Volume, 41) == When(Meets(request.volume, VOLUME_FILE_COUNT), 4)
    ensures Cost(request, Volume, 42) == When(Meets(request.volume, VOLUME_DIRECTORY_COUNT), 4)
    ensures Cost(request, Volume, 43) == When(Meets(request.volume, VOLUME_MAX_OBJECT_COUNT), 4)
    ensures Cost(request, Volume, 44) == When(Meets(request.volume, VOLUME_MOUNT_POINT), 8)
    ensures Cost(request, Volume, 45) == When(Meets(request.volume, VOLUME_NAME), 8)
    ensures Cost(request, Volume, 46) == When(Meets(request.volume, VOLUME_MOUNT_FLAGS), 4)
    ensures Cost(request, Volume, 47) == When(Meets(request.volume, VOLUME_MOUNTED_DEVICE), 8)
    ensures Cost(request, Volume, 48) == When(Meets(request.volume, VOLUME_ENCODINGS_USED), 8)
    ensures Cost(request, Volume, 49) == When(Meets(request.volume, VOLUME_CAPABILITIES), 32)
    ensures Cost(request, Volume, 62) == When(Meets(request.volume, VOLUME_ATTRIBUTES), 40)
    ensures Cost(request, Volume, 63) == 0
  {
    Flags();
    hide Flag, Meets;
  }

  method VolumeFixedSize(mask: bv32, ghost request: AttributeRequest) returns (size: nat)
    requires mask == request.volume
    ensures FixedTo(request, Volume, 32) + size == FixedTo(request, Volume, 64)
  {
    hide FixedTo, Cost, Meets, When, Weight;
    size := AddEach(mask, VOLUME_WORDS, 4, 0);
    size := AddEach(mask, VOLUME_WIDES, 8, size);
    size := AddEach(mask, VOLUME_STRINGS, 8, size);
    size := size + When(Meets(mask, VOLUME_CAPABILITIES), 32);
    size := size + When(Meets(mask, VOLUME_ATTRIBUTES), 40);
    VolumeWords(mask, 4);
    VolumeWides(mask, 8);
    VolumeStrings(mask, 8);
    EarlyVolumeCosts(request);
    LateVolumeCosts(request);
    Quad(request, Volume, 32);
    Quad(request, Volume, 36);
    Quad(request, Volume, 40);
    Quad(request, Volume, 44);
    LastTwo(request, Volume, 48);
    Idle(request, Volume, 50, 62);
    LastTwo(request, Volume, 62);
  }

  /** std::popcount, counting the bits below a position. */
  function PopCount(mask: bv32, bit: nat): nat {
    if bit == 0 then 0 else PopCount(mask, bit - 1) + When(Has(mask, bit - 1), 1)
  }

  lemma {:induction false} HighFlags(bit: nat)
    requires 3 <= bit
    ensures Flag(bit) & 7 == 0
  {
    if bit == 3 {
      Flags();
    } else {
      HighFlags(bit - 1);
    }
  }

  lemma SupportedBit(mask: bv32, bit: nat)
    requires bit < 32
    ensures Has(mask & DIRECTORY_SUPPORTED_MASK, bit) <==> bit < 3 && Has(mask, bit)
  {
    if bit < 3 {
      Flags();
      LowFlag(mask, Flag(bit));
    } else {
      HighFlags(bit);
      HighFlag(mask, Flag(bit));
    }
  }

  lemma LowFlag(mask: bv32, flag: bv32)
    requires flag == 1 || flag == 2 || flag == 4
    ensures Meets(mask & DIRECTORY_SUPPORTED_MASK, flag) <==> Meets(mask, flag)
  {}

  lemma HighFlag(mask: bv32, flag: bv32)
    requires flag & 7 == 0
    ensures !Meets(mask & DIRECTORY_SUPPORTED_MASK, flag)
  {}

  lemma {:induction false} DirectoryCosts(request: AttributeRequest, bit: nat)
    requires bit <= 32
    ensures FixedTo(request, Directory, 32 + bit)
            == FixedTo(request, Directory, 32) + PopCount(request.directory & DIRECTORY_SUPPORTED_MASK, bit) * 4
  {
    hide Has;
    if bit > 0 {
      DirectoryCosts(request, bit - 1);
      SupportedBit(request.directory, bit - 1);
    }
  }

  function DirectoryFixedSize(mask: bv32): nat {
    PopCount(mask & DIRECTORY_SUPPORTED_MASK, 32) * 4
  }

  /** The population count times four is the size of the directory fields, for every bitmap. */
  lemma DirectorySizeAgrees(request: AttributeRequest)
    ensures FixedTo(request, Directory, 32) + DirectoryFixedSize(request.directory) == FixedTo(request, Directory, 64)
  {
    hide PopCount, FixedTo;
    DirectoryCosts(request, 32);
  }
}
