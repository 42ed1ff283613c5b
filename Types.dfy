/** Machine-level types shared by both variants of the filesystem: bytes and
    fixed-width unsigned integers with their C wrap-around, the little-endian
    layout of a `uint32_t` in memory, the kernel error codes the core returns,
    and the file-type bits of a `umode_t`. */
module Types {

  type byte = x: int | 0 <= x < 256

  const U16_LIMIT: nat := 0x1_0000
  const U32_LIMIT: nat := 0x1_0000_0000

  type u16 = x: int | 0 <= x < U16_LIMIT
  type u32 = x: int | 0 <= x < U32_LIMIT

  /** Storing an integer into a `uint32_t` keeps it modulo 2^32. */
  function Trunc32(x: int): (r: u32)
    ensures 0 <= x < U32_LIMIT ==> r == x
    ensures x == -1 ==> r == U32_LIMIT - 1
  {
    x % U32_LIMIT
  }

  /** `x--` on a `uint32_t`: 0 wraps to 0xFFFFFFFF. */
  function Dec32(x: u32): (r: u32)
    ensures x > 0 ==> r == x - 1
    ensures x == 0 ==> r == U32_LIMIT - 1
  {
    Trunc32(x - 1)
  }

  /** `x++` on a `uint32_t`: 0xFFFFFFFF wraps to 0. */
  function Inc32(x: u32): (r: u32)
    ensures x < U32_LIMIT - 1 ==> r == x + 1
    ensures x == U32_LIMIT - 1 ==> r == 0
  {
    Trunc32(x + 1)
  }

  /** The kernel error numbers the core returns (negated in C). */
  datatype Errno = ENOSPC | EEXIST | EINVAL | EFAULT | ENODATA | ENOMEM | EIO

  datatype Option<T> = None | Some(value: T)

  /** A C function that returns either a value or `-errno`. */
  datatype Result<T> = Ok(value: T) | Err(error: Errno)

  /** A C function that returns `0` or `-errno`. */
  datatype Outcome = Pass | Fail(error: Errno)

  /** C's signed `/`, which rounds toward zero (Dafny's rounds down). */
  function CDiv(x: int, d: nat): (q: int)
    requires d > 0
    ensures x >= 0 ==> q == x / d
    ensures -(d as int) < x < 0 ==> q == 0
  {
    if x >= 0 then x / d else -((-x) / d)
  }

  function Min(a: int, b: int): int { if a < b then a else b }
  function Max(a: int, b: int): int { if a < b then b else a }

  /** The four bytes of a `uint32_t` as a little-endian machine stores them. */
  function Le32(x: u32): (r: seq<byte>)
    ensures |r| == 4
  {
    [x % 256, (x / 256) % 256, (x / 65536) % 256, x / 16777216]
  }

  /** The `uint32_t` that four little-endian bytes hold. */
  function FromLe32(b: seq<byte>): u32
    requires |b| == 4
  {
    b[0] as int + 256 * (b[1] as int) + 65536 * (b[2] as int) + 16777216 * (b[3] as int)
  }

  lemma Le32RoundTrip(x: u32)
    ensures FromLe32(Le32(x)) == x
  {
    var b := Le32(x);
    assert x == x % 256 + 256 * (x / 256);
    assert x / 256 == (x / 256) % 256 + 256 * (x / 65536);
    assert x / 65536 == (x / 65536) % 256 + 256 * (x / 16777216);
  }

  lemma Le32Injective(x: u32, y: u32)
    requires Le32(x) == Le32(y)
    ensures x == y
  {
    Le32RoundTrip(x);
    Le32RoundTrip(y);
  }

  // File-type bits of a umode_t (S_IFMT and the three types the core accepts).
  const S_IFMT: nat := 0xF000
  const S_IFDIR: nat := 0x4000
  const S_IFREG: nat := 0x8000
  const S_IFLNK: nat := 0xA000

  /** `mode & S_IFMT` for a 16-bit mode. */
  function FileType(mode: u16): (t: nat)
    ensures t % 0x1000 == 0 && t <= mode < t + 0x1000
  {
    (mode / 0x1000) * 0x1000
  }

  predicate IsDir(mode: u16) { FileType(mode) == S_IFDIR }
  predicate IsReg(mode: u16) { FileType(mode) == S_IFREG }
  predicate IsLnk(mode: u16) { FileType(mode) == S_IFLNK }

  /** The modes `osfs_new_inode` and `osfs_create` accept. */
  predicate SupportedMode(mode: u16) { IsDir(mode) || IsReg(mode) || IsLnk(mode) }
}
