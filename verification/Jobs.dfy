/** Tags and copy jobs (pkg/cim/registry/tag.go, pkg/cim/run.go). */
module Jobs {

  datatype Option<+T> = None | Some(value: T)

  /** One past the largest value of the source's `uint` and `uint64`. */
  const U64: nat := 0x1_0000_0000_0000_0000

  type uint64 = n: nat | n < U64

  /** The result of an unsigned 64-bit addition or subtraction. */
  function Wrap(n: int): uint64 {
    if 0 <= n < U64 then n else n % U64
  }

  lemma WrapWrapped(a: int, b: int)
    ensures Wrap(Wrap(a) + b) == Wrap(a + b)
  {
    assert a + b == (Wrap(a) + b) + U64 * (a / U64);
    WrapMultiple(Wrap(a) + b, a / U64);
  }

  lemma WrapMultiple(a: int, k: int)
    ensures Wrap(a + U64 * k) == Wrap(a)
  {
    assert (a + U64 * k) / U64 == a / U64 + k;
  }

  lemma WrapSmall(n: int)
    requires 0 <= n < U64
    ensures Wrap(n) == n
  {
  }

  lemma WrapOnce(n: int)
    requires U64 <= n < 2 * U64
    ensures Wrap(n) == n - U64
  {
    WrapMultiple(n - U64, 1);
  }

  /** `ConfigBufferSize` of pkg/cim/config.go, the capacity of every buffered channel. */
  const CONFIG_BUFFER_SIZE: nat := 1024

  /** `size` in bytes; `lastModified` is a pointer in the source, hence the option. */
  datatype TagDetails = TagDetails(
    image: string, digest: string, original: string, lastModified: Option<int>, size: uint64)
  {
    function String(): string {
      original
    }
  }

  datatype CopyJob = CopyJob(src: TagDetails, dst: TagDetails, size: uint64)
}
