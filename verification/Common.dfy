/** What several of the models use. */
module Common {

  datatype Option<T> = None | Some(value: T)

  // The slots of the process table, and the pages of user memory.
  const NPROC := 64
  const USERTOP := 160

  type Byte = x: int | 0 <= x < 256
  type Word32 = x: int | 0 <= x < 0x1_0000_0000

  // A subset is no larger.
  lemma SubsetSize(a: set<int>, b: set<int>)
    requires a <= b
    ensures |a| <= |b|
  {
    assert b == a + (b - a);
  }
}
