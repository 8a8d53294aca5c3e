/** Memory and files, which may be refused at any call; the ghost counters record how often
    they were. */
module Resources {
  class Memory {
    ghost var refused: nat

    constructor ()
      ensures refused == 0
    {
      refused := 0;
    }

    method Allocate() returns (ok: bool)
      modifies this
      ensures refused == old(refused) + if ok then 0 else 1
    {
      ok := *;
      refused := if ok then refused else refused + 1;
    }
  }

  class Disk {
    ghost var failed: nat    // reads that gave nothing
    ghost var asked: nat     // how much the last read asked for

    constructor ()
      ensures failed == asked == 0
    {
      failed, asked := 0, 0;
    }

    /** pread: at least one byte, or -1. */
    method Pread(max: nat) returns (n: int)
      requires max > 0
      modifies this
      ensures n == -1 || 1 <= n <= max
      ensures failed == old(failed) + (if n == -1 then 1 else 0) && asked == max
    {
      n :| -1 <= n <= max && n != 0;
      failed := if n == -1 then failed + 1 else failed;
      asked := max;
    }
  }
}
