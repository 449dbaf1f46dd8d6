/** The copy that moves a payload to its load address; source and destination may overlap either way. */
module Reloc {
  import opened Bits

  /** i-- on a 32-bit counter. */
  function Before(i: u32): u32 { if i == 0 then 0xffff_ffff else i - 1 }

  /** The copy loops of reloc, on offsets into one memory. */
  method Relocate(mem: array<u8>, dst: nat, src: nat, size: u32)
    requires dst + size <= mem.Length && src + size <= mem.Length
    modifies mem
    ensures mem[dst..dst + size] == old(mem[src..src + size])
    ensures forall k :: 0 <= k < mem.Length && !(dst <= k < dst + size) ==> mem[k] == old(mem[k])
  {
    if dst < src {
      var i := 0;
      while i < size
        invariant 0 <= i <= size
        invariant forall m :: dst <= m < dst + i ==> mem[m] == old(mem[m - dst + src])
        invariant forall k :: 0 <= k < mem.Length && !(dst <= k < dst + i) ==> mem[k] == old(mem[k])
      {
        mem[dst + i] := mem[src + i];
        i := i + 1;
      }
      assert mem[dst..dst + size] == old(mem[src..src + size]);
    } else if dst > src {
      CopyDown(mem, dst, src, size);
    }
  }

  /** The downward loop counts until the counter wraps around, which for size 0 it does at once. */
  method CopyDown(mem: array<u8>, dst: nat, src: nat, size: u32)
    requires src < dst && dst + size <= mem.Length
    modifies mem
    ensures mem[dst..dst + size] == old(mem[src..src + size])
    ensures forall k :: 0 <= k < mem.Length && !(dst <= k < dst + size) ==> mem[k] == old(mem[k])
  {
    var i := Before(size);
    ghost var left: nat := size;
    while i < size
      invariant left <= size && i == Before(left)
      invariant forall m :: dst + left <= m < dst + size ==> mem[m] == old(mem[m - dst + src])
      invariant forall k :: 0 <= k < mem.Length && !(dst + left <= k < dst + size) ==> mem[k] == old(mem[k])
      decreases left
    {
      mem[dst + i] := mem[src + i];
      i := Before(i);
      left := left - 1;
    }
  }
}
