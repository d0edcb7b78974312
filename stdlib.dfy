// The kernel's byte routines (src/common/stdlib.c). Memory is one byte
// array and a pointer is an index into it, so source and destination of a
// copy may overlap just as they may in the C code.

module Stdlib {
  import opened Common

  /** The memory image after memcpy's loop has copied its first n bytes, one at a time, front to back. */
  function CopyForward(m: seq<u8>, dst: int, src: int, n: nat): (r: seq<u8>)
    requires 0 <= dst && dst + n <= |m|
    requires 0 <= src && src + n <= |m|
    ensures |r| == |m|
    decreases n
  {
    if n == 0 then m
    else
      var p := CopyForward(m, dst, src, n - 1);
      p[dst + n - 1 := p[src + n - 1]]
  }

  /** The copy writes only the destination range, whatever the overlap. */
  lemma {:induction false} CopyForwardFrame(m: seq<u8>, dst: int, src: int, n: nat)
    requires 0 <= dst && dst + n <= |m|
    requires 0 <= src && src + n <= |m|
    ensures forall k | 0 <= k < |m| && !(dst <= k < dst + n) :: CopyForward(m, dst, src, n)[k] == m[k]
  {
    if n > 0 {
      CopyForwardFrame(m, dst, src, n - 1);
    }
  }

  /** With disjoint ranges, the i-th destination byte ends up equal to the i-th source byte. */
  lemma {:induction false} CopyForwardDisjoint(m: seq<u8>, dst: int, src: int, n: nat)
    requires 0 <= dst && dst + n <= |m|
    requires 0 <= src && src + n <= |m|
    requires dst + n <= src || src + n <= dst
    ensures forall k | dst <= k < dst + n :: CopyForward(m, dst, src, n)[k] == m[src + (k - dst)]
  {
    if n > 0 {
      CopyForwardDisjoint(m, dst, src, n - 1);
      CopyForwardFrame(m, dst, src, n - 1);
      var p := CopyForward(m, dst, src, n - 1);
      assert p[src + n - 1] == m[src + n - 1];
    }
  }

  /** memcpy: nothing happens for num <= 0; otherwise the bytes are copied front to back. */
  method Memcpy(mem: array<u8>, dst: int, src: int, num: int)
    requires num <= 0 || (0 <= dst && dst + num <= mem.Length && 0 <= src && src + num <= mem.Length)
    modifies mem
    ensures num <= 0 ==> mem[..] == old(mem[..])
    ensures num > 0 ==> mem[..] == CopyForward(old(mem[..]), dst, src, num)
    ensures forall k | 0 <= k < mem.Length && !(dst <= k < dst + num) :: mem[k] == old(mem[k])
    ensures num > 0 && (dst + num <= src || src + num <= dst) ==>
              forall k | dst <= k < dst + num :: mem[k] == old(mem[src + (k - dst)])
  {
    var i := 0;
    while i < num
      invariant num <= 0 ==> i == 0 && mem[..] == old(mem[..])
      invariant num > 0 ==> 0 <= i <= num && mem[..] == CopyForward(old(mem[..]), dst, src, i)
    {
      mem[dst + i] := mem[src + i];
      i := i + 1;
    }
    if num > 0 {
      CopyForwardFrame(old(mem[..]), dst, src, num);
      if dst + num <= src || src + num <= dst {
        CopyForwardDisjoint(old(mem[..]), dst, src, num);
      }
    }
  }

  /**
   * The effect of memset as written: the loop stores `value` through the
   * unadvanced pointer on every pass, so only the first byte changes.
   */
  function FirstByteSet(m: seq<u8>, addr: int, value: u8, num: int): (r: seq<u8>)
    requires num <= 0 || 0 <= addr < |m|
    ensures |r| == |m|
    ensures num > 0 ==> r[addr] == value
    ensures forall k | 0 <= k < |m| && (num <= 0 || k != addr) :: r[k] == m[k]
  {
    if num > 0 then m[addr := value] else m
  }

  /** memset as written: num passes, each writing addr[0]. */
  method MemsetAsWritten(mem: array<u8>, addr: int, value: u8, num: int)
    requires num <= 0 || 0 <= addr < mem.Length
    modifies mem
    ensures mem[..] == FirstByteSet(old(mem[..]), addr, value, num)
  {
    var i := 0;
    while i < num
      invariant if num <= 0 then i == 0 else 0 <= i <= num
      invariant mem[..] == FirstByteSet(old(mem[..]), addr, value, i)
    {
      mem[addr] := value;
      i := i + 1;
    }
  }

  /** Two bytes of 7 set to 0 with num == 2: the second byte keeps its 7. */
  lemma MemsetAsWrittenMisses()
    ensures FirstByteSet([7, 7], 0, 0, 2) == [0, 7]
  {
  }

  /** memset as intended: the num bytes from addr become `value`, nothing else changes. */
  method Memset(mem: array<u8>, addr: int, value: u8, num: int)
    requires num <= 0 || (0 <= addr && addr + num <= mem.Length)
    modifies mem
    ensures forall k | 0 <= k < mem.Length ::
              mem[k] == (if addr <= k < addr + num then value else old(mem[k]))
  {
    var i := 0;
    while i < num
      invariant if num <= 0 then i == 0 else 0 <= i <= num
      invariant forall k | 0 <= k < mem.Length ::
                  mem[k] == (if addr <= k < addr + i then value else old(mem[k]))
    {
      mem[addr + i] := value;
      i := i + 1;
    }
  }
}
