/**
 * A byte buffer with three offset pointers into it: begin (ofs_b),
 * decoding (ofs_d) and end (ofs_e). Offsets are counted from the start of
 * the storage; sizes are C `unsigned int`, so every size is reduced
 * modulo 2^32.
 */
module Buf {
  import opened CTypes

  const UINT_MOD: int := 0x1_0000_0000

  /** Conversion of a pointer difference to `unsigned int`. */
  function ToUInt(x: int): (r: nat)
    ensures r < UINT_MOD
    ensures 0 <= x < UINT_MOD ==> r == x
  {
    x % UINT_MOD
  }

  class GprBuffer {
    var data: array<byte>
    var size: nat
    var ofsB: int
    var ofsD: int
    var ofsE: int

    /** The documented layout: start <= begin <= decoding <= end <= start + size. */
    ghost predicate Layout()
      reads this
    {
      0 <= ofsB <= ofsD <= ofsE <= size < UINT_MOD && data.Length == size
    }

    constructor Alloc(size: nat)
      requires size < UINT_MOD
      ensures data.Length == size && fresh(data)
    {
      data := new byte[size];
    }

    /** gpr_buf_reset: all three offsets back to the start of the storage. */
    method Reset()
      modifies this
      ensures ofsB == 0 && ofsD == 0 && ofsE == 0
      ensures size == old(size) && data == old(data)
    {
      ofsB := 0;
      ofsE := 0;
      ofsD := 0;
    }

    /** gpr_buf_is_empty: begin and end coincide. */
    predicate IsEmpty()
      reads this
    {
      ofsB == ofsE
    }

    /** gpr_buf_get_size. */
    function GetSize(): nat
      reads this
    {
      size
    }

    /** gpr_buf_get_used_size: end - begin. */
    function UsedSize(): nat
      reads this
    {
      ToUInt(ofsE - ofsB)
    }

    /** gpr_buf_get_free_size: size - (end - start). */
    function FreeSize(): nat
      reads this
    {
      ToUInt(size - ofsE)
    }

    /** gpr_buf_get_rest_size: end - decoding. */
    function RestSize(): nat
      reads this
    {
      ToUInt(ofsE - ofsD)
    }

    /**
     * Under the layout no size wraps around: the used area splits into
     * the consumed part and the rest, and the used and free areas with
     * the part before begin cover the whole storage.
     */
    lemma SizesUnderLayout()
      requires Layout()
      ensures UsedSize() == ofsE - ofsB && RestSize() == ofsE - ofsD && FreeSize() == size - ofsE
      ensures UsedSize() == RestSize() + (ofsD - ofsB)
      ensures FreeSize() + ofsE == size
      ensures ofsB + UsedSize() + FreeSize() == GetSize()
      ensures IsEmpty() <==> UsedSize() == 0
    {
    }

    /** When end lies before begin the used size wraps around to a huge value instead of going negative. */
    lemma UsedSizeWraps()
      requires 0 < ofsB - ofsE < UINT_MOD
      ensures UsedSize() == UINT_MOD - (ofsB - ofsE)
      ensures !IsEmpty()
    {
    }
  }

  /**
   * gpr_buf_new: None when either allocation fails; otherwise a buffer of
   * `size` bytes with all offsets at the start.
   */
  method New(size: nat, structOk: bool, storageOk: bool) returns (buf: GprBuffer?)
    requires size < UINT_MOD
    ensures buf == null <==> !(structOk && storageOk)
    ensures buf != null ==> fresh(buf) && buf.Layout() && buf.size == size && buf.IsEmpty()
    ensures buf != null ==> buf.ofsB == 0 && buf.ofsD == 0 && buf.ofsE == 0
  {
    if !structOk || !storageOk {
      return null;
    }
    buf := new GprBuffer.Alloc(size);
    buf.Reset();
    buf.size := size;
  }

  /**
   * The unit test's scenario: a fresh 20-byte buffer is empty with 20 free
   * bytes; after 20 bytes are received (end moved by 20) it holds 20 used
   * bytes and has none free.
   */
  method TwentyByteBuffer() returns (free0: nat, used0: nat, free1: nat, used1: nat)
    ensures free0 == 20 && used0 == 0
    ensures free1 == 0 && used1 == 20
  {
    var buf := New(20, true, true);
    free0 := buf.FreeSize();
    used0 := buf.UsedSize();
    buf.ofsE := buf.ofsE + 20;
    free1 := buf.FreeSize();
    used1 := buf.UsedSize();
  }
}
