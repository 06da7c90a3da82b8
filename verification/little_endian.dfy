/** Little-endian integers, the transport's byte order. */
module LittleEndians {
  import opened Numerics

  function LittleEndian(size: nat, value: nat): (bytes: seq<Byte>)
    ensures |bytes| == size
  {
    if size == 0 then [] else [value % 0x100] + LittleEndian(size - 1, value / 0x100)
  }

  function FromLittleEndian(bytes: seq<Byte>): nat {
    if |bytes| == 0 then 0 else bytes[0] + 0x100 * FromLittleEndian(bytes[1..])
  }

  function Capacity(size: nat): (capacity: nat)
    ensures 0 < capacity
  {
    if size == 0 then 1 else 0x100 * Capacity(size - 1)
  }

  lemma Capacities()
    ensures Capacity(4) == U32_LIMIT && Capacity(8) == U64_LIMIT && Capacity(16) == U64_LIMIT * U64_LIMIT
  {
    assert Capacity(2) == 0x100 * Capacity(1);
    assert Capacity(4) == 0x100 * Capacity(3);
    assert Capacity(6) == 0x100 * Capacity(5);
    assert Capacity(8) == 0x100 * Capacity(7);
    assert Capacity(10) == 0x100 * Capacity(9);
    assert Capacity(12) == 0x100 * Capacity(11);
    assert Capacity(14) == 0x100 * Capacity(13);
  }

  /** Byte `k` counts the 256^k. */
  lemma {:induction false} ByteAt(size: nat, value: nat, k: nat)
    requires k < size
    ensures LittleEndian(size, value)[k] == value / Capacity(k) % 0x100
  {
    if k > 0 {
      ByteAt(size - 1, value / 0x100, k - 1);
      DivTwice(value, Capacity(k - 1));
    }
  }

  lemma DivTwice(value: nat, capacity: nat)
    requires 0 < capacity
    ensures value / 0x100 / capacity == value / (0x100 * capacity)
  {
    var (quotient, inner) := (value / 0x100 / capacity, value / 0x100);
    DivBounds(inner, capacity);
    DivBounds(value, 0x100);
    var whole := 0x100 * capacity;
    assert quotient * whole == 0x100 * (quotient * capacity);
    var next := quotient + 1;
    assert next * whole == 0x100 * (next * capacity);
    DivUnique(value, whole, quotient);
  }

  lemma LowByte(low: Byte, high: nat)
    ensures (low + 0x100 * high) % 0x100 == low && (low + 0x100 * high) / 0x100 == high
  {
  }

  /** Reading is the inverse of writing on values that fit... */
  lemma {:induction false} ReadWritten(size: nat, value: nat)
    requires value < Capacity(size)
    ensures FromLittleEndian(LittleEndian(size, value)) == value
  {
    if size > 0 {
      ReadWritten(size - 1, value / 0x100);
      assert LittleEndian(size, value)[1..] == LittleEndian(size - 1, value / 0x100);
    }
  }

  /** ...and writing of reading, on every byte string. */
  lemma {:induction false} WriteRead(bytes: seq<Byte>)
    ensures FromLittleEndian(bytes) < Capacity(|bytes|)
    ensures LittleEndian(|bytes|, FromLittleEndian(bytes)) == bytes
  {
    if |bytes| > 0 {
      WriteRead(bytes[1..]);
      LowByte(bytes[0], FromLittleEndian(bytes[1..]));
      assert bytes == [bytes[0]] + bytes[1..];
    }
  }
}
