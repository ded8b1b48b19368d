/** The growable little-endian byte writer. */
module GByteBufferWriter {
  import opened Binary
  import GMath
  import LittleEndian

  const DEFAULT_EXPANSION_RATE: real := 1.5
  /** Capacity of a writer created without initial contents. */
  const INITIAL_CAPACITY: nat := 64

  datatype Error = InvalidExpansionRate(rate: real)

  /** `Math.ceil` on an exact real. */
  function Ceil(x: real): (r: int)
    ensures x <= r as real < x + 1.0
  {
    var f := x.Floor;
    if f as real == x then f else f + 1
  }

  /** The capacity after asking a buffer of `capacity` bytes for room for `required`:
      unchanged when it suffices, otherwise the larger of `required` and the
      capacity grown by `rate`. */
  function GrownCapacity(capacity: nat, required: nat, rate: real): (r: nat)
    requires rate > 1.0
    ensures r >= required && r >= capacity
    ensures required <= capacity ==> r == capacity
    ensures required > capacity ==> r >= Ceil(capacity as real * rate)
    ensures required > capacity ==> r == required || r == Ceil(capacity as real * rate)
  {
    if required <= capacity then capacity
    else GMath.Max(required, Ceil(capacity as real * rate))
  }

  /** Capacity of a writer seeded with `length` bytes. */
  function SeededCapacity(length: nat, rate: real): (r: nat)
    requires rate > 1.0
    ensures r >= length
    ensures length > 0 ==> r > length
  {
    var x := length as real;
    var scaled := x * rate;
    GrowthExceeds(x, rate);
    CeilAbove(scaled, length);
    Ceil(scaled)
  }

  lemma CeilAbove(y: real, n: nat)
    requires y >= n as real
    ensures Ceil(y) >= n && (y > n as real ==> Ceil(y) > n)
  {
    var c := Ceil(y);
    assert c as real >= y;
    if y > n as real {
      assert c as real > n as real;
    }
  }

  lemma GrowthExceeds(x: real, rate: real)
    requires x >= 0.0 && rate > 1.0
    ensures x * rate >= x && (x > 0.0 ==> x * rate > x)
  {
    var extra := x * (rate - 1.0);
    assert x * rate == x + extra;
    if x > 0.0 {
      assert extra > 0.0;
    } else {
      assert x * rate == 0.0;
    }
  }

  /** `ArrayBuffer.transferToFixedLength`: fresh storage of `newLength` bytes
      holding the first `newLength` bytes of `source`, zero-filled beyond it. */
  method TransferToFixedLength(source: seq<uint8>, newLength: nat) returns (target: array<uint8>)
    ensures fresh(target) && target.Length == newLength
    ensures newLength <= |source| ==> target[..] == source[..newLength]
    ensures newLength > |source| ==> target[..|source|] == source
    ensures forall i :: |source| <= i < newLength ==> target[i] == 0
  {
    target := new uint8[newLength](_ => 0);
    var n := GMath.Min(|source|, newLength);
    for i := 0 to n
      invariant target[..i] == source[..i]
      invariant forall j :: i <= j < newLength ==> target[j] == 0
    {
      target[i] := source[i];
    }
    assert target[..n] == source[..n];
  }

  class ByteBufferWriter {
    /** Count of bytes written. */
    var size: nat
    /** The storage; its length is the capacity. */
    var bytes: array<uint8>
    const expansionRate: real

    ghost predicate Valid()
      reads this
    {
      size <= bytes.Length && expansionRate > 1.0
    }

    /** The bytes written so far. */
    function Contents(): seq<uint8>
      reads this, bytes
      requires Valid()
    {
      bytes[..size]
    }

    /** Creates a writer holding `seed` (or nothing) with room to grow. */
    constructor (seed: Option<seq<uint8>> := None, expansionRate: real := DEFAULT_EXPANSION_RATE)
      requires expansionRate > 1.0
      ensures Valid() && fresh(bytes)
      ensures this.expansionRate == expansionRate
      ensures Contents() == if seed.Some? then seed.value else []
      ensures bytes.Length == if seed.Some? then SeededCapacity(|seed.value|, expansionRate)
                              else INITIAL_CAPACITY
    {
      this.expansionRate := expansionRate;
      if seed.Some? {
        size := |seed.value|;
        var newCapacity := SeededCapacity(|seed.value|, expansionRate);
        var storage := TransferToFixedLength(seed.value, newCapacity);
        bytes := storage;
      } else {
        size := 0;
        bytes := new uint8[INITIAL_CAPACITY](_ => 0);
      }
    }

    /** The constructor's argument check: it throws exactly when the rate is not above 1. */
    static method Create(seed: Option<seq<uint8>> := None, expansionRate: real := DEFAULT_EXPANSION_RATE)
      returns (r: Result<ByteBufferWriter, Error>)
      ensures r.Err? <==> expansionRate <= 1.0
      ensures r.Err? ==> r.error == InvalidExpansionRate(expansionRate)
      ensures r.Ok? ==> fresh(r.value) && fresh(r.value.bytes) && r.value.Valid()
      ensures r.Ok? ==> r.value.Contents() == (if seed.Some? then seed.value else [])
      ensures r.Ok? ==> r.value.expansionRate == expansionRate
    {
      if expansionRate <= 1.0 {
        return Err(InvalidExpansionRate(expansionRate));
      }
      var writer := new ByteBufferWriter(seed, expansionRate);
      r := Ok(writer);
    }

    function Capacity(): (r: nat)
      reads this
      requires Valid()
      ensures r >= size
    {
      bytes.Length
    }

    function Size(): (r: nat)
      reads this, bytes
      requires Valid()
      ensures r == |Contents()| && r <= Capacity()
    {
      size
    }

    method EnsureCapacity(capacity: nat)
      requires Valid()
      modifies this
      ensures Valid() && size == old(size) && Contents() == old(Contents())
      ensures bytes.Length == GrownCapacity(old(bytes.Length), capacity, expansionRate)
      ensures bytes == old(bytes) || fresh(bytes)
    {
      if capacity <= bytes.Length {
        return;
      }
      var newCapacity := GMath.Max(capacity, Ceil(bytes.Length as real * expansionRate));
      bytes := TransferToFixedLength(bytes[..], newCapacity);
    }

    method EnsureAddedCapacity(additionalCapacity: nat)
      requires Valid()
      modifies this
      ensures Valid() && size == old(size) && Contents() == old(Contents())
      ensures bytes.Length == GrownCapacity(old(bytes.Length), size + additionalCapacity, expansionRate)
      ensures bytes.Length >= size + additionalCapacity
      ensures bytes == old(bytes) || fresh(bytes)
    {
      EnsureCapacity(size + additionalCapacity);
    }

    /** Trims the storage to exactly the bytes written and returns them. */
    method ExtractBytes() returns (r: seq<uint8>)
      requires Valid()
      modifies this
      ensures Valid() && fresh(bytes)
      ensures r == old(Contents()) && Contents() == old(Contents())
      ensures size == old(size) && Capacity() == size
    {
      bytes := TransferToFixedLength(bytes[..], size);
      r := bytes[..];
    }

    /** `DataView.setUintN(offset, value, true)` on the storage. */
    method SetLittleEndian(offset: nat, value: int, width: nat)
      requires Valid() && offset + width <= bytes.Length
      modifies bytes
      ensures bytes[..offset] == old(bytes[..offset])
      ensures bytes[offset..offset + width] == LittleEndian.Encode(value, width)
    {
      var encoded := LittleEndian.Encode(value, width);
      forall i | 0 <= i < width {
        bytes[offset + i] := encoded[i];
      }
    }

    method WriteUInt8(value: int)
      requires Valid()
      modifies this, bytes
      ensures Valid() && (bytes == old(bytes) || fresh(bytes))
      ensures size == old(size) + 1
      ensures Contents() == old(Contents()) + LittleEndian.Encode(value, 1)
      ensures Capacity() == GrownCapacity(old(Capacity()), old(size) + 1, expansionRate)
    {
      WriteUInt(value, 1);
    }

    method WriteUInt16(value: int)
      requires Valid()
      modifies this, bytes
      ensures Valid() && (bytes == old(bytes) || fresh(bytes))
      ensures size == old(size) + 2
      ensures Contents() == old(Contents()) + LittleEndian.Encode(value, 2)
      ensures Capacity() == GrownCapacity(old(Capacity()), old(size) + 2, expansionRate)
    {
      WriteUInt(value, 2);
    }

    method WriteUInt32(value: int)
      requires Valid()
      modifies this, bytes
      ensures Valid() && (bytes == old(bytes) || fresh(bytes))
      ensures size == old(size) + 4
      ensures Contents() == old(Contents()) + LittleEndian.Encode(value, 4)
      ensures Capacity() == GrownCapacity(old(Capacity()), old(size) + 4, expansionRate)
    {
      WriteUInt(value, 4);
    }

    /** The shared body of `writeUInt8/16/32`: grow, store at `size`, advance. */
    method WriteUInt(value: int, width: nat)
      requires Valid()
      modifies this, bytes
      ensures Valid() && (bytes == old(bytes) || fresh(bytes))
      ensures size == old(size) + width
      ensures Contents() == old(Contents()) + LittleEndian.Encode(value, width)
      ensures Capacity() == GrownCapacity(old(Capacity()), old(size) + width, expansionRate)
    {
      EnsureAddedCapacity(width);
      SetLittleEndian(size, value, width);
      size := size + width;
      assert bytes[..size] == bytes[..old(size)] + bytes[old(size)..size];
    }

    /** Appends a copy of `source`. */
    method WriteBytes(source: seq<uint8>)
      requires Valid()
      modifies this, bytes
      ensures Valid() && (bytes == old(bytes) || fresh(bytes))
      ensures size == old(size) + |source|
      ensures Contents() == old(Contents()) + source
      ensures Capacity() == GrownCapacity(old(Capacity()), old(size) + |source|, expansionRate)
    {
      var byteCount := |source|;
      EnsureAddedCapacity(byteCount);
      forall i | 0 <= i < byteCount {
        bytes[size + i] := source[i];
      }
      size := size + byteCount;
      assert bytes[..size] == bytes[..old(size)] + bytes[old(size)..size];
    }
  }
}
