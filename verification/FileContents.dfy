/** Byte contents of a regular file, as the backing file system keeps them. */
module FileContents {
  newtype byte = x: int | 0 <= x < 256

  const TWO_TO_THE_32: nat := 0x1_0000_0000
  const TWO_TO_THE_64: nat := 0x1_0000_0000_0000_0000

  function Min(a: nat, b: nat): nat { if a <= b then a else b }

  function Max(a: nat, b: nat): nat { if a <= b then b else a }

  function SaturatingSub(a: nat, b: nat): nat { if a <= b then 0 else a - b }

  function Zeros(n: nat): seq<byte> { seq(n, _ => 0 as byte) }

  /** `set_len`: cut the file, or extend it with zeros. */
  function Resize(bytes: seq<byte>, length: nat): (r: seq<byte>)
    ensures |r| == length
    ensures forall i | 0 <= i < length :: r[i] == if i < |bytes| then bytes[i] else 0
  {
    if length <= |bytes| then bytes[..length]
    else bytes + Zeros(length - |bytes|)
  }

  /** `seek` followed by `write_all`: a gap is filled with zeros, and nothing at all happens
      when there is nothing to write. */
  function WriteAt(bytes: seq<byte>, offset: nat, data: seq<byte>): (r: seq<byte>)
    ensures data == [] ==> r == bytes
    ensures data != [] ==> |r| == Max(|bytes|, offset + |data|)
    ensures forall i | 0 <= i < |r| ::
              r[i] == if offset <= i < offset + |data| then data[i - offset]
                      else if i < |bytes| then bytes[i] else 0
  {
    if data == [] then bytes
    else if offset + |data| <= |bytes| then bytes[..offset] + data + bytes[offset + |data|..]
    else Resize(bytes, offset) + data
  }

  /** The bytes a reader of the byte array sees: what lies in the range and inside the file. */
  function Slice(bytes: seq<byte>, offset: nat, length: nat): (r: seq<byte>)
    ensures |r| == Min(length, SaturatingSub(|bytes|, offset))
    ensures forall i | 0 <= i < |r| :: r[i] == bytes[offset + i]
  {
    if offset >= |bytes| then [] else bytes[offset..offset + Min(length, |bytes| - offset)]
  }

  /** The count `read` settles on. The remaining length is narrowed to 32 bits before it is
      compared with the requested size. */
  function ReadSize(fileLength: nat, offset: nat, size: nat): nat {
    Min(size, SaturatingSub(fileLength, offset) % TWO_TO_THE_32)
  }

  /** What `read` replies with. */
  function ReadReply(bytes: seq<byte>, offset: nat, size: nat): seq<byte> {
    Slice(bytes, offset, ReadSize(|bytes|, offset, size))
  }

  /** Reading gives the requested slice exactly when the narrowing loses nothing that was
      asked for: fewer than 2^32 bytes remain, or the low half of the count still covers
      the request. */
  lemma ReadIsSliceIff(bytes: seq<byte>, offset: nat, size: nat)
    ensures var rest := SaturatingSub(|bytes|, offset);
            ReadReply(bytes, offset, size) == Slice(bytes, offset, size)
            <==> rest < TWO_TO_THE_32 || size <= rest % TWO_TO_THE_32
  {
  }

  /** The narrowing is not idle: with exactly 2^32 bytes left, a read of one byte comes back
      empty although the byte is there. */
  lemma ReadLosesBytes(bytes: seq<byte>)
    requires |bytes| == TWO_TO_THE_32
    ensures ReadReply(bytes, 0, 1) == [] && Slice(bytes, 0, 1) == [bytes[0]]
  {
  }

  /** The size field after a write, next to the length of the contents. They part company
      exactly on an empty write past the end, which moves the size and writes nothing. */
  lemma WriteKeepsSizeIff(bytes: seq<byte>, offset: nat, data: seq<byte>)
    ensures Max(|bytes|, offset + |data|) == |WriteAt(bytes, offset, data)|
            <==> data != [] || offset <= |bytes|
  {
  }

  /** Bytes just written are the bytes read back, and everything outside them reads as before. */
  lemma ReadBack(bytes: seq<byte>, offset: nat, data: seq<byte>, other: nat, length: nat)
    requires other + length <= offset || offset + |data| <= other
    requires other + length <= |bytes|
    ensures var after := WriteAt(bytes, offset, data);
            Slice(after, offset, |data|) == data && Slice(after, other, length) == Slice(bytes, other, length)
  {
  }
}

/** File handles carry their access rights in the top two of their 64 bits. */
module Handles {
  const HANDLE_LIMIT: nat := 0x4000_0000_0000_0000
  const WRITE_BIT: nat := 0x4000_0000_0000_0000
  const READ_BIT: nat := 0x8000_0000_0000_0000

  function Pack(number: nat, read: bool, write: bool): nat {
    number + (if read then READ_BIT else 0) + (if write then WRITE_BIT else 0)
  }

  function Number(fh: nat): nat { fh % HANDLE_LIMIT }

  predicate CanRead(fh: nat) { fh / READ_BIT % 2 == 1 }

  predicate CanWrite(fh: nat) { fh / WRITE_BIT % 2 == 1 }

  /** The number and both rights can be read back from a handle, so distinct numbers never
      make the same handle. */
  lemma Unpack(number: nat, read: bool, write: bool)
    requires number < HANDLE_LIMIT
    ensures var fh := Pack(number, read, write);
            fh < 0x1_0000_0000_0000_0000 && Number(fh) == number && CanRead(fh) == read && CanWrite(fh) == write
  {
  }
}
