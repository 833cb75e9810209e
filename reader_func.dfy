/** The byte-buffer helpers of the reader (src/reader/func.rs): moving or copying a read
    buffer onto the end of the export buffer, and the test that decides when the export
    buffer has to be handed on. */
module ReaderFunc {

  import opened Machine
  import opened ParserFunc

  /** `config::MAX_LINE_LENGTH`: the room kept for the rest of a line that a chunk cuts. */
  const MAX_LINE_LENGTH: nat := 30

  /** A `Vec<u8>`: its bytes and its capacity, which never falls below its length. */
  class ByteVec {

    var data: seq<byte>
    var capacity: nat

    ghost predicate Valid()
      reads this
    {
      |data| <= capacity
    }

    /** `Vec::with_capacity`: empty, with room for `capacity` bytes. */
    constructor WithCapacity(capacity: nat)
      ensures Valid() && data == [] && this.capacity == capacity
    {
      data := [];
      this.capacity := capacity;
    }

    /** Room for `n` more bytes: the capacity grows when it must, and never shrinks. */
    method Reserve(n: nat)
      requires Valid()
      modifies this
      ensures Valid() && data == old(data)
      ensures capacity >= old(capacity) && capacity >= |data| + n
      ensures old(capacity) >= |data| + n ==> capacity == old(capacity)
    {
      if capacity < |data| + n {
        capacity := |data| + n;
      }
    }
  }

  /** `transfer_buffer`: `Vec::append` moves every byte of the read buffer onto the end of
      the export buffer and leaves the read buffer empty, with its capacity. */
  method TransferBuffer(bufferRead: ByteVec, bufferExport: ByteVec)
    requires bufferRead != bufferExport && bufferRead.Valid() && bufferExport.Valid()
    modifies bufferRead, bufferExport
    ensures bufferRead.Valid() && bufferExport.Valid()
    ensures bufferExport.data == old(bufferExport.data) + old(bufferRead.data)
    ensures bufferRead.data == [] && bufferRead.capacity == old(bufferRead.capacity)
    ensures |bufferRead.data| + |bufferExport.data| == old(|bufferRead.data|) + old(|bufferExport.data|)
  {
    bufferExport.Reserve(|bufferRead.data|);
    bufferExport.data := bufferExport.data + bufferRead.data;
    bufferRead.data := [];
  }

  /** `clone_buffer`: `extend_from_slice` copies the bytes of the read slice onto the end
      of the export buffer; the slice itself is left as it was. */
  method CloneBuffer(bufferRead: array<byte>, bufferExport: ByteVec)
    requires bufferExport.Valid()
    modifies bufferExport
    ensures bufferExport.Valid()
    ensures bufferExport.data == old(bufferExport.data) + bufferRead[..]
  {
    bufferExport.Reserve(bufferRead.Length);
    bufferExport.data := bufferExport.data + bufferRead[..];
  }

  /** The threshold of `buffer_full`, in `usize`: `capacity - chunk_size - MAX_LINE_LENGTH`.
      The subtraction must not underflow, so the capacity must cover one chunk and one
      line. */
  function Threshold(capacity: nat, chunkSize: nat): (t: nat)
    requires IsUsize(capacity) && capacity >= chunkSize + MAX_LINE_LENGTH
    ensures IsUsize(t) && t + chunkSize + MAX_LINE_LENGTH == capacity
  {
    capacity - chunkSize - MAX_LINE_LENGTH
  }

  /** `buffer_full`: the export buffer is full exactly when it no longer has room for
      one more chunk followed by the rest of a line. The `debug` build computes the same
      comparison and prints it when it holds. */
  function BufferFull(bufferExport: ByteVec, chunkSize: nat): (full: bool)
    reads bufferExport
    requires IsUsize(bufferExport.capacity) && bufferExport.capacity >= chunkSize + MAX_LINE_LENGTH
    ensures !full <==> |bufferExport.data| + chunkSize + MAX_LINE_LENGTH < bufferExport.capacity
  {
    |bufferExport.data| >= Threshold(bufferExport.capacity, chunkSize)
  }

  /** Right after a chunk has been cloned into an export buffer that was not full, the
      buffer still has room for a line of up to `MAX_LINE_LENGTH` bytes without growing. */
  lemma RoomAfterChunk(len: nat, capacity: nat, chunkSize: nat, readLen: nat)
    requires IsUsize(capacity) && capacity >= chunkSize + MAX_LINE_LENGTH
    requires len < Threshold(capacity, chunkSize) && readLen <= chunkSize
    ensures len + readLen + MAX_LINE_LENGTH < capacity
  {
  }
}
