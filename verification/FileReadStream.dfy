/** The buffered file stream: a buffer that is refilled when its last byte has been taken. */
module FileReadStream {
  import opened Bytes

  /** `fread` of up to `n` bytes from position `pos` of a file: fewer only at the end of the file. */
  function ReadCount(file: seq<byte>, pos: nat, n: nat): (k: nat)
    requires pos <= |file|
    ensures k <= n && pos + k <= |file| && (k < n ==> pos + k == |file|)
  {
    if |file| - pos < n then |file| - pos else n
  }

  class FileReadStream {
    const file: seq<byte>
    var filePos: nat
    const buffer: array<byte>
    var bufferLast: int
    var current: nat
    var readCount: nat
    var count: nat
    var eof: bool

    /** The buffer is a window of the file, and after the last window a NUL stands behind it. */
    ghost predicate Valid()
      reads this, buffer
    {
      && 4 <= buffer.Length && count + readCount == filePos <= |file| && readCount <= buffer.Length
      && current <= bufferLast && buffer[..readCount] == file[count..filePos]
      && if eof then readCount < buffer.Length && bufferLast == readCount && buffer[readCount] == 0 && filePos == |file|
         else readCount == buffer.Length && bufferLast == readCount - 1
    }

    constructor (file: seq<byte>, buffer: array<byte>)
      requires buffer.Length >= 4
      modifies buffer
      ensures Valid() && this.file == file && this.buffer == buffer && Tell() == 0
    {
      this.file := file;
      this.buffer := buffer;
      filePos, current, readCount, count, bufferLast, eof := 0, 0, 0, 0, 0, false;
      new;
      Read();
    }

    /** The byte at the cursor; a NUL at the end of the file. */
    function Peek(): (c: byte)
      reads this, buffer
      requires Valid()
      ensures c == Bytes.Peek(file, Tell())
    {
      buffer[current]
    }

    /** The number of bytes taken, the length of the file at most. */
    function Tell(): (n: nat)
      reads this, buffer
      ensures Valid() ==> n <= |file|
      ensures Valid() ==> (n == |file| <==> eof && current == bufferLast)
    {
      count + current
    }

    /** One byte forward, which never goes past the end. */
    method Take() returns (c: byte)
      requires Valid()
      modifies this, buffer
      ensures Valid() && c == Bytes.Peek(file, old(Tell()))
      ensures Tell() == if old(Tell()) < |file| then old(Tell()) + 1 else |file|
    {
      c := buffer[current];
      Read();
    }

    /** The position in the buffer of four bytes of the file from the cursor on, or none. */
    function Peek4(): (p: Option<nat>)
      reads this, buffer
      requires Valid()
      ensures p == if Tell() + 4 <= |file| && current + 4 <= readCount then Some(current) else None
      ensures p.Some? ==> buffer[p.value..p.value + 4] == file[Tell()..Tell() + 4]
    {
      if current + 4 - (if eof then 0 else 1) <= bufferLast then
        assert buffer[current..current + 4] == buffer[..readCount][current..current + 4];
        Some(current)
      else None
    }

    /** At the start of the file four bytes can be seen exactly when the file has them. */
    lemma Peek4AtStart()
      requires Valid() && Tell() == 0
      ensures Peek4().Some? <==> |file| >= 4
    {
    }

    /** The next byte of the window, or the next window. Before the first window both ends are 0. */
    method Read()
      requires Valid() || (buffer.Length >= 4 && filePos == current == readCount == count == bufferLast == 0 && !eof)
      modifies this, buffer
      ensures Valid()
      ensures Tell() == if old(Valid()) then if old(Tell()) < |file| then old(Tell()) + 1 else |file| else 0
    {
      if current < bufferLast {
        current := current + 1;
      } else if !eof {
        count := count + readCount;
        readCount := ReadCount(file, filePos, buffer.Length);
        forall k | 0 <= k < readCount {
          buffer[k] := file[filePos + k];
        }
        filePos := filePos + readCount;
        bufferLast := readCount - 1;
        current := 0;
        if readCount < buffer.Length {
          buffer[readCount] := 0;
          bufferLast := bufferLast + 1;
          eof := true;
        }
      }
    }
  }

  /** What a plain stream over the file gives for `n` bytes from position `pos` on. */
  function Plain(file: seq<byte>, pos: nat, n: nat): seq<byte> {
    if n == 0 then [] else Plain(file, pos, n - 1) + [Bytes.Peek(file, pos + n - 1)]
  }

  /** Taking `n` bytes gives what the plain stream gives, whatever the size of the buffer. */
  method TakeAll(stream: FileReadStream, n: nat) returns (taken: seq<byte>)
    requires stream.Valid()
    modifies stream, stream.buffer
    ensures stream.Valid() && taken == Plain(stream.file, old(stream.Tell()), n)
    ensures stream.Tell() == if old(stream.Tell()) + n < |stream.file| then old(stream.Tell()) + n else |stream.file|
  {
    taken := [];
    ghost var pos := stream.Tell();
    for k := 0 to n
      invariant stream.Valid() && taken == Plain(stream.file, pos, k)
      invariant stream.Tell() == if pos + k < |stream.file| then pos + k else |stream.file|
    {
      var c := stream.Take();
      taken := taken + [c];
    }
  }
}
