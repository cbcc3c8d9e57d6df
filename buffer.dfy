/**
 * SrsFileBuffer and refill_buffer: a fixed window of 4096 bytes over the
 * configuration file, refilled by read() when the tokenizer has used up
 * the bytes in it.
 *
 * The file is an immutable byte sequence with a read offset. The ghost
 * functions `Ahead` and `Ending` describe, for the tokenizer, the bytes it
 * will still be handed before a refill fails, and how that refill fails.
 */
module ConfBuffer {
  import opened ConfLexer
  import opened ConfTree

  /** CONF_BUFFER_SIZE. */
  const Capacity: nat := 4096

  /**
   * A file as open() finds it: its bytes, and how many of them read() can
   * deliver; a read() that asks for bytes beyond `readable` fails.
   */
  datatype FileImage = FileImage(bytes: seq<char>, readable: nat)

  /** The three results of refill_buffer. */
  datatype RefillResult = Refilled | RefillEof | RefillInvalid

  function Min(a: int, b: int): int {
    if a <= b then a else b
  }

  /** What read_token will see of a freshly opened file `f` before the first refill fails. */
  function FirstWindow(f: FileImage): (r: seq<char>)
    ensures |r| <= Capacity && r <= f.bytes
    ensures r == [] <==> f.bytes == [] || f.readable < Min(|f.bytes|, Capacity)
    ensures r != [] ==> r == f.bytes[..Min(|f.bytes|, Capacity)]
  {
    var size := Min(|f.bytes|, Capacity);
    if size <= f.readable then f.bytes[..size] else []
  }

  /** How refill fails for a freshly opened file once `FirstWindow(f)` is used up. */
  function FirstEnding(f: FileImage): (r: Ending)
    ensures r == AtEof <==> f.bytes == [] || (|f.bytes| <= Capacity && |f.bytes| <= f.readable)
    ensures r == TooLong <==> |f.bytes| > Capacity && Capacity <= f.readable
  {
    var size := Min(|f.bytes|, Capacity);
    if f.bytes == [] then AtEof
    else if f.readable < size then ReadError
    else if size == |f.bytes| then AtEof
    else TooLong
  }

  class FileBuffer {
    /** The open file's bytes and its read() limit. */
    var file: seq<char>
    var readable: nat
    /** FILE_OFFSET(fd): how many bytes read() has delivered. */
    var offset: nat
    /** fd != -1. */
    var isOpen: bool
    /** The window `start`..`end`; `pos` and `last` are offsets from `start`. */
    const window: array<char>
    var pos: nat
    var last: nat
    var line: int

    /**
     * start <= pos <= last <= end; read() has delivered exactly the bytes
     * up to `last`; a window that is neither empty nor full holds the whole
     * file.
     */
    ghost predicate Bounds()
      reads this`file, this`offset, this`pos, this`last
    {
      && pos <= last <= Capacity
      && offset == last && offset <= |file|
      && (offset < |file| ==> last == 0 || last == Capacity)
    }

    /** `Bounds`, and the window holds the bytes read so far. */
    ghost predicate Valid()
      reads this`file, this`offset, this`pos, this`last, window
    {
      && Bounds()
      && window.Length == Capacity
      && window[..last] == file[..last]
    }

    /** The byte count refill_buffer asks read() for: min(size, end - (start + len)). */
    ghost function FillSize(): nat
      reads this`file, this`offset, this`pos
      requires offset <= |file| && pos <= Capacity
    {
      Min(|file| - offset, Capacity - pos)
    }

    /** Whether the read() of a refill now would deliver the bytes asked for. */
    ghost predicate ReadSucceeds()
      reads this`file, this`offset, this`pos, this`readable
      requires offset <= |file| && pos <= Capacity
    {
      offset + FillSize() <= readable
    }

    /** Where the bytes read_token will still be handed end, as a file offset. */
    ghost function AheadEnd(): (r: nat)
      reads this`file, this`offset, this`pos, this`last, this`readable
      requires Bounds()
      ensures pos <= r <= |file|
    {
      if pos < last then last
      else if offset == |file| || pos >= Capacity || !ReadSucceeds() then pos
      else offset + FillSize()
    }

    /**
     * The bytes read_token will still be handed before refill_buffer fails:
     * the rest of the window, or else what the next refill reads.
     */
    ghost function Ahead(): (r: seq<char>)
      reads this`file, this`offset, this`pos, this`last, this`readable
      requires Bounds()
    {
      file[pos..AheadEnd()]
    }

    /** How refill_buffer fails once `Ahead()` is used up. */
    ghost function Ending(): Ending
      reads this`file, this`offset, this`pos, this`last, this`readable
      requires Bounds()
    {
      if pos < last then (if offset == |file| then AtEof else TooLong)
      else if offset == |file| then AtEof
      else if pos >= Capacity then TooLong
      else if !ReadSucceeds() then ReadError
      else if offset + FillSize() == |file| then AtEof
      else TooLong
    }

    /** SrsFileBuffer(): no file, line 0, an empty window. */
    constructor()
      ensures Valid() && !isOpen && line == 0 && pos == 0 && last == 0
      ensures file == [] && offset == 0 && fresh(window)
    {
      file, readable, offset, isOpen := [], 0, 0, false;
      window := new char[Capacity];
      pos, last, line := 0, 0, 0;
    }

    /**
     * open(filename): `f` is what opening the file yields, none when
     * ::open fails. On success the line counter starts at 1.
     */
    method Open(f: Option<FileImage>) returns (ok: bool)
      requires Valid() && !isOpen && pos == 0 && last == 0
      modifies this`file, this`readable, this`isOpen, this`line
      ensures ok == f.Some? && isOpen == ok
      ensures ok ==> file == f.value.bytes && readable == f.value.readable && line == 1
      ensures !ok ==> file == old(file) && readable == old(readable) && line == old(line)
      ensures Valid() && pos == 0 && last == 0 && offset == old(offset)
      ensures ok && offset == 0 ==> Ahead() == FirstWindow(f.value) && Ending() == FirstEnding(f.value)
    {
      if f.None? {
        return false;
      }
      file, readable, isOpen, line := f.value.bytes, f.value.readable, true, 1;
      ok := true;
    }

    /**
     * read(fd, start + at, size): copies the next `size` file bytes into
     * the window and returns `size`, or returns -1 without changing
     * anything when the file cannot deliver them.
     */
    method ReadInto(at: nat, size: nat) returns (n: int)
      requires at + size <= window.Length && offset + size <= |file|
      modifies window, this`offset
      ensures n == (if old(offset) + size <= readable then size else -1)
      ensures n == size ==> (offset == old(offset) + size
          && window[..] == old(window[..at]) + file[old(offset)..offset] + old(window[at + size..]))
      ensures n != size ==> offset == old(offset) && window[..] == old(window[..])
    {
      if offset + size > readable {
        return -1;
      }
      var k := 0;
      while k < size
        invariant 0 <= k <= size && offset == old(offset)
        invariant window[..at] == old(window[..at])
        invariant window[at..at + k] == file[offset..offset + k]
        invariant window[at + size..] == old(window[at + size..])
      {
        window[at + k] := file[offset + k];
        k := k + 1;
      }
      assert window[..] == window[..at] + window[at..at + size] + window[at + size..];
      offset := offset + size;
      n := size;
    }

    /**
     * refill_buffer: nothing to do while unread bytes remain; EOF when the
     * file has no more bytes; INVALID (with the line counter put back to
     * `startLine`) when the window is full; INVALID when read() fails;
     * otherwise the next bytes are read behind the preserved prefix and
     * `pstart` is rebased to the window's start.
     */
    method Refill(startLine: int, pstart: nat) returns (r: RefillResult, pstart': nat)
      requires Valid() && pstart <= pos
      modifies this`pos, this`last, this`offset, this`line, window
      ensures Valid() && pstart' <= pos
      ensures old(pos < last) ==> (r == Refilled && pstart' == pstart
          && pos == old(pos) && last == old(last) && offset == old(offset) && window[..] == old(window[..]))
      ensures pos == old(pos) && Ahead() == old(Ahead()) && Ending() == old(Ending())
      ensures r == Refilled <==> old(Ahead()) != []
      ensures r == Refilled ==> pos < last && line == old(line) && window[pstart'..pos] == old(window[pstart..pos])
      ensures r == Refilled && old(pos) == old(last) ==> pos == 0 && pstart' == 0
      ensures r == RefillEof <==> old(Ahead()) == [] && old(Ending()) == AtEof
      ensures r == RefillEof ==> line == old(line)
      ensures r == RefillInvalid ==> line == (if old(Ending()) == TooLong then startLine else old(line))
      ensures r != Refilled ==> last == old(last) && pstart' == pstart && window[..] == old(window[..])
    {
      pstart' := pstart;
      if pos < last {
        return Refilled, pstart';
      }
      var size: int := |file| - offset;
      if size <= 0 {
        return RefillEof, pstart';
      }
      var len := pos;
      if len >= Capacity {
        line := startLine;
        return RefillInvalid, pstart';
      }
      // A window that is neither empty nor full holds the whole file, so
      // with file bytes left the preserved prefix is empty and the memmove
      // of the source never runs.
      assert len == 0;
      size := Min(size, Capacity - len);
      var n := ReadInto(len, size);
      if n != size {
        return RefillInvalid, pstart';
      }
      pos := len;
      last := pos + n;
      pstart' := 0;
      r := Refilled;
    }

    /** `char ch = *buffer->pos++`: the next byte of `Ahead()`. */
    method Take() returns (ch: char)
      requires Valid() && pos < last
      modifies this`pos
      ensures Valid() && ch == old(Ahead())[0] && Ahead() == old(Ahead())[1..]
      ensures Ending() == old(Ending()) && pos == old(pos) + 1 && ch == window[old(pos)]
    {
      ch := window[pos];
      pos := pos + 1;
    }

    /**
     * The head of read_token's loop: refill_buffer, then, when it succeeds,
     * `*buffer->pos++` and the line count of an LF. The word in progress,
     * `pstart`..`pos`, keeps its bytes.
     */
    method Next(startLine: int, pstart: nat) returns (r: RefillResult, pstart': nat, ch: char)
      requires Valid() && pstart <= pos
      modifies this`pos, this`last, this`offset, this`line, window
      ensures Valid() && Ending() == old(Ending())
      ensures r == Refilled <==> old(Ahead()) != []
      ensures r == RefillEof <==> old(Ahead()) == [] && old(Ending()) == AtEof
      ensures r == RefillEof ==> line == old(line)
      ensures r == RefillInvalid ==> line == (if old(Ending()) == TooLong then startLine else old(line))
      ensures r != Refilled ==> Ahead() == []
      ensures r == Refilled ==> line == old(line) + (if ch == LF then 1 else 0) && ch == old(Ahead())[0] && Ahead() == old(Ahead())[1..]
      ensures r == Refilled ==> (pstart' < pos && window[pos - 1] == ch
          && window[pstart'..pos - 1] == old(window[pstart..pos]))
    {
      ch := '\0';
      r, pstart' := Refill(startLine, pstart);
      if r == Refilled {
        ch := Take();
        if ch == LF {
          line := line + 1;
        }
      }
    }
  }
}
