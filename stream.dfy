/** The read cursor the decoder works through: an opened input file, or the
    `bytes.Reader` over the sample block, with the three kinds of read the
    program makes on it. */
module Stream {
  import opened Bytes

  /** The two end-of-input errors of Go's `io` package: `EOF` when a read found
      no byte at all, `UnexpectedEOF` when a fixed-size read found only part
      of what it needs. */
  datatype ReadError = EOF | UnexpectedEOF

  /** The error of a fixed-size read (`io.ReadFull`, as `binary.Read` uses
      it) that found only `available` bytes. */
  function ShortRead(available: nat): (e: ReadError)
    ensures e == EOF <==> available == 0
  {
    if available == 0 then EOF else UnexpectedEOF
  }

  datatype Result<T> = Ok(value: T) | Err(error: ReadError)

  class Reader {
    const data: seq<byte>
    var pos: nat

    ghost predicate Valid()
      reads this
    {
      pos <= |data|
    }

    /** `Len`: the number of unread bytes. */
    function Len(): nat
      reads this
      requires Valid()
    {
      |data| - pos
    }

    /** The unread bytes. */
    function Rest(): seq<byte>
      reads this
      requires Valid()
    {
      data[pos..]
    }

    constructor (data: seq<byte>)
      ensures Valid() && this.data == data && pos == 0
    {
      this.data := data;
      pos := 0;
    }

    /** `ReadByte`: the next byte, or `EOF` with nothing left. */
    method ReadByte() returns (r: Result<byte>)
      requires Valid()
      modifies this
      ensures Valid()
      ensures old(Len()) == 0 ==> r == Err(EOF) && pos == old(pos)
      ensures old(Len()) > 0 ==> r == Ok(data[old(pos)]) && pos == old(pos) + 1
    {
      if pos == |data| {
        r := Err(EOF);
      } else {
        r := Ok(data[pos]);
        pos := pos + 1;
      }
    }

    /** `io.ReadFull` of `n` bytes: the next `n` bytes if they are all there;
        otherwise what is left is consumed and the read fails. */
    method ReadFull(n: nat) returns (r: Result<seq<byte>>)
      requires Valid()
      modifies this
      ensures Valid()
      ensures old(Len()) >= n ==> r == Ok(data[old(pos)..old(pos) + n]) && pos == old(pos) + n
      ensures old(Len()) < n ==> r == Err(ShortRead(old(Len()))) && pos == |data|
    {
      if |data| - pos >= n {
        r := Ok(data[pos..pos + n]);
        pos := pos + n;
      } else {
        r := Err(ShortRead(|data| - pos));
        pos := |data|;
      }
    }

    /** `io.ReadAll` / `io.Copy` from the cursor: everything that is left. */
    method ReadAll() returns (b: seq<byte>)
      requires Valid()
      modifies this
      ensures Valid()
      ensures b == old(Rest()) && pos == |data|
    {
      b := data[pos..];
      pos := |data|;
    }
  }
}
