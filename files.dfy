/** The two file objects the core uses: a file opened for reading, whose
    cursor advances with every `read(n)`, and a file that writes append to. */
module Files {
  import opened Common

  /** A binary file opened with `open(path, 'rb')`. */
  class Reader {
    const data: seq<byte>
    var pos: nat

    ghost predicate Valid()
      reads this
    {
      pos <= |data|
    }

    /** The bytes not yet read. */
    function Rest(): seq<byte>
      reads this
      requires Valid()
    {
      data[pos..]
    }

    constructor (data: seq<byte>)
      ensures this.data == data && pos == 0 && Valid()
    {
      this.data := data;
      pos := 0;
    }

    /** `f.read(n)`: at most `n` bytes from the cursor; short, possibly empty,
        at the end of the file, never an error. */
    method Read(n: nat) returns (r: seq<byte>)
      requires Valid()
      modifies this
      ensures Valid()
      ensures r == Take(old(Rest()), n)
      ensures pos == old(pos) + |r| && Rest() == old(Rest())[|r|..]
    {
      r := Take(data[pos..], n);
      pos := pos + |r|;
    }
  }

  /** The contents of a file on disk that writes go to the end of (a file
      opened with 'wb' starts empty; one opened with 'ab' keeps what it had). */
  class File {
    var contents: seq<byte>

    constructor (contents: seq<byte>)
      ensures this.contents == contents
    {
      this.contents := contents;
    }

    /** `f.write(b)`. */
    method Write(b: seq<byte>)
      modifies this
      ensures contents == old(contents) + b
    {
      contents := contents + b;
    }
  }
}
