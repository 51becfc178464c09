/**
 * The FILE* the decoder reads with fread, fseek and ftell: an immutable byte
 * sequence and a file position. Seeking never fails, even past the end; a
 * read that cannot be satisfied in full is reported as a failure.
 */
module CStdio {
  import opened Wrappers
  import opened Bytes

  class Stream {
    const data: seq<Byte>
    var pos: nat

    /** fopen(path, "rb") on a file holding `bytes`. */
    constructor Open(bytes: seq<Byte>)
      ensures data == bytes && pos == 0
    {
      data := bytes;
      pos := 0;
    }

    /** ftell(stream). */
    function Tell(): nat
      reads this
    {
      pos
    }

    /** fseek(stream, offset, SEEK_SET). */
    method Seek(offset: nat)
      modifies this
      ensures pos == offset
    {
      pos := offset;
    }

    /** fseek(stream, n, SEEK_CUR). */
    method Skip(n: nat)
      modifies this
      ensures pos == old(pos) + n
    {
      pos := pos + n;
    }

    /** fread of n bytes; a short read consumes what is left and fails. */
    method Read(n: nat) returns (r: Option<seq<Byte>>)
      modifies this
      ensures old(pos) + n <= |data| ==> r == Some(data[old(pos)..old(pos) + n]) && pos == old(pos) + n
      ensures n == 0 ==> r == Some([]) && pos == old(pos)
      ensures !Available(data, old(pos), n) ==>
                r == None && pos == (if old(pos) < |data| then |data| else old(pos))
    {
      if n == 0 {
        r := Some([]);
        assert pos <= |data| ==> data[pos..pos] == [];
      } else if pos + n <= |data| {
        r := Some(data[pos..pos + n]);
        pos := pos + n;
      } else {
        r := None;
        if pos < |data| {
          pos := |data|;
        }
      }
    }

    /** fread of one uint16_t. */
    method ReadU16() returns (r: Option<U16>)
      modifies this
      ensures old(pos) + 2 <= |data| ==> r == Some(U16At(data, old(pos))) && pos == old(pos) + 2
      ensures |data| < old(pos) + 2 ==> r == None
    {
      var bytes := Read(2);
      if bytes.Some? {
        r := Some(U16At(bytes.value, 0));
      } else {
        r := None;
      }
    }

    /** fread of one uint32_t. */
    method ReadU32() returns (r: Option<U32>)
      modifies this
      ensures old(pos) + 4 <= |data| ==> r == Some(U32At(data, old(pos))) && pos == old(pos) + 4
      ensures |data| < old(pos) + 4 ==> r == None
    {
      var bytes := Read(4);
      if bytes.Some? {
        r := Some(U32At(bytes.value, 0));
      } else {
        r := None;
      }
    }
  }
}
