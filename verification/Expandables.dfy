/** The growable byte buffer of Asst2/ds.c. */
module Expandables {
  import opened CTypes

  class Expandable {
    var data: array<byte>
    var size: nat
    var totalSize: nat

    /** There is always room for the used bytes, one free byte and a terminator. */
    ghost predicate Valid()
      reads this, data
    {
      data.Length == totalSize + 1 && size < totalSize
    }

    function Contents(): seq<byte>
      reads this, data
      requires Valid()
    {
      data[..size]
    }

    constructor ()
      ensures Valid() && fresh(data) && Contents() == []
    {
      data := new byte[51](_ => 0);
      size, totalSize := 0, 50;
    }

    /** expandExpandable: realloc keeps the bytes and gives `more` further ones. */
    method Expand(more: nat)
      requires data.Length == totalSize + 1 && size <= totalSize
      modifies this`totalSize, this`data
      ensures fresh(data) && data.Length == totalSize + 1 && totalSize == old(totalSize) + more
      ensures data[..size] == old(data[..size])
    {
      totalSize := totalSize + more;
      var tmp := new byte[totalSize + 1](_ => 0);
      var i := 0;
      while i < size
        invariant 0 <= i <= size && totalSize == old(totalSize) + more
        invariant data == old(data) && tmp.Length == totalSize + 1 && fresh(tmp)
        invariant data[..size] == old(data[..size]) && tmp[..i] == data[..i]
        modifies tmp
      {
        tmp[i] := data[i];
        i := i + 1;
      }
      data := tmp;
    }

    /** appendExpandable: grows by 10 bytes while small and doubles when larger, always
        before the terminator would be written out of bounds. */
    method Append(c: byte)
      requires Valid()
      modifies this, data
      ensures Valid() && (data == old(data) || fresh(data))
      ensures Contents() == old(Contents()) + [c]
    {
      ghost var was := Contents();
      data[size] := c;
      size := size + 1;
      assert data[..size] == was + [c];
      if size == totalSize {
        if size <= 1024 {
          Expand(10);
        } else {
          Expand(size);
        }
      }
      data[size] := 0;
    }

    method CopyIn(s: seq<byte>)
      requires size + |s| <= data.Length
      modifies data
      ensures data[..size] == old(data[..size])
      ensures data[size..size + |s|] == s
    {
      for i := 0 to |s|
        invariant data[..size] == old(data[..size])
        invariant data[size..size + i] == s[..i]
      {
        data[size + i] := s[i];
        assert data[size..size + i + 1] == data[size..size + i] + [s[i]];
      }
    }

    /** appendSequenceExpandable: grows by what is missing and 10 bytes, or 4096000 bytes
        when large, before anything is copied. */
    method AppendSequence(s: seq<byte>)
      requires Valid()
      modifies this, data
      ensures Valid() && (data == old(data) || fresh(data))
      ensures Contents() == old(Contents()) + s
    {
      ghost var was := Contents();
      var available := totalSize - size;
      if available <= |s| {
        if size + |s| > 1024 {
          Expand((|s| - available) + 4096000);
        } else {
          Expand(|s| - available + 10);
        }
      }
      CopyIn(s);
      assert data[..size + |s|] == was + s;
      size := size + |s|;
      data[size] := 0;
    }

    /** Reusing the buffer: size = 0. */
    method Reset()
      requires Valid()
      modifies this`size
      ensures Valid() && Contents() == []
    {
      size := 0;
    }
  }
}
