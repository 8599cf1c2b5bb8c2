/** The program's growable byte buffer (`struct chunk`) and the two transport
    callbacks that use it: one drains it for an outgoing request body, the
    other accumulates an incoming response. */
module Chunks {
  import opened CText

  /** The bytes the read callback hands out for one pull of `allowed` bytes:
      the longest prefix of what is pending that fits. */
  function ReadPiece(pending: seq<Char>, allowed: nat): (r: seq<Char>)
    ensures |r| == Min(|pending|, allowed)
    ensures r == pending[..|r|]
  {
    pending[..Min(|pending|, allowed)]
  }

  /** `struct chunk`. `data` is the heap region (null before allocation and
      after free); it always holds `size + 1` bytes, the extra one for a NUL.
      `readMarker` is the offset that the C pointer `read_marker` holds into
      `data` (a null `read_marker` is offset 0). */
  class Chunk {
    var data: array?<Char>
    var readMarker: nat
    var length: nat
    var size: nat

    ghost predicate Valid()
      reads this
    {
      && (data == null ==> size == 0 && length == 0)
      && (data != null ==> data.Length == size + 1)
      && length <= size
    }

    /** The byte after the valid bytes is a NUL, so `data` reads as a C string. */
    ghost predicate Terminated()
      reads this, data
      requires Valid()
    {
      data != null ==> data[length] == NUL
    }

    /** The valid bytes, as maintained by init, append and clear. */
    ghost function Content(): seq<Char>
      reads this, data
      requires Valid()
    {
      if data == null then [] else data[..length]
    }

    /** The bytes accumulated by the write callback, which fills up to `size`. */
    ghost function Received(): seq<Char>
      reads this, data
      requires Valid()
    {
      if data == null then [] else data[..size]
    }

    /** The cursor and the remaining count stay inside the region. */
    ghost predicate Readable()
      reads this
    {
      Valid() && readMarker + length <= size
    }

    /** The bytes the read callback has yet to hand out. */
    ghost function Pending(): seq<Char>
      reads this, data
      requires Readable()
    {
      if data == null then [] else data[readMarker..readMarker + length]
    }

    /** A `struct chunk` in zero-filled (static or reset) storage. */
    constructor Zeroed()
      ensures Valid() && Terminated()
      ensures data == null && readMarker == 0 && length == 0 && size == 0
    {
      data := null;
      readMarker, length, size := 0, 0, 0;
    }

    /** chunk_new: a one-byte region (its byte left unspecified, as malloc
        leaves it), no valid bytes. */
    method New()
      modifies this
      ensures Valid() && fresh(data) && data.Length == 1
      ensures size == 0 && length == 0 && readMarker == old(readMarker)
      ensures Content() == []
    {
      data := new Char[1];
      size, length := 0, 0;
    }

    /** chunk_init: copy a C string together with its terminator. */
    method Init(s: CStr)
      modifies this
      ensures Valid() && Terminated() && fresh(data)
      ensures size == |s| && length == |s| && readMarker == old(readMarker)
      ensures data[..] == s + [NUL]
      ensures Content() == s
    {
      size := |s|;
      length := |s|;
      data := new Char[|s| + 1](i requires 0 <= i <= |s| => if i < |s| then s[i] else NUL);
      assert data[..length] == s;
    }

    /** realloc: a fresh region of `n` bytes that begins with the old bytes
        (as many as fit); the rest is unspecified. */
    method Realloc(n: nat)
      modifies this
      ensures fresh(data) && data != null && data.Length == n
      ensures old(data) != null ==>
        forall i | 0 <= i < Min(old(data).Length, n) :: data[i] == old(data[i])
      ensures size == old(size) && length == old(length) && readMarker == old(readMarker)
    {
      var region := new Char[n];
      if data != null {
        var k := Min(data.Length, n);
        forall i | 0 <= i < k {
          region[i] := data[i];
        }
      }
      data := region;
    }

    /** chunk_append: when `s` does not fit in the free space, grow the
        capacity by the whole length of `s`; then copy `s` after the valid
        bytes and NUL-terminate. */
    method Append(s: seq<Char>)
      requires Valid()
      modifies this, data
      ensures Valid() && Terminated()
      ensures size == if |s| > old(size) - old(length) then old(size) + |s| else old(size)
      ensures |s| > old(size) - old(length) ==> fresh(data)
      ensures |s| <= old(size) - old(length) ==> data == old(data)
      ensures data == null <==> old(data) == null && s == []
      ensures length == old(length) + |s| && readMarker == old(readMarker)
      ensures Content() == old(Content()) + s
      ensures data != null && data == old(data) ==>
        forall i | length < i < data.Length :: data[i] == old(data[i])
    {
      if |s| > size - length {
        Realloc(size + |s| + 1);
        size := size + |s|;
      }
      if data == null {
        return;
      }
      ghost var before := data[..length];
      forall i | 0 <= i < |s| {
        data[length + i] := s[i];
      }
      length := length + |s|;
      data[length] := NUL;
      assert data[..length] == before + s;
    }

    /** chunk_clear: zero the first `size` bytes and drop the valid bytes;
        the region and `size` are kept. */
    method Clear()
      requires Valid()
      modifies this, data
      ensures Valid() && data == old(data) && size == old(size)
      ensures length == 0 && readMarker == old(readMarker)
      ensures data != null ==> forall i | 0 <= i < size :: data[i] == NUL
      ensures data != null ==> data[size] == old(data[size])
      ensures Content() == []
      ensures old(Terminated()) || size > 0 ==> Terminated()
    {
      if data != null {
        forall i | 0 <= i < size {
          data[i] := NUL;
        }
      }
      length := 0;
    }

    /** chunk_free: release the region and reset every field. */
    method Free()
      modifies this
      ensures Valid() && Terminated()
      ensures data == null && readMarker == 0 && size == 0 && length == 0
    {
      data := null;
      readMarker, size, length := 0, 0, 0;
    }

    /** chunk_write_callback: the transport delivers `itemSize * nmemb`
        bytes; they are stored at offset `size` (not `length`), `size` grows
        by that count, a NUL follows, and the count is returned. */
    method WriteCallback(contents: seq<Char>, itemSize: nat, nmemb: nat) returns (bytes: nat)
      requires Valid()
      requires |contents| == itemSize * nmemb
      modifies this
      ensures Valid() && fresh(data) && data[size] == NUL
      ensures bytes == itemSize * nmemb
      ensures size == old(size) + bytes && length == old(length) && readMarker == old(readMarker)
      ensures Received() == old(Received()) + contents
    {
      bytes := itemSize * nmemb;
      ghost var before := old(Received());
      Realloc(size + bytes + 1);
      assert data[..size] == before;
      forall i | 0 <= i < bytes {
        data[size + i] := contents[i];
      }
      size := size + bytes;
      data[size] := NUL;
      assert data[..size] == before + contents;
    }

    /** chunk_read_init: point the read cursor at the start of the region. */
    method ReadInit()
      requires Valid()
      modifies this
      ensures readMarker == 0
      ensures data == old(data) && size == old(size) && length == old(length)
      ensures Readable() && Pending() == Content()
    {
      readMarker := 0;
    }

    /** chunk_read_callback: hand the transport as many pending bytes as its
        buffer of `itemSize * nmemb` bytes allows, advance the cursor, and
        return the count; 0 once nothing is pending, with nothing changed. */
    method ReadCallback(buffer: array<Char>, itemSize: nat, nmemb: nat) returns (n: nat)
      requires Readable()
      requires buffer.Length >= itemSize * nmemb
      requires buffer != data
      modifies this, buffer
      ensures Readable() && data == old(data) && size == old(size)
      ensures n == Min(old(length), itemSize * nmemb)
      ensures buffer[..n] == ReadPiece(old(Pending()), itemSize * nmemb)
      ensures buffer[n..] == old(buffer[n..])
      ensures readMarker == old(readMarker) + n && length == old(length) - n
      ensures Pending() == old(Pending())[n..]
    {
      var allowed := itemSize * nmemb;
      if length > 0 {
        var k := length;
        if k > allowed {
          k := allowed;
        }
        forall i | 0 <= i < k {
          buffer[i] := data[readMarker + i];
        }
        readMarker := readMarker + k;
        length := length - k;
        return k;
      }
      return 0;
    }
  }
}
