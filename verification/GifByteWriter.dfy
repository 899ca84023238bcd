/** The growable byte buffer the GIF file is written into. */
module GifByteWriter {
  import opened GifBits

  function Ascii(s: string): (bytes: seq<Byte>)
    ensures |bytes| == |s|
  {
    seq(|s|, i requires 0 <= i < |s| => s[i] as int % 256)
  }

  function Le16(n: nat): seq<Byte> {
    [n % 256, n / 256 % 256]
  }

  class ByteWriter {
    var buf: array<Byte>
    var pos: nat

    ghost var Contents: seq<Byte>

    ghost predicate Valid()
      reads this, buf
    {
      pos <= buf.Length && Contents == buf[..pos]
    }

    constructor (initial: nat)
      ensures Valid() && fresh(buf) && Contents == []
    {
      buf := new Byte[initial](_ => 0);
      pos := 0;
      Contents := [];
    }

    method Ensure(n: nat)
      requires Valid()
      modifies this
      ensures Valid() && pos == old(pos) && pos + n <= buf.Length
      ensures buf == old(buf) || fresh(buf)
      ensures Contents == old(Contents)
    {
      if pos + n > buf.Length {
        var was := buf;
        var next := new Byte[if was.Length * 2 > pos + n then was.Length * 2 else pos + n](_ => 0);
        forall i | 0 <= i < was.Length {
          next[i] := was[i];
        }
        buf := next;
        assert buf[..pos] == was[..pos];
      }
    }

    method Byte(b: nat)
      requires Valid()
      modifies this, buf
      ensures Valid() && (buf == old(buf) || fresh(buf))
      ensures Contents == old(Contents) + [b % 256]
    {
      Ensure(1);
      buf[pos] := b % 256;
      pos := pos + 1;
      Contents := Contents + [b % 256];
    }

    method LE16(n: nat)
      requires Valid()
      modifies this, buf
      ensures Valid() && (buf == old(buf) || fresh(buf))
      ensures Contents == old(Contents) + Le16(n)
    {
      Ensure(2);
      buf[pos] := n % 256;
      buf[pos + 1] := n / 256 % 256;
      pos := pos + 2;
      Contents := Contents + Le16(n);
    }

    method Bytes(arr: seq<Byte>)
      requires Valid()
      modifies this, buf
      ensures Valid() && (buf == old(buf) || fresh(buf))
      ensures Contents == old(Contents) + arr
    {
      Ensure(|arr|);
      for i := 0 to |arr|
        invariant pos == old(pos) + i && old(pos) + |arr| <= buf.Length
        invariant Valid() && (buf == old(buf) || fresh(buf))
        invariant Contents == old(Contents) + arr[..i]
      {
        buf[pos] := arr[i];
        pos := pos + 1;
        Contents := Contents + [arr[i]];
      }
      assert arr[..|arr|] == arr;
    }

    method AsciiText(s: string)
      requires Valid()
      modifies this, buf
      ensures Valid() && (buf == old(buf) || fresh(buf))
      ensures Contents == old(Contents) + Ascii(s)
    {
      Ensure(|s|);
      for i := 0 to |s|
        invariant pos == old(pos) + i && old(pos) + |s| <= buf.Length
        invariant Valid() && (buf == old(buf) || fresh(buf))
        invariant Contents == old(Contents) + Ascii(s)[..i]
      {
        buf[pos] := s[i] as int % 256;
        pos := pos + 1;
        Contents := Contents + [s[i] as int % 256];
      }
      assert Ascii(s)[..|s|] == Ascii(s);
    }

    method Finish() returns (bytes: seq<Byte>)
      requires Valid()
      ensures bytes == Contents
    {
      bytes := buf[..pos];
    }
  }
}
