/**
 * The in-memory streams the C++ codec works on. An output string stream is
 * the bytes written to it so far; an input string stream is the bytes it was
 * built from and a cursor that every read moves forward. The `utils::write`
 * overloads and `utils::read_primitive` / `utils::read_bytes` are their methods.
 * A failed read throws in the program; here it returns None, and the caller
 * stops with an error.
 */
module Streams {
  import opened Results
  import opened Bytes
  import Wire

  /** An ostringstream: the bytes written so far. */
  class OStream {
    var buf: seq<byte>

    constructor ()
      ensures buf == []
    {
      buf := [];
    }

    /** utils::write<uint64_t>: appends the 8 bytes of the field. */
    method WriteU64(x: u64)
      modifies this
      ensures buf == old(buf) + U64Bytes(x)
      ensures |buf| == |old(buf)| + U64_SIZE
    {
      buf := buf + U64Bytes(x);
    }

    /** utils::write<double>: appends the 8-byte pattern of the double. */
    method WriteDouble(d: Wire.Double)
      modifies this
      ensures buf == old(buf) + d
      ensures |buf| == |old(buf)| + 8
    {
      buf := buf + d;
    }

    /** utils::write<string>: appends the bytes of the string, and nothing else. */
    method WriteString(s: seq<byte>)
      modifies this
      ensures buf == old(buf) + s
    {
      buf := buf + s;
    }
  }

  /** An istringstream over `data`, read up to `pos`. */
  class IStream {
    const data: seq<byte>
    var pos: nat

    ghost predicate Valid()
      reads this
    {
      pos <= |data|
    }

    /** The bytes not read yet. */
    function Remaining(): seq<byte>
      reads this
      requires Valid()
    {
      data[pos..]
    }

    constructor (bin: seq<byte>)
      ensures Valid() && data == bin && Remaining() == bin
    {
      data := bin;
      pos := 0;
    }

    /**
     * utils::read_primitive<uint64_t>: consumes exactly 8 bytes and returns the
     * field they hold, or fails when fewer than 8 remain.
     */
    method ReadU64() returns (r: Option<u64>)
      requires Valid()
      modifies this
      ensures Valid()
      ensures r.Some? <==> |old(Remaining())| >= U64_SIZE
      ensures r.Some? ==> U64Bytes(r.value) + Remaining() == old(Remaining())
      ensures r.Some? ==> Wire.ReadU64(old(Remaining())) == Some((r.value, Remaining()))
      ensures r.None? ==> Wire.ReadU64(old(Remaining())) == None
      ensures r.None? ==> Remaining() == []
    {
      ghost var rem := Remaining();
      if |data| - pos < U64_SIZE {
        pos := |data|;
        r := None;
      } else {
        var field := data[pos..pos + U64_SIZE];
        assert field == rem[..U64_SIZE];
        r := Some(U64Value(field));
        pos := pos + U64_SIZE;
        assert Remaining() == rem[U64_SIZE..];
        Wire.ReadU64Consumes(rem);
      }
    }

    /**
     * utils::read_primitive<double>: consumes exactly 8 bytes and returns them
     * as the double's bit pattern, or fails when fewer than 8 remain.
     */
    method ReadDouble() returns (r: Option<Wire.Double>)
      requires Valid()
      modifies this
      ensures Valid()
      ensures r.Some? <==> |old(Remaining())| >= 8
      ensures r.Some? ==> r.value + Remaining() == old(Remaining())
      ensures Wire.ReadDouble(old(Remaining())) == if r.Some? then Some((r.value, Remaining())) else None
      ensures r.None? ==> Remaining() == []
    {
      ghost var rem := Remaining();
      if |data| - pos < 8 {
        pos := |data|;
        r := None;
      } else {
        r := Some(data[pos..pos + 8]);
        assert r.value == rem[..8];
        pos := pos + 8;
        assert Remaining() == rem[8..];
      }
    }

    /**
     * utils::read_bytes: consumes exactly `count` bytes and returns them, or
     * fails when fewer than `count` remain.
     */
    method ReadBytes(count: u64) returns (r: Option<seq<byte>>)
      requires Valid()
      modifies this
      ensures Valid()
      ensures r.Some? <==> |old(Remaining())| >= count
      ensures r.Some? ==> |r.value| == count && r.value + Remaining() == old(Remaining())
      ensures Wire.ReadBytes(old(Remaining()), count) == if r.Some? then Some((r.value, Remaining())) else None
      ensures r.None? ==> Remaining() == []
    {
      ghost var rem := Remaining();
      if |data| - pos < count {
        pos := |data|;
        r := None;
      } else {
        r := Some(data[pos..pos + count]);
        assert r.value == rem[..count];
        pos := pos + count;
        assert Remaining() == rem[count..];
      }
    }
  }
}
