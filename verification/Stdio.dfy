/** The part of the C library's stdio that the zip code uses: a file in memory with a position. */
module Stdio {
  import opened Bytes

  /** What lies ahead of a position, which may be past the end. */
  function From(data: Bytes, pos: nat): Bytes {
    if pos <= |data| then data[pos..] else []
  }

  lemma PrefixAt(s: Bytes, o: nat, w: Bytes)
    requires Holds(s, o, w)
    ensures From(s, o) == w + s[o + |w|..]
  {
  }

  class Stream {
    var data: Bytes
    var pos: nat

    constructor (data: Bytes)
      ensures this.data == data && pos == 0
    {
      this.data, pos := data, 0;
    }

    ghost function Ahead(): Bytes
      reads this
    {
      From(data, pos)
    }

    /** fread of n bytes. */
    method Fread(n: nat) returns (s: Bytes)
      modifies `pos
      ensures |s| == if n <= |old(Ahead())| then n else |old(Ahead())|
      ensures s == old(Ahead())[..|s|] && pos == old(pos) + |s| && Ahead() == old(Ahead())[|s|..]
    {
      var rest := From(data, pos);
      s := if n <= |rest| then rest[..n] else rest;
      pos := pos + |s|;
    }

    /** fseek from the start; an offset is an unsigned long that fseek takes as a signed one. */
    method Fseek(offset: nat) returns (ok: bool)
      modifies `pos
      ensures ok <==> offset < 0x8000_0000_0000_0000
      ensures pos == if ok then offset else old(pos)
    {
      ok := offset < 0x8000_0000_0000_0000;
      if ok { pos := offset; }
    }

    /** fwrite at the end of the file. */
    method Fwrite(s: Bytes)
      requires pos == |data|
      modifies this
      ensures data == old(data) + s && pos == |data|
    {
      data := data + s;
      pos := |data|;
    }
  }
}
