/**
 The copy loop of the I/O daemon (kern/io/iod.c): a channel takes the buffers of its source object one
 after the other and fills buffers of the destination's own block size, keeping a partly filled one
 between calls.

 What bref returns is a parameter: the bytes of the source buffer or an error, and how many destination
 buffers can still be had. The destination is empty, so every destination buffer is new. A destination
 buffer is recorded when the channel marks it dirty and lets go of it.
 */
module IoDaemon {

  import opened Bytes
  import opened Common

  /** A block that the destination object received. */
  datatype Block = Block(blk: nat, bytes: seq<Byte>)

  const BLK_MOD := 0x1_0000        // blk_t is 16 bits wide

  // ----- Specification: cutting a byte stream into blocks -----

  /** The stream cut into blocks of n bytes; only the last may be shorter, and none is empty. */
  function Blocks(s: seq<Byte>, n: nat): (r: seq<seq<Byte>>)
    requires n > 0
  {
    if s == [] then [] else if |s| <= n then [s] else [s[..n]] + Blocks(s[n..], n)
  }

  /** The full blocks of the stream. */
  function FullBlocks(s: seq<Byte>, n: nat): seq<seq<Byte>>
    requires n > 0
  {
    if |s| < n then [] else [s[..n]] + FullBlocks(s[n..], n)
  }

  /** What is left behind the full blocks. */
  function Rest(s: seq<Byte>, n: nat): (r: seq<Byte>)
    requires n > 0
    ensures |r| < n
  {
    if |s| < n then s else Rest(s[n..], n)
  }

  function Flatten(bs: seq<seq<Byte>>): seq<Byte> {
    if bs == [] then [] else bs[0] + Flatten(bs[1..])
  }

  lemma {:induction false} FlattenAppend(a: seq<seq<Byte>>, b: seq<seq<Byte>>)
    ensures Flatten(a + b) == Flatten(a) + Flatten(b)
  {
    if a == [] {
      assert a + b == b;
    } else {
      assert (a + b)[1..] == a[1..] + b;
      FlattenAppend(a[1..], b);
    }
  }

  lemma FlattenCons(b: seq<Byte>, bs: seq<seq<Byte>>)
    ensures Flatten([b] + bs) == b + Flatten(bs)
  {
    assert ([b] + bs)[1..] == bs;
  }

  /** Conservation: putting the blocks together gives the stream back. */
  lemma {:induction false} BlocksConserve(s: seq<Byte>, n: nat)
    requires n > 0
    ensures Flatten(Blocks(s, n)) == s
  {
    if s == [] {
    } else if |s| <= n {
      assert Flatten([s]) == s + Flatten([]);
    } else {
      var first, more := s[..n], s[n..];
      BlocksConserve(more, n);
      assert Blocks(s, n) == [first] + Blocks(more, n);
      FlattenCons(first, Blocks(more, n));
      assert first + more == s;
    }
  }

  /** Every block but the last is full, and none is empty. */
  lemma {:induction false} BlocksFull(s: seq<Byte>, n: nat)
    requires n > 0
    ensures forall i :: 0 <= i < |Blocks(s, n)| ==> 0 < |Blocks(s, n)[i]| <= n
    ensures forall i :: 0 <= i < |Blocks(s, n)| - 1 ==> |Blocks(s, n)[i]| == n
  {
    if |s| > n { BlocksFull(s[n..], n); }
  }

  /** These two properties and conservation leave no choice: there is only one way to cut a stream. */
  lemma {:induction false} BlocksUnique(bs: seq<seq<Byte>>, n: nat)
    requires n > 0
    requires forall i :: 0 <= i < |bs| ==> 0 < |bs[i]| <= n
    requires forall i :: 0 <= i < |bs| - 1 ==> |bs[i]| == n
    ensures bs == Blocks(Flatten(bs), n)
  {
    if |bs| == 1 {
      assert Flatten(bs) == bs[0] + Flatten(bs[1..]) == bs[0];
    } else if |bs| > 1 {
      BlocksUnique(bs[1..], n);
      var s := Flatten(bs);
      assert bs[1..] != [] && |bs[1]| > 0 && Flatten(bs[1..]) == bs[1] + Flatten(bs[1..][1..]);
      assert s[..n] == bs[0] && s[n..] == Flatten(bs[1..]);
    }
  }

  /** The full blocks and a non-empty rest are the blocks. */
  lemma {:induction false} BlocksAreFullAndRest(s: seq<Byte>, n: nat)
    requires n > 0
    ensures Blocks(s, n) == FullBlocks(s, n) + if Rest(s, n) == [] then [] else [Rest(s, n)]
  {
    if |s| >= n {
      BlocksAreFullAndRest(s[n..], n);
      if |s| == n {
        assert s[..n] == s && s[n..] == [];
      }
    }
  }

  /** Adding bytes that do not overfill the rest: either it grows, or it becomes one more full block. */
  lemma {:induction false} RestGrows(s: seq<Byte>, t: seq<Byte>, n: nat)
    requires n > 0 && |Rest(s, n)| + |t| <= n
    ensures |Rest(s, n)| + |t| < n ==> FullBlocks(s + t, n) == FullBlocks(s, n) && Rest(s + t, n) == Rest(s, n) + t
    ensures |Rest(s, n)| + |t| == n ==>
      FullBlocks(s + t, n) == FullBlocks(s, n) + [Rest(s, n) + t] && Rest(s + t, n) == []
  {
    if |s| < n {
      if |s| + |t| == n {
        var u := s + t;
        assert u[..n] == u && u[n..] == [];
        assert FullBlocks(u, n) == [u] + FullBlocks([], n);
      }
    } else {
      RestGrows(s[n..], t, n);
      assert (s + t)[..n] == s[..n] && (s + t)[n..] == s[n..] + t;
    }
  }

  /** Consecutive block numbers from 0, in 16 bits. */
  ghost predicate Numbered(out: seq<Block>, bs: seq<seq<Byte>>) {
    |out| == |bs| && forall i :: 0 <= i < |out| ==> out[i].bytes == bs[i] && out[i].blk == i % BLK_MOD
  }

  // ----- The channel -----

  /** struct buf of the destination. */
  class Buf {
    const blk: nat
    const data: array<Byte>
    var len: nat

    constructor (blk: nat, size: nat)
      ensures fresh(data) && this.blk == blk && data.Length == size && len == size
    {
      this.blk, len := blk, size;
      data := new Byte[size](_ => 0);
    }
  }

  class Channel {
    const blksize: nat              // OBJ_BUFSIZE of the destination
    var blkFrom: nat
    var blkTo: nat
    var dstbuf: Buf?
    var dstdata: nat                // offset of the next byte in dstbuf->data
    var dstrest: nat
    var out: seq<Block>             // what the destination has received
    ghost var copied: seq<Byte>     // everything taken from the source so far

    ghost function Repr(): set<object>
      reads this
    {
      {this} + if dstbuf == null then {} else {dstbuf, dstbuf.data}
    }

    /** Between calls, and while a buffer is full but not yet let go of (dstrest == 0). */
    ghost predicate Open()
      reads this, dstbuf, if dstbuf == null then {} else {dstbuf.data}
    {
      && blksize > 0 && blkFrom < BLK_MOD && blkTo < BLK_MOD
      && (dstbuf == null ==>
            dstrest == 0 && Numbered(out, FullBlocks(copied, blksize)) && Rest(copied, blksize) == [] &&
            blkTo == |out| % BLK_MOD)
      && (dstbuf != null ==>
            && dstbuf.data.Length == blksize && dstbuf.len == dstdata && dstdata + dstrest == blksize
            && dstbuf.blk == |out| % BLK_MOD && blkTo == (|out| + 1) % BLK_MOD
            && (if dstrest == 0 then
                  && Numbered(out + [Block(dstbuf.blk, dstbuf.data[..])], FullBlocks(copied, blksize))
                  && Rest(copied, blksize) == []
                else
                  Numbered(out, FullBlocks(copied, blksize)) && Rest(copied, blksize) == dstbuf.data[..dstdata]))
    }

    /** The invariant between calls: a full buffer has been let go of. */
    ghost predicate Valid()
      reads this, dstbuf, if dstbuf == null then {} else {dstbuf.data}
    {
      Open() && (dstbuf != null ==> 0 < dstdata && dstrest > 0)
    }

    /** iod_chn_create */
    constructor (blksize: nat)
      requires blksize > 0
      ensures Valid() && fresh(Repr()) && this.blksize == blksize && copied == [] && out == []
    {
      this.blksize := blksize;
      blkFrom, blkTo, dstbuf, dstdata, dstrest := 0, 0, null, 0, 0;
      out, copied := [], [];
    }

    /** iod_free_dstbuf: mark the pending buffer dirty and drop the reference. */
    method FreeDstbuf()
      requires Open()
      modifies this
      ensures dstbuf == null && copied == old(copied) && dstrest == old(dstrest) && dstdata == old(dstdata)
      ensures blkTo == old(blkTo) && blkFrom == old(blkFrom)
      ensures old(dstrest) == 0 ==> Open()
      ensures (old(dstbuf) != null ==> old(dstdata) > 0) ==> Numbered(out, Blocks(copied, blksize))
    {
      BlocksAreFullAndRest(copied, blksize);
      if dstbuf == null { return; }
      out := out + [Block(dstbuf.blk, dstbuf.data[..dstbuf.len])];
      assert dstdata == blksize ==> dstbuf.data[..dstdata] == dstbuf.data[..];
      dstbuf := null;
    }

    /** Allocate the next outgoing buffer; bref leaves NULL behind when it fails. */
    method NextDstbuf(available: bool) returns (err: Error)
      requires Open() && dstrest == 0
      modifies this
      ensures copied == old(copied) && Open() && blkFrom == old(blkFrom)
      ensures err == if available then ENONE else ENOMEM
      ensures available ==> dstbuf != null && fresh(dstbuf) && fresh(dstbuf.data) && dstrest == blksize
      ensures !available ==> dstbuf == null
    {
      FreeDstbuf();
      if !available { return ENOMEM; }
      NewDstbuf();
      return ENONE;
    }

    method NewDstbuf()
      requires Open() && dstbuf == null
      modifies this
      ensures copied == old(copied) && Open() && blkFrom == old(blkFrom)
      ensures dstbuf != null && fresh(dstbuf) && fresh(dstbuf.data) && dstrest == blksize
    {
      var b := new Buf(blkTo, blksize);
      dstdata := 0;
      dstrest := b.len;
      b.len := 0;
      NextBlk(|out|, blkTo);
      blkTo := (blkTo + 1) % BLK_MOD;
      dstbuf := b;
      assert b.data[..0] == [];
    }

    lemma NextBlk(n: nat, blk: nat)
      requires blk == n % BLK_MOD
      ensures (blk + 1) % BLK_MOD == (n + 1) % BLK_MOD
    {
    }

    /** memcpy of the next bytes and the updates of the copy parameters. */
    method Fill(bytes: seq<Byte>)
      requires Open() && dstbuf != null && dstrest > 0 && |bytes| <= dstrest
      modifies this, dstbuf, dstbuf.data
      ensures Open() && dstbuf == old(dstbuf) && copied == old(copied) + bytes
      ensures dstrest == old(dstrest) - |bytes| && dstdata == old(dstdata) + |bytes| && blkFrom == old(blkFrom)
    {
      ghost var before := dstbuf.data[..dstdata];
      for i := 0 to |bytes|
        invariant dstbuf.data[..dstdata + i] == before + bytes[..i]
        modifies dstbuf.data
      {
        dstbuf.data[dstdata + i] := bytes[i];
      }
      assert bytes[..|bytes|] == bytes;
      RestGrows(copied, bytes, blksize);
      dstdata := dstdata + |bytes|;
      dstrest := dstrest - |bytes|;
      dstbuf.len := dstbuf.len + |bytes|;
      copied := copied + bytes;
      assert dstrest == 0 ==> dstbuf.data[..] == dstbuf.data[..dstdata];
    }

    /** How many bytes the pending buffer and room more take. */
    ghost function Capacity(room: nat): nat
      reads this
    {
      dstrest + room * blksize
    }

    /** The body of iod_copy_buf's loop: as many bytes as the current or a new destination buffer takes. */
    method CopyPiece(src: seq<Byte>, room: nat) returns (err: Error, len: nat, room': nat)
      requires Open() && src != [] && (dstbuf != null ==> dstdata > 0)
      modifies Repr()
      ensures Open() && fresh(Repr() - old(Repr())) && (dstbuf != null ==> dstdata > 0) && blkFrom == old(blkFrom)
      ensures err == ENONE ==> 0 < len <= |src| && copied == old(copied) + src[..len]
      ensures err == ENONE ==> Capacity(room') == old(Capacity(room)) - len
      ensures err != ENONE ==> err == ENOMEM && old(Capacity(room)) == 0 && copied == old(copied) && dstbuf == null
    {
      err, len, room' := ENONE, 0, room;
      if dstrest == 0 {
        err := NextDstbuf(room > 0);
        if err != ENONE { return; }
        room' := room - 1;
      }
      len := if |src| > dstrest then dstrest else |src|;
      Fill(src[..len]);
    }

    /**
     iod_copy_buf. Without an error all bytes of the source buffer have been taken; if the room of the pending
     buffer and of as many more as can be had does not suffice, exactly the bytes that it holds.
     */
    method CopyBuf(src: seq<Byte>, srcErr: Error, room: nat) returns (err: Error, left: nat)
      requires Valid()
      modifies Repr()
      ensures Valid() && fresh(Repr() - old(Repr()))
      ensures srcErr != ENONE ==> err == srcErr && left == room && copied == old(copied) && out == old(out)
      ensures blkFrom == (old(blkFrom) + 1) % BLK_MOD
      ensures srcErr == ENONE ==> err == (if |src| <= old(Capacity(room)) then ENONE else ENOMEM)
      ensures err == ENONE ==> copied == old(copied) + src && Capacity(left) == old(Capacity(room)) - |src|
      ensures srcErr == ENONE && err != ENONE ==> copied == old(copied) + src[..old(Capacity(room))]
    {
      blkFrom := (blkFrom + 1) % BLK_MOD;
      if srcErr != ENONE { return srcErr, room; }
      err, left := CopyBytes(src, room);
      if dstrest == 0 {
        FreeDstbuf();
      }
    }

    /** The loop of iod_copy_buf. */
    method CopyBytes(src: seq<Byte>, room: nat) returns (err: Error, left: nat)
      requires Valid()
      modifies Repr()
      ensures Open() && (dstbuf != null ==> dstdata > 0) && fresh(Repr() - old(Repr())) && blkFrom == old(blkFrom)
      ensures err == if |src| <= old(Capacity(room)) then ENONE else ENOMEM
      ensures err == ENONE ==> copied == old(copied) + src && Capacity(left) == old(Capacity(room)) - |src|
      ensures err != ENONE ==> copied == old(copied) + src[..old(Capacity(room))]
    {
      var srcdata, srcrest := 0, |src|;
      left := room;
      err := ENONE;
      assert src[..0] == [];
      while srcrest != 0
        invariant 0 <= srcdata && 0 <= srcrest && srcdata + srcrest == |src| && Open() && err == ENONE
        invariant (dstbuf != null ==> dstdata > 0) && blkFrom == old(blkFrom)
        invariant copied == old(copied) + src[..srcdata]
        invariant fresh(Repr() - old(Repr()))
        invariant Capacity(left) == old(Capacity(room)) - srcdata
      {
        var len;
        err, len, left := CopyPiece(src[srcdata..], left);
        if err != ENONE { return; }
        assert src[srcdata..][..len] == src[srcdata..srcdata + len];
        assert src[..srcdata] + src[srcdata..srcdata + len] == src[..srcdata + len];
        srcdata := srcdata + len;
        srcrest := srcrest - len;
      }
      assert src[..|src|] == src;
    }

    /**
     The driver loop of an immediate channel, and iod_chn_kill if it is to be closed: copy until the source has
     no more data or the destination no more room. What has been taken is as much of the source as there is
     room for, and a closed channel leaves the one possible cutting of it, numbered consecutively.
     */
    method CopyAll(src: seq<seq<Byte>>, room: nat, autoClosed: bool)
      requires Valid() && copied == []
      modifies Repr()
      ensures var all, k := Flatten(src), old(Capacity(room)); copied == if |all| <= k then all else all[..k]
      ensures if autoClosed then dstbuf == null && Numbered(out, Blocks(copied, blksize)) else Valid()
    {
      var i, left := 0, room;
      var err := ENONE;
      ghost var all, k := Flatten(src), Capacity(room);
      assert Flatten(src[..0]) == [];
      while err == ENONE
        invariant 0 <= i <= |src| && Valid() && fresh(Repr() - old(Repr()))
        invariant err == ENONE ==> copied == Flatten(src[..i]) && Capacity(left) == k - |copied|
        invariant err != ENONE ==> copied == if |all| <= k then all else all[..k]
        decreases |src| - i, err == ENONE
      {
        if i < |src| {
          FlattenAt(src, i);
          ghost var before := copied;
          err, left := CopyBuf(src[i], ENONE, left);
          if err != ENONE { assert all[..k] == before + src[i][..k - |before|]; }
          i := i + 1;
        } else {
          assert src[..i] == src;
          err, left := CopyBuf([], ENOIODATA, left);
        }
      }
      if autoClosed { FreeDstbuf(); }
    }
  }

  /** Everything up to buffer i, buffer i itself, and everything behind it. */
  lemma FlattenAt(src: seq<seq<Byte>>, i: nat)
    requires i < |src|
    ensures Flatten(src[..i + 1]) == Flatten(src[..i]) + src[i]
    ensures Flatten(src) == Flatten(src[..i]) + src[i] + Flatten(src[i + 1..])
  {
    assert src[..i + 1] == src[..i] + [src[i]] && src == src[..i + 1] + src[i + 1..];
    FlattenAppend(src[..i], [src[i]]);
    FlattenAppend(src[..i + 1], src[i + 1..]);
    assert Flatten([src[i]]) == src[i] + Flatten([]);
  }
}
