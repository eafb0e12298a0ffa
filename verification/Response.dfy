/**
 The response buffer that collects what one server sends. The default allocator
 frees the old block when it cannot grow it, and the buffer goes on pointing at it.
 */
module Response {
  import opened Wrappers
  import opened Words
  import opened Memory

  /** struct data_reader: the bytes received so far, with room for a NUL behind them. */
  class DataReader {
    var buf: array?<u8>
    var buflen: nat
    ghost var dangling: bool  // buf points at a block that has been given back

    ghost predicate Valid()
      reads this
    {
      !dangling && (buf == null ==> buflen == 0) && (buf != null ==> buflen < buf.Length)
    }

    ghost function Contents(): seq<u8>
      requires Valid()
      reads this, buf
    {
      if buf == null then [] else buf[..buflen]
    }

    constructor ()
      ensures Valid() && Contents() == [] && buf == null
    {
      buf, buflen, dangling := null, 0, false;
    }

    /** g_allocator.realloc as default_realloc does it: on failure the old block is freed. */
    method Grow(size: nat, reallocOk: bool) returns (grown: array?<u8>)
      requires Valid() && buf != null && size >= buflen
      modifies this`dangling
      ensures dangling == !reallocOk && (grown != null <==> reallocOk)
      ensures reallocOk ==> fresh(grown) && grown.Length == size && grown[..buflen] == buf[..buflen]
    {
      if !reallocOk {
        dangling := true;
        return null;
      }
      var block := new u8[size];
      CopyInto(block, 0, buf[..buflen]);
      return block;
    }

    /** _write_servers_response; reallocOk is whether the buffer can be grown. Returns the number of bytes handled. */
    method Write(data: seq<u8>, reallocOk: bool) returns (handled: nat)
      requires Valid()
      modifies this, buf
      ensures old(buflen) == 0 || reallocOk ==> Valid() && handled == |data| && buf != null && fresh(buf)
      ensures old(buflen) == 0 || reallocOk ==> Contents() == old(Contents()) + data
      ensures !(old(buflen) == 0 || reallocOk) ==>
                handled == 0 && dangling && buf == old(buf) && buf != null && buflen == old(buflen)
    {
      var total := |data|;
      if buflen == 0 {
        buf := new u8[total + 1];
        CopyInto(buf, 0, data);
      } else {
        var grown := Grow(buflen + total + 1, reallocOk);
        if grown == null {
          return 0;
        }
        buf := grown;
        CopyInto(buf, buflen, data);
      }
      buflen := buflen + total;
      assert buf[..buflen] == old(Contents()) + data;
      return total;
    }

    /** data_reader_free: the block is freed whenever the pointer is set, so for the second time if it is dangling. */
    method Release() returns (ghost twice: bool)
      modifies this
      ensures twice <==> old(buf) != null && old(dangling)
      ensures buf == null && !dangling
    {
      twice := false;
      if buf != null {
        twice := dangling;
      }
      buf, buflen, dangling := null, 0, false;
    }
  }

  // ---------- one transfer ----------

  /** Piece i needs a larger buffer, and there is no memory for it. */
  predicate GrowthFails(pieces: seq<seq<u8>>, oks: seq<bool>, i: nat)
  {
    i < |pieces| && i < |oks| && Concat(pieces[..i]) != [] && !oks[i]
  }

  ghost predicate SomeGrowthFails(pieces: seq<seq<u8>>, oks: seq<bool>)
  {
    exists i: nat :: GrowthFails(pieces, oks, i)
  }

  lemma NothingSent(pieces: seq<seq<u8>>)
    ensures Concat(pieces[..0]) == []
  {
  }

  /**
   Everything one server sends, collected by the callback until a growth fails. oks[i] is whether the
   buffer can be grown for piece i.
   */
  method Collect(pieces: seq<seq<u8>>, oks: seq<bool>) returns (dr: DataReader, failed: bool)
    requires |oks| == |pieces|
    ensures fresh(dr) && (dr.buf != null ==> fresh(dr.buf))
    ensures failed <==> SomeGrowthFails(pieces, oks)
    ensures failed ==> dr.dangling && dr.buf != null
    ensures !failed ==> dr.Valid() && dr.Contents() == Concat(pieces) && (dr.buf == null <==> pieces == [])
  {
    hide Concat;
    dr := new DataReader();
    NothingSent(pieces);
    for i := 0 to |pieces|
      invariant dr.Valid() && fresh(dr) && (dr.buf != null ==> fresh(dr.buf))
      invariant i > 0 <==> dr.buf != null
      invariant dr.Contents() == Concat(pieces[..i])
      invariant forall j | 0 <= j < i :: !GrowthFails(pieces, oks, j)
    {
      ConcatStep(pieces, i);
      var needed := dr.buflen > 0;
      assert needed <==> Concat(pieces[..i]) != [];
      var handled := dr.Write(pieces[i], oks[i]);
      if needed && !oks[i] {
        assert GrowthFails(pieces, oks, i);
        return dr, true;
      }
    }
    assert pieces[..|pieces|] == pieces;
    failed := false;
  }

  /** A transfer and the release of its buffer: the block is freed twice exactly when a growth failed. */
  method CollectAndRelease(pieces: seq<seq<u8>>, oks: seq<bool>) returns (failed: bool, ghost twice: bool)
    requires |oks| == |pieces|
    ensures failed <==> SomeGrowthFails(pieces, oks)
    ensures twice <==> SomeGrowthFails(pieces, oks)
  {
    var dr;
    dr, failed := Collect(pieces, oks);
    twice := dr.Release();
  }

  /** With memory enough, the body; without a piece there is no buffer. */
  method Receive(pieces: seq<seq<u8>>) returns (body: Option<seq<u8>>)
    ensures body == if pieces == [] then None else Some(Concat(pieces))
  {
    var dr, failed := Collect(pieces, seq(|pieces|, _ => true));
    body := if dr.buf == null then None else Some(dr.buf[..dr.buflen]);
  }
}
