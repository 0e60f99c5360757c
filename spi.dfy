/** The SPI transport the driver talks through, reduced to what the driver
    sees of it: each exchange sends a whole frame and overwrites the same
    buffer with the bytes the chip clocks back. The chip's side is a script
    of replies, one per exchange, fixed in advance. */
module Spi {
  import opened Protocol

  /** The bytes received for a frame of `len` bytes when the chip answers
      with `reply`: the reply cut to the frame's length, or padded with
      zero bytes when it is shorter. */
  function Fit(reply: seq<Byte>, len: nat): (r: seq<Byte>)
    ensures |r| == len
    ensures forall i :: 0 <= i < len ==> r[i] == if i < |reply| then reply[i] else 0
  {
    if len <= |reply| then reply[..len] else reply + seq(len - |reply|, _ => 0)
  }

  /** The replies left after `k` exchanges; an exhausted script stays empty. */
  function Drop(replies: seq<seq<Byte>>, k: nat): (r: seq<seq<Byte>>)
  {
    if k <= |replies| then replies[k..] else []
  }

  lemma DropDrop(replies: seq<seq<Byte>>, j: nat, k: nat)
    ensures Drop(Drop(replies, j), k) == Drop(replies, j + k)
  {
  }

  /** What the next exchange of a `len`-byte frame receives; once the
      script is exhausted the chip answers with zero bytes. */
  function Reply(replies: seq<seq<Byte>>, len: nat): (r: seq<Byte>)
    ensures |r| == len
  {
    Fit(if replies == [] then [] else replies[0], len)
  }

  /** What a frame is known to hold: its leading bytes and its length.
      Bytes past the prefix are whatever the driver left in its buffer,
      which the chip ignores. */
  datatype Shape = Shape(prefix: seq<Byte>, len: nat)

  /** The shape of a frame whose every byte is set. */
  function Exact(f: seq<Byte>): (s: Shape)
  {
    Shape(f, |f|)
  }

  predicate Fits(f: seq<Byte>, s: Shape)
  {
    |f| == s.len && |s.prefix| <= |f| && f[..|s.prefix|] == s.prefix
  }

  /** `after` is the trace `before` followed by one frame of each shape. */
  predicate Extends(before: seq<seq<Byte>>, after: seq<seq<Byte>>, shapes: seq<Shape>)
  {
    && |after| == |before| + |shapes|
    && after[..|before|] == before
    && forall i :: 0 <= i < |shapes| ==> Fits(after[|before| + i], shapes[i])
  }

  /** A trace extended by a single frame ends with a frame of that shape. */
  lemma ExtendsSingle(before: seq<seq<Byte>>, after: seq<seq<Byte>>, s: Shape)
    requires Extends(before, after, [s])
    ensures after == before + [after[|before|]] && Fits(after[|before|], s)
  {
    assert Fits(after[|before| + 0], [s][0]);
  }

  /** Frames sent one after another: the shapes concatenate in order. */
  lemma ExtendsTrans(a: seq<seq<Byte>>, b: seq<seq<Byte>>, c: seq<seq<Byte>>, s1: seq<Shape>, s2: seq<Shape>)
    requires Extends(a, b, s1) && Extends(b, c, s2)
    ensures Extends(a, c, s1 + s2)
  {
    assert c[..|a|] == c[..|b|][..|a|];
    forall i | 0 <= i < |s1 + s2|
      ensures Fits(c[|a| + i], (s1 + s2)[i])
    {
      if i < |s1| {
        assert c[|a| + i] == c[..|b|][|a| + i];
      } else {
        assert c[|a| + i] == c[|b| + (i - |s1|)];
      }
    }
  }

  /** One SPI channel: the frames sent on it so far, oldest first, and the
      replies the chip has yet to give. */
  class Bus {
    var sent: seq<seq<Byte>>
    var replies: seq<seq<Byte>>

    constructor (replies: seq<seq<Byte>>)
      ensures sent == [] && this.replies == replies
    {
      sent := [];
      this.replies := replies;
    }

    /** One full-duplex exchange: `data` is transmitted and overwritten in
        place with the bytes received; the result is the number of bytes
        transferred, always the whole frame. */
    method Transfer(data: array<Byte>) returns (rc: int)
      modifies this, data
      ensures sent == old(sent) + [old(data[..])]
      ensures replies == Drop(old(replies), 1)
      ensures data[..] == Reply(old(replies), data.Length)
      ensures rc == data.Length
    {
      sent := sent + [data[..]];
      var received := Reply(replies, data.Length);
      forall i | 0 <= i < data.Length {
        data[i] := received[i];
      }
      replies := Drop(replies, 1);
      rc := data.Length;
    }
  }
}
