/** Byte buffers that are filled piece by piece (util/utils.go). */
module Buffers {
  import opened ByteStrings

  /** copy(a[at:at+len(b)], b) */
  method Put(a: array<byte>, at: nat, b: Bytes)
    requires at + |b| <= a.Length
    modifies a
    ensures a[..] == old(a[..])[..at] + b + old(a[..])[at + |b|..]
  {
    for i := 0 to |b|
      invariant forall k :: 0 <= k < a.Length ==> a[k] == if at <= k < at + i then b[k - at] else old(a[k])
    {
      a[at + i] := b[i];
    }
  }

  lemma ConcatSnoc(s: seq<Bytes>, b: Bytes)
    ensures Concat(s + [b]) == Concat(s) + b
  {
    ConcatAppend(s, [b]);
    assert Concat([b]) == b + Concat([b][1..]) == b;
  }

  /** The buffer after pieces are put into it one after the other from position count on; a piece
      that is empty or does not fit is passed over. */
  function Copied(buf: Bytes, count: nat, src: seq<Bytes>): (r: Bytes)
    requires count <= |buf|
    ensures |r| == |buf|
    decreases |src|
  {
    if src == [] then buf
    else
      var d := src[0];
      if |d| == 0 || |d| + count > |buf| then Copied(buf, count, src[1..])
      else Copied(buf[..count] + d + buf[count + |d|..], count + |d|, src[1..])
  }

  lemma ConcatHead(s: seq<Bytes>)
    ensures Concat(s) == if s == [] then [] else s[0] + Concat(s[1..])
  {
  }

  /** When all fit, that is their concatenation, and what stood behind it. */
  lemma {:induction false} CopiedFits(buf: Bytes, count: nat, src: seq<Bytes>)
    requires count + |Concat(src)| <= |buf|
    ensures Copied(buf, count, src) == buf[..count] + Concat(src) + buf[count + |Concat(src)|..]
    decreases |src|
  {
    hide Concat;
    ConcatHead(src);
    if src == [] {
      assert buf == buf[..count] + [] + buf[count..];
    } else if |src[0]| == 0 {
      CopiedFits(buf, count, src[1..]);
    } else {
      var d := src[0];
      var buf' := buf[..count] + d + buf[count + |d|..];
      CopiedFits(buf', count + |d|, src[1..]);
      assert buf'[..count + |d|] == buf[..count] + d;
      assert buf'[count + |Concat(src)|..] == buf[count + |Concat(src)|..];
    }
  }

  /** Those pieces that are put in: all that still fit when it is their turn. */
  function Fitting(room: int, src: seq<Bytes>): seq<Bytes> {
    if src == [] then []
    else if |src[0]| <= room then [src[0]] + Fitting(room - |src[0]|, src[1..])
    else Fitting(room, src[1..])
  }

  /** In general it is the concatenation of those, and what stood behind it. */
  lemma {:induction false} CopiedIs(buf: Bytes, count: nat, src: seq<Bytes>)
    requires count <= |buf|
    ensures var pieces := Concat(Fitting(|buf| - count, src));
            && count + |pieces| <= |buf|
            && Copied(buf, count, src) == buf[..count] + pieces + buf[count + |pieces|..]
    decreases |src|
  {
    hide Concat;
    if src == [] {
      ConcatHead(src);
      assert buf == buf[..count] + [] + buf[count..];
    } else {
      var d, rest := src[0], src[1..];
      if |d| + count > |buf| {
        CopiedIs(buf, count, rest);
      } else {
        var more := Fitting(|buf| - count - |d|, rest);
        assert ([d] + more)[1..] == more;
        ConcatHead([d] + more);
        var buf' := buf[..count] + d + buf[count + |d|..];
        if |d| == 0 {
          assert buf' == buf;
        }
        CopiedIs(buf', count + |d|, rest);
        assert buf'[..count + |d|] == buf[..count] + d;
        assert buf'[count + |d| + |Concat(more)|..] == buf[count + |d| + |Concat(more)|..];
      }
    }
  }

  /** CopyData */
  method CopyData(target: array<byte>, src: seq<Bytes>)
    modifies target
    ensures target[..] == Copied(old(target[..]), 0, src)
    ensures |Concat(src)| <= target.Length ==>
              target[..] == Concat(src) + old(target[..])[|Concat(src)|..]
  {
    var count := 0;
    for i := 0 to |src|
      invariant 0 <= count <= target.Length
      invariant Copied(target[..], count, src[i..]) == Copied(old(target[..]), 0, src)
    {
      var d := src[i];
      assert src[i..][0] == d && src[i..][1..] == src[i + 1..];
      if |d| == 0 || |d| + count > target.Length {
        continue;
      }
      count := count + |d|;
      Put(target, count - |d|, d);
    }
    if |Concat(src)| <= target.Length {
      CopiedFits(old(target[..]), 0, src);
    }
  }
}
