/** The fixed-size write buffers and the routine that spreads bytes over them. */
module WriteBuffer {
  import opened Arith
  import opened Bytes
  import opened CacheRecord
  import opened FileSpec

  class CacheWriteBuffer {
    const data: array<byte>
    var pos: nat

    ghost predicate Valid()
      reads this
    {
      pos <= data.Length
    }

    ghost function Content(): seq<byte>
      requires Valid()
      reads this, data
    {
      data[..pos]
    }

    constructor (size: nat)
      ensures Valid() && fresh(data) && data.Length == size
      ensures Content() == []
    {
      data := new byte[size](_ => 0);
      pos := 0;
    }

    lemma ContentSlice(off: nat, n: nat)
      requires Valid() && off + n <= pos
      ensures Content()[off..off + n] == data[off..off + n]
    {
    }

    function Free(): nat
      requires Valid()
      reads this
    {
      data.Length - pos
    }

    function Used(): nat
      reads this
    {
      pos
    }

    method Append(src: seq<byte>)
      requires Valid() && |src| <= Free()
      modifies this`pos, data
      ensures Valid() && Content() == old(Content()) + src
    {
      forall i | 0 <= i < |src| {
        data[pos + i] := src[i];
      }
      pos := pos + |src|;
      assert data[..pos] == old(data[..pos]) + src;
    }
  }

  ghost function Arrays(bufs: seq<CacheWriteBuffer>): set<array<byte>> {
    set b | b in bufs :: b.data
  }

  /** The objects behind a vector of buffers. */
  ghost function Footprint(bufs: seq<CacheWriteBuffer>): set<object> {
    var heads: set<object> := set b | b in bufs;
    var arrays: set<object> := Arrays(bufs);
    heads + arrays
  }

  lemma FootprintConcat(a: seq<CacheWriteBuffer>, b: seq<CacheWriteBuffer>)
    ensures Footprint(a + b) == Footprint(a) + Footprint(b)
  {
  }

  ghost predicate Distinct(bufs: seq<CacheWriteBuffer>) {
    forall i, j :: 0 <= i < j < |bufs| ==> bufs[i] != bufs[j] && bufs[i].data != bufs[j].data
  }

  /** The buffers, each of w bytes, hold the stream piece by piece. */
  ghost predicate Hold(bufs: seq<CacheWriteBuffer>, w: nat, stream: seq<byte>)
    reads Footprint(bufs)
  {
    && Distinct(bufs)
    && |stream| <= |bufs| * w
    && (forall i :: 0 <= i < |bufs| ==> bufs[i].data.Length == w && bufs[i].Valid()
                                        && bufs[i].Content() == Segment(stream, w, i))
  }

  /** More bytes at the end of the stream, all before b, show in the piece that it ends in and in no other. */
  lemma PieceExtend(stream: seq<byte>, more: seq<byte>, a: nat, b: nat, lo: nat, hi: nat)
    requires a <= |stream| < b && |stream| + |more| <= b
    requires lo < hi && ((lo == a && hi == b) || hi <= a || b <= lo)
    ensures Piece(stream + more, lo, hi) == if lo == a then Piece(stream, lo, hi) + more else Piece(stream, lo, hi)
    ensures lo == a ==> |Piece(stream, lo, hi)| == |stream| - a
  {
  }

  /** Extending the stream inside buffer k leaves every other buffer's piece alone. */
  lemma SegmentExtend(stream: seq<byte>, piece: seq<byte>, w: nat, k: nat, i: nat)
    requires w > 0 && k == Full(|stream|, w) && |stream| + |piece| <= (k + 1) * w
    ensures Segment(stream + piece, w, i) == if i == k then Segment(stream, w, i) + piece else Segment(stream, w, i)
    ensures |Segment(stream, w, k)| == |stream| - k * w == Rem(|stream|, w)
  {
    hide Full, Rem, Piece;
    var n := |stream|;
    DivBounds(n, w);
    MulSucc(k, w);
    MulSucc(i, w);
    if i < k {
      MulGap(i, k, w);
    } else if i > k {
      MulGap(k, i, w);
    }
    PieceExtend(stream, piece, k * w, (k + 1) * w, i * w, (i + 1) * w);
    PieceExtend(stream, piece, k * w, (k + 1) * w, k * w, (k + 1) * w);
  }

  /** A fresh empty buffer at the end changes nothing. */
  lemma HoldFresh(bufs: seq<CacheWriteBuffer>, w: nat, stream: seq<byte>, buf: CacheWriteBuffer)
    requires w > 0 && Hold(bufs, w, stream)
    requires buf.Valid() && buf.Content() == [] && buf.data.Length == w
    requires buf !in bufs && buf.data !in Arrays(bufs)
    ensures Hold(bufs + [buf], w, stream)
  {
    MulSucc(|bufs|, w);
    assert Segment(stream, w, |bufs|) == [];
    hide Segment;
    var all := bufs + [buf];
    assert all[|bufs|] == buf;
    assert forall i :: 0 <= i < |bufs| ==> all[i] == bufs[i] && all[i].data in Arrays(bufs);
  }

  /** The free space of the first unfilled buffer. */
  lemma FreeOfHead(bufs: seq<CacheWriteBuffer>, w: nat, stream: seq<byte>, k: nat)
    requires w > 0 && Hold(bufs, w, stream) && k == Full(|stream|, w) < |bufs|
    ensures bufs[k].Valid() && bufs[k].Free() == w - Rem(|stream|, w)
    ensures |stream| + bufs[k].Free() == (k + 1) * w <= |bufs| * w
  {
    hide Full, Rem;
    DivBounds(|stream|, w);
    MulSucc(k, w);
    MulMono(k + 1, |bufs|, w);
    SegmentExtend(stream, [], w, k, k);
  }

  /** Put a piece that fits into the first unfilled buffer. */
  method FillBuffer(bufs: seq<CacheWriteBuffer>, w: nat, k: nat, piece: seq<byte>, ghost stream: seq<byte>)
    requires w > 0 && Hold(bufs, w, stream) && k == Full(|stream|, w) < |bufs|
    requires |piece| <= bufs[k].Free()
    modifies Footprint(bufs)
    ensures Hold(bufs, w, stream + piece)
    ensures bufs[k].Free() == old(bufs[k].Free()) - |piece|
  {
    FreeOfHead(bufs, w, stream, k);
    forall i | 0 <= i < |bufs|
      ensures Segment(stream + piece, w, i) == if i == k then Segment(stream, w, i) + piece else Segment(stream, w, i)
    {
      SegmentExtend(stream, piece, w, k, i);
    }
    hide Segment;
    bufs[k].Append(piece);
    assert forall i :: 0 <= i < |bufs| && i != k ==> bufs[i].Content() == old(bufs[i].Content());
  }

  /** Where the write position stands after a piece went into buffer k. */
  lemma HeadAfter(n: nat, m: nat, w: nat, k: nat)
    requires w > 0 && k == Full(n, w) && n + m <= (k + 1) * w
    ensures Full(n + m, w) == if n + m == (k + 1) * w then k + 1 else k
  {
    hide Full, Rem;
    DivBounds(n, w);
    MulSucc(k, w);
    if n + m == (k + 1) * w {
      DivUnique(n + m, w, k + 1);
    } else {
      DivUnique(n + m, w, k);
    }
  }

  /** CacheRecord::Serialize: header, key and value, each spread over the buffers. */
  method SerializeInto(bufs: seq<CacheWriteBuffer>, w: nat, woff: nat, r: Record, ghost stream: seq<byte>)
    returns (ok: bool, woff': nat)
    requires w > 0 && Hold(bufs, w, stream) && woff == Full(|stream|, w)
    modifies Footprint(bufs)
    ensures ok <==> |stream| + |Serialize(r)| <= |bufs| * w
    ensures ok ==> Hold(bufs, w, stream + Serialize(r)) && woff' == Full(|stream + Serialize(r)|, w)
  {
    hide Hold, HeaderBytes, Full;
    ghost var h := HeaderBytes(r.hdr);
    assert h[..|h|] == h && r.key[..|r.key|] == r.key && r.val[..|r.val|] == r.val;
    ok, woff' := AppendPiece(bufs, w, woff, HeaderBytes(r.hdr), stream);
    if ok {
      ok, woff' := AppendPiece(bufs, w, woff', r.key, stream + h);
    }
    if ok {
      ok, woff' := AppendPiece(bufs, w, woff', r.val, stream + h + r.key);
      assert stream + h + r.key + r.val == stream + Serialize(r);
    }
  }

  lemma HoldBound(bufs: seq<CacheWriteBuffer>, w: nat, stream: seq<byte>, k: nat)
    requires w > 0 && Hold(bufs, w, stream) && k == Full(|stream|, w)
    ensures |stream| <= |bufs| * w
    ensures k >= |bufs| ==> |stream| == |bufs| * w
  {
    hide Full, Rem;
    DivBounds(|stream|, w);
    MulGap(k, |bufs|, w);
    if k >= |bufs| {
      MulMono(|bufs|, k, w);
    }
  }

  /** CacheRecord::Append: copy data into the buffers from index woff on. */
  method AppendPiece(bufs: seq<CacheWriteBuffer>, w: nat, woff: nat, data: seq<byte>, ghost stream: seq<byte>)
    returns (ok: bool, woff': nat)
    requires w > 0 && Hold(bufs, w, stream) && woff == Full(|stream|, w)
    modifies Footprint(bufs)
    ensures ok <==> |stream| + |data| <= |bufs| * w
    ensures var room := Min(|data|, |bufs| * w - |stream|);
      Hold(bufs, w, stream + data[..room]) && woff' == Full(|stream| + room, w)
  {
    hide Segment, Hold, Full;
    woff' := woff;
    var p := 0;
    assert stream + data[..p] == stream;
    while p < |data| && woff' < |bufs|
      invariant p <= |data|
      invariant woff' == Full(|stream| + p, w)
      invariant Hold(bufs, w, stream + data[..p])
    {
      ghost var cur := stream + data[..p];
      FreeOfHead(bufs, w, cur, woff');
      var free := bufs[woff'].Free();
      var n := if |data| - p <= free then |data| - p else free;
      HeadAfter(|cur|, n, w, woff');
      FillBuffer(bufs, w, woff', data[p..p + n], cur);
      p := p + n;
      assert cur + data[p - n..p] == stream + data[..p];
      if bufs[woff'].Free() == 0 {
        woff' := woff' + 1;
      }
    }
    ok := p == |data|;
    HoldBound(bufs, w, stream + data[..p], woff');
  }

  /** The counting loop of ExpandBuffer: free space from buffer woff on, stopping once size fits. */
  method CountFree(bufs: seq<CacheWriteBuffer>, w: nat, woff: nat, size: nat, ghost stream: seq<byte>)
    returns (free: nat, enough: bool)
    requires w > 0 && size > 0 && Hold(bufs, w, stream)
    requires woff == Full(|stream|, w) && |bufs| == NumBufs(|stream|, w)
    ensures free == |bufs| * w - |stream| && (enough <==> size <= free)
  {
    NumBufsBounds(|stream|, w);
    DivBounds(|stream|, w);
    assert woff == |bufs| ==> |bufs| * w == |stream|;
    hide Segment, Hold, NumBufs, Full;
    free := 0;
    var i := woff;
    while i < |bufs|
      invariant woff <= i <= |bufs|
      invariant free == if i == woff then 0 else |bufs| * w - |stream|
      invariant size > free
    {
      FreeOfHead(bufs, w, stream, i);
      free := free + bufs[i].Free();
      if size <= free {
        return free, true;
      }
      i := i + 1;
    }
    enough := false;
  }

  /** The allocation loop of ExpandBuffer: push empty buffers until size bytes fit. */
  method GrowBuffers(bufs: seq<CacheWriteBuffer>, w: nat, size: nat, free: nat, ghost stream: seq<byte>)
    returns (all: seq<CacheWriteBuffer>, ghost more: seq<CacheWriteBuffer>)
    requires w > 0 && Hold(bufs, w, stream)
    requires free == |bufs| * w - |stream| < size
    ensures Hold(all, w, stream) && |all| == NumBufs(|stream| + size, w)
    ensures all == bufs + more && fresh(Footprint(more))
  {
    hide Segment, Hold;
    all, more := bufs, [];
    assert all == bufs + more;
    var room := free;
    while room < size
      invariant room == |all| * w - |stream|
      invariant room < size + w
      invariant Hold(all, w, stream)
      invariant all == bufs + more && fresh(Footprint(more))
      decreases size - room
    {
      var buf := new CacheWriteBuffer(w);
      FootprintConcat(bufs, more);
      FootprintConcat(more, [buf]);
      HoldFresh(all, w, stream, buf);
      MulSucc(|all|, w);
      room := room + buf.Free();
      all, more := all + [buf], more + [buf];
    }
    CoverUnique(|stream| + size, w, |all|);
  }

  /** Bytes from position p on, as far as buffer p / w holds them. */
  lemma SegmentFrom(stream: seq<byte>, w: nat, p: nat, m: nat)
    requires w > 0 && p + m <= |stream| && Rem(p, w) + m <= w
    ensures Rem(p, w) + m <= |Segment(stream, w, Full(p, w))|
    ensures Segment(stream, w, Full(p, w))[Rem(p, w)..Rem(p, w) + m] == stream[p..p + m]
  {
    hide Full, Rem, Piece;
    DivBounds(p, w);
    MulSucc(Full(p, w), w);
    PieceFrom(stream, Full(p, w) * w, (Full(p, w) + 1) * w, p, m);
  }

  lemma PieceFrom(stream: seq<byte>, a: nat, b: nat, p: nat, m: nat)
    requires a <= p && p + m <= b && p + m <= |stream|
    ensures p - a + m <= |Piece(stream, a, b)|
    ensures Piece(stream, a, b)[p - a..p - a + m] == stream[p..p + m]
  {
    SliceOfSlice(stream, a, Min(b, |stream|), p, p + m);
  }

  lemma SliceOfSlice(stream: seq<byte>, a: nat, b: nat, p: nat, q: nat)
    requires a <= p <= q <= b <= |stream|
    ensures stream[a..b][p - a..q - a] == stream[p..q]
  {
    var x, y := stream[a..b][p - a..q - a], stream[p..q];
    assert forall j :: 0 <= j < |x| ==> x[j] == y[j];
  }

  lemma ConcatSlices(stream: seq<byte>, a: nat, b: nat, c: nat)
    requires a <= b <= c <= |stream|
    ensures stream[a..b] + stream[b..c] == stream[a..c]
  {
  }

  /** Where p lies, how much of the stream its buffer still holds, and that the buffer exists. */
  lemma Locate(bufs: seq<CacheWriteBuffer>, w: nat, stream: seq<byte>, p: nat)
    requires w > 0 && Hold(bufs, w, stream) && p < |stream|
    ensures Full(p, w) < |bufs| && bufs[Full(p, w)].Valid() && bufs[Full(p, w)].data.Length == w
    ensures bufs[Full(p, w)].Content() == Segment(stream, w, Full(p, w))
    ensures bufs[Full(p, w)].Used() - Rem(p, w) == Min(w - Rem(p, w), |stream| - p)
  {
    hide Full, Rem;
    var k := Full(p, w);
    DivBounds(p, w);
    MulSucc(k, w);
    MulGap(k, |bufs|, w);
    if |bufs| <= k {
      MulMono(|bufs|, k, w);
    }
    assert |bufs[k].Content()| == Min((k + 1) * w, |stream|) - k * w;
    assert k * w == p - Rem(p, w) && (k + 1) * w == p - Rem(p, w) + w;
    assert bufs[k].Used() - Rem(p, w) == Min(p - Rem(p, w) + w, |stream|) - p;
  }

  /** Reading on from the end of a buffer starts the next one at offset 0. */
  lemma NextBuffer(p: nat, m: nat, w: nat)
    requires w > 0 && Rem(p, w) + m == w
    ensures Full(p + m, w) == Full(p, w) + 1 && Rem(p + m, w) == 0
  {
    hide Full, Rem;
    DivBounds(p, w);
    MulSucc(Full(p, w), w);
    DivUnique(p + m, w, Full(p, w) + 1);
  }

  /** One turn of the loop of ReadBuffer at position p = off + at of the stream: copy what buffer i
      holds from startOff on, but no more than total bytes. */
  method CopyOut(bufs: seq<CacheWriteBuffer>, w: nat, i: nat, startOff: nat, total: nat, scratch: array<byte>, at: nat,
                 ghost stream: seq<byte>, ghost off: nat)
    returns (n: nat)
    requires w > 0 && Hold(bufs, w, stream) && scratch !in Footprint(bufs)
    requires 0 < total && off + at + total <= |stream| && at + total <= scratch.Length
    requires i == Full(off + at, w) && startOff == Rem(off + at, w)
    requires i < |bufs|
    requires scratch[..at] == stream[off..off + at]
    modifies scratch
    ensures n <= total && scratch[..at + n] == stream[off..off + at + n]
    ensures n < total ==> Full(off + at + n, w) == i + 1 && Rem(off + at + n, w) == 0
    ensures n > 0
  {
    hide Segment, Hold, Full, Rem;
    ghost var p := off + at;
    Locate(bufs, w, stream, p);
    DivBounds(p, w);
    var buf := bufs[i];
    n := if total > buf.Used() - startOff then buf.Used() - startOff else total;
    SegmentFrom(stream, w, p, n);
    buf.ContentSlice(startOff, n);
    ConcatSlices(stream, off, p, p + n);
    if n < total {
      NextBuffer(p, n, w);
    }
    ghost var front := scratch[..at];
    ghost var piece := buf.data[startOff..startOff + n];
    assert piece == stream[p..p + n];
    forall j | 0 <= j < n {
      scratch[at + j] := buf.data[startOff + j];
    }
    assert scratch[..at] == front && scratch[at..at + n] == piece;
    assert scratch[..at + n] == scratch[..at] + scratch[at..at + n];
  }
}
