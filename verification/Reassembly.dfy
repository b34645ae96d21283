/**
 Putting a payload back together from fragments that carry their own offset: what the CAN and the
 radio links have in common. Any order and any repetition of the fragments gives the payload.
 */
module Reassembly {
  import opened Bytes
  import opened Crc
  import Framing

  const RX_BUFFER_SIZE: nat := Framing.PACKET_MAX_PL_LEN

  function Min(a: nat, b: nat): nat {
    if a <= b then a else b
  }

  datatype Chunk = Chunk(offset: nat, bytes: seq<Byte>)

  // ----- splitting -----

  /** Pieces of n bytes from offset i on, as long as the offset fits into one byte. */
  function FillChunks(p: seq<Byte>, i: nat, n: nat): seq<Chunk>
    requires n > 0
    decreases |p| - i
  {
    if i >= |p| || i > 255 then [] else [Chunk(i, p[i..Min(i + n, |p|)])] + FillChunks(p, i + n, n)
  }

  /** Where the first loop stops: end_a. */
  function EndA(len: nat, i: nat, n: nat): (e: nat)
    requires n > 0
    ensures e >= i && (e >= len || e > 255)
    decreases len - i
  {
    if i >= len || i > 255 then i else EndA(len, i + n, n)
  }

  /** Pieces of n bytes from offset i on. */
  function LongChunks(p: seq<Byte>, i: nat, n: nat): seq<Chunk>
    requires n > 0
    decreases |p| - i
  {
    if i >= |p| then [] else [Chunk(i, p[i..Min(i + n, |p|)])] + LongChunks(p, i + n, n)
  }

  /** Both loops: pieces of n bytes with a one-byte offset, then of m bytes with a two-byte offset. */
  function Pieces(p: seq<Byte>, n: nat, m: nat): seq<Chunk>
    requires n > 0 && m > 0
  {
    FillChunks(p, 0, n) + LongChunks(p, EndA(|p|, 0, n), m)
  }

  lemma FillStep(p: seq<Byte>, i: nat, n: nat)
    requires n > 0
    ensures i >= |p| || i > 255 ==> FillChunks(p, i, n) == [] && EndA(|p|, i, n) == i
    ensures i < |p| && i <= 255 ==>
      && FillChunks(p, i, n) == [Chunk(i, p[i..Min(i + n, |p|)])] + FillChunks(p, i + n, n)
      && EndA(|p|, i, n) == EndA(|p|, i + n, n)
  {
  }

  lemma LongStep(p: seq<Byte>, i: nat, n: nat)
    requires n > 0
    ensures i >= |p| ==> LongChunks(p, i, n) == []
    ensures i < |p| ==> LongChunks(p, i, n) == [Chunk(i, p[i..Min(i + n, |p|)])] + LongChunks(p, i + n, n)
  {
  }

  /** The fragment carries bytes of p, at their place. */
  ghost predicate Faithful(c: Chunk, p: seq<Byte>) {
    c.offset + |c.bytes| <= |p| && c.bytes == p[c.offset..c.offset + |c.bytes|]
  }

  /** Fragments in order, each starting where the one before ended, from `start` to the end of p. */
  ghost predicate Tiles(cs: seq<Chunk>, p: seq<Byte>, start: nat)
    decreases |cs|
  {
    if cs == [] then start == |p|
    else
      && cs[0].offset == start && cs[0].bytes != [] && Faithful(cs[0], p)
      && Tiles(cs[1..], p, start + |cs[0].bytes|)
  }

  lemma PieceFaithful(p: seq<Byte>, i: nat, n: nat)
    requires n > 0 && i < |p|
    ensures var c := Chunk(i, p[i..Min(i + n, |p|)]);
      Faithful(c, p) && c.bytes != [] && i + |c.bytes| == Min(i + n, |p|)
  {
  }

  lemma {:induction false} LongChunksTile(p: seq<Byte>, i: nat, n: nat)
    requires n > 0
    ensures Tiles(LongChunks(p, i, n), p, Min(i, |p|))
    decreases |p| - i
  {
    if i < |p| {
      LongChunksTile(p, i + n, n);
    }
  }

  lemma TilesCons(c: Chunk, cs: seq<Chunk>, p: seq<Byte>)
    requires c.bytes != [] && Faithful(c, p) && Tiles(cs, p, c.offset + |c.bytes|)
    ensures Tiles([c] + cs, p, c.offset)
  {
    assert ([c] + cs)[1..] == cs;
  }

  lemma {:induction false} ChunksTile(p: seq<Byte>, i: nat, n: nat, m: nat)
    requires n > 0 && m > 0
    ensures Tiles(FillChunks(p, i, n) + LongChunks(p, EndA(|p|, i, n), m), p, Min(i, |p|))
    decreases |p| - i
  {
    hide Faithful, Tiles, FillChunks, LongChunks, EndA;
    FillStep(p, i, n);
    var rest := FillChunks(p, i + n, n) + LongChunks(p, EndA(|p|, i + n, n), m);
    if i < |p| && i <= 255 {
      ChunksTile(p, i + n, n, m);
      var c := Chunk(i, p[i..Min(i + n, |p|)]);
      PieceFaithful(p, i, n);
      TilesCons(c, rest, p);
      assert FillChunks(p, i, n) + LongChunks(p, EndA(|p|, i, n), m) == [c] + rest;
    } else {
      LongChunksTile(p, i, m);
      assert FillChunks(p, i, n) + LongChunks(p, i, m) == LongChunks(p, i, m);
    }
  }

  /** No gap and no overlap, also where the two loops meet. */
  lemma PiecesTile(p: seq<Byte>, n: nat, m: nat)
    requires n > 0 && m > 0
    ensures Tiles(Pieces(p, n, m), p, 0)
  {
    ChunksTile(p, 0, n, m);
  }

  lemma {:induction false} LongChunksSize(p: seq<Byte>, i: nat, n: nat, c: Chunk)
    requires n > 0 && c in LongChunks(p, i, n)
    ensures i <= c.offset < |p| && |c.bytes| <= n
    decreases |p| - i
  {
    var rest := LongChunks(p, i + n, n);
    if c in rest {
      LongChunksSize(p, i + n, n, c);
    }
  }

  lemma {:induction false} FillChunksSize(p: seq<Byte>, i: nat, n: nat, c: Chunk)
    requires n > 0 && c in FillChunks(p, i, n)
    ensures c.offset <= 255 && c.offset < |p| && |c.bytes| <= n
    decreases |p| - i
  {
    var rest := FillChunks(p, i + n, n);
    if c in rest {
      FillChunksSize(p, i + n, n, c);
    }
  }

  /** A piece has at most n bytes if its offset fits into one byte, else at most m bytes. */
  lemma PieceSize(p: seq<Byte>, n: nat, m: nat, c: Chunk)
    requires n > 0 && m > 0 && c in Pieces(p, n, m)
    ensures c.offset < |p| && |c.bytes| <= if c.offset <= 255 then n else m
  {
    if c in FillChunks(p, 0, n) {
      FillChunksSize(p, 0, n, c);
    } else {
      LongChunksSize(p, EndA(|p|, 0, n), m, c);
    }
  }

  lemma NextMultiple(i: nat, k: nat, n: nat)
    requires k > 0
    ensures i + n + (k - 1) * n == i + k * n
    ensures i + k * n >= i + n
  {
    assert k * n == n + (k - 1) * n && (k - 1) * n >= 0;
  }

  /** Piece k of the first loop, which starts at i: there is one exactly if its offset o is reached. */
  lemma {:induction false} FillAt(p: seq<Byte>, i: nat, n: nat, k: nat, o: nat)
    requires n > 0 && o == i + k * n
    ensures k < |FillChunks(p, i, n)| <==> o < |p| && o <= 255
    ensures k < |FillChunks(p, i, n)| ==> FillChunks(p, i, n)[k] == Chunk(o, p[o..Min(o + n, |p|)])
    decreases k
  {
    hide FillChunks, Min;
    FillStep(p, i, n);
    if k > 0 {
      NextMultiple(i, k, n);
      FillAt(p, i + n, n, k - 1, o);
    }
  }

  /** Piece k of the second loop. */
  lemma {:induction false} LongAt(p: seq<Byte>, i: nat, n: nat, k: nat, o: nat)
    requires n > 0 && o == i + k * n
    ensures k < |LongChunks(p, i, n)| <==> o < |p|
    ensures k < |LongChunks(p, i, n)| ==> LongChunks(p, i, n)[k] == Chunk(o, p[o..Min(o + n, |p|)])
    decreases k
  {
    hide LongChunks, Min;
    LongStep(p, i, n);
    if k > 0 {
      NextMultiple(i, k, n);
      LongAt(p, i + n, n, k - 1, o);
    }
  }

  /** The first loop stops at the first offset above 255 that it gets to. */
  lemma {:induction false} EndAAt(p: seq<Byte>, i: nat, n: nat, k: nat)
    requires n > 0 && k > 0 && i + (k - 1) * n < |p| && i + (k - 1) * n <= 255 < i + k * n
    ensures EndA(|p|, i, n) == i + k * n
    decreases k
  {
    NextMultiple(i, k, n);
    if k > 1 {
      NextMultiple(i, k - 1, n);
      hide EndA;
      FillStep(p, i, n);
      EndAAt(p, i + n, n, k - 1);
    } else {
      FillStep(p, i, n);
      FillStep(p, i + n, n);
    }
  }

  lemma MultipleBelow(j: nat, k: nat, n: nat)
    requires j <= k
    ensures j * n <= k * n
  {
    assert k * n == j * n + (k - j) * n;
  }

  /** A payload that the first loop gets through leaves nothing to the second. */
  lemma OnlyFills(p: seq<Byte>, n: nat, m: nat, a: nat)
    requires n > 0 && m > 0 && a > 0 && |p| <= (a - 1) * n <= 255
    ensures Pieces(p, n, m) == FillChunks(p, 0, n) && |FillChunks(p, 0, n)| < a
  {
    hide FillChunks, LongChunks, EndA, Min;
    FillAt(p, 0, n, a - 1, (a - 1) * n);
    assert EndA(|p|, 0, n) >= |p|;
    LongStep(p, EndA(|p|, 0, n), m);
  }

  /** For a longer payload the first loop makes all its pieces. */
  lemma AllFills(p: seq<Byte>, n: nat, m: nat, a: nat)
    requires n > 0 && m > 0 && a > 0 && (a - 1) * n < |p| && (a - 1) * n <= 255 < a * n
    ensures Pieces(p, n, m) == FillChunks(p, 0, n) + LongChunks(p, a * n, m) && |FillChunks(p, 0, n)| == a
  {
    hide FillChunks, LongChunks, EndA, Min;
    FillAt(p, 0, n, a, a * n);
    FillAt(p, 0, n, a - 1, (a - 1) * n);
    EndAAt(p, 0, n, a);
  }

  /** Piece k of the a pieces of the first loop, at offset o: there is one exactly if o lies in the payload. */
  lemma FillPieceAt(p: seq<Byte>, n: nat, m: nat, a: nat, k: nat, o: nat)
    requires n > 0 && m > 0 && a > 0 && (a - 1) * n <= 255 < a * n && k < a && o == k * n
    ensures k < |Pieces(p, n, m)| <==> o < |p|
    ensures o < |p| ==> Pieces(p, n, m)[k] == Chunk(o, p[o..Min(o + n, |p|)])
  {
    hide FillChunks, LongChunks, EndA, Min, Pieces;
    FillAt(p, 0, n, k, o);
    MultipleBelow(k, a - 1, n);
    if (a - 1) * n < |p| {
      AllFills(p, n, m, a);
    } else {
      OnlyFills(p, n, m, a);
    }
  }

  /** Piece k of the second loop, at offset o. */
  lemma LongPieceAt(p: seq<Byte>, n: nat, m: nat, a: nat, k: nat, o: nat)
    requires n > 0 && m > 0 && a > 0 && (a - 1) * n <= 255 < a * n && o == a * n + k * m
    ensures a + k < |Pieces(p, n, m)| <==> o < |p|
    ensures o < |p| ==> Pieces(p, n, m)[a + k] == Chunk(o, p[o..Min(o + m, |p|)])
  {
    hide FillChunks, LongChunks, EndA, Min, Pieces;
    MultipleBelow(a - 1, a, n);
    MultipleBelow(0, k, m);
    LongAt(p, a * n, m, k, o);
    if (a - 1) * n < |p| {
      AllFills(p, n, m, a);
    } else {
      OnlyFills(p, n, m, a);
    }
  }

  // ----- writing fragments into the receive buffer -----

  /** memcpy of the fragment into the receive buffer. */
  function Apply(buf: seq<Byte>, c: Chunk): (r: seq<Byte>)
    requires c.offset + |c.bytes| <= |buf|
    ensures |r| == |buf|
    ensures forall k :: 0 <= k < |buf| ==>
      r[k] == if c.offset <= k < c.offset + |c.bytes| then c.bytes[k - c.offset] else buf[k]
  {
    buf[..c.offset] + c.bytes + buf[c.offset + |c.bytes|..]
  }

  function ApplyAll(buf: seq<Byte>, cs: seq<Chunk>, p: seq<Byte>): (r: seq<Byte>)
    requires |p| <= |buf| && forall c :: c in cs ==> Faithful(c, p)
    ensures |r| == |buf|
    decreases |cs|
  {
    if cs == [] then buf
    else
      assert Faithful(cs[0], p);
      ApplyAll(Apply(buf, cs[0]), cs[1..], p)
  }

  ghost predicate Covered(cs: seq<Chunk>, k: nat) {
    exists c :: c in cs && c.offset <= k < c.offset + |c.bytes|
  }

  lemma {:induction false} TilesCover(cs: seq<Chunk>, p: seq<Byte>, start: nat, k: nat)
    requires Tiles(cs, p, start) && start <= k < |p|
    ensures Covered(cs, k)
    decreases |cs|
  {
    if k < start + |cs[0].bytes| {
      assert cs[0] in cs;
    } else {
      TilesCover(cs[1..], p, start + |cs[0].bytes|, k);
      var c :| c in cs[1..] && c.offset <= k < c.offset + |c.bytes|;
      assert c in cs;
    }
  }

  lemma {:induction false} TilesFaithful(cs: seq<Chunk>, p: seq<Byte>, start: nat, c: Chunk)
    requires Tiles(cs, p, start) && c in cs
    ensures Faithful(c, p) && start <= c.offset < |p|
    decreases |cs|
  {
    if c != cs[0] {
      TilesFaithful(cs[1..], p, start + |cs[0].bytes|, c);
    }
  }

  /** Bytes once right stay right, and covered bytes become right. */
  lemma {:induction false} ApplyAllAt(buf: seq<Byte>, cs: seq<Chunk>, p: seq<Byte>, k: nat)
    requires k < |p| <= |buf| && forall c :: c in cs ==> Faithful(c, p)
    requires Covered(cs, k) || buf[k] == p[k]
    ensures ApplyAll(buf, cs, p)[k] == p[k]
    decreases |cs|
  {
    if cs != [] {
      assert Faithful(cs[0], p);
      var next := Apply(buf, cs[0]);
      if !(cs[0].offset <= k < cs[0].offset + |cs[0].bytes|) && buf[k] != p[k] {
        var c :| c in cs && c.offset <= k < c.offset + |c.bytes|;
        assert c in cs[1..];
      }
      ApplyAllAt(next, cs[1..], p, k);
    }
  }

  /**
   If the received fragments are, as a set, the fragments of a tiling of p, then whatever was in the
   buffer before, its first |p| bytes are p afterwards.
   */
  lemma Reassembled(buf: seq<Byte>, sent: seq<Chunk>, received: seq<Chunk>, p: seq<Byte>)
    requires |p| <= |buf| && Tiles(sent, p, 0)
    requires forall c :: c in received <==> c in sent
    ensures forall c :: c in received ==> Faithful(c, p) && c.offset < |p|
    ensures ApplyAll(buf, received, p)[..|p|] == p
  {
    forall c | c in received ensures Faithful(c, p) && c.offset < |p| {
      TilesFaithful(sent, p, 0, c);
    }
    var r := ApplyAll(buf, received, p);
    forall k | 0 <= k < |p| ensures r[k] == p[k] {
      TilesCover(sent, p, 0, k);
      var c :| c in sent && c.offset <= k < c.offset + |c.bytes|;
      assert c in received;
      ApplyAllAt(buf, received, p, k);
    }
  }

  // ----- the receiver -----

  /**
   What a frame or packet means to the receiver: a fragment, the end of a fragmented payload with
   its length, CRC and last bytes, a whole short payload, or nothing for the receive buffer.
   */
  datatype Message =
    | Fill(chunk: Chunk)
    | Process(toSend: bool, len: nat, crc: Word, tail: seq<Byte>)
    | Short(toSend: bool, payload: seq<Byte>)
    | Ignored

  /** A payload handed to commands_send_packet (toSend) or to commands_process_packet. */
  datatype Delivery = Delivery(toSend: bool, payload: seq<Byte>)

  /** What the message writes stays within the receive buffer. */
  predicate Fits(m: Message) {
    match m
    case Fill(c) => c.offset < RX_BUFFER_SIZE ==> c.offset + |c.bytes| <= RX_BUFFER_SIZE
    case Process(_, len, _, tail) => len <= RX_BUFFER_SIZE ==> |tail| <= len
    case _ => true
  }

  function NextBuffer(buf: seq<Byte>, m: Message): (r: seq<Byte>)
    requires |buf| == RX_BUFFER_SIZE && Fits(m)
    ensures |r| == |buf|
  {
    match m
    case Fill(c) => if c.offset < RX_BUFFER_SIZE then Apply(buf, c) else buf
    case Process(_, len, _, tail) => if len <= RX_BUFFER_SIZE then Apply(buf, Chunk(len - |tail|, tail)) else buf
    case _ => buf
  }

  /** The end of a payload is looked at after its last bytes have been copied. */
  function HandedOver(buf: seq<Byte>, m: Message): seq<Delivery>
    requires |buf| == RX_BUFFER_SIZE && Fits(m)
  {
    match m
    case Process(toSend, len, crc, _) =>
      if len <= RX_BUFFER_SIZE && Checksum(NextBuffer(buf, m)[..len]) == crc
      then [Delivery(toSend, NextBuffer(buf, m)[..len])] else []
    case Short(toSend, payload) => [Delivery(toSend, payload)]
    case _ => []
  }

  ghost predicate AllFit(ms: seq<Message>) {
    forall m :: m in ms ==> Fits(m)
  }

  function Buffers(buf: seq<Byte>, ms: seq<Message>): (r: seq<Byte>)
    requires |buf| == RX_BUFFER_SIZE && AllFit(ms)
    ensures |r| == |buf|
    decreases |ms|
  {
    if ms == [] then buf
    else
      assert ms[0] in ms;
      Buffers(NextBuffer(buf, ms[0]), ms[1..])
  }

  function AllHandedOver(buf: seq<Byte>, ms: seq<Message>): seq<Delivery>
    requires |buf| == RX_BUFFER_SIZE && AllFit(ms)
    decreases |ms|
  {
    if ms == [] then []
    else
      assert ms[0] in ms;
      HandedOver(buf, ms[0]) + AllHandedOver(NextBuffer(buf, ms[0]), ms[1..])
  }

  lemma {:induction false} RunConcat(buf: seq<Byte>, ms: seq<Message>, last: Message)
    requires |buf| == RX_BUFFER_SIZE && AllFit(ms) && Fits(last)
    ensures AllFit(ms + [last])
    ensures AllHandedOver(buf, ms + [last]) == AllHandedOver(buf, ms) + HandedOver(Buffers(buf, ms), last)
    decreases |ms|
  {
    hide NextBuffer, HandedOver, Fits;
    if ms == [] {
      assert ms + [last] == [last];
    } else {
      assert (ms + [last])[1..] == ms[1..] + [last];
      RunConcat(NextBuffer(buf, ms[0]), ms[1..], last);
    }
  }

  /** The next message of a run. */
  lemma RunOne(buf: seq<Byte>, ms: seq<Message>, i: nat)
    requires |buf| == RX_BUFFER_SIZE && AllFit(ms) && i < |ms|
    ensures Fits(ms[i]) && AllFit(ms[i..]) && AllFit(ms[i + 1..])
    ensures Buffers(buf, ms[i..]) == Buffers(NextBuffer(buf, ms[i]), ms[i + 1..])
    ensures AllHandedOver(buf, ms[i..]) == HandedOver(buf, ms[i]) + AllHandedOver(NextBuffer(buf, ms[i]), ms[i + 1..])
  {
    hide NextBuffer, HandedOver, Fits;
    assert ms[i] in ms && ms[i..][1..] == ms[i + 1..];
  }

  lemma RunNothing(buf: seq<Byte>)
    requires |buf| == RX_BUFFER_SIZE
    ensures Buffers(buf, []) == buf && AllHandedOver(buf, []) == []
  {
  }

  /** Arrivals: which of n transmissions arrive, in what order; each at least once. */
  predicate Covers(order: seq<nat>, n: nat) {
    (forall i :: 0 <= i < |order| ==> order[i] < n) && forall k :: 0 <= k < n ==> k in order
  }

  function Arrived<T>(sent: seq<T>, order: seq<nat>): (received: seq<T>)
    requires forall i :: 0 <= i < |order| ==> order[i] < |sent|
    ensures |received| == |order| && forall i :: 0 <= i < |order| ==> received[i] == sent[order[i]]
  {
    seq(|order|, i requires 0 <= i < |order| => sent[order[i]])
  }

  lemma ArrivedSet<T>(sent: seq<T>, order: seq<nat>)
    requires Covers(order, |sent|)
    ensures forall f :: f in Arrived(sent, order) <==> f in sent
  {
    var received := Arrived(sent, order);
    forall f | f in received ensures f in sent {
      var i :| 0 <= i < |received| && received[i] == f;
    }
    forall f | f in sent ensures f in received {
      var k :| 0 <= k < |sent| && sent[k] == f;
      assert k in order;
      var i :| 0 <= i < |order| && order[i] == k;
      assert received[i] == f;
    }
  }

  function Fills(cs: seq<Chunk>): (ms: seq<Message>)
    ensures |ms| == |cs| && forall i :: 0 <= i < |cs| ==> ms[i] == Fill(cs[i])
  {
    seq(|cs|, i requires 0 <= i < |cs| => Fill(cs[i]))
  }

  function ChunksOf(ms: seq<Message>): (cs: seq<Chunk>)
    requires forall m :: m in ms ==> m.Fill?
    ensures |cs| == |ms| && forall i :: 0 <= i < |ms| ==> cs[i] == ms[i].chunk
  {
    seq(|ms|, i requires 0 <= i < |ms| => assert ms[i] in ms; ms[i].chunk)
  }

  /** Fragments hand nothing over, and change the buffer as they say. */
  lemma {:induction false} FillsApply(buf: seq<Byte>, cs: seq<Chunk>, p: seq<Byte>)
    requires |p| <= |buf| == RX_BUFFER_SIZE
    requires forall c :: c in cs ==> Faithful(c, p) && c.offset < |p|
    ensures AllFit(Fills(cs)) && AllHandedOver(buf, Fills(cs)) == []
    ensures Buffers(buf, Fills(cs)) == ApplyAll(buf, cs, p)
    decreases |cs|
  {
    forall m | m in Fills(cs) ensures Fits(m) {
      assert m.chunk in cs;
    }
    if cs != [] {
      assert cs[0] in cs;
      FillsApply(NextBuffer(buf, Fill(cs[0])), cs[1..], p);
      assert Fills(cs)[1..] == Fills(cs[1..]);
    }
  }

  lemma ProcessHandsOver(buf: seq<Byte>, p: seq<Byte>, n: nat, toSend: bool)
    requires n <= |p| <= |buf| == RX_BUFFER_SIZE && buf[..n] == p[..n]
    ensures var last := Process(toSend, |p|, Checksum(p), p[n..]);
      Fits(last) && HandedOver(buf, last) == [Delivery(toSend, p)]
  {
    hide Checksum;
    var r := Apply(buf, Chunk(n, p[n..]));
    forall k | 0 <= k < |p| ensures r[k] == p[k] {
      if k < n {
        assert buf[..n][k] == p[..n][k];
      } else {
        assert p[n..][k - n] == p[k];
      }
    }
    assert r[..|p|] == p;
  }

  /**
   Reassembly: whatever the receive buffer holds, if the fragments of the first n bytes of a payload
   arrive in any order and any number of times each (at least once), and then the final message with
   the rest, exactly that payload is handed over, exactly once.
   */
  lemma AnyOrder(buf: seq<Byte>, sent: seq<Chunk>, received: seq<Message>, p: seq<Byte>, n: nat, toSend: bool)
    requires n <= |p| <= |buf| == RX_BUFFER_SIZE && Tiles(sent, p[..n], 0)
    requires forall m :: m in received <==> m in Fills(sent)
    ensures var all := received + [Process(toSend, |p|, Checksum(p), p[n..])];
      AllFit(all) && AllHandedOver(buf, all) == [Delivery(toSend, p)]
  {
    hide Checksum, Tiles, Fits, HandedOver, NextBuffer;
    var cs, q := ChunksOf(received), p[..n];
    forall i | 0 <= i < |received| ensures received[i] == Fills(cs)[i] {
      assert received[i] in Fills(sent);
    }
    assert received == Fills(cs);
    SameChunks(sent, cs);
    Reassembled(buf, sent, cs, q);
    FillsApply(buf, cs, q);
    var b := Buffers(buf, received);
    assert b[..n] == q;
    ProcessHandsOver(b, p, n, toSend);
    RunConcat(buf, received, Process(toSend, |p|, Checksum(p), p[n..]));
  }

  lemma SameChunks(sent: seq<Chunk>, cs: seq<Chunk>)
    requires forall m :: m in Fills(cs) <==> m in Fills(sent)
    ensures forall c :: c in cs <==> c in sent
  {
    FillsContain(sent);
    FillsContain(cs);
    forall c: Chunk ensures c in cs <==> c in sent {
      assert Fill(c) in Fills(cs) <==> Fill(c) in Fills(sent);
    }
  }

  lemma FillsContain(cs: seq<Chunk>)
    ensures forall c :: c in cs <==> Fill(c) in Fills(cs)
  {
    forall c | c in cs ensures Fill(c) in Fills(cs) {
      var i :| 0 <= i < |cs| && cs[i] == c;
      assert Fills(cs)[i] == Fill(c);
    }
  }

  /**
   If the frames f_i decode to the fragments c_i, then frames that are, as a set, the f_i decode to
   messages that are, as a set, the fragments.
   */
  lemma DecodeSet<F>(cs: seq<Chunk>, sent: seq<F>, received: seq<F>, ms: seq<Message>, decode: F -> Message)
    requires |sent| == |cs| && forall i :: 0 <= i < |cs| ==> decode(sent[i]) == Fill(cs[i])
    requires forall f :: f in received <==> f in sent
    requires |ms| == |received| && forall i :: 0 <= i < |ms| ==> ms[i] == decode(received[i])
    ensures forall m :: m in ms <==> m in Fills(cs)
  {
    forall m | m in ms ensures m in Fills(cs) {
      var i :| 0 <= i < |ms| && ms[i] == m;
      assert received[i] in received;
      var j :| 0 <= j < |cs| && sent[j] == received[i];
      assert Fills(cs)[j] == m;
    }
    forall m | m in Fills(cs) ensures m in ms {
      var j :| 0 <= j < |cs| && Fills(cs)[j] == m;
      assert sent[j] in received;
      var i :| 0 <= i < |received| && received[i] == sent[j];
      assert ms[i] == m;
    }
  }

  /** Copying nothing changes nothing. */
  lemma ApplyNothing(buf: seq<Byte>, at: nat)
    requires at <= |buf|
    ensures Apply(buf, Chunk(at, [])) == buf
  {
  }

  /** The bytes that a sender copies for the piece at offset i. */
  lemma PieceOf(p: seq<Byte>, i: nat, sendLen: nat, n: nat)
    requires i < |p| && n > 0 && sendLen == if i + n > |p| then |p| - i else n
    ensures i + sendLen == Min(i + n, |p|)
  {
  }

  /** memcpy into the receive buffer. */
  method CopyIn(rxBuffer: array<Byte>, at: nat, bytes: seq<Byte>)
    requires at + |bytes| <= rxBuffer.Length
    modifies rxBuffer
    ensures rxBuffer[..] == Apply(old(rxBuffer[..]), Chunk(at, bytes))
  {
    forall k | 0 <= k < |bytes| {
      rxBuffer[at + k] := bytes[k];
    }
  }
}
