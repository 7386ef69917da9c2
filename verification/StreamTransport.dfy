/** The receive side of StreamTransport: arbitrary chunks of a byte stream become TLV elements. */
module StreamTransport {
  import opened Basics
  import opened Tlv
  import opened LpPackets

  // ---- what a stream of octets means ----

  /** The complete elements at the start of a stream, in order. */
  function Frames(bs: Bytes): seq<Bytes>
    decreases |bs|
  {
    match ReadElement(bs)
    case None => []
    case Some(e) => [bs[..Size(e)]] + Frames(bs[Size(e)..])
  }

  /** What follows them. */
  function Rest(bs: Bytes): Bytes
    decreases |bs|
  {
    match ReadElement(bs)
    case None => bs
    case Some(e) => Rest(bs[Size(e)..])
  }

  lemma {:induction false} RestUnreadable(bs: Bytes)
    ensures ReadElement(Rest(bs)).None? && |Rest(bs)| <= |bs|
    decreases |bs|
  {
    if ReadElement(bs).Some? {
      RestUnreadable(bs[Size(ReadElement(bs).value)..]);
    }
  }

  /** Elements found so far stay, and parsing can go on from what follows them. */
  lemma {:induction false} FramesExtend(bs: Bytes, more: Bytes)
    ensures Frames(bs + more) == Frames(bs) + Frames(Rest(bs) + more)
    ensures Rest(bs + more) == Rest(Rest(bs) + more)
    decreases |bs|
  {
    hide ReadElement;
    match ReadElement(bs)
    case None =>
    case Some(e) =>
      ReadElementExtends(bs, more);
      assert (bs + more)[..Size(e)] == bs[..Size(e)];
      assert (bs + more)[Size(e)..] == bs[Size(e)..] + more;
      FramesExtend(bs[Size(e)..], more);
  }

  /** One more element. */
  lemma FramesStep(bs: Bytes, offset: nat)
    requires offset <= |bs| && ReadElement(bs[offset..]).Some?
    ensures var n := offset + Size(ReadElement(bs[offset..]).value);
            && n <= |bs|
            && Frames(bs[offset..]) == [bs[offset..n]] + Frames(bs[n..])
            && Rest(bs[offset..]) == Rest(bs[n..])
  {
    var e := ReadElement(bs[offset..]).value;
    var n := offset + Size(e);
    assert bs[offset..][..Size(e)] == bs[offset..n];
    assert bs[offset..][Size(e)..] == bs[n..];
  }

  // ---- the receiver as a function ----

  /** delivered: elements passed to `receive`; buffer: octets kept for later. */
  datatype Receiver = Receiver(delivered: seq<Bytes>, buffer: Bytes, failed: bool)

  const START := Receiver([], [], false)

  /** `handleReceive` on the next chunk. */
  function Feed(r: Receiver, chunk: Bytes): Receiver {
    var bs := r.buffer + chunk;
    Receiver(r.delivered + Frames(bs), Rest(bs), |Rest(bs)| == MAX_NDN_PACKET_SIZE)
  }

  function FeedAll(chunks: seq<Bytes>): Receiver
    decreases |chunks|
  {
    if chunks == [] then START else Feed(FeedAll(chunks[..|chunks| - 1]), chunks[|chunks| - 1])
  }

  function Concat(chunks: seq<Bytes>): Bytes
    decreases |chunks|
  {
    if chunks == [] then [] else Concat(chunks[..|chunks| - 1]) + chunks[|chunks| - 1]
  }

  /** The socket delivers no more than there is room for, and nothing after a failure. */
  predicate Arrives(chunks: seq<Bytes>)
    decreases |chunks|
  {
    chunks != [] ==>
      var r := FeedAll(chunks[..|chunks| - 1]);
      && Arrives(chunks[..|chunks| - 1])
      && !r.failed && |r.buffer| + |chunks[|chunks| - 1]| <= MAX_NDN_PACKET_SIZE
  }

  /** For every stream and every way it is cut into chunks, the elements delivered are the complete
      elements of the octets so far, the buffer holds exactly the octets after them, and the
      transport has failed exactly if these fill the buffer. */
  lemma {:induction false} ChunkingInvariance(chunks: seq<Bytes>)
    requires Arrives(chunks)
    ensures var r, bs := FeedAll(chunks), Concat(chunks);
            && r.delivered == Frames(bs) && r.buffer == Rest(bs)
            && |r.buffer| <= 8800 && (r.failed <==> |r.buffer| == 8800)
    decreases |chunks|
  {
    if chunks != [] {
      var n := |chunks| - 1;
      ChunkingInvariance(chunks[..n]);
      FramesExtend(Concat(chunks[..n]), chunks[n]);
      RestUnreadable(FeedAll(chunks[..n]).buffer + chunks[n]);
    }
  }

  lemma EmptyUnreadable()
    ensures ReadElement([]).None?
  {
  }

  // ---- well-formed streams ----

  predicate GoodElements(es: seq<Bytes>) {
    forall i :: 0 <= i < |es| ==> IsElement(es[i]) && |es[i]| <= MAX_NDN_PACKET_SIZE
  }

  function Flatten(es: seq<Bytes>): Bytes {
    if es == [] then [] else es[0] + Flatten(es[1..])
  }

  /** Number of elements that lie wholly within the first n octets. */
  function Whole(es: seq<Bytes>, n: nat): (k: nat)
    ensures k <= |es|
  {
    if es == [] || n < |es[0]| then 0 else 1 + Whole(es[1..], n - |es[0]|)
  }

  /** Any prefix of a stream of elements parses into the elements wholly within it, and leaves less
      than a full buffer. */
  lemma {:induction false} GoodStream(es: seq<Bytes>, n: nat)
    requires GoodElements(es) && n <= |Flatten(es)|
    ensures Frames(Flatten(es)[..n]) == es[..Whole(es, n)]
    ensures |Rest(Flatten(es)[..n])| < MAX_NDN_PACKET_SIZE
  {
    hide ReadElement;
    var bs := Flatten(es)[..n];
    if es == [] {
      assert bs == [];
      EmptyUnreadable();
    } else if n < |es[0]| {
      assert bs == es[0][..n];
      PrefixIncomplete(es[0], n);
    } else {
      var m := |es[0]|;
      assert bs == es[0] + Flatten(es[1..])[..n - m];
      ReadElementExtends(es[0], Flatten(es[1..])[..n - m]);
      assert bs[..m] == es[0] && bs[m..] == Flatten(es[1..])[..n - m];
      GoodStream(es[1..], n - m);
      assert es[..1 + Whole(es[1..], n - m)] == [es[0]] + es[1..][..Whole(es[1..], n - m)];
    }
  }

  lemma {:induction false} FramesAreElements(bs: Bytes)
    ensures forall i :: 0 <= i < |Frames(bs)| ==> IsElement(Frames(bs)[i])
    decreases |bs|
  {
    hide ReadElement;
    if ReadElement(bs).Some? {
      PrefixReads(bs);
      FramesAreElements(bs[Size(ReadElement(bs).value)..]);
    }
  }

  lemma FlattenFront(b: Bytes, es: seq<Bytes>)
    ensures Flatten([b] + es) == b + Flatten(es)
  {
    assert ([b] + es)[1..] == es;
  }

  lemma CoverFront(bs: Bytes, n: nat, es: seq<Bytes>, rest: Bytes)
    requires n <= |bs| && Flatten(es) + rest == bs[n..]
    ensures Flatten([bs[..n]] + es) + rest == bs
  {
    FlattenFront(bs[..n], es);
    hide Flatten;
    assert (bs[..n] + Flatten(es)) + rest == bs[..n] + (Flatten(es) + rest);
  }

  lemma {:induction false} FramesCover(bs: Bytes)
    ensures Flatten(Frames(bs)) + Rest(bs) == bs
    decreases |bs|
  {
    hide ReadElement;
    if ReadElement(bs).None? {
      assert [] + bs == bs;
    } else {
      hide Flatten;
      var n := Size(ReadElement(bs).value);
      FramesCover(bs[n..]);
      CoverFront(bs, n, Frames(bs[n..]), Rest(bs[n..]));
    }
  }

  /** Of any stream, the elements and what follows them are all of the octets; each is one element, and
      what follows does not start with one. */
  lemma FramesExactly(bs: Bytes)
    ensures Flatten(Frames(bs)) + Rest(bs) == bs && ReadElement(Rest(bs)).None?
    ensures forall i :: 0 <= i < |Frames(bs)| ==> IsElement(Frames(bs)[i])
  {
    FramesAreElements(bs);
    FramesCover(bs);
    RestUnreadable(bs);
  }

  /** Nothing else is such a division. */
  lemma {:induction false} OneDivision(es: seq<Bytes>, rest: Bytes)
    requires (forall i :: 0 <= i < |es| ==> IsElement(es[i])) && ReadElement(rest).None?
    ensures Frames(Flatten(es) + rest) == es && Rest(Flatten(es) + rest) == rest
  {
    hide ReadElement;
    if es == [] {
      assert Flatten(es) + rest == rest;
    } else {
      var more := Flatten(es[1..]) + rest;
      assert Flatten(es) + rest == es[0] + more;
      ReadElementExtends(es[0], more);
      OneDivision(es[1..], rest);
      assert (es[0] + more)[..|es[0]|] == es[0] && (es[0] + more)[|es[0]|..] == more;
    }
  }

  /** On a stream of elements of at most 8800 octets, however it is cut, the transport delivers
      exactly the complete elements received so far and never fails. */
  lemma GoodStreamNeverFails(chunks: seq<Bytes>, es: seq<Bytes>)
    requires Arrives(chunks) && GoodElements(es) && Concat(chunks) <= Flatten(es)
    ensures !FeedAll(chunks).failed && |FeedAll(chunks).buffer| < MAX_NDN_PACKET_SIZE
    ensures FeedAll(chunks).delivered == es[..Whole(es, |Concat(chunks)|)]
  {
    ChunkingInvariance(chunks);
    assert Concat(chunks) == Flatten(es)[..|Concat(chunks)|];
    GoodStream(es, |Concat(chunks)|);
  }

  // ---- the receiver as it works on its buffer ----

  class StreamTransport {
    const receiveBuffer: array<byte>
    var receiveBufferSize: nat
    var delivered: seq<Bytes>
    var failed: bool

    ghost predicate Valid()
      reads this
    {
      receiveBuffer.Length == MAX_NDN_PACKET_SIZE && receiveBufferSize <= MAX_NDN_PACKET_SIZE
    }

    ghost function State(): Receiver
      requires Valid()
      reads this, receiveBuffer
    {
      Receiver(delivered, receiveBuffer[..receiveBufferSize], failed)
    }

    constructor ()
      ensures Valid() && State() == START
    {
      receiveBuffer := new byte[MAX_NDN_PACKET_SIZE];
      receiveBufferSize, delivered, failed := 0, [], false;
    }

    /** The socket writes a chunk behind the octets in the buffer. */
    method Write(chunk: Bytes)
      requires Valid() && receiveBufferSize + |chunk| <= MAX_NDN_PACKET_SIZE
      modifies receiveBuffer
      ensures receiveBuffer[..receiveBufferSize + |chunk|] == old(receiveBuffer[..receiveBufferSize]) + chunk
    {
      forall i | 0 <= i < |chunk| {
        receiveBuffer[receiveBufferSize + i] := chunk[i];
      }
    }

    /** The parse loop of `handleReceive`. */
    method ParseAll() returns (offset: nat, isOk: bool)
      requires Valid()
      modifies this`delivered
      ensures offset <= receiveBufferSize
      ensures delivered == old(delivered) + Frames(receiveBuffer[..receiveBufferSize])
      ensures receiveBuffer[offset..receiveBufferSize] == Rest(receiveBuffer[..receiveBufferSize])
      ensures isOk <==> offset == receiveBufferSize
    {
      hide ReadElement;
      EmptyUnreadable();
      ghost var bs := receiveBuffer[..receiveBufferSize];
      offset, isOk := 0, true;
      assert bs[0..] == bs;
      while offset < receiveBufferSize
        invariant offset <= receiveBufferSize && isOk
        invariant delivered + Frames(bs[offset..]) == old(delivered) + Frames(bs)
        invariant Rest(bs[offset..]) == Rest(bs)
        decreases receiveBufferSize - offset
      {
        var view := receiveBuffer[offset..receiveBufferSize];
        assert view == bs[offset..];
        var e := ReadElement(view);
        isOk := e.Some?;
        if !isOk {
          break;
        }
        FramesStep(bs, offset);
        assert view[..Size(e.value)] == bs[offset..offset + Size(e.value)];
        offset := offset + Size(e.value);
        delivered := delivered + [view[..Size(e.value)]];
      }
      assert receiveBuffer[offset..receiveBufferSize] == bs[offset..];
      assert isOk ==> bs[offset..] == [];
    }

    /** `handleReceive`. */
    method HandleReceive(chunk: Bytes)
      requires Valid() && !failed && receiveBufferSize + |chunk| <= MAX_NDN_PACKET_SIZE
      modifies this, receiveBuffer
      ensures Valid() && State() == Feed(old(State()), chunk)
    {
      hide Frames;
      hide Rest;
      Write(chunk);
      receiveBufferSize := receiveBufferSize + |chunk|;
      ghost var bs := receiveBuffer[..receiveBufferSize];
      var offset, isOk := ParseAll();
      if !isOk && receiveBufferSize == MAX_NDN_PACKET_SIZE && offset == 0 {
        failed := true;
        return;
      }
      if offset > 0 {
        if offset != receiveBufferSize {
          MoveToFront(offset);
          receiveBufferSize := receiveBufferSize - offset;
        } else {
          receiveBufferSize := 0;
        }
      }
      assert receiveBuffer[..receiveBufferSize] == Rest(bs);
    }

    /** The octets from offset on move to the start of the buffer. */
    method MoveToFront(offset: nat)
      requires Valid() && 0 < offset <= receiveBufferSize
      modifies receiveBuffer
      ensures receiveBuffer[..receiveBufferSize - offset] == old(receiveBuffer[offset..receiveBufferSize])
    {
      var i := 0;
      while i < receiveBufferSize - offset
        invariant 0 <= i <= receiveBufferSize - offset
        invariant receiveBuffer[..i] == old(receiveBuffer[offset..offset + i])
        invariant forall j :: offset + i <= j < receiveBufferSize ==> receiveBuffer[j] == old(receiveBuffer[j])
      {
        receiveBuffer[i] := receiveBuffer[offset + i];
        i := i + 1;
      }
    }
  }
}
