/** NDN TLV encoding on octets: VAR-NUMBER, big-endian integers and elements. */
module Tlv {
  import opened Basics

  type Bytes = seq<byte>

  const M32: nat := 0x1_0000_0000

  // ---- big-endian integers ----

  function Power256(k: nat): (r: nat)
    ensures r > 0
  {
    if k == 0 then 1 else 256 * Power256(k - 1)
  }

  /** n in k octets, most significant first. */
  function BigEndian(n: nat, k: nat): (r: Bytes)
    ensures |r| == k
  {
    if k == 0 then [] else BigEndian(n / 256, k - 1) + [n % 256]
  }

  function FromBigEndian(bs: Bytes): nat {
    if bs == [] then 0 else 256 * FromBigEndian(bs[..|bs| - 1]) + bs[|bs| - 1]
  }

  lemma Quotient(n: nat, p: nat)
    requires n < 256 * p
    ensures n / 256 < p && n == 256 * (n / 256) + n % 256
  {
  }

  lemma {:induction false} BigEndianRoundTrip(n: nat, k: nat)
    requires n < Power256(k)
    ensures FromBigEndian(BigEndian(n, k)) == n
  {
    if k > 0 {
      var bs := BigEndian(n, k);
      assert bs[..k - 1] == BigEndian(n / 256, k - 1) && bs[k - 1] == n % 256;
      assert Power256(k) == 256 * Power256(k - 1);
      hide Power256;
      hide BigEndian;
      Quotient(n, Power256(k - 1));
      BigEndianRoundTrip(n / 256, k - 1);
    }
  }

  lemma Powers()
    ensures Power256(1) == 256 && Power256(2) == 0x1_0000 && Power256(4) == M32 && Power256(8) == M64
  {
    assert Power256(1) == 256 * Power256(0);
    assert Power256(2) == 256 * Power256(1);
    assert Power256(3) == 256 * Power256(2);
    assert Power256(4) == 256 * Power256(3);
    assert Power256(5) == 256 * Power256(4);
    assert Power256(6) == 256 * Power256(5);
    assert Power256(7) == 256 * Power256(6);
    assert Power256(8) == 256 * Power256(7);
  }

  // ---- VAR-NUMBER ----

  /** Octets after the first one. */
  function ExtraSize(first: byte): (r: nat)
    ensures r in {0, 2, 4, 8}
  {
    if first < 253 then 0 else if first == 253 then 2 else if first == 254 then 4 else 8
  }

  /** `prependVarNumber`; a number of more than 64 bits has no encoding of its own. */
  function EncodeVar(n: nat): (r: Bytes)
    ensures r != [] && |r| == 1 + ExtraSize(r[0])
  {
    if n < 253 then [n]
    else if n < 0x1_0000 then [253] + BigEndian(n, 2)
    else if n < M32 then [254] + BigEndian(n, 4)
    else [255] + BigEndian(n, 8)
  }

  datatype VarNumber = VarNumber(value: nat, size: nat)

  /** `readVarNumber` at the start of bs. */
  function ReadVar(bs: Bytes): (r: Option<VarNumber>)
    ensures r.Some? ==> 1 <= r.value.size <= |bs|
  {
    if bs == [] then None
    else
      var k := ExtraSize(bs[0]);
      if k == 0 then Some(VarNumber(bs[0], 1))
      else if |bs| < 1 + k then None
      else Some(VarNumber(FromBigEndian(bs[1..1 + k]), 1 + k))
  }

  lemma VarRoundTrip(n: u64, rest: Bytes)
    ensures ReadVar(EncodeVar(n) + rest) == Some(VarNumber(n, |EncodeVar(n)|))
  {
    Powers();
    var e := EncodeVar(n);
    var bs := e + rest;
    assert bs[0] == e[0];
    var k := ExtraSize(e[0]);
    if k > 0 {
      assert bs[1..1 + k] == BigEndian(n, k);
      BigEndianRoundTrip(n, k);
    }
  }

  /** Reading succeeds in the same way when more octets follow. */
  lemma ReadVarExtends(bs: Bytes, more: Bytes)
    requires ReadVar(bs).Some?
    ensures ReadVar(bs + more) == ReadVar(bs)
  {
    var k := ExtraSize(bs[0]);
    if k > 0 {
      assert (bs + more)[1..1 + k] == bs[1..1 + k];
    }
  }

  // ---- NonNegativeInteger ----

  function EncodeNni(n: nat): (r: Bytes) {
    if n <= 0xff then BigEndian(n, 1) else if n <= 0xffff then BigEndian(n, 2)
    else if n <= 0xffff_ffff then BigEndian(n, 4) else BigEndian(n, 8)
  }

  /** `readNonNegativeInteger`. */
  function DecodeNni(bs: Bytes): Option<nat> {
    if |bs| !in {1, 2, 4, 8} then None else Some(FromBigEndian(bs))
  }

  lemma NniRoundTrip(n: u64)
    ensures DecodeNni(EncodeNni(n)) == Some(n)
  {
    Powers();
    BigEndianRoundTrip(n, |EncodeNni(n)|);
  }

  lemma {:induction false} BigEndianBound(bs: Bytes)
    ensures FromBigEndian(bs) < Power256(|bs|)
  {
    if bs != [] {
      BigEndianBound(bs[..|bs| - 1]);
    }
  }

  lemma NniRange(bs: Bytes)
    ensures DecodeNni(bs).Some? ==> DecodeNni(bs).value < M64
  {
    Powers();
    BigEndianBound(bs);
  }

  // ---- elements ----

  /** A TLV element at the start of some octets: its type, and the sizes of its head and value. */
  datatype Element = Element(typ: nat, head: nat, length: nat)

  function Size(e: Element): nat {
    e.head + e.length
  }

  /** `Block::fromBuffer`: the element at the start of bs, if it is complete and well-formed. */
  function ReadElement(bs: Bytes): (r: Option<Element>)
    ensures r.Some? ==> 2 <= r.value.head && Size(r.value) <= |bs|
  {
    match ReadVar(bs)
    case None => None
    case Some(t) =>
      if t.value == 0 || t.value >= M32 then None
      else
        match ReadVar(bs[t.size..])
        case None => None
        case Some(l) =>
          if l.value > |bs| - t.size - l.size then None
          else Some(Element(t.value, t.size + l.size, l.value))
  }

  /** The octets of an element with the given type and value. */
  function Encode(typ: nat, value: Bytes): (r: Bytes) {
    EncodeVar(typ) + EncodeVar(|value|) + value
  }

  lemma ReadEncoded(typ: nat, value: Bytes, rest: Bytes)
    requires 0 < typ < M32 && |value| < M64
    ensures var h := |EncodeVar(typ)| + |EncodeVar(|value|)|;
            && ReadElement(Encode(typ, value) + rest) == Some(Element(typ, h, |value|))
            && |Encode(typ, value)| == h + |value|
            && (Encode(typ, value) + rest)[h..h + |value|] == value
  {
    var t, l := EncodeVar(typ), EncodeVar(|value|);
    var bs := Encode(typ, value) + rest;
    assert bs == t + (l + value + rest);
    VarRoundTrip(typ, l + value + rest);
    assert bs[|t|..] == l + (value + rest);
    VarRoundTrip(|value|, value + rest);
  }

  /** A complete element is read in the same way when more octets follow. */
  lemma ReadElementExtends(bs: Bytes, more: Bytes)
    requires ReadElement(bs).Some?
    ensures ReadElement(bs + more) == ReadElement(bs)
  {
    var t := ReadVar(bs).value;
    ReadVarExtends(bs, more);
    ReadVarExtends(bs[t.size..], more);
    assert (bs + more)[t.size..] == bs[t.size..] + more;
  }

  /** Nothing can be read from a proper prefix of a complete element. */
  lemma PrefixIncomplete(bs: Bytes, n: nat)
    requires ReadElement(bs).Some? && n < Size(ReadElement(bs).value)
    ensures n <= |bs| && ReadElement(bs[..n]).None?
  {
    if ReadElement(bs[..n]).Some? {
      assert bs == bs[..n] + bs[n..];
      ReadElementExtends(bs[..n], bs[n..]);
    }
  }

  /** The element at the start of bs is read in the same way without what follows it. */
  lemma PrefixReads(bs: Bytes)
    requires ReadElement(bs).Some?
    ensures ReadElement(bs[..Size(ReadElement(bs).value)]) == ReadElement(bs)
  {
    var e := ReadElement(bs).value;
    var t := ReadVar(bs).value;
    var l := ReadVar(bs[t.size..]).value;
    var p := bs[..Size(e)];
    ReadVarShorter(bs, Size(e));
    ReadVarShorter(bs[t.size..], Size(e) - t.size);
    assert p[t.size..] == bs[t.size..][..Size(e) - t.size];
  }

  lemma ReadVarShorter(bs: Bytes, n: nat)
    requires ReadVar(bs).Some? && ReadVar(bs).value.size <= n <= |bs|
    ensures ReadVar(bs[..n]) == ReadVar(bs)
  {
    var k := ExtraSize(bs[0]);
    if k > 0 {
      assert bs[..n][1..1 + k] == bs[1..1 + k];
    }
  }

  /** Types outside 1 to 2^32 - 1 are not read, whatever follows them. */
  lemma IllegalTypes(typ: u64, rest: Bytes)
    requires typ == 0 || typ >= 0x1_0000_0000
    ensures ReadElement(EncodeVar(typ) + rest).None?
  {
    VarRoundTrip(typ, rest);
  }

  /** An element whose value is cut short is not read. */
  lemma CutShort(typ: nat, length: u64, rest: Bytes)
    requires 0 < typ < M32 && |rest| < length
    ensures ReadElement(EncodeVar(typ) + EncodeVar(length) + rest).None?
  {
    var bs := EncodeVar(typ) + EncodeVar(length) + rest;
    assert bs == EncodeVar(typ) + (EncodeVar(length) + rest);
    VarRoundTrip(typ, EncodeVar(length) + rest);
    assert bs[|EncodeVar(typ)|..] == EncodeVar(length) + rest;
    VarRoundTrip(length, rest);
  }

  /** bs is exactly one element. */
  predicate IsElement(bs: Bytes) {
    ReadElement(bs).Some? && Size(ReadElement(bs).value) == |bs|
  }

  // ---- blocks ----

  /** A TLV element as a value. */
  datatype Block = Block(typ: nat, value: Bytes)

  /** The octets of several elements. */
  function EncodeBlocks(bs: seq<Block>): Bytes {
    if bs == [] then [] else Encode(bs[0].typ, bs[0].value) + EncodeBlocks(bs[1..])
  }

  /** `Block::parse`: the elements that make up a value. */
  function ParseBlocks(bs: Bytes): Option<seq<Block>>
    decreases |bs|
  {
    if bs == [] then Some([])
    else match ReadElement(bs)
         case None => None
         case Some(e) =>
           match ParseBlocks(bs[Size(e)..])
           case None => None
           case Some(rest) => Some([Block(e.typ, bs[e.head..Size(e)])] + rest)
  }

  predicate ValidTypes(bs: seq<Block>) {
    forall i :: 0 <= i < |bs| ==> 0 < bs[i].typ < M32
  }

  /** Parsing undoes encoding. */
  lemma {:induction false} ParseEncoded(bs: seq<Block>)
    requires ValidTypes(bs) && |EncodeBlocks(bs)| < M64
    ensures ParseBlocks(EncodeBlocks(bs)) == Some(bs)
  {
    if bs != [] {
      hide ReadElement;
      hide EncodeVar;
      var b, rest := bs[0], EncodeBlocks(bs[1..]);
      var wire := Encode(b.typ, b.value);
      ReadEncoded(b.typ, b.value, rest);
      assert (wire + rest)[|wire|..] == rest;
      ParseEncoded(bs[1..]);
      assert bs == [b] + bs[1..];
    }
  }

  lemma {:induction false} BlockInside(bs: seq<Block>, i: nat)
    requires i < |bs|
    ensures |bs[i].value| < |EncodeBlocks(bs)|
  {
    if i > 0 {
      BlockInside(bs[1..], i - 1);
    }
  }
}
