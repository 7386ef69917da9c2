/** The Interest packet: encoding and decoding. */
module InterestCodec {
  import opened Basics
  import opened Tlv
  import opened CanonicalOrder

  const INTEREST: nat := 5
  const NAME: nat := 7
  const NONCE: nat := 10
  const INTEREST_LIFETIME: nat := 12
  const MUST_BE_FRESH: nat := 18
  const FORWARDING_HINT: nat := 30
  const LINK_DELEGATION: nat := 31
  const CAN_BE_PREFIX: nat := 33
  const HOP_LIMIT: nat := 34
  const APPLICATION_PARAMETERS: nat := 36
  const PARAMETERS_DIGEST: nat := 2
  const DIGEST_SIZE: nat := 32
  const DEFAULT_INTEREST_LIFETIME: int := 4000
  const M63: nat := 0x8000_0000_0000_0000

  /** lifetime in milliseconds; parameters: ApplicationParameters and the elements after it. */
  datatype Fields = Fields(
    name: Name,
    canBePrefix: bool,
    mustBeFresh: bool,
    forwardingHint: seq<Name>,
    nonce: Option<Bytes>,
    lifetime: int,
    hopLimit: Option<byte>,
    parameters: seq<Block>)

  predicate IsCriticalType(t: nat) {
    t <= 31 || t % 2 == 1
  }

  // ---- the parameters digest ----

  predicate IsParametersDigest(c: Component) {
    c.typ == PARAMETERS_DIGEST && |c.value| == DIGEST_SIZE
  }

  /** The positions of the digest components of a name. */
  function DigestPositions(name: Name): (r: seq<nat>)
    ensures forall i :: 0 <= i < |r| ==> r[i] < |name| && IsParametersDigest(name[r[i]])
  {
    if name == [] then []
    else
      var n := |name| - 1;
      DigestPositions(name[..n]) + (if IsParametersDigest(name[n]) then [n] else [])
  }

  lemma {:induction false} DigestPositionsMember(name: Name, i: nat)
    requires i < |name|
    ensures i in DigestPositions(name) <==> IsParametersDigest(name[i])
    decreases |name|
  {
    var n := |name| - 1;
    if i < n {
      DigestPositionsMember(name[..n], i);
    }
  }

  /** A ParametersSha256DigestComponent has type 2 and 32 octets. */
  predicate IsDigest(c: Component) {
    c.typ == 2 && |c.value| == 32
  }

  predicate NoDigest(name: Name) {
    forall i :: 0 <= i < |name| ==> !IsDigest(name[i])
  }

  predicate AtMostOneDigest(name: Name) {
    forall i, j :: 0 <= i < j < |name| ==> !(IsDigest(name[i]) && IsDigest(name[j]))
  }

  lemma OneMoreComponent(front: Name, c: Component)
    ensures NoDigest(front + [c]) <==> NoDigest(front) && !IsDigest(c)
    ensures AtMostOneDigest(front + [c]) <==> AtMostOneDigest(front) && (IsDigest(c) ==> NoDigest(front))
  {
    hide IsDigest;
    var name := front + [c];
    assert forall i :: 0 <= i < |front| ==> name[i] == front[i];
    assert name[|front|] == c;
  }

  lemma {:induction false} DigestPositionsMean(name: Name)
    ensures DigestPositions(name) == [] <==> NoDigest(name)
    ensures |DigestPositions(name)| <= 1 <==> AtMostOneDigest(name)
    decreases |name|
  {
    if name != [] {
      var n := |name| - 1;
      DigestPositionsMean(name[..n]);
      OneMoreComponent(name[..n], name[n]);
      assert name[..n] + [name[n]] == name;
      hide NoDigest;
      hide AtMostOneDigest;
    }
  }

  /** SHA-256 as a parameter: any function from octets to 32 octets. */
  type Hash = Bytes -> Bytes

  ghost predicate IsHash(h: Hash) {
    forall bs :: |h(bs)| == DIGEST_SIZE
  }

  /** `isParametersDigestValid`. */
  predicate DigestValid(h: Hash, f: Fields) {
    var at := DigestPositions(f.name);
    if at == [] then f.parameters == []
    else f.parameters != [] && f.name[at[0]].value == h(EncodeBlocks(f.parameters))
  }

  // ---- encoding ----

  /** A NonNegativeInteger as a signed 64-bit count of milliseconds. */
  function DecodeLifetime(bs: Bytes): Option<int> {
    match DecodeNni(bs)
    case None => None
    case Some(n) => Some(if n < M63 then n else n - M64)
  }

  /** A count of milliseconds as the decoder may leave it: a signed 64-bit number. */
  predicate IsLifetime(n: int) {
    0 - M63 <= n < M63
  }

  /** Conversion to `uint64_t` before encoding. */
  function EncodeLifetime(n: int): Bytes
    requires IsLifetime(n)
  {
    EncodeNni(if n >= 0 then n else n + M64)
  }

  lemma LifetimeRoundTrip(n: int)
    requires IsLifetime(n)
    ensures DecodeLifetime(EncodeLifetime(n)) == Some(n)
  {
    NniRoundTrip(if n >= 0 then n else n + M64);
  }

  lemma LifetimeRange(bs: Bytes)
    ensures DecodeLifetime(bs).Some? ==> IsLifetime(DecodeLifetime(bs).value)
  {
    NniRange(bs);
  }

  function NameBlock(name: Name): Block {
    Block(NAME, EncodeBlocks(name))
  }

  function NameBlocks(names: seq<Name>): (r: seq<Block>)
    ensures |r| == |names| && forall i :: 0 <= i < |r| ==> r[i] == NameBlock(names[i])
  {
    seq(|names|, i requires 0 <= i < |names| => NameBlock(names[i]))
  }

  function When(c: bool, b: Block): seq<Block> {
    if c then [b] else []
  }

  function HintBlock(f: Fields): Block {
    Block(FORWARDING_HINT, EncodeBlocks(NameBlocks(f.forwardingHint)))
  }

  function Optionals(f: Fields): seq<Block>
    requires f.nonce.Some? && IsLifetime(f.lifetime)
  {
    When(f.canBePrefix, Block(CAN_BE_PREFIX, []))
    + When(f.mustBeFresh, Block(MUST_BE_FRESH, []))
    + When(f.forwardingHint != [], HintBlock(f))
    + [Block(NONCE, f.nonce.value)]
    + When(f.lifetime != DEFAULT_INTEREST_LIFETIME, Block(INTEREST_LIFETIME, EncodeLifetime(f.lifetime)))
    + When(f.hopLimit.Some?, Block(HOP_LIMIT, if f.hopLimit.Some? then [f.hopLimit.value] else []))
  }

  /** The elements of an Interest in the order of the specification. */
  function InterestElements(f: Fields): seq<Block>
    requires f.nonce.Some? && IsLifetime(f.lifetime)
  {
    [NameBlock(f.name)] + Optionals(f) + f.parameters
  }

  /** `wireEncode`; None where it throws before anything is encoded. */
  function EncodeInterest(f: Fields): Option<Block>
    requires f.nonce.Some? && IsLifetime(f.lifetime)
  {
    if (DigestPositions(f.name) == []) != (f.parameters == []) then None
    else Some(Block(INTEREST, EncodeBlocks(InterestElements(f))))
  }

  // ---- decoding ----

  /** One element of a ForwardingHint; None for tlv::Error. Other non-critical elements are ignored. */
  function HintName(b: Block): Option<seq<Name>> {
    if b.typ == NAME then
      match ParseBlocks(b.value)
      case None => None
      case Some(name) => Some([name])
    else if b.typ == LINK_DELEGATION then
      match ParseBlocks(b.value)
      case None => None
      case Some(bs) =>
        match FirstName(bs)
        case None => None
        case Some(value) =>
          match ParseBlocks(value)
          case None => None
          case Some(name) => Some([name])
    else if IsCriticalType(b.typ) then None
    else Some([])
  }

  /** `Block::get` of the first Name among some elements. */
  function FirstName(bs: seq<Block>): Option<Bytes> {
    if bs == [] then None else if bs[0].typ == NAME then Some(bs[0].value) else FirstName(bs[1..])
  }

  function HintNames(bs: seq<Block>): Option<seq<Name>>
    decreases |bs|
  {
    if bs == [] then Some([])
    else
      var n := |bs| - 1;
      match (HintNames(bs[..n]), HintName(bs[n]))
      case (Some(names), Some(more)) => Some(names + more)
      case _ => None
  }

  function DecodeHint(value: Bytes): Option<seq<Name>> {
    match ParseBlocks(value)
    case None => None
    case Some(bs) => HintNames(bs)
  }

  /** The fields decoded so far, and the number of the last recognized element in specification order. */
  datatype Progress = Progress(f: Fields, last: nat)

  /** One element after the Name; None for tlv::Error. */
  function DecodeElement(p: Progress, b: Block): Option<Progress> {
    var f := p.f;
    if b.typ == CAN_BE_PREFIX then
      if p.last >= 2 || b.value != [] then None else Some(Progress(f.(canBePrefix := true), 2))
    else if b.typ == MUST_BE_FRESH then
      if p.last >= 3 || b.value != [] then None else Some(Progress(f.(mustBeFresh := true), 3))
    else if b.typ == FORWARDING_HINT then
      if p.last >= 4 then None
      else match DecodeHint(b.value)
           case None => None
           case Some(names) => Some(Progress(f.(forwardingHint := names), 4))
    else if b.typ == NONCE then
      if p.last >= 5 || |b.value| != 4 then None else Some(Progress(f.(nonce := Some(b.value)), 5))
    else if b.typ == INTEREST_LIFETIME then
      if p.last >= 6 then None
      else match DecodeLifetime(b.value)
           case None => None
           case Some(n) => Some(Progress(f.(lifetime := n), 6))
    else if b.typ == HOP_LIMIT then
      if p.last >= 7 then Some(p)
      else if |b.value| != 1 then None
      else Some(Progress(f.(hopLimit := Some(b.value[0])), 7))
    else if b.typ == APPLICATION_PARAMETERS then
      if p.last >= 8 then Some(p) else Some(Progress(f.(parameters := f.parameters + [b]), 8))
    else if IsCriticalType(b.typ) then None
    else Some(p.(f := if f.parameters != [] then f.(parameters := f.parameters + [b]) else f))
  }

  function DecodeElements(p: Progress, bs: seq<Block>): Option<Progress>
    decreases |bs|
  {
    if bs == [] then Some(p)
    else match DecodeElement(p, bs[0])
         case None => None
         case Some(q) => DecodeElements(q, bs[1..])
  }

  function Cleared(name: Name): Fields {
    Fields(name, false, false, [], None, DEFAULT_INTEREST_LIFETIME, None, [])
  }

  /** The checks of a decoded name. */
  predicate IsInterestName(name: Name) {
    name != [] && |DigestPositions(name)| <= 1
  }

  /** `wireDecode`; None for tlv::Error. */
  function DecodeInterest(h: Hash, wire: Block): Option<Fields> {
    if wire.typ != INTEREST then None
    else match ParseBlocks(wire.value)
         case None => None
         case Some(bs) =>
           if bs == [] || bs[0].typ != NAME then None
           else match ParseBlocks(bs[0].value)
                case None => None
                case Some(name) =>
                  if !IsInterestName(name) then None
                  else match DecodeElements(Progress(Cleared(name), 1), bs[1..])
                       case None => None
                       case Some(p) => if DigestValid(h, p.f) then Some(p.f) else None
  }

  // ---- decoding undoes encoding ----

  lemma DecodeOne(p: Progress, c: bool, b: Block, rest: seq<Block>)
    ensures !c ==> DecodeElements(p, When(c, b) + rest) == DecodeElements(p, rest)
    ensures c ==> DecodeElements(p, When(c, b) + rest)
                  == match DecodeElement(p, b)
                     case None => None
                     case Some(q) => DecodeElements(q, rest)
  {
    hide DecodeElement;
    if c {
      assert (When(c, b) + rest)[0] == b && (When(c, b) + rest)[1..] == rest;
    } else {
      assert When(c, b) + rest == rest;
    }
  }

  lemma {:induction false} HintRoundTrip(names: seq<Name>)
    requires forall i :: 0 <= i < |names| ==> ValidTypes(names[i]) && |EncodeBlocks(names[i])| < M64
    ensures HintNames(NameBlocks(names)) == Some(names)
    decreases |names|
  {
    hide ParseBlocks;
    hide EncodeBlocks;
    hide ValidTypes;
    if names != [] {
      var n := |names| - 1;
      HintRoundTrip(names[..n]);
      assert NameBlocks(names)[..n] == NameBlocks(names[..n]);
      ParseEncoded(names[n]);
      assert names == names[..n] + [names[n]];
    }
  }

  /** What the setters and the decoder guarantee of the fields that are encoded. */
  ghost predicate Encodable(f: Fields) {
    && f.nonce.Some? && |f.nonce.value| == 4
    && IsLifetime(f.lifetime)
    && ValidTypes(f.name) && (forall i :: 0 <= i < |f.forwardingHint| ==> ValidTypes(f.forwardingHint[i]))
    && ValidTypes(f.parameters) && (f.parameters != [] ==> f.parameters[0].typ == APPLICATION_PARAMETERS)
    && |EncodeBlocks(InterestElements(f))| < M64
  }

  lemma HintDecodes(f: Fields)
    requires forall i :: 0 <= i < |f.forwardingHint| ==> ValidTypes(f.forwardingHint[i])
    requires |HintBlock(f).value| < M64
    ensures DecodeHint(HintBlock(f).value) == Some(f.forwardingHint)
  {
    var bs := NameBlocks(f.forwardingHint);
    forall i | 0 <= i < |f.forwardingHint|
      ensures |EncodeBlocks(f.forwardingHint[i])| < M64
    {
      BlockInside(bs, i);
    }
    HintRoundTrip(f.forwardingHint);
    ParseEncoded(bs);
  }

  /** The optional elements restore every field except the parameters. */
  lemma OptionalsDecode(f: Fields, rest: seq<Block>)
    requires f.nonce.Some? && |f.nonce.value| == 4 && IsLifetime(f.lifetime)
    requires f.forwardingHint != [] ==> DecodeHint(HintBlock(f).value) == Some(f.forwardingHint)
    ensures exists last :: 5 <= last <= 7 &&
              DecodeElements(Progress(Cleared(f.name), 1), Optionals(f) + rest)
              == DecodeElements(Progress(f.(parameters := []), last), rest)
  {
    hide DecodeElements;
    hide EncodeBlocks;
    hide DecodeHint;
    hide EncodeLifetime;
    hide DecodeLifetime;
    hide When;
    LifetimeRoundTrip(f.lifetime);
    var l, h := f.lifetime != DEFAULT_INTEREST_LIFETIME, f.hopLimit.Some?;
    var hop := Block(HOP_LIMIT, if h then [f.hopLimit.value] else []);
    var r6 := When(h, hop) + rest;
    var r5 := When(l, Block(INTEREST_LIFETIME, EncodeLifetime(f.lifetime))) + r6;
    var r4 := When(true, Block(NONCE, f.nonce.value)) + r5;
    var r3 := When(f.forwardingHint != [], HintBlock(f)) + r4;
    var r2 := When(f.mustBeFresh, Block(MUST_BE_FRESH, [])) + r3;
    var r1 := When(f.canBePrefix, Block(CAN_BE_PREFIX, [])) + r2;
    WhenTrue(Block(NONCE, f.nonce.value));
    assert Optionals(f) + rest == r1;
    var f0 := Cleared(f.name);
    var f1 := f0.(canBePrefix := f.canBePrefix);
    var f2 := f1.(mustBeFresh := f.mustBeFresh);
    var f3 := f2.(forwardingHint := f.forwardingHint);
    var f4 := f3.(nonce := f.nonce);
    var f5 := f4.(lifetime := f.lifetime);
    var n1 := if f.canBePrefix then 2 else 1;
    var n2 := if f.mustBeFresh then 3 else n1;
    var n3 := if f.forwardingHint != [] then 4 else n2;
    var n5 := if l then 6 else 5;
    var n6 := if h then 7 else n5;
    DecodeOne(Progress(f0, 1), f.canBePrefix, Block(CAN_BE_PREFIX, []), r2);
    DecodeOne(Progress(f1, n1), f.mustBeFresh, Block(MUST_BE_FRESH, []), r3);
    DecodeOne(Progress(f2, n2), f.forwardingHint != [], HintBlock(f), r4);
    DecodeOne(Progress(f3, n3), true, Block(NONCE, f.nonce.value), r5);
    DecodeOne(Progress(f4, 5), l, Block(INTEREST_LIFETIME, EncodeLifetime(f.lifetime)), r6);
    DecodeOne(Progress(f5, n5), h, hop, rest);
    assert f.(parameters := []) == f5.(hopLimit := f.hopLimit);
    assert DecodeElements(Progress(f0, 1), r1) == DecodeElements(Progress(f1, n1), r2);
    assert DecodeElements(Progress(f1, n1), r2) == DecodeElements(Progress(f2, n2), r3);
    assert DecodeElements(Progress(f2, n2), r3) == DecodeElements(Progress(f3, n3), r4);
    assert DecodeElements(Progress(f3, n3), r4) == DecodeElements(Progress(f4, 5), r5);
    assert DecodeElements(Progress(f4, 5), r5) == DecodeElements(Progress(f5, n5), r6);
    assert DecodeElements(Progress(f5, n5), r6) == DecodeElements(Progress(f.(parameters := []), n6), rest);
  }

  lemma WhenTrue(b: Block)
    ensures When(true, b) == [b]
  {
  }

  /** Elements that the decoder keeps when they follow ApplicationParameters: not critical, and
      neither HopLimit nor ApplicationParameters again. */
  predicate IsPlain(b: Block) {
    !IsCriticalType(b.typ) && b.typ != HOP_LIMIT && b.typ != APPLICATION_PARAMETERS
  }

  predicate PlainTail(parameters: seq<Block>) {
    forall i :: 1 <= i < |parameters| ==> IsPlain(parameters[i])
  }

  /** Elements after ApplicationParameters are restored exactly when all of them are plain. */
  lemma {:induction false} TailDecode(p: Progress, tail: seq<Block>)
    requires p.last == 8 && p.f.parameters != []
    ensures (forall i :: 0 <= i < |tail| ==> IsPlain(tail[i])) ==>
              DecodeElements(p, tail) == Some(p.(f := p.f.(parameters := p.f.parameters + tail)))
    ensures !(forall i :: 0 <= i < |tail| ==> IsPlain(tail[i])) && DecodeElements(p, tail).Some? ==>
              |DecodeElements(p, tail).value.f.parameters| < |p.f.parameters| + |tail|
    ensures DecodeElements(p, tail).Some? ==>
              |DecodeElements(p, tail).value.f.parameters| <= |p.f.parameters| + |tail|
    decreases |tail|
  {
    hide DecodeHint;
    hide DecodeLifetime;
    if tail == [] {
      assert p.f.parameters + tail == p.f.parameters;
    } else {
      var b := tail[0];
      assert forall i :: 1 <= i < |tail| ==> tail[i] == tail[1..][i - 1];
      if IsPlain(b) {
        var q := p.(f := p.f.(parameters := p.f.parameters + [b]));
        assert DecodeElement(p, b) == Some(q);
        TailDecode(q, tail[1..]);
        assert p.f.parameters + [b] + tail[1..] == p.f.parameters + tail;
      } else if DecodeElement(p, b).Some? {
        assert DecodeElement(p, b) == Some(p);
        TailDecode(p, tail[1..]);
      }
    }
  }

  lemma ParametersDecode(f: Fields, last: nat)
    requires last <= 7 && (f.parameters != [] ==> f.parameters[0].typ == APPLICATION_PARAMETERS)
    ensures var r := DecodeElements(Progress(f.(parameters := []), last), f.parameters);
            && (PlainTail(f.parameters) ==> r.Some? && r.value.f == f)
            && (!PlainTail(f.parameters) && r.Some? ==> r.value.f != f)
  {
    hide IsPlain;
    if f.parameters != [] {
      var b, tail := f.parameters[0], f.parameters[1..];
      var p := Progress(f.(parameters := []), last);
      assert [] + [b] == [b];
      assert DecodeElement(p, b) == Some(Progress(f.(parameters := [b]), 8));
      TailDecode(Progress(f.(parameters := [b]), 8), tail);
      assert forall i :: 1 <= i < |f.parameters| ==> f.parameters[i] == tail[i - 1];
      assert (forall i :: 0 <= i < |tail| ==> IsPlain(tail[i])) <==> PlainTail(f.parameters) by {
        assert forall i :: 0 <= i < |tail| ==> tail[i] == f.parameters[i + 1];
      }
      assert [b] + tail == f.parameters;
    }
  }

  lemma WhenValid(c: bool, b: Block)
    requires 0 < b.typ < M32
    ensures ValidTypes(When(c, b))
  {
  }

  lemma ValidAppend(a: seq<Block>, b: seq<Block>)
    requires ValidTypes(a) && ValidTypes(b)
    ensures ValidTypes(a + b)
  {
  }

  lemma OptionalsValid(f: Fields)
    requires f.nonce.Some? && IsLifetime(f.lifetime)
    ensures ValidTypes(Optionals(f))
    ensures f.forwardingHint != [] ==> HintBlock(f) in Optionals(f)
  {
    hide EncodeLifetime;
    hide EncodeBlocks;
    hide ValidTypes;
    hide When;
    var lifetime := Block(INTEREST_LIFETIME, EncodeLifetime(f.lifetime));
    var hop := Block(HOP_LIMIT, if f.hopLimit.Some? then [f.hopLimit.value] else []);
    WhenValid(f.canBePrefix, Block(CAN_BE_PREFIX, []));
    WhenValid(f.mustBeFresh, Block(MUST_BE_FRESH, []));
    WhenValid(f.forwardingHint != [], HintBlock(f));
    WhenValid(true, Block(NONCE, f.nonce.value));
    WhenTrue(Block(NONCE, f.nonce.value));
    WhenValid(f.lifetime != DEFAULT_INTEREST_LIFETIME, lifetime);
    WhenValid(f.hopLimit.Some?, hop);
    WhenTrue(HintBlock(f));
    var s1 := When(f.canBePrefix, Block(CAN_BE_PREFIX, []));
    var s2 := s1 + When(f.mustBeFresh, Block(MUST_BE_FRESH, []));
    var s3 := s2 + When(f.forwardingHint != [], HintBlock(f));
    var s4 := s3 + [Block(NONCE, f.nonce.value)];
    var s5 := s4 + When(f.lifetime != DEFAULT_INTEREST_LIFETIME, lifetime);
    ValidAppend(s1, When(f.mustBeFresh, Block(MUST_BE_FRESH, [])));
    ValidAppend(s2, When(f.forwardingHint != [], HintBlock(f)));
    ValidAppend(s3, [Block(NONCE, f.nonce.value)]);
    ValidAppend(s4, When(f.lifetime != DEFAULT_INTEREST_LIFETIME, lifetime));
    ValidAppend(s5, When(f.hopLimit.Some?, hop));
  }

  /** Everything nested in an Interest parses back to what was encoded. */
  lemma ElementsParse(f: Fields)
    requires Encodable(f)
    ensures InterestElements(f) != [] && InterestElements(f)[0] == NameBlock(f.name)
    ensures InterestElements(f)[1..] == Optionals(f) + f.parameters
    ensures ParseBlocks(EncodeBlocks(InterestElements(f))) == Some(InterestElements(f))
    ensures ParseBlocks(NameBlock(f.name).value) == Some(f.name)
    ensures f.forwardingHint != [] ==> DecodeHint(HintBlock(f).value) == Some(f.forwardingHint)
  {
    hide DecodeHint;
    hide Optionals;
    hide EncodeBlocks;
    hide ParseBlocks;
    var es, rest := InterestElements(f), Optionals(f) + f.parameters;
    OptionalsValid(f);
    assert es == [NameBlock(f.name)] + rest;
    ParseEncoded(es);
    BlockInside(es, 0);
    ParseEncoded(f.name);
    if f.forwardingHint != [] {
      assert HintBlock(f) in es;
      var i :| 0 <= i < |es| && es[i] == HintBlock(f);
      BlockInside(es, i);
      HintDecodes(f);
    }
  }

  /** The codec round trip: for every Interest with a non-empty name and a valid parameters digest,
      decoding the encoding restores every field if and only if the elements after
      ApplicationParameters are plain. */
  lemma RoundTrip(h: Hash, f: Fields)
    requires Encodable(f) && IsInterestName(f.name) && DigestValid(h, f)
    ensures EncodeInterest(f).Some?
    ensures DecodeInterest(h, EncodeInterest(f).value) == Some(f) <==> PlainTail(f.parameters)
  {
    hide InterestElements;
    hide Optionals;
    hide EncodeBlocks;
    hide ParseBlocks;
    hide DecodeElements;
    hide DigestPositions;
    hide HintBlock;
    hide PlainTail;
    ElementsParse(f);
    OptionalsDecode(f, f.parameters);
    var last :| 5 <= last <= 7 &&
      DecodeElements(Progress(Cleared(f.name), 1), Optionals(f) + f.parameters)
      == DecodeElements(Progress(f.(parameters := []), last), f.parameters);
    ParametersDecode(f, last);
  }
}
