/** Interest as a mutable object: setters, cached wire, and its invariants. */
module InterestPacket {
  import opened Basics
  import opened Tlv
  import opened CanonicalOrder
  import opened InterestCodec

  const SIGNATURE_INFO: nat := 44
  const SIGNATURE_VALUE: nat := 46

  predicate ValidNames(names: seq<Name>) {
    forall i :: 0 <= i < |names| ==> ValidTypes(names[i])
  }

  /** The parameter list is empty or starts with ApplicationParameters; plain elements follow. */
  predicate ValidParameters(bs: seq<Block>) {
    && ValidTypes(bs) && PlainTail(bs)
    && (bs != [] ==> bs[0].typ == APPLICATION_PARAMETERS)
  }

  /** What every setter and the decoder keep. */
  predicate FieldsValid(h: Hash, f: Fields) {
    && ValidTypes(f.name) && |DigestPositions(f.name)| <= 1
    && ValidNames(f.forwardingHint)
    && (f.nonce.Some? ==> |f.nonce.value| == 4) && IsLifetime(f.lifetime)
    && ValidParameters(f.parameters) && (f.parameters != [] ==> DigestValid(h, f))
  }

  // ---- the digest component ----

  function DigestOf(h: Hash, parameters: seq<Block>): Component {
    Block(PARAMETERS_DIGEST, h(EncodeBlocks(parameters)))
  }

  /** The name with its digest component replaced, or with one appended. */
  function WithDigest(name: Name, d: Component): Name {
    var at := DigestPositions(name);
    if at == [] then name + [d] else name[at[0] := d]
  }

  function WithoutDigest(name: Name): Name {
    var at := DigestPositions(name);
    if at == [] then name else name[..at[0]] + name[at[0] + 1..]
  }

  /** A name without a digest component gets one at its end; an existing one is replaced, and every other
      component stays where it is. */
  predicate DigestRenewed(before: Name, after: Name, d: Component) {
    if NoDigest(before) then |after| == |before| + 1 && before <= after && after[|before|] == d
    else
      && |after| == |before|
      && forall i :: 0 <= i < |before| ==> after[i] == if IsDigest(before[i]) then d else before[i]
  }

  /** The digest component is taken out; the components before and after it keep their order. */
  predicate DigestRemoved(before: Name, after: Name) {
    if NoDigest(before) then after == before
    else
      && |after| == |before| - 1
      && exists i :: 0 <= i < |before| && IsDigest(before[i])
                     && after[..i] == before[..i] && after[i..] == before[i + 1..]
  }

  lemma WithDigestRenews(name: Name, d: Component)
    requires |DigestPositions(name)| <= 1
    ensures DigestRenewed(name, WithDigest(name, d), d)
  {
    DigestPositionsMean(name);
    var at := DigestPositions(name);
    hide DigestPositions;
    if at != [] {
      forall i | 0 <= i < |name| && i != at[0]
        ensures !IsDigest(name[i])
      {
        assert IsDigest(name[at[0]]);
      }
    }
  }

  lemma WithoutDigestRemoves(name: Name)
    requires |DigestPositions(name)| <= 1
    ensures DigestRemoved(name, WithoutDigest(name))
  {
    DigestPositionsMean(name);
    var at := DigestPositions(name);
    hide DigestPositions;
    if at != [] {
      var i, r := at[0], WithoutDigest(name);
      assert IsDigest(name[i]) && r[..i] == name[..i] && r[i..] == name[i + 1..];
    }
  }

  lemma {:induction false} DigestPositionsSame(a: Name, b: Name)
    requires |a| == |b| && forall i :: 0 <= i < |a| ==> (IsParametersDigest(a[i]) <==> IsParametersDigest(b[i]))
    ensures DigestPositions(a) == DigestPositions(b)
    decreases |a|
  {
    if a != [] {
      DigestPositionsSame(a[..|a| - 1], b[..|b| - 1]);
    }
  }

  lemma WithDigestPositions(name: Name, d: Component)
    requires |DigestPositions(name)| <= 1 && IsParametersDigest(d)
    ensures |DigestPositions(WithDigest(name, d))| == 1
    ensures WithDigest(name, d)[DigestPositions(WithDigest(name, d))[0]] == d
  {
    var at := DigestPositions(name);
    if at == [] {
      assert (name + [d])[..|name|] == name;
    } else {
      DigestPositionsMember(name, at[0]);
      DigestPositionsSame(name, name[at[0] := d]);
    }
  }

  lemma {:induction false} NoDigestLeft(name: Name)
    requires forall i :: 0 <= i < |name| ==> !IsParametersDigest(name[i])
    ensures DigestPositions(name) == []
  {
    if name != [] {
      NoDigestLeft(name[..|name| - 1]);
    }
  }

  lemma WithoutDigestNone(name: Name)
    requires |DigestPositions(name)| <= 1
    ensures DigestPositions(WithoutDigest(name)) == []
  {
    var at, r := DigestPositions(name), WithoutDigest(name);
    hide DigestPositions;
    forall i | 0 <= i < |r|
      ensures !IsParametersDigest(r[i])
    {
      var j := if at == [] || i < at[0] then i else i + 1;
      assert r[i] == name[j] && j !in at;
      DigestPositionsMember(name, j);
    }
    NoDigestLeft(r);
  }

  // ---- what the decoder leaves ----

  lemma {:induction false} ParsedValid(bs: Bytes)
    ensures ParseBlocks(bs).Some? ==> ValidTypes(ParseBlocks(bs).value)
    decreases |bs|
  {
    if bs != [] && ReadElement(bs).Some? {
      ParsedValid(bs[Size(ReadElement(bs).value)..]);
    }
  }

  lemma HintNameValid(b: Block)
    ensures HintName(b).Some? ==> ValidNames(HintName(b).value)
  {
    hide ParseBlocks;
    hide ValidTypes;
    ParsedValid(b.value);
    if b.typ == LINK_DELEGATION && ParseBlocks(b.value).Some? {
      var v := FirstName(ParseBlocks(b.value).value);
      if v.Some? {
        ParsedValid(v.value);
      }
    }
  }

  lemma {:induction false} HintNamesValid(bs: seq<Block>)
    ensures HintNames(bs).Some? ==> ValidNames(HintNames(bs).value)
    decreases |bs|
  {
    hide HintName;
    if bs != [] {
      var n := |bs| - 1;
      HintNamesValid(bs[..n]);
      HintNameValid(bs[n]);
    }
  }

  predicate ProgressValid(p: Progress, name: Name) {
    && p.f.name == name && ValidNames(p.f.forwardingHint)
    && (p.f.nonce.Some? ==> |p.f.nonce.value| == 4) && IsLifetime(p.f.lifetime)
    && ValidParameters(p.f.parameters) && (p.f.parameters != [] <==> p.last >= 8)
  }

  lemma DecodeElementValid(p: Progress, b: Block, name: Name)
    requires ProgressValid(p, name) && 0 < b.typ < M32
    ensures DecodeElement(p, b).Some? ==> ProgressValid(DecodeElement(p, b).value, name)
  {
    hide DecodeHint;
    hide DecodeLifetime;
    LifetimeRange(b.value);
    HintValid(b.value);
  }

  lemma HintValid(value: Bytes)
    ensures DecodeHint(value).Some? ==> ValidNames(DecodeHint(value).value)
  {
    if ParseBlocks(value).Some? {
      HintNamesValid(ParseBlocks(value).value);
    }
  }

  lemma {:induction false} DecodeElementsValid(p: Progress, bs: seq<Block>, name: Name)
    requires ProgressValid(p, name) && ValidTypes(bs)
    ensures DecodeElements(p, bs).Some? ==> ProgressValid(DecodeElements(p, bs).value, name)
    decreases |bs|
  {
    hide DecodeElement;
    hide ProgressValid;
    if bs != [] {
      DecodeElementValid(p, bs[0], name);
      if DecodeElement(p, bs[0]).Some? {
        DecodeElementsValid(DecodeElement(p, bs[0]).value, bs[1..], name);
      }
    }
  }

  /** Every decoded Interest satisfies what the setters guarantee. */
  lemma DecodedValid(h: Hash, wire: Block)
    requires DecodeInterest(h, wire).Some?
    ensures FieldsValid(h, DecodeInterest(h, wire).value) && DecodeInterest(h, wire).value.name != []
  {
    hide ParseBlocks;
    hide DecodeElements;
    hide DigestPositions;
    ParsedValid(wire.value);
    var bs := ParseBlocks(wire.value).value;
    ParsedValid(bs[0].value);
    var name := ParseBlocks(bs[0].value).value;
    assert ProgressValid(Progress(Cleared(name), 1), name);
    assert ValidTypes(bs[1..]);
    DecodeElementsValid(Progress(Cleared(name), 1), bs[1..], name);
  }

  // ---- the class ----

  class Interest {
    const h: Hash
    var name: Name
    var canBePrefix: bool
    var mustBeFresh: bool
    var forwardingHint: seq<Name>
    var nonce: Option<Bytes>
    var interestLifetime: int
    var hopLimit: Option<byte>
    var parameters: seq<Block>
    var wire: Option<Block>

    function State(): Fields
      reads this
    {
      Fields(name, canBePrefix, mustBeFresh, forwardingHint, nonce, interestLifetime, hopLimit, parameters)
    }

    /** What the setters need of the fields, and keep. */
    ghost predicate Consistent()
      reads this
    {
      IsHash(h) && FieldsValid(h, State())
    }

    /** Besides, a cached wire decodes to the fields. */
    ghost predicate Valid()
      reads this
    {
      Consistent() && (wire.Some? ==> DecodeInterest(h, wire.value) == Some(State()))
    }

    /** An Interest with an empty name and default fields. */
    constructor (h: Hash)
      requires IsHash(h)
      ensures Valid() && this.h == h && State() == Cleared([]) && wire == None
    {
      this.h := h;
      name, canBePrefix, mustBeFresh, forwardingHint := [], false, false, [];
      nonce, interestLifetime, hopLimit, parameters := None, DEFAULT_INTEREST_LIFETIME, None, [];
      wire := None;
    }

    /** `Interest(name, lifetime)`; null where it throws. */
    static method Create(h: Hash, name: Name, lifetime: int) returns (r: Interest?)
      requires IsHash(h) && ValidTypes(name) && IsLifetime(lifetime)
      ensures r == null <==> !AtMostOneDigest(name) || lifetime < 0
      ensures r != null ==> fresh(r) && r.Valid() && r.h == h && r.wire == None
      ensures r != null ==> r.State() == Cleared(name).(lifetime := lifetime)
    {
      hide DigestPositions;
      hide DecodeInterest;
      var i := new Interest(h);
      var ok := i.SetName(name);
      if !ok {
        return null;
      }
      ok := i.SetInterestLifetime(lifetime);
      return if ok then i else null;
    }

    /** `findParametersDigestComponent`: -1 if there is none, -2 if there is more than one. */
    static method FindParametersDigestComponent(name: Name) returns (pos: int)
      ensures |DigestPositions(name)| == 0 ==> pos == -1
      ensures |DigestPositions(name)| == 1 ==> pos == DigestPositions(name)[0]
      ensures |DigestPositions(name)| > 1 ==> pos == -2
    {
      pos := -1;
      var i := 0;
      while i < |name|
        invariant 0 <= i <= |name|
        invariant |DigestPositions(name[..i])| <= 1
        invariant pos == if DigestPositions(name[..i]) == [] then -1 else DigestPositions(name[..i])[0]
      {
        assert name[..i + 1][..i] == name[..i];
        if IsParametersDigest(name[i]) {
          if pos != -1 {
            DigestPositionsGrow(name, i + 1);
            return -2;
          }
          pos := i;
        }
        i := i + 1;
      }
      assert name[..i] == name;
    }

    /** `addOrReplaceParametersDigestComponent`. */
    method AddOrReplaceParametersDigestComponent()
      requires IsHash(h) && parameters != [] && |DigestPositions(name)| <= 1 && ValidTypes(name)
      modifies this`name
      ensures name == WithDigest(old(name), DigestOf(h, parameters))
      ensures DigestRenewed(old(name), name, Block(2, h(EncodeBlocks(parameters))))
      ensures |DigestPositions(name)| == 1 && ValidTypes(name) && DigestValid(h, State())
    {
      hide DigestPositions;
      var digestIndex := FindParametersDigestComponent(name);
      var digestComponent := DigestOf(h, parameters);
      WithDigestPositions(name, digestComponent);
      WithDigestRenews(name, digestComponent);
      if digestIndex == -1 {
        name := name + [digestComponent];
      } else {
        name := name[digestIndex := digestComponent];
      }
    }

    method SetName(name: Name) returns (ok: bool)
      requires Consistent() && ValidTypes(name)
      modifies this`name, this`wire
      ensures Consistent() && (old(Valid()) ==> Valid())
      ensures (ok <==> AtMostOneDigest(name))
      ensures !ok || name == old(this.name) ==> this.name == old(this.name) && wire == old(wire)
      ensures ok && name != old(this.name) ==> wire == None
      ensures ok && name != old(this.name) ==>
                this.name == (if parameters == [] then name else WithDigest(name, DigestOf(h, parameters)))
      ensures ok && name != old(this.name) && parameters != [] ==>
                DigestRenewed(name, this.name, Block(2, h(EncodeBlocks(parameters))))
    {
      DigestPositionsMean(name);
      hide DigestPositions;
      hide DecodeInterest;
      hide DigestRenewed;
      hide AtMostOneDigest;
      var digestIndex := FindParametersDigestComponent(name);
      ok := digestIndex != -2;
      if ok && name != this.name {
        this.name := name;
        if parameters != [] {
          AddOrReplaceParametersDigestComponent();
        }
        wire := None;
      }
    }

    method SetForwardingHint(names: seq<Name>)
      requires Consistent() && ValidNames(names)
      modifies this`forwardingHint, this`wire
      ensures Consistent() && (old(Valid()) ==> Valid())
      ensures forwardingHint == names && wire == None
    {
      hide DigestPositions;
      forwardingHint, wire := names, None;
    }

    method SetNonce(nonce: Option<Bytes>)
      requires Consistent() && (nonce.Some? ==> |nonce.value| == 4)
      modifies this`nonce, this`wire
      ensures Consistent() && (old(Valid()) ==> Valid())
      ensures this.nonce == nonce
      ensures wire == if nonce == old(this.nonce) then old(wire) else None
    {
      hide DigestPositions;
      hide DecodeInterest;
      if nonce != this.nonce {
        this.nonce, wire := nonce, None;
      }
    }

    method SetInterestLifetime(lifetime: int) returns (ok: bool)
      requires Consistent() && IsLifetime(lifetime)
      modifies this`interestLifetime, this`wire
      ensures Consistent() && (old(Valid()) ==> Valid())
      ensures (ok <==> lifetime >= 0)
      ensures interestLifetime == if ok then lifetime else old(interestLifetime)
      ensures wire == if interestLifetime == old(interestLifetime) then old(wire) else None
    {
      hide DigestPositions;
      hide DecodeInterest;
      ok := lifetime >= 0;
      if ok && lifetime != interestLifetime {
        interestLifetime, wire := lifetime, None;
      }
    }

    method SetHopLimit(hopLimit: Option<byte>)
      requires Consistent()
      modifies this`hopLimit, this`wire
      ensures Consistent() && (old(Valid()) ==> Valid())
      ensures this.hopLimit == hopLimit
      ensures wire == if hopLimit == old(this.hopLimit) then old(wire) else None
    {
      hide DigestPositions;
      hide DecodeInterest;
      if hopLimit != this.hopLimit {
        this.hopLimit, wire := hopLimit, None;
      }
    }

    /** `setApplicationParameters` with the octets of the new value. */
    method SetApplicationParameters(value: Bytes)
      requires Consistent()
      modifies this`parameters, this`name, this`wire
      ensures Consistent() && (old(Valid()) ==> Valid())
      ensures DigestRenewed(old(name), name, Block(2, h(EncodeBlocks(parameters))))
      ensures parameters != [] && parameters[0] == Block(36, value)
      ensures old(parameters) != [] ==> parameters[1..] == old(parameters)[1..]
      ensures old(parameters) == [] ==> |parameters| == 1
      ensures wire == None
    {
      hide DigestPositions;
      hide DecodeInterest;
      var block := Block(APPLICATION_PARAMETERS, value);
      parameters := if parameters == [] then [block] else parameters[0 := block];
      AddOrReplaceParametersDigestComponent();
      wire := None;
    }

    /** `setSignatureInfo` with the encoded InterestSignatureInfo. */
    method SetSignatureInfo(info: Block)
      requires Consistent() && info.typ == SIGNATURE_INFO
      modifies this`parameters, this`name, this`wire
      ensures Consistent() && (old(Valid()) ==> Valid())
      ensures var bs := if old(parameters) == [] then [Block(36, [])] else old(parameters);
              InfoPlaced(bs, parameters, info)
      ensures if parameters == old(parameters) then name == old(name)
              else DigestRenewed(old(name), name, Block(2, h(EncodeBlocks(parameters))))
      ensures wire == if parameters == old(parameters) then old(wire) else None
    {
      hide DigestPositions;
      hide DecodeInterest;
      hide DigestRenewed;
      hide FirstOf;
      hide EncodeBlocks;
      var bs := if parameters == [] then [Block(APPLICATION_PARAMETERS, [])] else parameters;
      WithInfoValid(bs, info);
      WithInfoPlaces(bs, info);
      hide ValidParameters;
      hide InfoPlaced;
      var at := FindFirst(bs, SIGNATURE_INFO);
      if at < |bs| && bs[at] == info {
        assert bs[at := info] == bs;
        return;
      }
      if at < |bs| {
        assert bs[at := info] != bs;
        parameters := bs[at := info];
      } else {
        at := FindFirst(bs, SIGNATURE_VALUE);
        parameters := bs[..at] + [info] + bs[at..];
      }
      AddOrReplaceParametersDigestComponent();
      wire := None;
    }

    /** `setSignatureValueInternal`; it throws when there is no InterestSignatureInfo. */
    method SetSignatureValue(value: Block) returns (ok: bool)
      requires Consistent() && value.typ == SIGNATURE_VALUE
      modifies this`parameters, this`name, this`wire
      ensures Consistent() && (old(Valid()) ==> Valid())
      ensures ok <==> HasType(old(parameters), 44)
      ensures if ok then ValuePlaced(old(parameters), parameters, value) else parameters == old(parameters)
      ensures if parameters == old(parameters) then name == old(name)
              else DigestRenewed(old(name), name, Block(2, h(EncodeBlocks(parameters))))
      ensures wire == if parameters == old(parameters) then old(wire) else None
    {
      hide DigestPositions;
      hide DecodeInterest;
      hide DigestRenewed;
      hide FirstOf;
      hide EncodeBlocks;
      hide HasType;
      hide ValidParameters;
      hide ValuePlaced;
      FirstOfType(parameters, SIGNATURE_INFO);
      var infoAt := FindFirst(parameters, SIGNATURE_INFO);
      ok := infoAt < |parameters|;
      if !ok {
        return;
      }
      WithValueValid(parameters, value);
      WithValuePlaces(parameters, value);
      var at := FindFirst(parameters, SIGNATURE_VALUE);
      if at < |parameters| && parameters[at] == value {
        assert parameters[at := value] == parameters;
        return;
      }
      if at < |parameters| {
        assert parameters[at := value] != parameters;
        parameters := parameters[at := value];
      } else {
        parameters := parameters[..infoAt + 1] + [value] + parameters[infoAt + 1..];
      }
      AddOrReplaceParametersDigestComponent();
      wire := None;
    }

    method UnsetApplicationParameters()
      requires Consistent()
      modifies this`parameters, this`name, this`wire
      ensures Consistent() && (old(Valid()) ==> Valid())
      ensures parameters == [] && DigestRemoved(old(name), name)
      ensures NoDigest(name) && wire == None
    {
      hide DigestPositions;
      hide DecodeInterest;
      hide DigestRemoved;
      hide NoDigest;
      hide AtMostOneDigest;
      hide EncodeBlocks;
      parameters := [];
      var digestIndex := FindParametersDigestComponent(name);
      WithoutDigestNone(name);
      WithoutDigestRemoves(name);
      DigestPositionsMean(WithoutDigest(name));
      if digestIndex >= 0 {
        name := name[..digestIndex] + name[digestIndex + 1..];
      }
      wire := None;
    }

    /** The loop over the elements of a ForwardingHint. */
    static method DecodeForwardingHint(value: Bytes) returns (r: Option<seq<Name>>)
      ensures r == DecodeHint(value)
    {
      hide HintName;
      var parsed := ParseBlocks(value);
      if parsed.None? {
        return None;
      }
      var bs, names, i := parsed.value, [], 0;
      while i < |bs|
        invariant 0 <= i <= |bs| && HintNames(bs[..i]) == Some(names)
      {
        assert bs[..i + 1][..i] == bs[..i];
        var more := HintName(bs[i]);
        if more.None? {
          HintNamesFail(bs, i + 1);
          return None;
        }
        names := names + more.value;
        i := i + 1;
      }
      assert bs[..i] == bs;
      r := Some(names);
    }

    /** The body of the loop in `wireDecode`. */
    method DecodeField(b: Block, lastElement: nat) returns (ok: bool, last: nat)
      modifies this`canBePrefix, this`mustBeFresh, this`forwardingHint, this`nonce
      modifies this`interestLifetime, this`hopLimit, this`parameters
      ensures ok <==> DecodeElement(Progress(old(State()), lastElement), b).Some?
      ensures ok ==> DecodeElement(Progress(old(State()), lastElement), b) == Some(Progress(State(), last))
    {
      hide DecodeHint;
      hide DecodeLifetime;
      ok, last := true, lastElement;
      if b.typ == CAN_BE_PREFIX {
        if lastElement >= 2 || b.value != [] {
          return false, last;
        }
        canBePrefix, last := true, 2;
      } else if b.typ == MUST_BE_FRESH {
        if lastElement >= 3 || b.value != [] {
          return false, last;
        }
        mustBeFresh, last := true, 3;
      } else if b.typ == FORWARDING_HINT {
        if lastElement >= 4 {
          return false, last;
        }
        var names := DecodeForwardingHint(b.value);
        if names.None? {
          return false, last;
        }
        forwardingHint, last := names.value, 4;
      } else if b.typ == NONCE {
        if lastElement >= 5 || |b.value| != 4 {
          return false, last;
        }
        nonce, last := Some(b.value), 5;
      } else if b.typ == INTEREST_LIFETIME {
        if lastElement >= 6 {
          return false, last;
        }
        var n := DecodeLifetime(b.value);
        if n.None? {
          return false, last;
        }
        interestLifetime, last := n.value, 6;
      } else if b.typ == HOP_LIMIT {
        if lastElement >= 7 {
          return;
        }
        if |b.value| != 1 {
          return false, last;
        }
        hopLimit, last := Some(b.value[0]), 7;
      } else if b.typ == APPLICATION_PARAMETERS {
        if lastElement >= 8 {
          return;
        }
        parameters, last := parameters + [b], 8;
      } else if IsCriticalType(b.typ) {
        return false, last;
      } else if parameters != [] {
        parameters := parameters + [b];
      }
    }

    /** `wireDecode`. It succeeds exactly on the wires that decode. After a failure the rejected wire
        stays cached; the fields are as before unless the wire starts with a valid name, which is then
        kept, so that there is never more than one digest component. */
    method WireDecode(w: Block) returns (ok: bool)
      requires IsHash(h)
      modifies this
      ensures ok <==> DecodeInterest(h, w).Some?
      ensures ok ==> Valid() && DecodeInterest(h, w) == Some(State())
      ensures wire == if w.typ == INTEREST then Some(w) else old(wire)
      ensures WireName(w).None? ==> State() == old(State())
      ensures WireName(w).Some? ==> name == WireName(w).value
      ensures |DigestPositions(old(name))| <= 1 ==> |DigestPositions(name)| <= 1
    {
      hide ParseBlocks;
      hide DigestPositions;
      hide DecodeElement;
      hide FieldsValid;
      ok := false;
      if w.typ != INTEREST {
        return;
      }
      wire := Some(w);
      var parsed := ParseBlocks(w.value);
      if parsed.None? || parsed.value == [] || parsed.value[0].typ != NAME {
        return;
      }
      var bs := parsed.value;
      var tempName := ParseBlocks(bs[0].value);
      if tempName.None? || tempName.value == [] {
        return;
      }
      var digestIndex := FindParametersDigestComponent(tempName.value);
      if digestIndex == -2 {
        return;
      }
      name, canBePrefix, mustBeFresh, forwardingHint := tempName.value, false, false, [];
      nonce, interestLifetime, hopLimit, parameters := None, DEFAULT_INTEREST_LIFETIME, None, [];
      ok := DecodeFields(bs[1..]);
      if ok && !DigestValid(h, State()) {
        ok := false;
      }
      if ok {
        DecodedValid(h, w);
      }
    }

    /** The loop of `wireDecode`. */
    method DecodeFields(bs: seq<Block>) returns (ok: bool)
      modifies this`canBePrefix, this`mustBeFresh, this`forwardingHint, this`nonce
      modifies this`interestLifetime, this`hopLimit, this`parameters
      ensures ok <==> DecodeElements(Progress(old(State()), 1), bs).Some?
      ensures ok ==> DecodeElements(Progress(old(State()), 1), bs).value.f == State()
    {
      hide DecodeElement;
      ok := true;
      var i, lastElement := 0, 1;
      assert bs[0..] == bs;
      while i < |bs|
        invariant 0 <= i <= |bs|
        invariant DecodeElements(Progress(old(State()), 1), bs)
                  == DecodeElements(Progress(State(), lastElement), bs[i..])
      {
        assert bs[i..][0] == bs[i] && bs[i..][1..] == bs[i + 1..];
        ok, lastElement := DecodeField(bs[i], lastElement);
        if !ok {
          return;
        }
        i := i + 1;
      }
    }

    /** `wireEncode`, with a fresh nonce in case there is none. A cached wire is returned as it is. Else
        encoding fails exactly when the name is empty or the digest component and the parameters do not
        go together. What is returned decodes to the fields, unless it is a rejected wire that an earlier
        failure left in the cache: the failure for an empty name does. */
    method WireEncode(newNonce: Bytes) returns (r: Option<Block>)
      requires IsHash(h) && (wire.None? ==> Consistent()) && |newNonce| == 4
      requires wire.None? ==> |EncodeBlocks(InterestElements(WithNonce(State(), newNonce)))| < M64
      modifies this
      ensures r.Some? ==> wire == r
      ensures r.Some? && old(Valid()) ==> Valid() && DecodeInterest(h, r.value) == Some(State())
      ensures old(wire).Some? ==> r == old(wire) && State() == old(State())
      ensures old(wire).None? ==>
                && (r.Some? <==> old(name) != [] && ((DigestPositions(old(name)) == []) <==> (old(parameters) == [])))
                && Consistent()
      ensures old(wire).None? && ((DigestPositions(old(name)) == []) <==> (old(parameters) == [])) ==>
                State() == WithNonce(old(State()), newNonce)
      ensures r.None? && ((DigestPositions(old(name)) == []) != (old(parameters) == [])) ==>
                wire == None && State() == old(State())
      ensures r.None? && ((DigestPositions(old(name)) == []) <==> (old(parameters) == [])) ==>
                old(name) == [] && wire.Some? && DecodeInterest(h, wire.value).None?
    {
      hide DigestPositions;
      hide DecodeInterest;
      hide EncodeBlocks;
      hide InterestElements;
      if wire.Some? {
        return wire;
      }
      var digestIndex := FindParametersDigestComponent(name);
      if (digestIndex == -1) != (parameters == []) {
        return None;
      }
      if nonce.None? {
        nonce := Some(newNonce);
      }
      var block := Block(INTEREST, EncodeBlocks(InterestElements(State())));
      if name != [] {
        RoundTrip(h, State());
      } else {
        EmptyNameRejected(h, State());
        EmptyWireName(State());
      }
      var ok := WireDecode(block);
      r := if ok then wire else None;
    }
  }

  function WithNonce(f: Fields, newNonce: Bytes): Fields {
    if f.nonce.Some? then f else f.(nonce := Some(newNonce))
  }

  /** The name at the start of a wire, if it is one that an Interest may have. */
  function WireName(w: Block): Option<Name> {
    if w.typ != INTEREST then None
    else match ParseBlocks(w.value)
         case None => None
         case Some(bs) =>
           if bs == [] || bs[0].typ != NAME then None
           else match ParseBlocks(bs[0].value)
                case None => None
                case Some(name) => if IsInterestName(name) then Some(name) else None
  }

  lemma EmptyWireName(f: Fields)
    requires Encodable(f) && f.name == []
    ensures WireName(Block(INTEREST, EncodeBlocks(InterestElements(f)))).None?
  {
    hide ParseBlocks;
    hide InterestElements;
    ElementsParse(f);
  }

  /** The failure and what follows: a new Interest cannot be encoded, and the second attempt returns the
      rejected wire. The fields stay consistent, so that a setter can repair it. */
  method EncodeTwice(h: Hash, nonce: Bytes) returns (first: Option<Block>, second: Option<Block>, i: Interest)
    requires IsHash(h) && |nonce| == 4
    ensures first == None && second.Some? && DecodeInterest(h, second.value).None?
    ensures fresh(i) && i.h == h && i.wire == second && i.Consistent() && !i.Valid()
  {
    hide DecodeInterest;
    hide EncodeBlocks;
    hide InterestElements;
    i := new Interest(h);
    NoDigestLeft([]);
    SmallInterest(WithNonce(i.State(), nonce));
    first := i.WireEncode(nonce);
    second := i.WireEncode(nonce);
  }

  lemma SmallInterest(f: Fields)
    requires f == Cleared([]).(nonce := f.nonce) && f.nonce.Some? && |f.nonce.value| == 4
    ensures |EncodeBlocks(InterestElements(f))| < M64
  {
    var a, b := Block(NAME, []), Block(NONCE, f.nonce.value);
    assert EncodeBlocks([]) == [];
    assert InterestElements(f) == [a] + [b];
    assert ([a] + [b])[1..] == [b] && [b][1..] == [];
    assert EncodeBlocks([b]) == Encode(NONCE, f.nonce.value) + EncodeBlocks([]);
    assert EncodeBlocks([a] + [b]) == Encode(NAME, []) + EncodeBlocks([b]);
  }

  /** An Interest with an empty name encodes, but its own encoding is rejected. */
  lemma EmptyNameRejected(h: Hash, f: Fields)
    requires Encodable(f) && f.name == []
    ensures DecodeInterest(h, Block(INTEREST, EncodeBlocks(InterestElements(f)))).None?
  {
    hide ParseBlocks;
    hide InterestElements;
    ElementsParse(f);
  }

  lemma {:induction false} HintNamesFail(bs: seq<Block>, n: nat)
    requires n <= |bs| && HintNames(bs[..n]).None?
    ensures HintNames(bs).None?
    decreases |bs|
  {
    hide HintName;
    if n < |bs| {
      HintNamesFail(bs[..|bs| - 1], n) by { assert bs[..|bs| - 1][..n] == bs[..n]; }
    } else {
      assert bs[..n] == bs;
    }
  }

  function FirstOf(bs: seq<Block>, typ: nat): (r: nat)
    ensures r <= |bs|
    ensures r < |bs| ==> bs[r].typ == typ
    ensures forall i :: 0 <= i < r ==> bs[i].typ != typ
  {
    if bs == [] || bs[0].typ == typ then 0 else 1 + FirstOf(bs[1..], typ)
  }

  /** The first InterestSignatureInfo is replaced; a new one goes before the first
      InterestSignatureValue. */
  function WithInfo(bs: seq<Block>, info: Block): seq<Block> {
    var at, v := FirstOf(bs, SIGNATURE_INFO), FirstOf(bs, SIGNATURE_VALUE);
    if at < |bs| then bs[at := info] else bs[..v] + [info] + bs[v..]
  }

  /** The first InterestSignatureValue is replaced; a new one goes after the InterestSignatureInfo. */
  function WithValue(bs: seq<Block>, value: Block): seq<Block>
    requires FirstOf(bs, SIGNATURE_INFO) < |bs|
  {
    var at, i := FirstOf(bs, SIGNATURE_VALUE), FirstOf(bs, SIGNATURE_INFO);
    if at < |bs| then bs[at := value] else bs[..i + 1] + [value] + bs[i + 1..]
  }

  predicate IsFirstOf(bs: seq<Block>, typ: nat, i: nat) {
    i < |bs| && bs[i].typ == typ && forall j :: 0 <= j < i ==> bs[j].typ != typ
  }

  /** r is bs with b inserted at i: the elements before i stay, those from i on follow b. */
  predicate IsInserted(bs: seq<Block>, r: seq<Block>, b: Block, i: nat) {
    && i <= |bs| && |r| == |bs| + 1 && r[i] == b
    && (forall j :: 0 <= j < i ==> r[j] == bs[j])
    && forall j :: i <= j < |bs| ==> r[j + 1] == bs[j]
  }

  predicate IsReplaced(bs: seq<Block>, r: seq<Block>, b: Block, i: nat) {
    i < |bs| == |r| && r[i] == b && forall j :: 0 <= j < |bs| && j != i ==> r[j] == bs[j]
  }

  predicate HasType(bs: seq<Block>, typ: nat) {
    exists i :: 0 <= i < |bs| && bs[i].typ == typ
  }

  lemma FirstOfType(bs: seq<Block>, typ: nat)
    ensures HasType(bs, typ) <==> FirstOf(bs, typ) < |bs|
  {
    hide FirstOf;
  }

  /** The first element of type 44 is replaced. If there is none, the new one is inserted before the first
      element of type 46, or at the end. */
  predicate InfoPlaced(bs: seq<Block>, r: seq<Block>, info: Block) {
    if HasType(bs, 44) then exists i: nat :: i < |bs| && IsFirstOf(bs, 44, i) && IsReplaced(bs, r, info, i)
    else
      exists i: nat :: i <= |bs| && IsInserted(bs, r, info, i)
                       && (IsFirstOf(bs, 46, i) || (i == |bs| && !HasType(bs, 46)))
  }

  /** The first element of type 46 is replaced. If there is none, the new one is inserted right after the
      first element of type 44. */
  predicate ValuePlaced(bs: seq<Block>, r: seq<Block>, value: Block) {
    if HasType(bs, 46) then exists i: nat :: i < |bs| && IsFirstOf(bs, 46, i) && IsReplaced(bs, r, value, i)
    else exists i: nat :: i < |bs| && IsFirstOf(bs, 44, i) && IsInserted(bs, r, value, i + 1)
  }

  lemma InsertedAt(bs: seq<Block>, b: Block, i: nat)
    requires i <= |bs|
    ensures IsInserted(bs, bs[..i] + [b] + bs[i..], b, i)
  {
  }

  lemma WithInfoPlaces(bs: seq<Block>, info: Block)
    ensures InfoPlaced(bs, WithInfo(bs, info), info)
  {
    var at, v := FirstOf(bs, SIGNATURE_INFO), FirstOf(bs, SIGNATURE_VALUE);
    hide FirstOf;
    var r := WithInfo(bs, info);
    if at < |bs| {
      assert IsFirstOf(bs, 44, at) && IsReplaced(bs, r, info, at);
    } else {
      InsertedAt(bs, info, v);
      hide IsInserted;
      assert IsFirstOf(bs, 46, v) || (v == |bs| && !HasType(bs, 46));
    }
  }

  lemma WithValuePlaces(bs: seq<Block>, value: Block)
    requires FirstOf(bs, SIGNATURE_INFO) < |bs|
    ensures ValuePlaced(bs, WithValue(bs, value), value)
  {
    var i, at := FirstOf(bs, SIGNATURE_INFO), FirstOf(bs, SIGNATURE_VALUE);
    hide FirstOf;
    var r := WithValue(bs, value);
    if at < |bs| {
      assert IsFirstOf(bs, 46, at) && IsReplaced(bs, r, value, at);
    } else {
      InsertedAt(bs, value, i + 1);
      hide IsInserted;
      assert !HasType(bs, 46) && IsFirstOf(bs, 44, i);
    }
  }

  lemma WithInfoValid(bs: seq<Block>, info: Block)
    requires ValidParameters(bs) && bs != [] && info.typ == SIGNATURE_INFO
    ensures ValidParameters(WithInfo(bs, info)) && WithInfo(bs, info) != []
  {
    hide FirstOf;
    InsertValid(bs, FirstOf(bs, SIGNATURE_VALUE), info);
  }

  lemma WithValueValid(bs: seq<Block>, value: Block)
    requires ValidParameters(bs) && FirstOf(bs, SIGNATURE_INFO) < |bs| && value.typ == SIGNATURE_VALUE
    ensures ValidParameters(WithValue(bs, value)) && WithValue(bs, value) != []
  {
    hide FirstOf;
    InsertValid(bs, FirstOf(bs, SIGNATURE_INFO) + 1, value);
  }

  lemma {:induction false} DigestPositionsGrow(name: Name, n: nat)
    requires n <= |name|
    ensures |DigestPositions(name[..n])| <= |DigestPositions(name)|
    decreases |name|
  {
    if n == |name| {
      assert name[..n] == name;
    } else {
      DigestPositionsGrow(name[..|name| - 1], n);
      assert name[..|name| - 1][..n] == name[..n];
    }
  }

  lemma InsertValid(bs: seq<Block>, at: nat, b: Block)
    requires ValidParameters(bs) && 1 <= at <= |bs| && IsPlain(b) && 0 < b.typ < M32
    ensures ValidParameters(bs[..at] + [b] + bs[at..])
  {
  }

  /** Position of the first element of a type, or the length. */
  method FindFirst(bs: seq<Block>, typ: nat) returns (at: nat)
    ensures at == FirstOf(bs, typ)
  {
    at := 0;
    while at < |bs| && bs[at].typ != typ
      invariant at <= |bs| && forall i :: 0 <= i < at ==> bs[i].typ != typ
    {
      at := at + 1;
    }
  }
}
