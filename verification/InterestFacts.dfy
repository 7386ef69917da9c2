/** Which octets `Interest::wireDecode` accepts and what it makes of them, stated by type numbers. */
module InterestFacts {
  import opened Basics
  import opened Tlv
  import opened CanonicalOrder
  import opened InterestCodec

  /** Types of elements that must not be ignored: those up to 31, and odd ones. */
  predicate IsCritical(t: nat) {
    t < 32 || t % 2 != 0
  }

  // ---- forwarding hint ----

  /** The first Name among some elements. */
  predicate IsFirstName(bs: seq<Block>, i: int) {
    0 <= i < |bs| && bs[i].typ == 7 && forall j :: 0 <= j < i ==> bs[j].typ != 7
  }

  /** A Name gives its components; an old-format Delegation gives the first Name inside it. */
  ghost predicate GivesName(b: Block, name: Name) {
    || (b.typ == 7 && ParseBlocks(b.value) == Some(name))
    || (b.typ == 31 && ParseBlocks(b.value).Some?
        && exists i :: IsFirstName(ParseBlocks(b.value).value, i)
                       && ParseBlocks(ParseBlocks(b.value).value[i].value) == Some(name))
  }

  lemma {:induction false} FirstNameIs(bs: seq<Block>)
    ensures FirstName(bs).Some? ==> exists i :: IsFirstName(bs, i) && bs[i].value == FirstName(bs).value
    ensures FirstName(bs).None? ==> forall i :: !IsFirstName(bs, i)
  {
    if bs == [] {
    } else if bs[0].typ == 7 {
      assert IsFirstName(bs, 0);
    } else {
      FirstNameIs(bs[1..]);
      assert forall k :: 1 <= k < |bs| ==> bs[k] == bs[1..][k - 1];
      if FirstName(bs).Some? {
        var i :| IsFirstName(bs[1..], i) && bs[1..][i].value == FirstName(bs).value;
        assert IsFirstName(bs, i + 1);
      } else {
        forall i
          ensures !IsFirstName(bs, i)
        {
          if i > 0 {
            assert !IsFirstName(bs[1..], i - 1);
          }
        }
      }
    }
  }

  lemma OneFirstName(bs: seq<Block>, i: int, j: int)
    requires IsFirstName(bs, i) && IsFirstName(bs, j)
    ensures i == j
  {
  }

  /** One element of a ForwardingHint: a Name or a Delegation gives one name or is rejected; others give
      none, and are rejected if critical. */
  lemma HintNameExactly(b: Block)
    ensures b.typ in {7, 31} ==>
              && (HintName(b).Some? <==> exists name :: GivesName(b, name))
              && forall name :: GivesName(b, name) ==> HintName(b) == Some([name])
    ensures b.typ !in {7, 31} ==> HintName(b) == if IsCritical(b.typ) then None else Some([])
  {
    hide ParseBlocks;
    hide FirstName;
    if b.typ == 7 && ParseBlocks(b.value).Some? {
      assert GivesName(b, ParseBlocks(b.value).value);
    }
    if b.typ == 31 && ParseBlocks(b.value).Some? {
      var bs := ParseBlocks(b.value).value;
      FirstNameIs(bs);
      if FirstName(bs).Some? {
        var i :| IsFirstName(bs, i) && bs[i].value == FirstName(bs).value;
        forall j | IsFirstName(bs, j)
          ensures j == i
        {
          OneFirstName(bs, i, j);
        }
        hide IsFirstName;
        if ParseBlocks(bs[i].value).Some? {
          assert GivesName(b, ParseBlocks(bs[i].value).value);
        }
      }
    }
  }

  ghost predicate IsHint(b: Block) {
    if b.typ in {7, 31} then exists name :: GivesName(b, name) else !IsCritical(b.typ)
  }

  /** names are those that the elements give, in order. */
  ghost predicate GiveNames(bs: seq<Block>, names: seq<Name>)
    decreases |bs|
  {
    if bs == [] then names == []
    else
      var b, front := bs[|bs| - 1], bs[..|bs| - 1];
      if b.typ in {7, 31} then
        names != [] && GivesName(b, names[|names| - 1]) && GiveNames(front, names[..|names| - 1])
      else GiveNames(front, names)
  }

  ghost predicate AllHints(bs: seq<Block>) {
    forall i :: 0 <= i < |bs| ==> IsHint(bs[i])
  }

  lemma AllHintsNext(front: seq<Block>, b: Block)
    ensures AllHints(front + [b]) <==> AllHints(front) && IsHint(b)
  {
    hide IsHint;
    var bs := front + [b];
    assert bs[|front|] == b && forall i :: 0 <= i < |front| ==> bs[i] == front[i];
  }

  /** The last element gives one more name, or none. */
  lemma GiveNamesNext(front: seq<Block>, b: Block, names: seq<Name>)
    requires GiveNames(front, names)
    ensures b.typ !in {7, 31} ==> GiveNames(front + [b], names)
    ensures b.typ in {7, 31} ==> forall name :: GivesName(b, name) ==> GiveNames(front + [b], names + [name])
  {
    hide GivesName;
    var bs := front + [b];
    assert bs[..|bs| - 1] == front;
    assert forall name :: (names + [name])[..|names|] == names;
  }

  /** A ForwardingHint is accepted exactly if every element of it is, and gives their names in order. */
  lemma {:induction false} HintExactly(bs: seq<Block>)
    ensures HintNames(bs).Some? <==> AllHints(bs)
    ensures HintNames(bs).Some? ==> GiveNames(bs, HintNames(bs).value)
    decreases |bs|
  {
    hide HintName;
    hide GivesName;
    if bs != [] {
      var n := |bs| - 1;
      HintExactly(bs[..n]);
      HintNameExactly(bs[n]);
      AllHintsNext(bs[..n], bs[n]);
      assert bs[..n] + [bs[n]] == bs;
      hide AllHints;
      if HintNames(bs).Some? {
        var names := HintNames(bs[..n]).value;
        GiveNamesNext(bs[..n], bs[n], names);
        hide GiveNames;
        assert names + [] == names;
      }
    }
  }

  ghost predicate HintAccepted(value: Bytes) {
    ParseBlocks(value).Some? && AllHints(ParseBlocks(value).value)
  }

  // ---- the elements after the Name ----

  /** Place in the order of the specification: CanBePrefix, MustBeFresh, ForwardingHint, Nonce,
      InterestLifetime, HopLimit, ApplicationParameters. Unknown types have none. */
  function Place(t: nat): nat {
    match t
    case 33 => 2
    case 18 => 3
    case 30 => 4
    case 10 => 5
    case 12 => 6
    case 34 => 7
    case 36 => 8
    case _ => 0
  }

  /** Something at the place or beyond came before element i. */
  predicate Passed(last: nat, bs: seq<Block>, i: nat, place: nat)
    requires i <= |bs|
  {
    last >= place || exists j :: 0 <= j < i && Place(bs[j].typ) >= place
  }

  ghost predicate HasShape(b: Block) {
    && (b.typ in {33, 18} ==> b.value == [])
    && (b.typ == 30 ==> HintAccepted(b.value))
    && (b.typ == 10 ==> |b.value| == 4)
    && (b.typ == 12 ==> |b.value| in {1, 2, 4, 8})
    && (b.typ == 34 ==> |b.value| == 1)
  }

  /** Element i is accepted: an unknown one if it is not critical; HopLimit and ApplicationParameters out of
      order, unseen; every other one in its place and of its shape. */
  ghost predicate IsAccepted(last: nat, bs: seq<Block>, i: nat)
    requires i < |bs|
  {
    var place := Place(bs[i].typ);
    if place == 0 then !IsCritical(bs[i].typ)
    else if place >= 7 && Passed(last, bs, i, place) then true
    else !Passed(last, bs, i, place) && HasShape(bs[i])
  }

  lemma ElementExactly(p: Progress, b: Block)
    ensures DecodeElement(p, b).Some? <==> IsAccepted(p.last, [b], 0)
    ensures DecodeElement(p, b).Some? ==> DecodeElement(p, b).value.last == Max(p.last, Place(b.typ))
  {
    hide ParseBlocks;
    hide HintNames;
    hide AllHints;
    if ParseBlocks(b.value).Some? {
      HintExactly(ParseBlocks(b.value).value);
    }
  }

  function Max(a: nat, b: nat): nat {
    if a < b then b else a
  }

  lemma PassedNext(last: nat, bs: seq<Block>, i: nat, place: nat)
    requires 0 < i <= |bs|
    ensures Passed(last, bs, i, place) <==> Passed(Max(last, Place(bs[0].typ)), bs[1..], i - 1, place)
  {
    hide Place;
    if j :| 0 <= j < i && Place(bs[j].typ) >= place {
      if j > 0 {
        assert bs[1..][j - 1] == bs[j];
      }
    }
    if j :| 0 <= j < i - 1 && Place(bs[1..][j].typ) >= place {
      assert bs[1..][j] == bs[j + 1];
    }
  }

  /** The elements are accepted exactly if each of them is. */
  lemma {:induction false} ElementsExactly(p: Progress, bs: seq<Block>)
    ensures DecodeElements(p, bs).Some? <==> forall i :: 0 <= i < |bs| ==> IsAccepted(p.last, bs, i)
    decreases |bs|
  {
    hide DecodeElement;
    hide Passed;
    hide Place;
    hide HasShape;
    hide IsCritical;
    if bs != [] {
      ElementExactly(p, bs[0]);
      SameAlone(p.last, bs);
      if DecodeElement(p, bs[0]).Some? {
        var q := DecodeElement(p, bs[0]).value;
        ElementsExactly(q, bs[1..]);
        forall i | 0 < i < |bs|
          ensures IsAccepted(p.last, bs, i) <==> IsAccepted(q.last, bs[1..], i - 1)
        {
          PassedNext(p.last, bs, i, Place(bs[i].typ));
        }
        hide IsAccepted;
        assert forall i :: 0 <= i < |bs[1..]| ==> bs[1..][i] == bs[i + 1];
        assert (forall i :: 0 <= i < |bs[1..]| ==> IsAccepted(q.last, bs[1..], i))
               <==> (forall i :: 0 < i < |bs| ==> IsAccepted(p.last, bs, i)) by {
          if forall i :: 0 < i < |bs| ==> IsAccepted(p.last, bs, i) {
            forall i | 0 <= i < |bs[1..]|
              ensures IsAccepted(q.last, bs[1..], i)
            {
              assert IsAccepted(p.last, bs, i + 1);
            }
          }
        }
      }
    }
  }

  lemma SameAlone(last: nat, bs: seq<Block>)
    requires bs != []
    ensures IsAccepted(last, bs, 0) <==> IsAccepted(last, [bs[0]], 0)
  {
    hide Place;
    hide HasShape;
  }

  // ---- what the elements mean ----

  /** Element i is the one that sets its field. */
  predicate IsTaken(last: nat, bs: seq<Block>, i: nat)
    requires i < |bs|
  {
    Place(bs[i].typ) > 0 && !Passed(last, bs, i, Place(bs[i].typ))
  }

  /** A 64-bit number as a signed count of milliseconds. */
  function Signed(n: nat): int {
    if n < 0x8000_0000_0000_0000 then n else n - 0x1_0000_0000_0000_0000
  }

  /** The field of the element has the value of the element. */
  ghost predicate Shows(b: Block, f: Fields) {
    match b.typ
    case 33 => f.canBePrefix
    case 18 => f.mustBeFresh
    case 30 => ParseBlocks(b.value).Some? && GiveNames(ParseBlocks(b.value).value, f.forwardingHint)
    case 10 => f.nonce == Some(b.value)
    case 12 => f.lifetime == Signed(FromBigEndian(b.value))
    case 34 => |b.value| == 1 && f.hopLimit == Some(b.value[0])
    case _ => true
  }

  /** The field for type t is the same. */
  predicate SameField(t: nat, f: Fields, g: Fields) {
    match t
    case 33 => f.canBePrefix == g.canBePrefix
    case 18 => f.mustBeFresh == g.mustBeFresh
    case 30 => f.forwardingHint == g.forwardingHint
    case 10 => f.nonce == g.nonce
    case 12 => f.lifetime == g.lifetime
    case 34 => f.hopLimit == g.hopLimit
    case _ => true
  }

  predicate NoneTaken(last: nat, bs: seq<Block>, t: nat) {
    forall i :: 0 <= i < |bs| && bs[i].typ == t ==> !IsTaken(last, bs, i)
  }

  lemma ElementShows(p: Progress, b: Block)
    requires DecodeElement(p, b).Some?
    ensures var f := DecodeElement(p, b).value.f;
            && f.name == p.f.name
            && (IsTaken(p.last, [b], 0) ==> Shows(b, f))
            && forall t :: !(b.typ == t && IsTaken(p.last, [b], 0)) ==> SameField(t, p.f, f)
  {
    hide ParseBlocks;
    hide HintNames;
    hide GiveNames;
    if ParseBlocks(b.value).Some? {
      HintExactly(ParseBlocks(b.value).value);
    }
  }

  lemma TakenNext(last: nat, bs: seq<Block>, i: nat)
    requires 0 < i < |bs|
    ensures IsTaken(last, bs, i) <==> IsTaken(Max(last, Place(bs[0].typ)), bs[1..], i - 1)
  {
    hide Passed;
    hide Place;
    PassedNext(last, bs, i, Place(bs[i].typ));
  }

  lemma TakenAlone(last: nat, bs: seq<Block>)
    requires bs != []
    ensures IsTaken(last, bs, 0) <==> IsTaken(last, [bs[0]], 0)
  {
    hide Place;
  }

  lemma NoneTakenRest(last: nat, bs: seq<Block>, t: nat)
    requires bs != []
    ensures NoneTaken(last, bs, t) ==> NoneTaken(Max(last, Place(bs[0].typ)), bs[1..], t)
    ensures bs[0].typ == t && Place(t) > 0 ==> NoneTaken(Max(last, Place(t)), bs[1..], t)
  {
    hide Place;
    var last', rest := Max(last, Place(bs[0].typ)), bs[1..];
    forall i | 0 <= i < |rest| && rest[i].typ == t && (NoneTaken(last, bs, t) || (bs[0].typ == t && Place(t) > 0))
      ensures !IsTaken(last', rest, i)
    {
      TakenNext(last, bs, i + 1);
      assert rest[i] == bs[i + 1];
    }
  }

  lemma ShowsKept(b: Block, f: Fields, g: Fields)
    requires Shows(b, f) && SameField(b.typ, f, g)
    ensures Shows(b, g)
  {
    hide ParseBlocks;
    hide GiveNames;
  }

  /** Each field has the value of the element that is taken for it, or is as before. */
  lemma {:induction false} ElementsShow(p: Progress, bs: seq<Block>)
    requires DecodeElements(p, bs).Some?
    ensures DecodeElements(p, bs).value.f.name == p.f.name
    ensures forall i :: 0 <= i < |bs| && IsTaken(p.last, bs, i) ==> Shows(bs[i], DecodeElements(p, bs).value.f)
    ensures forall t :: NoneTaken(p.last, bs, t) ==> SameField(t, p.f, DecodeElements(p, bs).value.f)
    decreases |bs|
  {
    hide DecodeElement;
    hide IsTaken;
    hide Shows;
    hide Place;
    if bs != [] {
      var b, rest := bs[0], bs[1..];
      var q := DecodeElement(p, b).value;
      var f := DecodeElements(p, bs).value.f;
      ElementExactly(p, b);
      ElementShows(p, b);
      TakenAlone(p.last, bs);
      ElementsShow(q, rest);
      forall i | 0 <= i < |bs| && IsTaken(p.last, bs, i)
        ensures Shows(bs[i], f)
      {
        if i > 0 {
          TakenNext(p.last, bs, i);
          assert rest[i - 1] == bs[i];
        } else {
          TakenHasPlace(p.last, bs);
          NoneTakenRest(p.last, bs, b.typ);
          ShowsKept(b, q.f, f);
        }
      }
      forall t | NoneTaken(p.last, bs, t)
        ensures SameField(t, p.f, f)
      {
        NoneTakenRest(p.last, bs, t);
        SameFieldTwice(t, p.f, q.f, f);
      }
    }
  }

  lemma SameFieldTwice(t: nat, f: Fields, g: Fields, h: Fields)
    requires SameField(t, f, g) && SameField(t, g, h)
    ensures SameField(t, f, h)
  {
  }

  lemma TakenHasPlace(last: nat, bs: seq<Block>)
    requires bs != [] && IsTaken(last, bs, 0)
    ensures Place(bs[0].typ) > 0
  {
  }

  // ---- the parameters ----

  function Unknown(bs: seq<Block>): seq<Block> {
    if bs == [] then [] else (if Place(bs[0].typ) == 0 then [bs[0]] else []) + Unknown(bs[1..])
  }

  /** The first ApplicationParameters and the unknown elements after it. */
  function ParametersOf(bs: seq<Block>): seq<Block> {
    if bs == [] then []
    else if bs[0].typ == 36 then [bs[0]] + Unknown(bs[1..])
    else ParametersOf(bs[1..])
  }

  lemma ElementParameters(p: Progress, b: Block)
    requires DecodeElement(p, b).Some? && (p.last >= 8 <==> p.f.parameters != [])
    ensures var q := DecodeElement(p, b).value;
            && (q.last >= 8 <==> q.f.parameters != [])
            && q.f.parameters == (if Place(b.typ) == 0 && p.last >= 8 then p.f.parameters + [b]
                                  else if b.typ == 36 && p.last < 8 then [b]
                                  else p.f.parameters)
  {
    hide DecodeHint;
    hide DecodeLifetime;
  }

  lemma UnknownFront(ps: seq<Block>, b: Block, rest: seq<Block>)
    ensures ps + Unknown([b] + rest) == (if Place(b.typ) == 0 then ps + [b] else ps) + Unknown(rest)
  {
    assert ([b] + rest)[1..] == rest;
    assert Place(b.typ) != 0 ==> [] + Unknown(rest) == Unknown(rest);
  }

  lemma {:induction false} ElementsParameters(p: Progress, bs: seq<Block>)
    requires DecodeElements(p, bs).Some? && (p.last >= 8 <==> p.f.parameters != [])
    ensures DecodeElements(p, bs).value.f.parameters
            == if p.last >= 8 then p.f.parameters + Unknown(bs) else ParametersOf(bs)
    decreases |bs|
  {
    hide DecodeElement;
    hide Place;
    if bs == [] {
      assert p.f.parameters + [] == p.f.parameters;
    } else {
      var b, rest := bs[0], bs[1..];
      ElementParameters(p, b);
      ElementExactly(p, b);
      ElementsParameters(DecodeElement(p, b).value, rest);
      UnknownFront(p.f.parameters, b, rest);
      assert bs == [b] + rest;
      hide Unknown;
      PlaceOfParameters(b.typ);
    }
  }

  lemma PlaceOfParameters(t: nat)
    ensures Place(t) >= 8 <==> t == 36
  {
  }

  // ---- the whole packet ----

  /** The digest component, if any, is the hash of the parameters; without parameters there is none. */
  predicate DigestMatches(h: Hash, name: Name, parameters: seq<Block>) {
    && (NoDigest(name) <==> parameters == [])
    && forall i :: 0 <= i < |name| && IsDigest(name[i]) ==> name[i].value == h(EncodeBlocks(parameters))
  }

  lemma DigestExactly(h: Hash, f: Fields)
    requires AtMostOneDigest(f.name)
    ensures DigestValid(h, f) <==> DigestMatches(h, f.name, f.parameters)
  {
    hide EncodeBlocks;
    var at := DigestPositions(f.name);
    DigestPositionsMean(f.name);
    hide DigestPositions;
    forall i | at != [] && 0 <= i < |f.name| && IsDigest(f.name[i])
      ensures i == at[0]
    {
      assert IsDigest(f.name[at[0]]);
    }
  }

  /** What a wire must be: an Interest (5) that starts with a Name (7) of at least one component and at most
      one digest, with accepted elements and the digest of its parameters. */
  ghost predicate IsInterest(h: Hash, wire: Block) {
    && wire.typ == 5 && ParseBlocks(wire.value).Some?
    && var bs := ParseBlocks(wire.value).value;
       && bs != [] && bs[0].typ == 7 && ParseBlocks(bs[0].value).Some?
       && var name := ParseBlocks(bs[0].value).value;
          && name != [] && AtMostOneDigest(name)
          && (forall i :: 0 <= i < |bs[1..]| ==> IsAccepted(1, bs[1..], i))
          && DigestMatches(h, name, ParametersOf(bs[1..]))
  }

  /** `wireDecode` accepts exactly these wires, and each field has the value of the element taken for it. */
  lemma InterestExactly(h: Hash, wire: Block)
    ensures DecodeInterest(h, wire).Some? <==> IsInterest(h, wire)
    ensures DecodeInterest(h, wire).Some? ==>
              var f := DecodeInterest(h, wire).value;
              var bs := ParseBlocks(wire.value).value;
              && Some(f.name) == ParseBlocks(bs[0].value)
              && f.parameters == ParametersOf(bs[1..])
              && (forall i :: 0 <= i < |bs[1..]| && IsTaken(1, bs[1..], i) ==> Shows(bs[1..][i], f))
              && forall t :: NoneTaken(1, bs[1..], t) ==>
                   SameField(t, Fields(f.name, false, false, [], None, 4000, None, []), f)
  {
    hide ParseBlocks;
    hide DecodeElements;
    hide DigestPositions;
    hide DigestValid;
    hide DigestMatches;
    hide IsAccepted;
    hide IsTaken;
    hide Shows;
    hide ParametersOf;
    hide SameField;
    hide NoneTaken;
    if wire.typ == 5 && ParseBlocks(wire.value).Some? {
      var bs := ParseBlocks(wire.value).value;
      if bs != [] && bs[0].typ == 7 && ParseBlocks(bs[0].value).Some? {
        var name := ParseBlocks(bs[0].value).value;
        DigestPositionsMean(name);
        var p := Progress(Cleared(name), 1);
        ElementsExactly(p, bs[1..]);
        if DecodeElements(p, bs[1..]).Some? && AtMostOneDigest(name) {
          ElementsShow(p, bs[1..]);
          ElementsParameters(p, bs[1..]);
          DigestExactly(h, DecodeElements(p, bs[1..]).value.f);
        }
      }
    }
  }
}
