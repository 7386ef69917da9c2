/** Canonical order of name components and names. */
module CanonicalOrder {
  import opened Basics
  import opened Tlv

  const MAX_COMPONENT_TYPE: nat := 65535

  type Component = Block

  /** What every Component constructor checks, for a value that fits the address space. */
  predicate IsComponent(c: Component) {
    0 < c.typ <= MAX_COMPONENT_TYPE && |c.value| < M64
  }

  type Name = seq<Component>

  /** `wireEncode`. */
  function Wire(c: Component): Bytes
    requires IsComponent(c)
  {
    Encode(c.typ, c.value)
  }

  function Sign(d: int): (r: int)
    ensures r in {-1, 0, 1}
  {
    if d < 0 then -1 else if d > 0 then 1 else 0
  }

  // ---- memcmp ----

  /** The sign of `memcmp` over the shorter of two buffers. */
  function MemCmp(a: Bytes, b: Bytes): (r: int)
    ensures r in {-1, 0, 1}
    decreases |a|
  {
    if a == [] || b == [] then 0
    else if a[0] != b[0] then Sign(a[0] as int - b[0] as int)
    else MemCmp(a[1..], b[1..])
  }

  lemma {:induction false} MemCmpCommonPrefix(p: Bytes, a: Bytes, b: Bytes)
    ensures MemCmp(p + a, p + b) == MemCmp(a, b)
  {
    if p == [] {
      assert p + a == a && p + b == b;
    } else {
      MemCmpCommonPrefix(p[1..], a, b);
      assert (p + a)[1..] == p[1..] + a;
      assert (p + b)[1..] == p[1..] + b;
    }
  }

  /** A difference decides, whatever follows. */
  lemma {:induction false} MemCmpDecided(a: Bytes, b: Bytes, x: Bytes, y: Bytes)
    requires MemCmp(a, b) != 0
    ensures MemCmp(a + x, b + y) == MemCmp(a, b)
  {
    if a[0] == b[0] {
      MemCmpDecided(a[1..], b[1..], x, y);
      assert (a + x)[1..] == a[1..] + x;
      assert (b + y)[1..] == b[1..] + y;
    }
  }

  lemma {:induction false} MemCmpZero(a: Bytes, b: Bytes)
    requires |a| == |b|
    ensures MemCmp(a, b) == 0 <==> a == b
  {
    if a != [] && a[0] == b[0] {
      MemCmpZero(a[1..], b[1..]);
      assert a == [a[0]] + a[1..];
      assert b == [b[0]] + b[1..];
    }
  }

  lemma {:induction false} MemCmpFlip(a: Bytes, b: Bytes)
    ensures MemCmp(b, a) == -MemCmp(a, b)
  {
    if a != [] && b != [] && a[0] == b[0] {
      MemCmpFlip(a[1..], b[1..]);
    }
  }

  lemma {:induction false} MemCmpTransitive(a: Bytes, b: Bytes, c: Bytes)
    requires |a| == |b| == |c| && MemCmp(a, b) <= 0 && MemCmp(b, c) <= 0
    ensures MemCmp(a, c) <= 0
    ensures MemCmp(a, b) < 0 || MemCmp(b, c) < 0 ==> MemCmp(a, c) < 0
  {
    if a != [] && a[0] == b[0] && b[0] == c[0] {
      MemCmpTransitive(a[1..], b[1..], c[1..]);
    }
  }

  // ---- numbers in wire format keep their order ----

  lemma {:induction false} BigEndianOrder(m: nat, n: nat, k: nat)
    requires m < n < Power256(k)
    ensures MemCmp(BigEndian(m, k), BigEndian(n, k)) == -1
  {
    if k > 0 {
      var a, b := BigEndian(m / 256, k - 1), BigEndian(n / 256, k - 1);
      if m / 256 < n / 256 {
        BigEndianOrder(m / 256, n / 256, k - 1);
        MemCmpDecided(a, b, [m % 256], [n % 256]);
      } else {
        assert m / 256 == n / 256;
        MemCmpCommonPrefix(a, [m % 256], [n % 256]);
      }
    }
  }

  lemma VarOrder(m: u64, n: u64)
    requires m < n
    ensures MemCmp(EncodeVar(m), EncodeVar(n)) == -1
  {
    Powers();
    var a, b := EncodeVar(m), EncodeVar(n);
    if a[0] == b[0] && n >= 253 {
      var k := ExtraSize(a[0]);
      BigEndianOrder(m, n, k);
      assert a[1..] == BigEndian(m, k) && b[1..] == BigEndian(n, k);
    }
  }

  // ---- components ----

  /** Canonical order: by type, then by length, then by octets. */
  function Canonical(a: Component, b: Component): (r: int)
    ensures r in {-1, 0, 1}
  {
    if a.typ != b.typ then Sign(a.typ - b.typ)
    else if |a.value| != |b.value| then Sign(|a.value| - |b.value|)
    else MemCmp(a.value, b.value)
  }

  lemma HeadDecides(m: u64, n: u64, x: Bytes, y: Bytes)
    ensures m != n ==> MemCmp(EncodeVar(m) + x, EncodeVar(n) + y) == Sign(m - n)
    ensures m == n ==> MemCmp(EncodeVar(m) + x, EncodeVar(n) + y) == MemCmp(x, y)
  {
    if m < n {
      VarOrder(m, n);
      MemCmpDecided(EncodeVar(m), EncodeVar(n), x, y);
    } else if m > n {
      VarOrder(n, m);
      MemCmpFlip(EncodeVar(n), EncodeVar(m));
      MemCmpDecided(EncodeVar(m), EncodeVar(n), x, y);
    } else {
      MemCmpCommonPrefix(EncodeVar(m), x, y);
    }
  }

  /** The fast path of `compare`: comparing the wires over the shorter one is canonical order, and
      gives zero only for equal components. */
  lemma WireOrder(a: Component, b: Component)
    requires IsComponent(a) && IsComponent(b)
    ensures MemCmp(Wire(a), Wire(b)) == Canonical(a, b)
    ensures MemCmp(Wire(a), Wire(b)) == 0 <==> a == b
  {
    var la, lb := EncodeVar(|a.value|), EncodeVar(|b.value|);
    assert Wire(a) == EncodeVar(a.typ) + (la + a.value);
    assert Wire(b) == EncodeVar(b.typ) + (lb + b.value);
    HeadDecides(a.typ, b.typ, la + a.value, lb + b.value);
    HeadDecides(|a.value|, |b.value|, a.value, b.value);
    if |a.value| == |b.value| {
      MemCmpZero(a.value, b.value);
    }
  }

  // ---- wires that are not minimal ----

  /** The component that a received wire stands for. */
  function BlockOf(wire: Bytes): Component
    requires IsElement(wire)
  {
    var e := ReadElement(wire).value;
    Block(e.typ, wire[e.head..])
  }

  lemma {:induction false} BigEndianInverse(bs: Bytes)
    ensures BigEndian(FromBigEndian(bs), |bs|) == bs
  {
    if bs != [] {
      var n := |bs| - 1;
      BigEndianInverse(bs[..n]);
      var m := FromBigEndian(bs[..n]);
      assert (256 * m + bs[n]) / 256 == m && (256 * m + bs[n]) % 256 == bs[n];
      assert bs == bs[..n] + [bs[n]];
    }
  }

  /** A VAR-NUMBER that is not minimal differs from the minimal one in its first octet. */
  lemma VarMinimal(bs: Bytes)
    requires ReadVar(bs).Some?
    ensures var v := ReadVar(bs).value; bs[..v.size] == EncodeVar(v.value) || bs[0] != EncodeVar(v.value)[0]
  {
    var v := ReadVar(bs).value;
    var k := ExtraSize(bs[0]);
    if k > 0 && bs[0] == EncodeVar(v.value)[0] {
      BigEndianInverse(bs[1..1 + k]);
      assert bs[..1 + k] == [bs[0]] + bs[1..1 + k];
    }
  }

  lemma MinimalVsWire(wire: Bytes)
    requires IsElement(wire) && IsComponent(BlockOf(wire))
    ensures MemCmp(wire, Wire(BlockOf(wire))) == 0 <==> wire == Wire(BlockOf(wire))
  {
    var c, w := BlockOf(wire), Wire(BlockOf(wire));
    var t := ReadVar(wire).value;
    var rest := wire[t.size..];
    var l := ReadVar(rest).value;
    var et, el := EncodeVar(c.typ), EncodeVar(|c.value|);
    assert w == et + (el + c.value) && w[0] == et[0];
    VarMinimal(wire);
    VarMinimal(rest);
    if wire[..t.size] == et {
      assert wire == et + rest;
      MemCmpCommonPrefix(et, rest, el + c.value);
      if rest[..l.size] == el {
        assert rest == el + c.value;
        MemCmpZero(wire, w);
      } else {
        assert rest[0] != (el + c.value)[0];
      }
    }
  }

  /** The fast path on a received wire is canonical order against all components exactly when the
      wire is minimal; the decoder also accepts others. */
  lemma FastPathExactly(wire: Bytes)
    requires IsElement(wire) && IsComponent(BlockOf(wire))
    ensures (forall b: Component :: IsComponent(b) ==> MemCmp(wire, Wire(b)) == Canonical(BlockOf(wire), b))
            <==> wire == Wire(BlockOf(wire))
  {
    hide Wire;
    hide MemCmp;
    hide IsElement;
    hide Canonical;
    var a := BlockOf(wire);
    MinimalVsWire(wire);
    WireOrder(a, a);
    if wire == Wire(a) {
      forall b: Component | IsComponent(b)
        ensures MemCmp(wire, Wire(b)) == Canonical(a, b)
      {
        WireOrder(a, b);
      }
    }
  }

  /** Such a wire: the length 1 in three octets. The two wires stand for the same component. */
  lemma NotMinimal()
    ensures exists v: Bytes, w: Bytes :: IsElement(v) && IsElement(w) && BlockOf(v) == BlockOf(w) && MemCmp(v, w) != 0
  {
    var v: Bytes, w: Bytes := [8, 1, 65], [8, 253, 0, 1, 65];
    assert v[1..] == [1, 65] && w[1..] == [253, 0, 1, 65];
    assert w[1..][1..3] == [0, 1] && [0 as byte, 1][..1] == [0] && [0 as byte][..0] == [];
    assert FromBigEndian([0]) == 0 && FromBigEndian([0, 1]) == 1;
    assert ReadElement(v) == Some(Element(8, 2, 1));
    assert ReadElement(w) == Some(Element(8, 4, 1));
    assert v[2..] == [65] == w[4..];
    assert BlockOf(v) == BlockOf(w);
    assert MemCmp(v, w) != 0;
  }

  // ---- the slow path ----

  const M31: int := 0x8000_0000

  /** Conversion of a `size_t` difference to `int`. */
  function ToInt(d: int): (r: int)
    ensures -M31 <= r < M31
  {
    var m := d % M32;
    if m < M31 then m else m - M32
  }

  /** The slow path of `compare`, for values less than 4 GiB long. */
  function SlowCompare(a: Component, b: Component): int
    requires |a.value| < M32 && |b.value| < M32
  {
    var cmpType := ToInt(a.typ - b.typ);
    if cmpType != 0 then cmpType
    else
      var cmpSize := ToInt(|a.value| - |b.value|);
      if cmpSize != 0 then cmpSize else if a.value == [] then 0 else MemCmp(a.value, b.value)
  }

  lemma IntSign(d: int)
    requires 0 - M32 < d < M32
    ensures ToInt(d) == 0 <==> d == 0
    ensures Sign(ToInt(d)) == Sign(d) <==> -M31 <= d < M31
  {
    if d < 0 {
      assert d % M32 == d + M32;
    }
  }

  /** The slow path agrees with canonical order exactly unless the types are equal and the lengths
      differ by 2^31 or more, where the difference does not fit into an `int`. */
  lemma SlowPathOrder(a: Component, b: Component)
    requires IsComponent(a) && IsComponent(b) && |a.value| < M32 && |b.value| < M32
    ensures Sign(SlowCompare(a, b)) == Canonical(a, b) <==>
            a.typ != b.typ || -M31 <= |a.value| - |b.value| < M31
    ensures SlowCompare(a, b) == 0 <==> a == b
  {
    IntSign(a.typ - b.typ);
    IntSign(|a.value| - |b.value|);
    if |a.value| == |b.value| {
      MemCmpZero(a.value, b.value);
    }
  }

  /** It does disagree: 2^31 octets against none. */
  lemma SlowPathTruncates()
    ensures exists a: Component, b: Component ::
              && IsComponent(a) && IsComponent(b) && |a.value| < M32 && |b.value| < M32
              && Canonical(a, b) == 1 && SlowCompare(a, b) < 0
  {
    var a, b := Block(8, seq(0x8000_0000, _ => 0)), Block(8, []);
    SlowPathOrder(a, b);
    assert Canonical(a, b) == 1 && SlowCompare(a, b) < 0;
  }

  lemma CanonicalOrder(a: Component, b: Component, c: Component)
    ensures Canonical(a, b) == 0 <==> a == b
    ensures Canonical(b, a) == -Canonical(a, b)
    ensures Canonical(a, b) <= 0 && Canonical(b, c) <= 0 ==> Canonical(a, c) <= 0
    ensures Canonical(a, b) <= 0 && Canonical(b, c) <= 0 && (Canonical(a, b) < 0 || Canonical(b, c) < 0) ==>
              Canonical(a, c) < 0
  {
    if |a.value| == |b.value| {
      MemCmpZero(a.value, b.value);
      MemCmpFlip(a.value, b.value);
    }
    if |a.value| == |b.value| == |c.value| && MemCmp(a.value, b.value) <= 0 && MemCmp(b.value, c.value) <= 0 {
      MemCmpTransitive(a.value, b.value, c.value);
    }
  }

  // ---- names ----

  /** Names in canonical order: the first component that differs decides, then the length. */
  function NameOrder(a: Name, b: Name): (r: int)
    ensures r in {-1, 0, 1}
    decreases |a|
  {
    if a == [] || b == [] then Sign(|a| - |b|)
    else if Canonical(a[0], b[0]) != 0 then Canonical(a[0], b[0])
    else NameOrder(a[1..], b[1..])
  }

  lemma {:induction false} NameTotalOrder(a: Name, b: Name)
    ensures NameOrder(a, b) == 0 <==> a == b
    ensures NameOrder(b, a) == -NameOrder(a, b)
    decreases |a|
  {
    if a != [] && b != [] {
      CanonicalOrder(a[0], b[0], b[0]);
      NameTotalOrder(a[1..], b[1..]);
      assert a == [a[0]] + a[1..] && b == [b[0]] + b[1..];
    }
  }

  lemma {:induction false} NameTransitive(a: Name, b: Name, c: Name)
    requires NameOrder(a, b) <= 0 && NameOrder(b, c) <= 0
    ensures NameOrder(a, c) <= 0
    decreases |a|
  {
    if a != [] && b != [] && c != [] {
      CanonicalOrder(a[0], b[0], c[0]);
      CanonicalOrder(b[0], c[0], a[0]);
      if a[0] == b[0] && b[0] == c[0] {
        NameTransitive(a[1..], b[1..], c[1..]);
      }
    }
  }

  /** Names with a common prefix are contiguous: whatever lies between two of them has it too. */
  lemma {:induction false} PrefixContiguous(p: Name, a: Name, b: Name, c: Name)
    requires p <= a && p <= c && NameOrder(a, b) <= 0 && NameOrder(b, c) <= 0
    ensures p <= b
    decreases |p|
  {
    if p != [] {
      assert b != [];
      CanonicalOrder(a[0], b[0], c[0]);
      CanonicalOrder(b[0], c[0], a[0]);
      CanonicalOrder(a[0], c[0], b[0]);
      assert a[0] == p[0] == c[0];
      assert p[1..] <= a[1..] && p[1..] <= c[1..];
      PrefixContiguous(p[1..], a[1..], b[1..], c[1..]);
      assert b == [b[0]] + b[1..] && p == [p[0]] + p[1..];
    }
  }

  /** A name comes before every longer name that starts with it. */
  lemma {:induction false} PrefixFirst(p: Name, a: Name)
    requires p <= a
    ensures NameOrder(p, a) <= 0
    decreases |p|
  {
    if p != [] {
      CanonicalOrder(p[0], a[0], a[0]);
      PrefixFirst(p[1..], a[1..]);
    }
  }

  // ---- the order without recursion ----

  /** The first difference is at i. */
  predicate DiffersAt<T(==)>(a: seq<T>, b: seq<T>, i: int) {
    0 <= i < |a| && i < |b| && a[..i] == b[..i] && a[i] != b[i]
  }

  lemma DifferenceNext<T>(a: seq<T>, b: seq<T>, i: int)
    requires a != [] && b != [] && a[0] == b[0]
    ensures DiffersAt(a[1..], b[1..], i) ==> DiffersAt(a, b, i + 1)
    ensures DiffersAt(a, b, i) ==> i > 0 && DiffersAt(a[1..], b[1..], i - 1)
  {
    if DiffersAt(a[1..], b[1..], i) {
      assert a[..i + 1] == [a[0]] + a[1..][..i];
      assert b[..i + 1] == [b[0]] + b[1..][..i];
    }
    if DiffersAt(a, b, i) {
      assert a[1..][..i - 1] == a[..i][1..];
      assert b[1..][..i - 1] == b[..i][1..];
    }
  }

  /** The first octet that differs decides, as an unsigned number. */
  lemma {:induction false} MemCmpExactly(a: Bytes, b: Bytes, i: int)
    requires DiffersAt(a, b, i)
    ensures MemCmp(a, b) == if a[i] < b[i] then -1 else 1
  {
    if i > 0 {
      assert a[0] == a[..i][0] == b[..i][0] == b[0];
      DifferenceNext(a, b, i);
      MemCmpExactly(a[1..], b[1..], i - 1);
    }
  }

  /** Component a comes before b: a smaller type; or the same type and fewer octets; or as many octets, and
      the first octet that differs is smaller. */
  ghost predicate Before(a: Component, b: Component) {
    || a.typ < b.typ
    || (a.typ == b.typ && |a.value| < |b.value|)
    || (a.typ == b.typ && |a.value| == |b.value|
        && exists i :: DiffersAt(a.value, b.value, i) && a.value[i] < b.value[i])
  }

  lemma {:induction false} FirstDifference<T>(a: seq<T>, b: seq<T>) returns (i: int)
    requires a != b && |a| == |b|
    ensures DiffersAt(a, b, i)
  {
    if a[0] != b[0] {
      i := 0;
    } else {
      assert a == [a[0]] + a[1..] && b == [b[0]] + b[1..];
      i := FirstDifference(a[1..], b[1..]);
      DifferenceNext(a, b, i);
      i := i + 1;
    }
  }

  lemma CanonicalExactly(a: Component, b: Component)
    ensures Canonical(a, b) == -1 <==> Before(a, b)
    ensures Canonical(a, b) == 1 <==> Before(b, a)
  {
    if a.typ == b.typ && |a.value| == |b.value| {
      MemCmpZero(a.value, b.value);
      hide MemCmp;
      if a.value != b.value {
        var i := FirstDifference(a.value, b.value);
        MemCmpExactly(a.value, b.value, i);
        assert DiffersAt(b.value, a.value, i);
        OneDifference(a.value, b.value, i);
      }
    }
  }

  lemma AgreeBefore<T>(a: seq<T>, b: seq<T>, i: int)
    requires DiffersAt(a, b, i)
    ensures forall k :: 0 <= k < i ==> a[k] == b[k]
  {
    assert forall k :: 0 <= k < i ==> a[k] == a[..i][k] && b[k] == b[..i][k];
  }

  lemma OneDifference<T>(a: seq<T>, b: seq<T>, i: int)
    requires DiffersAt(a, b, i)
    ensures forall j :: DiffersAt(a, b, j) || DiffersAt(b, a, j) ==> j == i
  {
    forall j | DiffersAt(a, b, j) || DiffersAt(b, a, j)
      ensures j == i
    {
      AgreeBefore(a, b, i);
      if DiffersAt(a, b, j) {
        AgreeBefore(a, b, j);
      } else {
        AgreeBefore(b, a, j);
      }
    }
  }

  /** Name a comes before b: it is a proper prefix, or the first component that differs comes before. */
  ghost predicate NameBefore(a: Name, b: Name) {
    a < b || exists i :: DiffersAt(a, b, i) && Before(a[i], b[i])
  }

  lemma {:induction false} NameOrderExactly(a: Name, b: Name)
    ensures NameOrder(a, b) == -1 <==> NameBefore(a, b)
    decreases |a|
  {
    hide Before;
    hide Canonical;
    if a != [] && b != [] {
      CanonicalExactly(a[0], b[0]);
      CanonicalOrder(a[0], b[0], b[0]);
      if a[0] == b[0] {
        NameOrderExactly(a[1..], b[1..]);
        BeforeNext(a, b);
      } else {
        assert DiffersAt(a, b, 0);
        OneDifference(a, b, 0);
      }
    }
  }

  lemma BeforeNext(a: Name, b: Name)
    requires a != [] && b != [] && a[0] == b[0]
    ensures NameBefore(a, b) <==> NameBefore(a[1..], b[1..])
  {
    hide Before;
    assert a == [a[0]] + a[1..] && b == [b[0]] + b[1..];
    assert a < b <==> a[1..] < b[1..];
    if i :| DiffersAt(a, b, i) && Before(a[i], b[i]) {
      DifferenceNext(a, b, i);
      assert DiffersAt(a[1..], b[1..], i - 1) && a[1..][i - 1] == a[i];
    }
    if i :| DiffersAt(a[1..], b[1..], i) && Before(a[1..][i], b[1..][i]) {
      DifferenceNext(a, b, i);
      assert DiffersAt(a, b, i + 1) && a[1..][i] == a[i + 1];
    }
  }

  // ---- the loops of Name ----

  /** A component as an object: with its wire, if it has one. */
  datatype Held = Held(block: Component, wire: Option<Bytes>)

  predicate IsHeld(c: Held) {
    && IsComponent(c.block) && |c.block.value| < M32
    && (c.wire.Some? ==> IsElement(c.wire.value) && BlockOf(c.wire.value) == c.block)
  }

  /** `Component::compare`: the fast path if both components have wires. */
  function CompareHeld(a: Held, b: Held): int
    requires IsHeld(a) && IsHeld(b)
  {
    if a.wire.Some? && b.wire.Some? then MemCmp(a.wire.value, b.wire.value) else SlowCompare(a.block, b.block)
  }

  /** A component for which both paths are canonical: a minimal wire or none, and less than 2 GiB. */
  predicate IsOrdinary(c: Held) {
    IsHeld(c) && |c.block.value| < M31 && (c.wire.Some? ==> c.wire.value == Wire(c.block))
  }

  lemma OrdinaryCompare(a: Held, b: Held)
    requires IsOrdinary(a) && IsOrdinary(b)
    ensures Sign(CompareHeld(a, b)) == Canonical(a.block, b.block)
  {
    hide MemCmp;
    hide SlowCompare;
    hide Canonical;
    WireOrder(a.block, b.block);
    SlowPathOrder(a.block, b.block);
  }

  predicate AllHeld(n: seq<Held>) {
    forall i :: 0 <= i < |n| ==> IsHeld(n[i])
  }

  predicate AllOrdinary(n: seq<Held>) {
    forall i :: 0 <= i < |n| ==> IsOrdinary(n[i])
  }

  function Blocks(n: seq<Held>): (r: Name)
    ensures |r| == |n| && forall i :: 0 <= i < |r| ==> r[i] == n[i].block
  {
    seq(|n|, i requires 0 <= i < |n| => n[i].block)
  }

  /** What the loop computes: the first component that differs decides, then the counts as an `int`. */
  function HeldOrder(a: seq<Held>, b: seq<Held>): int
    requires AllHeld(a) && AllHeld(b)
    decreases |a|
  {
    if a == [] || b == [] then ToInt(|a| - |b|)
    else if CompareHeld(a[0], b[0]) != 0 then CompareHeld(a[0], b[0])
    else HeldOrder(a[1..], b[1..])
  }

  /** Names of ordinary components compare in canonical order, exactly unless one is a prefix of the other
      and longer by 2^31 components or more. */
  lemma {:induction false} HeldNameOrder(a: seq<Held>, b: seq<Held>)
    requires AllOrdinary(a) && AllOrdinary(b) && |a| < M32 && |b| < M32
    ensures AllHeld(a) && AllHeld(b)
    ensures Sign(HeldOrder(a, b)) == NameOrder(Blocks(a), Blocks(b)) <==>
            || !(Blocks(a) <= Blocks(b) || Blocks(b) <= Blocks(a))
            || -M31 <= |a| - |b| < M31
    decreases |a|
  {
    hide CompareHeld;
    hide IsOrdinary;
    OrdinaryHeld(a);
    OrdinaryHeld(b);
    if a == [] || b == [] {
      IntSign(|a| - |b|);
    } else {
      OrdinaryCompare(a[0], b[0]);
      CanonicalOrder(a[0].block, b[0].block, b[0].block);
      var x, y := Blocks(a), Blocks(b);
      assert x[1..] == Blocks(a[1..]) && y[1..] == Blocks(b[1..]);
      if a[0].block == b[0].block {
        HeldNameOrder(a[1..], b[1..]);
        assert x <= y <==> x[1..] <= y[1..];
        assert y <= x <==> y[1..] <= x[1..];
      }
    }
  }

  /** It does disagree: 2^31 components against none. */
  lemma NameCountTruncates()
    ensures exists a: seq<Held>, b: seq<Held> ::
              && AllOrdinary(a) && AllOrdinary(b) && |a| < M32 && |b| < M32 && AllHeld(a) && AllHeld(b)
              && NameOrder(Blocks(a), Blocks(b)) == 1 && HeldOrder(a, b) < 0
  {
    var c := Held(Block(8, []), None);
    var a, b := seq(0x8000_0000, _ => c), [];
    assert IsOrdinary(c);
    assert forall i :: 0 <= i < |a| ==> a[i] == c;
    OrdinaryHeld(a);
    assert NameOrder(Blocks(a), Blocks(b)) == 1;
    assert HeldOrder(a, b) == ToInt(|a|) < 0;
  }

  lemma OrdinaryHeld(n: seq<Held>)
    requires AllOrdinary(n)
    ensures AllHeld(n)
  {
  }

  /** `Name::compare` on parts of two names: at most count components from a position on. */
  method Compare(name: seq<Held>, pos1: nat, count1: nat, other: seq<Held>, pos2: nat, count2: nat) returns (r: int)
    requires AllHeld(name) && AllHeld(other) && pos1 <= |name| && pos2 <= |other|
    ensures r == HeldOrder(name[pos1..if pos1 + count1 < |name| then pos1 + count1 else |name|],
                           other[pos2..if pos2 + count2 < |other| then pos2 + count2 else |other|])
  {
    hide CompareHeld;
    hide IsHeld;
    var n1 := Min(count1, |name| - pos1);
    var n2 := Min(count2, |other| - pos2);
    var count := Min(n1, n2);
    ghost var a, b := name[pos1..pos1 + n1], other[pos2..pos2 + n2];
    var i := 0;
    while i < count
      invariant 0 <= i <= count
      invariant HeldOrder(a, b) == HeldOrder(a[i..], b[i..])
    {
      var comp := CompareHeld(name[pos1 + i], other[pos2 + i]);
      assert a[i..][0] == name[pos1 + i] && b[i..][0] == other[pos2 + i];
      assert a[i..][1..] == a[i + 1..] && b[i..][1..] == b[i + 1..];
      if comp != 0 {
        return comp;
      }
      i := i + 1;
    }
    return ToInt(n1 - n2);
  }

  method IsPrefixOf(name: Name, other: Name) returns (r: bool)
    ensures r <==> name <= other
  {
    if |name| > |other| {
      return false;
    }
    var i := 0;
    while i < |name|
      invariant 0 <= i <= |name| && name[..i] == other[..i]
    {
      if name[i] != other[i] {
        return false;
      }
      i := i + 1;
    }
    return true;
  }
}
