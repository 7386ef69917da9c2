/** How a key-ordered map of 64-bit TxSequence numbers presents a window that may wrap around. */
module CyclicKeys {
  import opened Basics
  import opened TxWindow

  lemma {:induction false} FindLeast(keys: set<u64>) returns (m: u64)
    requires keys != {}
    ensures m in keys && forall k :: k in keys ==> m <= k
  {
    m :| m in keys;
    var rest := keys - {m};
    assert forall k :: k in keys ==> k == m || k in rest;
    if rest != {} {
      var r := FindLeast(rest);
      if r < m {
        m := r;
      }
    }
  }

  lemma LeastExists(keys: set<u64>)
    requires keys != {}
    ensures exists m :: m in keys && forall k :: k in keys ==> m <= k
  {
    var m := FindLeast(keys);
  }

  /** `begin()` of a non-empty map. */
  function Least(keys: set<u64>): (r: u64)
    requires keys != {}
    ensures r in keys && forall k :: k in keys ==> r <= k
  {
    LeastExists(keys);
    var m :| m in keys && forall k :: k in keys ==> m <= k;
    m
  }

  /** `++it` for the iterator at key k: the next greater key, or `end()`. */
  function After(keys: set<u64>, k: u64): (r: Option<u64>)
    ensures r.None? ==> forall x :: x in keys ==> x <= k
    ensures r.Some? ==> r.value in keys && k < r.value && forall x :: x in keys && k < x ==> r.value <= x
  {
    var above := set x | x in keys && k < x;
    assert forall x :: x in keys && k < x ==> x in above;
    if above == {} then None else Some(Least(above))
  }

  /** `++it`, continuing at `begin()` when `end()` is reached. */
  function CyclicAfter(keys: set<u64>, k: u64): u64
    requires keys != {}
  {
    match After(keys, k)
    case None => Least(keys)
    case Some(x) => x
  }

  /** An iterator that is dereferenced only after the wrap-around check. */
  function Position(it: Option<u64>, keys: set<u64>): u64
    requires keys != {}
  {
    if it.None? then Least(keys) else it.value
  }

  lemma Advance(keys: set<u64>, k: u64)
    requires keys != {}
    ensures Position(After(keys, k), keys) == CyclicAfter(keys, k)
  {
  }

  /** The map holds exactly the TxSequence numbers of the window. */
  ghost predicate KeysMatch(keys: set<u64>, live: seq<Frag>) {
    forall k :: k in keys <==> FindKey(live, k).Some?
  }

  /** The pointer designates the oldest transmission. */
  predicate FirstMatches(first: Option<u64>, live: seq<Frag>) {
    first == if live == [] then None else Some(Key(live[0].tx))
  }

  /** Two fragments of a window never share a TxSequence number. */
  lemma KeyAt(live: seq<Frag>, next: nat, i: nat)
    requires InLap(live, next) && i < |live|
    ensures FindKey(live, Key(live[i].tx)) == Some(i)
  {
    var r := FindKey(live, Key(live[i].tx));
    assert r.Some?;
    var j := r.value;
    if i < j {
      KeyInjective(live[i].tx, live[j].tx);
    } else if j < i {
      KeyInjective(live[j].tx, live[i].tx);
    }
  }

  /** Walking the map in key order with wrap-around visits the window oldest first. */
  lemma CyclicAfterIsNext(keys: set<u64>, live: seq<Frag>, next: nat, i: nat)
    requires InLap(live, next) && KeysMatch(keys, live) && i < |live|
    ensures Key(live[i].tx) in keys
    ensures CyclicAfter(keys, Key(live[i].tx)) == Key(live[if i + 1 == |live| then 0 else i + 1].tx)
  {
    var n := if i + 1 == |live| then 0 else i + 1;
    KeyAt(live, next, i);
    KeyAt(live, next, n);
    var got := CyclicAfter(keys, Key(live[i].tx));
    assert got in keys;
    var g := FindKey(live, got).value;
    CyclicOrder(keys, live, next, i, n, g);
  }

  /** The arithmetic behind CyclicAfterIsNext: no key lies cyclically between neighbours. */
  lemma CyclicOrder(keys: set<u64>, live: seq<Frag>, next: nat, i: nat, n: nat, g: nat)
    requires InLap(live, next) && keys != {}
    requires i < |live| && n < |live| && g < |live|
    requires n == if i + 1 == |live| then 0 else i + 1
    requires Key(live[i].tx) in keys && Key(live[n].tx) in keys && Key(live[g].tx) in keys
    requires CyclicAfter(keys, Key(live[i].tx)) == Key(live[g].tx)
    ensures g == n
  {
    var base := live[0].tx;
    assert base <= live[i].tx && base <= live[n].tx && base <= live[g].tx;
    KeyFrom(base, live[i].tx);
    KeyFrom(base, live[n].tx);
    KeyFrom(base, live[g].tx);
    assert g < i ==> live[g].tx < live[i].tx;
    assert i < g ==> live[i].tx < live[g].tx;
    assert i < n ==> live[i].tx < live[n].tx;
  }

  /** One equality test against the oldest key decides whether the next number is free. */
  lemma NextKeyFree(keys: set<u64>, first: Option<u64>, live: seq<Frag>, next: nat)
    requires InLap(live, next) && KeysMatch(keys, live) && FirstMatches(first, live)
    ensures NoNumberLeft(live, next) <==> keys != {} && first == Some(Key(next))
    ensures NoNumberLeft(live, next) <==> Key(next) in keys
    ensures keys == {} <==> live == []
  {
    if live != [] {
      KeyAt(live, next, 0);
      KeyFrom(live[0].tx, next);
    }
    if !NoNumberLeft(live, next) && Key(next) in keys {
      var i := FindKey(live, Key(next)).value;
      assert live[0].tx <= live[i].tx;
      KeyInjective(live[i].tx, next);
    }
  }

  /** Adding the next transmission to the map and to the window. */
  lemma AppendMatches(keys: set<u64>, live: seq<Frag>, f: Frag)
    requires KeysMatch(keys, live)
    ensures KeysMatch(keys + {Key(f.tx)}, live + [f])
  {
    var live' := live + [f];
    assert live'[|live|] == f;
    assert forall j :: 0 <= j < |live| ==> live'[j] == live[j];
    forall k: u64
      ensures k in keys + {Key(f.tx)} <==> FindKey(live', k).Some?
    {
      if FindKey(live, k).Some? {
        assert live'[FindKey(live, k).value] == live[FindKey(live, k).value];
      }
    }
  }

  /** `deleteUnackedFrag` on the pointer: the new first key once k is erased and `rest` is left. */
  function FirstAfterErase(first: Option<u64>, k: u64, rest: set<u64>): Option<u64> {
    if rest == {} then None
    else if first == Some(k) then Some(CyclicAfter(rest, k))
    else first
  }

  lemma EraseMatches(keys: set<u64>, live: seq<Frag>, next: nat, i: nat)
    requires InLap(live, next) && KeysMatch(keys, live) && i < |live|
    ensures KeysMatch(keys - {Key(live[i].tx)}, live[..i] + live[i + 1..])
  {
    var k := Key(live[i].tx);
    var live' := live[..i] + live[i + 1..];
    KeyAt(live, next, i);
    forall x: u64
      ensures x in keys - {k} <==> FindKey(live', x).Some?
    {
      if x in keys - {k} {
        var m := FindKey(live, x).value;
        assert live'[if m < i then m else m - 1] == live[m];
      } else if FindKey(live', x).Some? {
        var j := FindKey(live', x).value;
        var m := if j < i then j else j + 1;
        assert live'[j] == live[m];
        KeyAt(live, next, m);
        assert false;
      }
    }
  }

  lemma FirstErased(keys: set<u64>, first: Option<u64>, live: seq<Frag>, next: nat, i: nat)
    requires InLap(live, next) && KeysMatch(keys, live) && FirstMatches(first, live) && i < |live|
    ensures FirstMatches(FirstAfterErase(first, Key(live[i].tx), keys - {Key(live[i].tx)}),
                         live[..i] + live[i + 1..])
  {
    var k := Key(live[i].tx);
    var rest := keys - {k};
    var live' := live[..i] + live[i + 1..];
    EraseMatches(keys, live, next, i);
    KeyAt(live, next, i);
    KeyAt(live, next, 0);
    if live' == [] {
      assert forall x :: x in rest ==> FindKey(live', x).Some?;
    } else {
      assert live'[0] == live[if i == 0 then 1 else 0];
      assert FindKey(live', Key(live'[0].tx)).Some?;
      if i == 0 {
        CyclicAfterIsNext(keys, live, next, 0);
        EraseKeepsNext(keys, k, Key(live[1].tx));
      }
    }
  }

  /** The successor of an erased key is the same before and after erasing it. */
  lemma EraseKeepsNext(keys: set<u64>, k: u64, n: u64)
    requires k in keys && n in keys - {k} && CyclicAfter(keys, k) == n
    ensures CyclicAfter(keys - {k}, k) == n
  {
    assert forall x :: x in keys - {k} ==> x in keys;
  }
}
