/** The order of Rust strings, by their UTF-8 bytes: the iteration order of a `BTreeMap`. */
module KeyOrder {
  import opened Utf8

  predicate BytesBelow(a: seq<byte>, b: seq<byte>) {
    b != [] && (a == [] || a[0] < b[0] || (a[0] == b[0] && BytesBelow(a[1..], b[1..])))
  }

  predicate Below(s: string, t: string) {
    BytesBelow(Encode(s), Encode(t))
  }

  predicate Ascending(ks: seq<string>) {
    forall i, j | 0 <= i < j < |ks| :: Below(ks[i], ks[j])
  }

  function Elements(ks: seq<string>): set<string> {
    set k | k in ks
  }

  lemma {:induction false} BytesBelowTransitive(a: seq<byte>, b: seq<byte>, c: seq<byte>)
    requires BytesBelow(a, b) && BytesBelow(b, c)
    ensures BytesBelow(a, c)
  {
    if a != [] && a[0] == b[0] == c[0] {
      BytesBelowTransitive(a[1..], b[1..], c[1..]);
    }
  }

  lemma {:induction false} BytesBelowIrreflexive(a: seq<byte>)
    ensures !BytesBelow(a, a)
  {
    if a != [] {
      BytesBelowIrreflexive(a[1..]);
    }
  }

  lemma {:induction false} BytesBelowTotal(a: seq<byte>, b: seq<byte>)
    requires a != b
    ensures BytesBelow(a, b) || BytesBelow(b, a)
  {
    if a != [] && b != [] && a[0] == b[0] {
      assert a == [a[0]] + a[1..] && b == [b[0]] + b[1..];
      BytesBelowTotal(a[1..], b[1..]);
    }
  }

  lemma BelowTransitive(s: string, t: string, u: string)
    requires Below(s, t) && Below(t, u)
    ensures Below(s, u)
  {
    BytesBelowTransitive(Encode(s), Encode(t), Encode(u));
  }

  lemma BelowIrreflexive(s: string)
    ensures !Below(s, s)
  {
    BytesBelowIrreflexive(Encode(s));
  }

  lemma BelowTotal(s: string, t: string)
    requires s != t
    ensures Below(s, t) || Below(t, s)
  {
    if Encode(s) == Encode(t) {
      EncodeInjective(s, t);
    }
    BytesBelowTotal(Encode(s), Encode(t));
  }

  ghost predicate IsFirst(k: string, keys: set<string>) {
    k in keys && forall other | other in keys && other != k :: Below(k, other)
  }

  lemma {:induction false} FirstExists(keys: set<string>) returns (first: string)
    requires keys != {}
    ensures IsFirst(first, keys)
    decreases |keys|
  {
    hide Below;
    var k :| k in keys;
    if keys == {k} {
      first := k;
    } else {
      var least := FirstExists(keys - {k});
      first := if Below(k, least) then k else least;
      BelowTotal(k, least);
      forall other | other in keys && other != first
        ensures Below(first, other)
      {
        if other != k && first == k && other != least {
          BelowTransitive(k, least, other);
        }
      }
    }
  }

  lemma FirstUnique(j: string, k: string, keys: set<string>)
    requires IsFirst(j, keys) && IsFirst(k, keys)
    ensures j == k
  {
    if j != k {
      BelowTransitive(j, k, j);
      BelowIrreflexive(j);
    }
  }

  lemma OneFirst(keys: set<string>)
    requires keys != {}
    ensures exists k :: IsFirst(k, keys)
    ensures forall j, k | IsFirst(j, keys) && IsFirst(k, keys) :: j == k
  {
    hide Below;
    var first := FirstExists(keys);
    forall j, k | IsFirst(j, keys) && IsFirst(k, keys)
      ensures j == k
    {
      FirstUnique(j, k, keys);
    }
  }

  function First(keys: set<string>): (first: string)
    requires keys != {}
    ensures IsFirst(first, keys)
  {
    OneFirst(keys);
    assert forall k :: IsFirst(k, keys) <==> (k in keys && forall other | other in keys && other != k ::
        Below(k, other));
    var first :| first in keys && forall other | other in keys && other != first :: Below(first, other);
    first
  }

  /** The keys of a `BTreeMap`, or the elements of a `BTreeSet`, as iteration visits them. */
  function Sorted(keys: set<string>): (ks: seq<string>)
    ensures |ks| == |keys|
    ensures forall k :: k in ks <==> k in keys
    ensures Ascending(ks)
    decreases |keys|
  {
    if keys == {} then []
    else
      var first := First(keys);
      var others := Sorted(keys - {first});
      assert forall i | 0 <= i < |others| :: others[i] in others;
      [first] + others
  }

  lemma HasElement(ks: seq<string>)
    requires ks != []
    ensures exists k :: k in ks
  {
    assert ks[0] in ks;
  }

  /** A strictly ascending sequence is determined by its elements. */
  lemma {:induction false} AscendingUnique(ks: seq<string>, js: seq<string>)
    requires Ascending(ks) && Ascending(js)
    requires forall k :: k in ks <==> k in js
    ensures ks == js
  {
    hide Below;
    if ks == [] {
      if js != [] {
        HasElement(js);
      }
    } else {
      assert ks[0] in js && js != [] && js[0] in ks;
      if ks[0] != js[0] {
        BelowTransitive(ks[0], js[0], ks[0]);
        BelowIrreflexive(ks[0]);
      }
      forall k
        ensures k in ks[1..] <==> k in js[1..]
      {
        if k == ks[0] {
          BelowIrreflexive(k);
        }
        assert k in ks <==> k == ks[0] || k in ks[1..];
        assert k in js <==> k == js[0] || k in js[1..];
      }
      AscendingUnique(ks[1..], js[1..]);
    }
  }

  predicate Distinct(ks: seq<string>) {
    forall i, j | 0 <= i < j < |ks| :: ks[i] != ks[j]
  }

  lemma SortedDistinct(keys: set<string>)
    ensures Distinct(Sorted(keys))
  {
    hide Below;
    forall i, j | 0 <= i < j < |Sorted(keys)|
      ensures Sorted(keys)[i] != Sorted(keys)[j]
    {
      BelowIrreflexive(Sorted(keys)[i]);
    }
  }

  /** The entries of `m` with the given keys. */
  function Picked<T>(m: map<string, T>, keys: seq<string>): (picked: map<string, T>)
    requires forall k | k in keys :: k in m
    ensures picked.Keys == Elements(keys)
  {
    map k | k in keys :: m[k]
  }

  lemma PickedStep<T>(m: map<string, T>, keys: seq<string>, found: map<string, T>)
    requires keys != [] && forall k | k in keys :: k in m
    ensures forall k | k in keys[1..] :: k in m
    ensures found[keys[0] := m[keys[0]]] + Picked(m, keys[1..]) == found + Picked(m, keys)
    ensures Distinct(keys) ==> keys[0] !in Picked(m, keys[1..])
  {
    assert keys == [keys[0]] + keys[1..];
  }

  lemma PickedNone<T>(m: map<string, T>, found: map<string, T>)
    ensures found + Picked(m, []) == found
  {
  }

  lemma PickedAll<T>(m: map<string, T>)
    ensures Picked(m, Sorted(m.Keys)) == m && map[] + Picked(m, Sorted(m.Keys)) == m
  {
    hide Ascending;
  }
}
