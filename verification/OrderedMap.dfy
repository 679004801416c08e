/** A map kept as a vector of pairs in insertion order; erasing shifts the later pairs left in place. */
module OrderedMap {
  import opened Wrappers

  datatype Pair<K, V> = Pair(key: K, val: V)

  ghost predicate DistinctKeys<K, V>(s: seq<Pair<K, V>>) {
    forall i, k :: 0 <= i < k < |s| ==> s[i].key != s[k].key
  }

  /** The position of a key, or |s|. */
  function IndexOf<K(==), V>(s: seq<Pair<K, V>>, key: K): (i: nat)
    ensures i <= |s| && (i < |s| ==> s[i].key == key)
    ensures forall k :: 0 <= k < i ==> s[k].key != key
  {
    if s == [] || s[0].key == key then 0 else 1 + IndexOf(s[1..], key)
  }

  function Removed<K, V>(s: seq<Pair<K, V>>, i: nat, j: nat): seq<Pair<K, V>>
    requires i <= j <= |s|
  {
    s[..i] + s[j..]
  }

  ghost function KeysOf<K, V>(s: seq<Pair<K, V>>): set<K> {
    set p | p in s :: p.key
  }

  /** The finite map the pairs stand for. */
  ghost function AsMap<K, V>(s: seq<Pair<K, V>>): map<K, V> {
    map key | key in KeysOf(s) :: s[IndexOf(s, key)].val
  }

  class OrderedMap<K(==), V> {
    var data: seq<Pair<K, V>>

    constructor ()
      ensures data == []
    {
      data := [];
    }

    /** The scan shared by all lookups. */
    method Scan(key: K) returns (i: nat)
      ensures i == IndexOf(data, key)
    {
      i := 0;
      assert data[0..] == data;
      while i < |data|
        invariant i <= |data| && IndexOf(data, key) == i + IndexOf(data[i..], key)
      {
        if data[i].key == key {
          return;
        }
        assert data[i..][1..] == data[i + 1..];
        i := i + 1;
      }
    }

    /** `find`: an iterator, as a position; the end if there is no such key. */
    method Find(key: K) returns (i: nat)
      ensures i <= |data| && (i < |data| <==> key in AsMap(data))
      ensures i < |data| ==> data[i].key == key && data[i].val == AsMap(data)[key]
    {
      i := Scan(key);
      Looked(data, key);
    }

    /** `count`. */
    method Count(key: K) returns (n: nat)
      ensures n == if key in AsMap(data) then 1 else 0
    {
      var i := Scan(key);
      Looked(data, key);
      n := if i < |data| then 1 else 0;
    }

    /** `at`; an absent key is out of range. */
    method At(key: K) returns (r: Option<V>)
      ensures r == if key in AsMap(data) then Some(AsMap(data)[key]) else None
    {
      var i := Scan(key);
      Looked(data, key);
      r := if i < |data| then Some(data[i].val) else None;
    }

    /** `emplace` and `insert`: an existing key is left alone. */
    method Emplace(key: K, val: V) returns (i: nat, inserted: bool)
      modifies this
      ensures data == Step(old(data), Op.Emplace(key, val))
      ensures data == if exists k :: 0 <= k < |old(data)| && old(data)[k].key == key then old(data)
                      else old(data) + [Pair(key, val)]
      ensures i < |data| && data[i].key == key && inserted == (key !in AsMap(old(data)))
    {
      i := Scan(key);
      Looked(data, key);
      inserted := i == |data|;
      if inserted {
        data := data + [Pair(key, val)];
      }
    }

    /** `erase(key)`. */
    method EraseKey(key: K) returns (n: nat)
      modifies this
      ensures data == Step(old(data), Op.EraseKey(key))
      ensures n == 0 ==> data == old(data)
      ensures n == 1 ==> exists k :: 0 <= k < |old(data)| && old(data)[k].key == key &&
                                     data == old(data)[..k] + old(data)[k + 1..]
      ensures n == if key in AsMap(old(data)) then 1 else 0
    {
      hide AsMap, KeysOf, Removed;
      var at := Scan(key);
      Looked(data, key);
      if at == |data| {
        return 0;
      }
      ghost var s := data;
      CloseGap(at);
      Shifted(s, data, at, at + 1);
      return 1;
    }

    /** The loop of `erase(key)` that moves every later pair one place down, and the removal of the last. */
    method CloseGap(at: nat)
      requires at < |data|
      modifies this
      ensures |data| == |old(data)| - 1
      ensures forall k :: 0 <= k < at ==> data[k] == old(data)[k]
      ensures forall k :: at <= k < |data| ==> data[k] == old(data)[k + 1]
    {
      ghost var s := data;
      var it, next := at, at + 1;
      while next != |data|
        invariant at <= it && next == it + 1 <= |data| == |s|
        invariant forall k :: at <= k < it ==> data[k] == s[k + 1]
        invariant forall k :: 0 <= k < |s| && !(at <= k < it) ==> data[k] == s[k]
        decreases |data| - next
      {
        data := data[it := data[next]];
        it, next := it + 1, next + 1;
      }
      data := data[..|data| - 1];
    }

    /** `erase(first, last)`; the position after the erased ones is returned. */
    method EraseRange(first: nat, last: nat) returns (pos: nat)
      requires first <= last <= |data|
      modifies this
      ensures data == Step(old(data), Op.EraseRange(first, last)) && pos == first
      ensures data == old(data)[..first] + old(data)[last..]
    {
      if first == last {
        return first;
      }
      ghost var s := data;
      CloseSlice(first, last - first);
      Shifted(s, data, first, last);
      return first;
    }

    /** The loop of `erase(first, last)` that moves pairs down by `affected` places, and the resize. */
    method CloseSlice(first: nat, affected: nat)
      requires affected > 0 && first + affected <= |data|
      modifies this
      ensures |data| == |old(data)| - affected
      ensures forall k :: 0 <= k < first ==> data[k] == old(data)[k]
      ensures forall k :: first <= k < |data| ==> data[k] == old(data)[k + affected]
    {
      ghost var s := data;
      var it := first;
      while it + affected != |data|
        invariant first <= it && it + affected <= |data| == |s|
        invariant forall k :: first <= k < it ==> data[k] == s[k + affected]
        invariant forall k :: 0 <= k < |s| && !(first <= k < it) ==> data[k] == s[k]
        decreases |data| - it
      {
        data := data[it := data[it + affected]];
        it := it + 1;
      }
      data := data[..|data| - affected];
    }
  }

  /** A vector shifted left over [i, j) and cut is the vector without that slice. */
  lemma Shifted<K, V>(s: seq<Pair<K, V>>, d: seq<Pair<K, V>>, i: nat, j: nat)
    requires i <= j <= |s| && |d| == |s| - (j - i)
    requires forall k :: 0 <= k < i ==> d[k] == s[k]
    requires forall k :: i <= k < |d| ==> d[k] == s[k + (j - i)]
    ensures d == Removed(s, i, j)
  {
  }

  lemma Looked<K, V>(s: seq<Pair<K, V>>, key: K)
    ensures IndexOf(s, key) < |s| <==> key in AsMap(s)
    ensures IndexOf(s, key) < |s| ==> AsMap(s)[key] == s[IndexOf(s, key)].val
  {
    if IndexOf(s, key) < |s| {
      assert s[IndexOf(s, key)] in s;
    }
  }

  // ---------- runs ----------

  datatype Op<K, V> = Emplace(key: K, val: V) | EraseKey(key: K) | EraseRange(first: nat, last: nat)

  predicate Applies<K, V>(s: seq<Pair<K, V>>, op: Op<K, V>) {
    op.EraseRange? ==> op.first <= op.last <= |s|
  }

  function Step<K(==), V>(s: seq<Pair<K, V>>, op: Op<K, V>): seq<Pair<K, V>>
    requires Applies(s, op)
  {
    match op
    case Emplace(key, val) => if IndexOf(s, key) < |s| then s else s + [Pair(key, val)]
    case EraseKey(key) => var i := IndexOf(s, key); if i < |s| then Removed(s, i, i + 1) else s
    case EraseRange(first, last) => Removed(s, first, last)
  }

  /** A run from the empty map, or nothing once an operation does not apply. */
  function Run<K(==), V>(ops: seq<Op<K, V>>): Option<seq<Pair<K, V>>> {
    if ops == [] then Some([])
    else
      match Run(ops[..|ops| - 1])
      case None => None
      case Some(s) => if Applies(s, ops[|ops| - 1]) then Some(Step(s, ops[|ops| - 1])) else None
  }

  /** The same operation on the map. */
  ghost function MapStep<K, V>(s: seq<Pair<K, V>>, m: map<K, V>, op: Op<K, V>): map<K, V>
    requires Applies(s, op)
  {
    match op
    case Emplace(key, val) => if key in m then m else m[key := val]
    case EraseKey(key) => m - {key}
    case EraseRange(first, last) => m - KeysOf(s[first..last])
  }

  lemma StepDistinct<K, V>(s: seq<Pair<K, V>>, op: Op<K, V>)
    requires DistinctKeys(s) && Applies(s, op)
    ensures DistinctKeys(Step(s, op))
  {
  }

  /** The map holds exactly the pairs. */
  ghost predicate Represents<K, V>(s: seq<Pair<K, V>>, m: map<K, V>) {
    && (forall i :: 0 <= i < |s| ==> s[i].key in m && m[s[i].key] == s[i].val)
    && (forall key :: key in m ==> exists i :: 0 <= i < |s| && s[i].key == key)
  }

  lemma RepresentsAsMap<K, V>(s: seq<Pair<K, V>>)
    requires DistinctKeys(s)
    ensures Represents(s, AsMap(s))
  {
    forall i | 0 <= i < |s| ensures s[i].key in AsMap(s) && AsMap(s)[s[i].key] == s[i].val {
      assert s[i] in s;
      Looked(s, s[i].key);
    }
    forall key | key in AsMap(s) ensures exists i :: 0 <= i < |s| && s[i].key == key {
      Looked(s, key);
    }
  }

  lemma RepresentsUnique<K, V>(s: seq<Pair<K, V>>, m: map<K, V>)
    requires DistinctKeys(s) && Represents(s, m)
    ensures m == AsMap(s)
  {
    hide AsMap;
    RepresentsAsMap(s);
    forall key | key in m ensures key in AsMap(s) && AsMap(s)[key] == m[key] {
      var i :| 0 <= i < |s| && s[i].key == key;
    }
    forall key | key in AsMap(s) ensures key in m {
      var i :| 0 <= i < |s| && s[i].key == key;
    }
  }

  lemma KeysOfSlice<K, V>(s: seq<Pair<K, V>>, i: nat, j: nat, key: K)
    requires i <= j <= |s|
    ensures key in KeysOf(s[i..j]) <==> exists k :: i <= k < j && s[k].key == key
  {
    if key in KeysOf(s[i..j]) {
      var p :| p in s[i..j] && p.key == key;
      var q :| 0 <= q < |s[i..j]| && s[i..j][q] == p;
      assert s[i + q].key == key;
    }
    forall k | i <= k < j ensures s[k].key in KeysOf(s[i..j]) {
      assert s[i..j][k - i] == s[k];
      assert s[k] in s[i..j];
    }
  }

  /** Removing a slice removes exactly its keys from the map. */
  lemma RemovedRepresents<K, V>(s: seq<Pair<K, V>>, i: nat, j: nat, m: map<K, V>)
    requires DistinctKeys(s) && i <= j <= |s| && Represents(s, m)
    ensures Represents(Removed(s, i, j), m - KeysOf(s[i..j]))
  {
    hide KeysOf;
    var r, m' := Removed(s, i, j), m - KeysOf(s[i..j]);
    forall k | 0 <= k < |r| ensures r[k].key in m' && m'[r[k].key] == r[k].val {
      var q := if k < i then k else k + (j - i);
      assert r[k] == s[q];
      KeysOfSlice(s, i, j, s[q].key);
    }
    forall key | key in m' ensures exists k :: 0 <= k < |r| && r[k].key == key {
      var q :| 0 <= q < |s| && s[q].key == key;
      KeysOfSlice(s, i, j, key);
      var k := if q < i then q else q - (j - i);
      assert r[k] == s[q];
    }
  }

  lemma AppendRepresents<K, V>(s: seq<Pair<K, V>>, key: K, val: V, m: map<K, V>)
    requires Represents(s, m) && key !in m
    ensures Represents(s + [Pair(key, val)], m[key := val])
  {
    var r, m' := s + [Pair(key, val)], m[key := val];
    forall k | k in m' ensures exists i :: 0 <= i < |r| && r[i].key == k {
      if k == key {
        assert r[|s|].key == k;
      } else {
        var i :| 0 <= i < |s| && s[i].key == k;
        assert r[i].key == k;
      }
    }
  }

  lemma OneKey<K, V>(s: seq<Pair<K, V>>, i: nat)
    requires i < |s|
    ensures KeysOf(s[i..i + 1]) == {s[i].key}
  {
    assert s[i..i + 1] == [s[i]];
  }

  /** Every operation does to the map what it does to the pairs, and keeps the keys distinct. */
  lemma StepAsMap<K, V>(s: seq<Pair<K, V>>, op: Op<K, V>)
    requires DistinctKeys(s) && Applies(s, op)
    ensures DistinctKeys(Step(s, op)) && AsMap(Step(s, op)) == MapStep(s, AsMap(s), op)
  {
    hide AsMap, Represents, KeysOf, DistinctKeys;
    StepDistinct(s, op);
    RepresentsAsMap(s);
    match op
    case Emplace(key, val) =>
      Looked(s, key);
      if IndexOf(s, key) == |s| {
        AppendRepresents(s, key, val, AsMap(s));
        RepresentsUnique(s + [Pair(key, val)], AsMap(s)[key := val]);
      }
    case EraseKey(key) =>
      Looked(s, key);
      var i := IndexOf(s, key);
      if i < |s| {
        OneKey(s, i);
        RemovedRepresents(s, i, i + 1, AsMap(s));
        RepresentsUnique(Removed(s, i, i + 1), AsMap(s) - {key});
      }
    case EraseRange(first, last) =>
      RemovedRepresents(s, first, last, AsMap(s));
      RepresentsUnique(Removed(s, first, last), AsMap(s) - KeysOf(s[first..last]));
  }

  // ---------- insertion order ----------

  /** The number of the operation that inserted each pair of the map. */
  function Stamps<K(==), V>(ops: seq<Op<K, V>>): seq<nat>
    requires Run(ops).Some?
    ensures |Stamps(ops)| == |Run(ops).value|
  {
    if ops == [] then []
    else
      var n := |ops| - 1;
      var s, stamps := Run(ops[..n]).value, Stamps(ops[..n]);
      match ops[n]
      case Emplace(key, _) => if IndexOf(s, key) < |s| then stamps else stamps + [n]
      case EraseKey(key) => var i := IndexOf(s, key); if i < |s| then stamps[..i] + stamps[i + 1..] else stamps
      case EraseRange(first, last) => stamps[..first] + stamps[last..]
  }

  /** The pairs stand in the order of their insertion, each put there by the operation its stamp names. */
  ghost predicate InOrder<K, V>(ops: seq<Op<K, V>>, s: seq<Pair<K, V>>, stamps: seq<nat>) {
    && |stamps| == |s|
    && (forall i, k :: 0 <= i < k < |stamps| ==> stamps[i] < stamps[k])
    && (forall i :: 0 <= i < |stamps| ==> stamps[i] < |ops| && ops[stamps[i]] == Op.Emplace(s[i].key, s[i].val))
  }

  lemma LaterInOrder<K, V>(ops: seq<Op<K, V>>, op: Op<K, V>, s: seq<Pair<K, V>>, stamps: seq<nat>)
    requires InOrder(ops, s, stamps)
    ensures InOrder(ops + [op], s, stamps)
    ensures op.Emplace? ==> InOrder(ops + [op], s + [Pair(op.key, op.val)], stamps + [|ops|])
  {
  }

  lemma RemovedInOrder<K, V>(ops: seq<Op<K, V>>, s: seq<Pair<K, V>>, stamps: seq<nat>, i: nat, j: nat)
    requires InOrder(ops, s, stamps) && i <= j <= |s|
    ensures InOrder(ops, Removed(s, i, j), stamps[..i] + stamps[j..])
  {
  }

  lemma RunSnoc<K, V>(ops: seq<Op<K, V>>)
    requires ops != [] && Run(ops).Some?
    ensures var n := |ops| - 1;
            && Run(ops[..n]).Some? && Applies(Run(ops[..n]).value, ops[n])
            && Run(ops).value == Step(Run(ops[..n]).value, ops[n])
  {
  }

  /** Over any run from the empty map the keys are distinct and the pairs in insertion order. */
  lemma {:induction false} RunInOrder<K, V>(ops: seq<Op<K, V>>)
    requires Run(ops).Some?
    ensures DistinctKeys(Run(ops).value) && InOrder(ops, Run(ops).value, Stamps(ops))
  {
    hide InOrder, DistinctKeys, Run;
    if ops == [] {
      NothingInOrder<K, V>();
    } else {
      RunSnoc(ops);
      var n := |ops| - 1;
      var init, s, stamps := ops[..n], Run(ops[..n]).value, Stamps(ops[..n]);
      RunInOrder(init);
      StepDistinct(s, ops[n]);
      assert ops == init + [ops[n]];
      LaterInOrder(init, ops[n], s, stamps);
      match ops[n]
      case Emplace(_, _) =>
      case EraseKey(key) =>
        var i := IndexOf(s, key);
        if i < |s| {
          RemovedInOrder(ops, s, stamps, i, i + 1);
        }
      case EraseRange(first, last) => RemovedInOrder(ops, s, stamps, first, last);
    }
  }

  lemma NothingInOrder<K, V>()
    ensures Run<K, V>([]) == Some([]) && DistinctKeys<K, V>([]) && InOrder<K, V>([], [], [])
  {
  }
}
