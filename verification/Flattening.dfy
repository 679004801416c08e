/**
 Flattening itself: the recursive writer, and the round trip in the order in which it wrote (an
 insertion-ordered container).
 */
module Flattening {
  import opened Wrappers
  import opened Numerals
  import opened PointerText
  import opened Json
  import opened Flatten
  import opened FlattenOrders
  import opened EmptyContainers

  // ---------- the order of members ----------

  /** In which order the object at a path hands out its members. */
  type MemberOrder = (Path, map<string, Json>) -> seq<string>

  /** Every member once. */
  ghost predicate Lists(names: seq<string>, m: map<string, Json>) {
    && (forall key :: key in names <==> key in m)
    && (forall i, k :: 0 <= i < k < |names| ==> names[i] != names[k])
  }

  ghost predicate IsOrder(order: MemberOrder) {
    forall at: Path, m: map<string, Json> :: Lists(order(at, m), m)
  }

  lemma ListsMembers(order: MemberOrder, at: Path, m: map<string, Json>)
    requires IsOrder(order)
    ensures Lists(order(at, m), m) && (m == map[] ==> order(at, m) == [])
  {
    var names := order(at, m);
    assert Lists(names, m);
    if names != [] {
      assert names[0] in names;
    }
  }

  function FirstName(names: seq<string>): Option<string> { if names == [] then None else Some(names[0]) }

  /** The entries begin where a walk over the container begins. */
  ghost predicate FirstRight(j: Json, at: Path, order: MemberOrder, es: seq<Entry>) {
    && (j.Arr? && j.items != [] ==> FirstToken(es) == Some("0"))
    && (j.Obj? && j.members != map[] ==> FirstToken(es) == FirstName(order(at, j.members)))
  }

  /** Every container of the document at `at` is first reached where a walk over it begins. */
  ghost predicate Entered(j: Json, at: Path, order: MemberOrder, es: seq<Entry>)
    decreases j
  {
    && FirstRight(j, at, order, es)
    && forall t: string | StepChecked(j, t).Ok? :: Entered(StepChecked(j, t).value, at + [t], order, Under(es, t))
  }

  /** No object hands out the key "0" first. */
  ghost predicate FirstKeysPastZero(j: Json, at: Path, order: MemberOrder)
    decreases j
  {
    && (j.Obj? ==> FirstName(order(at, j.members)) != Some("0"))
    && forall t: string | StepChecked(j, t).Ok? :: FirstKeysPastZero(StepChecked(j, t).value, at + [t], order)
  }

  lemma {:induction false} EnteredFromZero(j: Json, at: Path, order: MemberOrder, es: seq<Entry>)
    requires Entered(j, at, order, es)
    ensures ArraysFromZero(j, es)
    decreases j
  {
    hide Under, ArrayIndex;
    forall t: string | StepChecked(j, t).Ok? ensures ArraysFromZero(StepChecked(j, t).value, Under(es, t)) {
      EnteredFromZero(StepChecked(j, t).value, at + [t], order, Under(es, t));
    }
  }

  /** The condition on the visit, read off the document and the order of its members. */
  lemma {:induction false} EnteredPastZero(j: Json, at: Path, order: MemberOrder, es: seq<Entry>)
    requires IsOrder(order) && Enumerates(j, es) && Entered(j, at, order, es)
    ensures ObjectsPastZero(j, es) <==> FirstKeysPastZero(j, at, order)
    decreases j
  {
    hide Under, Enumerates, IsOrder, ArrayIndex;
    if IsLeaf(j) {
      LeafEnumerated(j, es);
      assert forall t: string :: StepChecked(j, t).Err?;
      if j.Obj? {
        ListsMembers(order, at, j.members);
      }
    } else {
      forall t: string | StepChecked(j, t).Ok?
        ensures ObjectsPastZero(StepChecked(j, t).value, Under(es, t)) <==>
                FirstKeysPastZero(StepChecked(j, t).value, at + [t], order)
      {
        EnumeratesUnder(j, es, t);
        EnteredPastZero(StepChecked(j, t).value, at + [t], order, Under(es, t));
      }
    }
  }

  // ---------- the writer ----------


  /** The entries of a child, seen from its parent. */
  function Prefixed(token: string, es: seq<Entry>): (ps: seq<Entry>)
    ensures |ps| == |es| && forall i :: 0 <= i < |es| ==> ps[i] == Entry([token] + es[i].path, es[i].value)
  {
    seq(|es|, i requires 0 <= i < |es| => Entry([token] + es[i].path, es[i].value))
  }

  function KeysOf(at: Path, es: seq<Entry>): (keys: seq<string>)
    ensures |keys| == |es| && forall i :: 0 <= i < |es| ==> keys[i] == ToString(at + es[i].path)
  {
    seq(|es|, i requires 0 <= i < |es| => ToString(at + es[i].path))
  }

  lemma {:induction false} UnderConcat(es: seq<Entry>, fs: seq<Entry>, token: string)
    ensures Under(es + fs, token) == Under(es, token) + Under(fs, token)
  {
    if fs == [] {
      assert es + fs == es;
    } else {
      var n := |fs| - 1;
      UnderConcat(es, fs[..n], token);
      assert (es + fs)[..|es + fs| - 1] == es + fs[..n];
    }
  }

  lemma {:induction false} UnderPrefixed(token: string, es: seq<Entry>)
    ensures Under(Prefixed(token, es), token) == es
    ensures forall t: string :: t != token ==> Under(Prefixed(token, es), t) == []
  {
    if es != [] {
      var n := |es| - 1;
      UnderPrefixed(token, es[..n]);
      var ps := Prefixed(token, es);
      assert ps[..n] == Prefixed(token, es[..n]);
      assert ps[n].path[1..] == es[n].path;
      assert es == es[..n] + [es[n]];
    }
  }

  lemma {:induction false} DistinctFromUnder(es: seq<Entry>)
    requires NonemptyPaths(es) && forall t: string :: Distinct(Under(es, t))
    ensures Distinct(es)
  {
    if es != [] {
      var es', last := es[..|es| - 1], es[|es| - 1];
      assert es == es' + [last];
      UnderSnoc(es', last);
      forall t: string ensures Distinct(Under(es', t)) {
        var sub := Under(es, t);
        assert Under(es', t) == sub || Under(es', t) == sub[..|sub| - 1];
      }
      DistinctFromUnder(es');
      var token := last.path[0];
      var sub := Under(es', token);
      forall x | x in sub ensures x.path != last.path[1..] {
        var k :| 0 <= k < |sub| && sub[k] == x;
        assert Under(es, token)[k].path != Under(es, token)[|sub|].path;
      }
      forall i | 0 <= i < |es'| ensures es'[i].path != last.path {
        var e := es'[i];
        if e.path[0] == token {
          assert e.path == [token] + e.path[1..];
          UnderMember(es', token, Entry(e.path[1..], e.value));
        }
      }
    }
  }

  /** The children in `done` have been flattened into `acc`, and nothing else has. */
  ghost predicate PartDone(j: Json, at: Path, order: MemberOrder, acc: seq<Entry>, done: set<string>) {
    && NonemptyPaths(acc)
    && (forall t: string :: t !in done ==> Under(acc, t) == [])
    && (forall t: string :: t in done ==>
          && StepChecked(j, t).Ok?
          && Enumerates(StepChecked(j, t).value, Under(acc, t))
          && Entered(StepChecked(j, t).value, at + [t], order, Under(acc, t)))
  }

  lemma NextChild(j: Json, at: Path, order: MemberOrder, acc: seq<Entry>, done: set<string>,
                  token: string, es: seq<Entry>)
    requires PartDone(j, at, order, acc, done) && token !in done && StepChecked(j, token).Ok?
    requires Enumerates(StepChecked(j, token).value, es)
    requires Entered(StepChecked(j, token).value, at + [token], order, es)
    ensures PartDone(j, at, order, acc + Prefixed(token, es), done + {token})
  {
    hide Under, Enumerates, Entered, StepChecked;
    UnderPrefixed(token, es);
    forall t: string
      ensures Under(acc + Prefixed(token, es), t) == if t == token then es else Under(acc, t)
    {
      UnderConcat(acc, Prefixed(token, es), t);
    }
  }

  lemma AllChildren(j: Json, at: Path, order: MemberOrder, acc: seq<Entry>, done: set<string>)
    requires PartDone(j, at, order, acc, done) && !IsLeaf(j)
    requires forall t: string :: t in done <==> StepChecked(j, t).Ok?
    ensures Enumerates(j, acc)
    ensures FirstRight(j, at, order, acc) ==> Entered(j, at, order, acc)
  {
    hide Under, StepChecked, LeafAt;
    DistinctFromUnder(acc);
    forall e: Entry ensures e in acc <==> LeafAt(j, e.path) == Some(e.value) {
      if e.path == [] {
        LeafAtRoot(j);
      } else {
        var t, rest := e.path[0], e.path[1..];
        assert e.path == [t] + rest;
        UnderMember(acc, t, Entry(rest, e.value));
        LeafBelow(j, e.path);
        if t in done {
          assert Enumerates(StepChecked(j, t).value, Under(acc, t));
          assert Entry(rest, e.value) in Under(acc, t) <==> LeafAt(StepChecked(j, t).value, rest) == Some(e.value);
        }
      }
    }
  }

  lemma LeafAtRoot(j: Json)
    requires !IsLeaf(j)
    ensures LeafAt(j, []) == None
  {
  }

  lemma LeafBelow(j: Json, path: Path)
    requires !IsLeaf(j) && path != []
    ensures LeafAt(j, path) ==
            if StepChecked(j, path[0]).Ok? then LeafAt(StepChecked(j, path[0]).value, path[1..]) else None
  {
  }

  /** `m'` is `m` with the entries written under their texts. */
  ghost predicate Written(at: Path, es: seq<Entry>, m: map<string, Json>, m': map<string, Json>) {
    && (forall k :: k in m' <==> k in m || k in KeysOf(at, es))
    && (forall k :: k in m ==> m'[k] == m[k])
    && (forall i :: 0 <= i < |es| ==> m'[KeysOf(at, es)[i]] == es[i].value)
  }

  /** No text at or below `at` has been written yet. */
  ghost predicate Fresh(at: Path, m: map<string, Json>) {
    forall q: Path :: ToString(at + q) !in m
  }

  lemma ToStringInjective(p: Path, q: Path)
    requires ToString(p) == ToString(q)
    ensures p == q
  {
    PrintThenSplit(p);
    PrintThenSplit(q);
  }

  lemma OtherText(at: Path, p: Path, token: string, q: Path)
    requires p == [] || p[0] != token
    ensures ToString(at + p) != ToString(at + [token] + q)
  {
    assert (at + p)[|at|..] == p && (at + [token] + q)[|at|..] == [token] + q;
    if ToString(at + p) == ToString(at + [token] + q) {
      ToStringInjective(at + p, at + [token] + q);
    }
  }

  /** Distinct children write distinct texts. */
  lemma ChildIsFresh(j: Json, at: Path, order: MemberOrder, acc: seq<Entry>, done: set<string>, token: string,
                     m: map<string, Json>, m': map<string, Json>)
    requires PartDone(j, at, order, acc, done) && token !in done && Fresh(at, m) && Written(at, acc, m, m')
    ensures Fresh(at + [token], m')
  {
    hide Under, ToString;
    UnderNonempty(acc, token);
    forall q: Path ensures ToString(at + [token] + q) !in m' {
      assert at + [token] + q == at + ([token] + q);
      forall i | 0 <= i < |acc| ensures KeysOf(at, acc)[i] != ToString(at + [token] + q) {
        assert !StartsWith(acc[i], token);
        OtherText(at, acc[i].path, token, q);
      }
    }
  }

  lemma KeysConcat(at: Path, acc: seq<Entry>, token: string, es: seq<Entry>)
    ensures KeysOf(at, acc + Prefixed(token, es)) == KeysOf(at, acc) + KeysOf(at + [token], es)
  {
    hide ToString;
    forall i | 0 <= i < |es| ensures at + ([token] + es[i].path) == at + [token] + es[i].path {
    }
  }

  lemma WrittenConcat(at: Path, acc: seq<Entry>, token: string, es: seq<Entry>,
                      m: map<string, Json>, m': map<string, Json>, m'': map<string, Json>)
    requires Written(at, acc, m, m') && Written(at + [token], es, m', m'')
    ensures Written(at, acc + Prefixed(token, es), m, m'')
  {
    hide ToString, Prefixed, KeysOf;
    KeysConcat(at, acc, token, es);
    var ks, ls, all := KeysOf(at, acc), KeysOf(at + [token], es), acc + Prefixed(token, es);
    forall i | 0 <= i < |all| ensures m''[(ks + ls)[i]] == all[i].value {
      if i < |acc| {
        assert ks[i] in m';
      } else {
        assert (ks + ls)[i] == ls[i - |acc|];
      }
    }
  }

  lemma LeafWritten(j: Json, at: Path, order: MemberOrder, m: map<string, Json>, es: seq<Entry>)
    requires IsLeaf(j) && Fresh(at, m) && es == [Entry([], LeafValue(j))]
    ensures Enumerates(j, es) && Entered(j, at, order, es)
    ensures ToString(at) !in m && KeysOf(at, es) == [ToString(at)]
    ensures Written(at, es, m, m[ToString(at) := LeafValue(j)])
  {
    assert at + [] == at;
    assert forall t: string :: StepChecked(j, t).Err?;
  }

  lemma NothingDone(j: Json, at: Path, order: MemberOrder, m: map<string, Json>)
    ensures PartDone(j, at, order, [], {}) && Written(at, [], m, m) && KeysOf(at, []) == []
  {
  }

  lemma ToStringSnoc(at: Path, token: string)
    ensures ToString(at + [token]) == ToString(at) + "/" + Escape(token)
  {
    assert (at + [token])[..|at|] == at;
  }

  lemma IndexText(at: Path, k: nat)
    ensures ToString(at + [Numeral(k)]) == ToString(at) + "/" + Numeral(k)
  {
    ToStringSnoc(at, Numeral(k));
    NumeralIsCanonical(k);
    ReplaceTwice(Numeral(k));
    DigitsNeedNoEscape(Numeral(k));
  }

  /** The state of the writer over a container: the children in `done` are written, no others. */
  ghost predicate Progress(j: Json, at: Path, order: MemberOrder, done: set<string>, es: seq<Entry>,
                           m0: map<string, Json>, m: map<string, Json>, keys0: seq<string>, keys: seq<string>)
  {
    PartDone(j, at, order, es, done) && Written(at, es, m0, m) && keys == keys0 + KeysOf(at, es)
  }

  lemma ProgressStep(j: Json, at: Path, order: MemberOrder, done: set<string>, es: seq<Entry>,
                     m0: map<string, Json>, m: map<string, Json>, keys0: seq<string>, keys: seq<string>,
                     token: string, sub: seq<Entry>, m': map<string, Json>, keys': seq<string>)
    requires Progress(j, at, order, done, es, m0, m, keys0, keys) && token !in done && StepChecked(j, token).Ok?
    requires Enumerates(StepChecked(j, token).value, sub)
    requires Entered(StepChecked(j, token).value, at + [token], order, sub)
    requires Written(at + [token], sub, m, m') && keys' == keys + KeysOf(at + [token], sub)
    ensures Progress(j, at, order, done + {token}, es + Prefixed(token, sub), m0, m', keys0, keys')
    ensures FirstToken(es + Prefixed(token, sub)) == if es == [] then Some(token) else FirstToken(es)
  {
    hide Under, ToString, Enumerates, Entered, Written, StepChecked;
    NextChild(j, at, order, es, done, token, sub);
    WrittenConcat(at, es, token, sub, m0, m, m');
    KeysConcat(at, es, token, sub);
    var path := HasLeaf(StepChecked(j, token).value);
    SomeEntry(StepChecked(j, token).value, sub, path);
  }

  lemma SomeEntry(j: Json, es: seq<Entry>, path: Path)
    requires Enumerates(j, es) && LeafAt(j, path).Some?
    ensures es != []
  {
    assert Entry(path, LeafAt(j, path).value) in es;
  }

  /**
   The recursive writer. `m` and `keys` are the result object and the order in which its members
   were first written; `order` is the order in which each object hands out its members.
   */
  method FlattenInto(ref: string, at: Path, value: Json, order: MemberOrder, m0: map<string, Json>, keys0: seq<string>)
    returns (m: map<string, Json>, keys: seq<string>, ghost es: seq<Entry>)
    requires SizesFit(value) && IsOrder(order) && ref == ToString(at) && Fresh(at, m0)
    ensures Enumerates(value, es) && Entered(value, at, order, es)
    ensures Written(at, es, m0, m) && keys == keys0 + KeysOf(at, es)
    decreases value
  {
    hide Under, ToString, Enumerates, Entered, PartDone, Written, Fresh;
    hide ArrayIndex, Numeral, KeysOf, Prefixed, Escape, IsOrder;
    m, keys, es := m0, keys0, [];
    if IsLeaf(value) {
      es := [Entry([], LeafValue(value))];
      LeafWritten(value, at, order, m0, es);
      m, keys := m[ref := LeafValue(value)], keys + [ref];
      return;
    }
    ghost var done: set<string> := {};
    NothingDone(value, at, order, m0);
    match value {
      case Arr(a) =>
        for i := 0 to |a|
          invariant Progress(value, at, order, done, es, m0, m, keys0, keys)
          invariant forall t: string :: t in done <==> ArrayIndex(t).Ok? && ArrayIndex(t).value < i
          invariant if i == 0 then es == [] else FirstToken(es) == Some("0")
        {
          var token := Numeral(i);
          NumeralSteps(a, i);
          IndexText(at, i);
          ChildIsFresh(value, at, order, es, done, token, m0, m);
          ghost var sub, before, keysBefore := [], m, keys;
          m, keys, sub := FlattenInto(ref + "/" + token, at + [token], a[i], order, m, keys);
          ProgressStep(value, at, order, done, es, m0, before, keys0, keysBefore, token, sub, m, keys);
          OnlyNumeral(i, done);
          es, done := es + Prefixed(token, sub), done + {token};
        }
        DashIsNoNumber();
        assert forall t: string :: t in done <==> StepChecked(value, t).Ok?;
      case Obj(members) =>
        var names := order(at, members);
        ListsMembers(order, at, members);
        for i := 0 to |names|
          invariant forall t: string :: t in done <==> t in names[..i]
          invariant Progress(value, at, order, done, es, m0, m, keys0, keys)
          invariant if i == 0 then es == [] else FirstToken(es) == Some(names[0])
        {
          var key := names[i];
          assert key !in names[..i] && names[..i + 1] == names[..i] + [key];
          ChildIsFresh(value, at, order, es, done, key, m0, m);
          ToStringSnoc(at, key);
          ghost var sub, before, keysBefore := [], m, keys;
          m, keys, sub := FlattenInto(ref + "/" + Escape(key), at + [key], members[key], order, m, keys);
          ProgressStep(value, at, order, done, es, m0, before, keys0, keysBefore, key, sub, m, keys);
          es, done := es + Prefixed(key, sub), done + {key};
        }
        assert names[..|names|] == names;
      case _ =>
    }
    AllChildren(value, at, order, es, done);
  }

  lemma OnlyNumeral(k: nat, done: set<string>)
    requires k < SIZE_MAX
    requires forall t: string :: t in done <==> ArrayIndex(t).Ok? && ArrayIndex(t).value < k
    ensures Numeral(k) !in done && (k == 0 ==> Numeral(k) == "0")
    ensures forall t: string :: t in done + {Numeral(k)} <==> ArrayIndex(t).Ok? && ArrayIndex(t).value < k + 1
  {
    ArrayIndexIff(Numeral(k), k);
    forall t: string | ArrayIndex(t) == Ok(k) ensures t == Numeral(k) {
      ArrayIndexIff(t, k);
    }
  }

  /**
   Flattening a whole document: what the result holds, and what comes back when it is visited in the
   order it was written. The document comes back exactly when it has no empty container and no object
   hands out the key "0" first; with empty containers replaced by nulls, exactly when the latter holds.
   */
  method FlattenDocument(j: Json, order: MemberOrder) returns (m: map<string, Json>, keys: seq<string>)
    requires SizesFit(j) && IsOrder(order)
    ensures IsFlattened(j, m) && Visits(m, keys) && HoldsValues(j, m)
    ensures Unflatten(Obj(m), keys) == Ok(j) <==> NoEmptyContainer(j) && FirstKeysPastZero(j, [], order)
    ensures Unflatten(Obj(m), keys) == Ok(Emptied(j)) <==> FirstKeysPastZero(j, [], order)
    ensures NoZeroKey(j) ==> FirstKeysPastZero(j, [], order)
  {
    ghost var es;
    m, keys, es := FlattenInto("", [], j, order, map[], []);
    WholeDocument(j, order, m, keys, es);
  }

  lemma WholeKeys(j: Json, m: map<string, Json>, keys: seq<string>, es: seq<Entry>)
    requires Enumerates(j, es) && Written([], es, map[], m) && keys == KeysOf([], es)
    ensures forall i :: 0 <= i < |es| ==>
              keys[i] == ToString(es[i].path) && m[keys[i]] == es[i].value && LeafAt(j, es[i].path) == Some(es[i].value)
    ensures forall k :: k in m <==> k in keys
  {
    forall i | 0 <= i < |es| ensures keys[i] == ToString(es[i].path) && LeafAt(j, es[i].path) == Some(es[i].value) {
      assert [] + es[i].path == es[i].path && es[i] in es;
    }
  }

  lemma WholeIsFlattened(j: Json, m: map<string, Json>, keys: seq<string>, es: seq<Entry>)
    requires Enumerates(j, es) && Written([], es, map[], m) && keys == KeysOf([], es)
    ensures IsFlattened(j, m)
  {
    hide ToString, LeafAt, Written, KeysOf, Enumerates;
    WholeKeys(j, m, keys, es);
    forall p: Path | LeafAt(j, p).Some? ensures ToString(p) in m && m[ToString(p)] == LeafAt(j, p).value {
      var i := LeafEntry(j, es, p);
    }
    forall key | key in m ensures exists p: Path :: LeafAt(j, p).Some? && ToString(p) == key {
      var i :| 0 <= i < |keys| && keys[i] == key;
      assert LeafAt(j, es[i].path).Some? && ToString(es[i].path) == key;
    }
  }

  /** Where a leaf stands among the entries. */
  lemma LeafEntry(j: Json, es: seq<Entry>, p: Path) returns (i: nat)
    requires Enumerates(j, es) && LeafAt(j, p).Some?
    ensures i < |es| && es[i] == Entry(p, LeafAt(j, p).value)
  {
    var e := Entry(p, LeafAt(j, p).value);
    assert e in es;
    i :| 0 <= i < |es| && es[i] == e;
  }

  lemma WholeIsVisited(j: Json, m: map<string, Json>, keys: seq<string>, es: seq<Entry>)
    requires Enumerates(j, es) && Written([], es, map[], m) && keys == KeysOf([], es)
    ensures Visits(m, keys)
  {
    hide ToString, LeafAt, Written, KeysOf;
    WholeKeys(j, m, keys, es);
    forall i, k | 0 <= i < k < |keys| ensures keys[i] != keys[k] {
      if keys[i] == keys[k] {
        ToStringInjective(es[i].path, es[k].path);
      }
    }
  }

  lemma WholeDocument(j: Json, order: MemberOrder, m: map<string, Json>, keys: seq<string>, es: seq<Entry>)
    requires SizesFit(j) && IsOrder(order) && Enumerates(j, es) && Entered(j, [], order, es)
    requires Written([], es, map[], m) && keys == KeysOf([], es)
    ensures IsFlattened(j, m) && Visits(m, keys) && HoldsValues(j, m)
    ensures Unflatten(Obj(m), keys) == Ok(j) <==> NoEmptyContainer(j) && FirstKeysPastZero(j, [], order)
    ensures Unflatten(Obj(m), keys) == Ok(Emptied(j)) <==> FirstKeysPastZero(j, [], order)
    ensures NoZeroKey(j) ==> FirstKeysPastZero(j, [], order)
  {
    hide ToString, LeafAt, Split, Unflatten, Entered, ArraysFromZero, ObjectsPastZero, ReachedInOrder;
    hide IsOrder, IsFlattened, HoldsValues, Emptied;
    hide FirstKeysPastZero, NoEmptyContainer, NoZeroKey, SizesFit, Enumerates, Written, KeysOf;
    WholeIsFlattened(j, m, keys, es);
    WholeIsVisited(j, m, keys, es);
    WholeKeys(j, m, keys, es);
    forall i | 0 <= i < |es| ensures EntriesOf(m, keys)[i] == es[i] {
      PrintThenSplit(es[i].path);
    }
    assert EntriesOf(m, keys) == es;
    EnteredFromZero(j, [], order, es);
    OrderSuffices(j, es);
    EnteredPastZero(j, [], order, es);
    if NoZeroKey(j) {
      NoZeroKeySuffices(j, es);
    }
    UnflattenFlatten(j, m, keys);
    FlattenedHolds(j, m);
    EmptiedComesBack(j, m, keys);
  }
}
