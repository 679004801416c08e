/**
 Orders in which a flattened document is visited: what an order needs that enters every array at
 index 0, and the order of the texts (a sorted container), which does.
 */
module FlattenOrders {
  import opened Wrappers
  import opened Numerals
  import opened PointerText
  import opened Json
  import opened Flatten

  ghost predicate NoEmptyContainer(j: Json) {
    match j
    case Arr(a) => a != [] && forall k :: 0 <= k < |a| ==> NoEmptyContainer(a[k])
    case Obj(m) => m != map[] && forall key :: key in m ==> NoEmptyContainer(m[key])
    case _ => true
  }

  ghost predicate NoZeroKey(j: Json) {
    match j
    case Arr(a) => forall k :: 0 <= k < |a| ==> NoZeroKey(a[k])
    case Obj(m) => "0" !in m && forall key :: key in m ==> NoZeroKey(m[key])
    case _ => true
  }

  /** Every nonempty array is first reached through index 0. */
  ghost predicate ArraysFromZero(j: Json, es: seq<Entry>)
    decreases j
  {
    && (j.Arr? && j.items != [] ==> FirstToken(es) == Some("0"))
    && forall t: string | StepChecked(j, t).Ok? :: ArraysFromZero(StepChecked(j, t).value, Under(es, t))
  }

  lemma ChildrenOf(j: Json)
    requires SizesFit(j) && !IsLeaf(j)
    ensures NoEmptyContainer(j) <==>
            forall t: string | StepChecked(j, t).Ok? :: NoEmptyContainer(StepChecked(j, t).value)
    ensures NoZeroKey(j) ==> forall t: string | StepChecked(j, t).Ok? :: NoZeroKey(StepChecked(j, t).value)
    ensures forall t: string | StepChecked(j, t).Ok? :: SizesFit(StepChecked(j, t).value)
  {
    hide ArrayIndex, Numeral;
    if j.Arr? {
      forall k: nat | k < |j.items| ensures StepChecked(j, Numeral(k)) == Ok(j.items[k]) {
        NumeralSteps(j.items, k);
      }
    } else {
      assert forall t :: t in j.members ==> StepChecked(j, t) == Ok(j.members[t]);
    }
  }

  /** Every nonempty object is first reached through a key other than "0". */
  ghost predicate ObjectsPastZero(j: Json, es: seq<Entry>)
    decreases j
  {
    && (j.Obj? ==> FirstToken(es) != Some("0"))
    && forall t: string | StepChecked(j, t).Ok? :: ObjectsPastZero(StepChecked(j, t).value, Under(es, t))
  }

  /** In an order that enters arrays at 0, the exact condition no longer mentions arrays. */
  lemma {:induction false} OrderSuffices(j: Json, es: seq<Entry>)
    requires SizesFit(j) && Enumerates(j, es) && ArraysFromZero(j, es)
    ensures ReachedInOrder(j, es) <==> NoEmptyContainer(j) && ObjectsPastZero(j, es)
    decreases j
  {
    hide Under, Enumerates, ArrayIndex;
    if IsLeaf(j) {
      LeafOrder(j, es);
    } else {
      ChildrenOf(j);
      EnumeratesTokens(j, es);
      forall t: string | StepChecked(j, t).Ok?
        ensures var child, below := StepChecked(j, t).value, Under(es, t);
                ReachedInOrder(child, below) <==> NoEmptyContainer(child) && ObjectsPastZero(child, below)
      {
        EnumeratesUnder(j, es, t);
        OrderSuffices(StepChecked(j, t).value, Under(es, t));
      }
    }
  }

  lemma LeafOrder(j: Json, es: seq<Entry>)
    requires IsLeaf(j) && Enumerates(j, es)
    ensures ReachedInOrder(j, es) <==> NoEmptyContainer(j)
    ensures ObjectsPastZero(j, es)
  {
    LeafEnumerated(j, es);
  }

  /** Without a key "0" no object can be reached through one. */
  lemma {:induction false} NoZeroKeySuffices(j: Json, es: seq<Entry>)
    requires SizesFit(j) && Enumerates(j, es) && NoZeroKey(j)
    ensures ObjectsPastZero(j, es)
    decreases j
  {
    hide Under, Enumerates, ArrayIndex;
    if IsLeaf(j) {
      LeafOrder(j, es);
    } else {
      ChildrenOf(j);
      EnumeratesTokens(j, es);
      forall t: string | StepChecked(j, t).Ok? ensures ObjectsPastZero(StepChecked(j, t).value, Under(es, t)) {
        EnumeratesUnder(j, es, t);
        NoZeroKeySuffices(StepChecked(j, t).value, Under(es, t));
      }
      FirstIsChild(j, es);
    }
  }

  /** The first path of a container goes through one of its children. */
  lemma FirstIsChild(j: Json, es: seq<Entry>)
    requires Enumerates(j, es) && !IsLeaf(j)
    ensures FirstToken(es).Some? && StepChecked(j, FirstToken(es).value).Ok?
  {
    hide Under, Enumerates, StepChecked;
    EnumeratesTokens(j, es);
    UnderNonempty(es, es[0].path[0]);
    assert StartsWith(es[0], es[0].path[0]);
  }

  // ---------- the sorted order ----------

  /** The strict lexicographic order of texts. */
  predicate Less(a: string, b: string) {
    if b == "" then false
    else if a == "" then true
    else a[0] < b[0] || (a[0] == b[0] && Less(a[1..], b[1..]))
  }

  predicate Sorted(keys: seq<string>) {
    forall i, k :: 0 <= i < k < |keys| ==> Less(keys[i], keys[k])
  }

  predicate SortedPaths(es: seq<Entry>) {
    forall i, k :: 0 <= i < k < |es| ==> Less(ToString(es[i].path), ToString(es[k].path))
  }

  lemma {:induction false} LessCancel(c: string, a: string, b: string)
    ensures Less(c + a, c + b) <==> Less(a, b)
  {
    if c == "" {
      assert c + a == a && c + b == b;
    } else {
      LessCancel(c[1..], a, b);
      assert (c + a)[1..] == c[1..] + a && (c + b)[1..] == c[1..] + b;
    }
  }

  lemma LessUnder(token: string, p: Path, q: Path)
    ensures Less(ToString([token] + p), ToString([token] + q)) <==> Less(ToString(p), ToString(q))
  {
    ToStringCons(token, p);
    ToStringCons(token, q);
    LessCancel("/" + Escape(token), ToString(p), ToString(q));
  }

  lemma {:induction false} UnderSorted(es: seq<Entry>, token: string)
    requires SortedPaths(es)
    ensures SortedPaths(Under(es, token))
  {
    hide Less, ToString;
    if es != [] {
      var es', last := es[..|es| - 1], es[|es| - 1];
      UnderSorted(es', token);
      if StartsWith(last, token) {
        var sub := Under(es', token);
        forall i | 0 <= i < |sub| ensures Less(ToString(sub[i].path), ToString(last.path[1..])) {
          UnderMember(es', token, sub[i]);
          var k :| 0 <= k < |es'| && es'[k] == Entry([token] + sub[i].path, sub[i].value);
          assert Less(ToString(es[k].path), ToString(last.path));
          assert last.path == [token] + last.path[1..];
          LessUnder(token, sub[i].path, last.path[1..]);
        }
      }
    }
  }

  lemma {:induction false} DigitsNeedNoEscape(s: string)
    requires AllDigits(s)
    ensures EscapeChars(s) == s
  {
    if s != "" {
      assert IsDigit(s[0]);
      DigitsNeedNoEscape(s[1..]);
    }
  }

  /** A path through another index is printed after every path through index 0. */
  lemma ZeroComesFirst(token: string, p: Path, q: Path)
    requires ArrayIndex(token).Ok? && token != "0"
    ensures !Less(ToString([token] + p), ToString(["0"] + q))
  {
    hide ToString, Escape, EscapeChars, Less, ArrayIndex, Numeral;
    var n := ArrayIndex(token).value;
    ArrayIndexIff(token, n);
    NumeralIsCanonical(n);
    ToStringCons(token, p);
    ToStringCons("0", q);
    ReplaceTwice(token);
    ReplaceTwice("0");
    DigitsNeedNoEscape(token);
    DigitsNeedNoEscape("0");
    assert token[0] > '0' by {
      NotZero(n);
    }
    LaterText("/" + token + ToString(p), "/" + "0" + ToString(q));
  }

  lemma NotZero(n: nat)
    requires Numeral(n) != "0"
    ensures n > 0
  {
  }

  lemma LaterText(a: string, b: string)
    requires |a| > 1 && |b| > 1 && a[0] == b[0] && a[1] > b[1]
    ensures !Less(a, b)
  {
    assert a[1..][0] == a[1] && b[1..][0] == b[1];
  }

  lemma {:induction false} SortedEntersAtZero(j: Json, es: seq<Entry>)
    requires Enumerates(j, es) && SortedPaths(es)
    ensures ArraysFromZero(j, es)
    decreases j
  {
    hide Under, Enumerates, ArrayIndex, Less, ToString;
    if !IsLeaf(j) {
      EnumeratesTokens(j, es);
      forall t: string | StepChecked(j, t).Ok? ensures ArraysFromZero(StepChecked(j, t).value, Under(es, t)) {
        EnumeratesUnder(j, es, t);
        UnderSorted(es, t);
        SortedEntersAtZero(StepChecked(j, t).value, Under(es, t));
      }
      if j.Arr? {
        FirstIsZero(j, es);
      }
    } else if !j.Arr? || j.items == [] {
      assert forall t: string :: StepChecked(j, t).Err?;
    }
  }

  lemma FirstIsZero(j: Json, es: seq<Entry>)
    requires Enumerates(j, es) && SortedPaths(es) && j.Arr? && !IsLeaf(j)
    ensures FirstToken(es) == Some("0")
  {
    hide Under, Enumerates, Less, ToString;
    EnumeratesTokens(j, es);
    ArrayIndexIff("0", 0);
    UnderNonempty(es, "0");
    assert StepChecked(j, "0").Ok?;
    var k :| 0 <= k < |es| && StartsWith(es[k], "0");
    var token := es[0].path[0];
    UnderNonempty(es, token);
    assert StartsWith(es[0], token);
    assert ArrayIndex(token).Ok?;
    assert es[0].path == [token] + es[0].path[1..] && es[k].path == ["0"] + es[k].path[1..];
    if token != "0" {
      ZeroComesFirst(token, es[0].path[1..], es[k].path[1..]);
      assert false;
    }
  }

  // ---------- which objects the sorted order enters past "0" ----------

  /** Every text under the key "0" with value v starts with this, and the first of them is no shorter. */
  function ZeroText(v: Json): string { if IsLeaf(v) then "0" else "0/" }

  /** Some other key's text sorts before the texts under "0". */
  ghost predicate SomeKeyFirst(m: map<string, Json>) {
    "0" in m ==> exists key :: key in m && key != "0" && Less(Escape(key), ZeroText(m["0"]))
  }

  /** Every object with a key "0" has a key that sorts before it. */
  ghost predicate SortsPastZero(j: Json) {
    match j
    case Arr(a) => forall k :: 0 <= k < |a| ==> SortsPastZero(a[k])
    case Obj(m) => SomeKeyFirst(m) && forall key :: key in m ==> SortsPastZero(m[key])
    case _ => true
  }

  lemma {:induction false} LessAsym(a: string, b: string)
    requires Less(a, b)
    ensures !Less(b, a)
  {
    if a != "" && a[0] == b[0] {
      LessAsym(a[1..], b[1..]);
    }
  }

  /** Comparing texts that go on with '/' or end, where one of them goes through "0". */
  lemma TextOrder(a: string, x: string, y: string)
    requires '/' !in a && a != "0" && (x == "" || x[0] == '/') && (y == "" || y[0] == '/')
    ensures Less(a + x, "0" + y) <==> Less(a, if y == "" then "0" else "0/")
  {
    assert ("0" + y)[1..] == y && ("0" + y)[0] == '0';
    if a == "" {
      assert a + x == x;
    } else {
      assert (a + x)[0] == a[0] && (a + x)[1..] == a[1..] + x;
      if a[0] == '0' {
        assert a[1..] != "" && a[1..][0] == a[1] && a[1] in a;
        SlashOrder(a[1..], x, y);
        LessTail(a + x, "0" + y);
        LessTail(a, "0");
        LessTail(a, "0/");
        assert "0"[1..] == "" && "0/"[1..] == "/";
      }
    }
  }

  lemma LessTail(a: string, b: string)
    requires a != "" && b != "" && a[0] == b[0]
    ensures Less(a, b) <==> Less(a[1..], b[1..])
  {
  }

  lemma SlashOrder(a: string, x: string, y: string)
    requires a != "" && a[0] != '/' && (y == "" || y[0] == '/')
    ensures Less(a + x, y) <==> Less(a, if y == "" then "" else "/")
  {
    assert (a + x)[0] == a[0];
  }

  lemma TextShape(p: Path)
    ensures p == [] ==> ToString(p) == ""
    ensures p != [] ==> ToString(p) != "" && ToString(p)[0] == '/'
  {
    if p != [] {
      assert p == [p[0]] + p[1..];
      ToStringCons(p[0], p[1..]);
    }
  }

  lemma EscapedKey(key: string)
    ensures '/' !in Escape(key) && (Escape(key) == "0" <==> key == "0")
  {
    hide Escape, Unescape;
    TextToken(key);
    TextToken("0");
    ReplaceTwice("0");
    assert EscapeChars("0") == "0" + EscapeChars("") == "0";
  }

  /** A path through another key against a path to a leaf below "0". */
  lemma PathOrder(key: string, p: Path, q: Path, v: Json)
    requires key != "0" && LeafAt(v, q).Some?
    ensures Less(ToString([key] + p), ToString(["0"] + q)) <==> Less(Escape(key), ZeroText(v))
  {
    hide ToString, Escape, Less;
    ToStringCons(key, p);
    ToStringCons("0", q);
    EscapedKey(key);
    EscapedKey("0");
    TextShape(p);
    TextShape(q);
    var a, b := Escape(key) + ToString(p), "0" + ToString(q);
    assert "/" + Escape(key) + ToString(p) == "/" + a && "/" + "0" + ToString(q) == "/" + b;
    LessCancel("/", a, b);
    TextOrder(Escape(key), ToString(p), ToString(q));
  }

  /** An entry below a child of an object. */
  lemma EntryBelow(j: Json, es: seq<Entry>, key: string) returns (k: nat, p: Path)
    requires Enumerates(j, es) && j.Obj? && key in j.members
    ensures k < |es| && es[k].path == [key] + p && LeafAt(j.members[key], p).Some?
  {
    hide Under, ArrayIndex;
    EnumeratesTokens(j, es);
    UnderNonempty(es, key);
    assert StepChecked(j, key).Ok?;
    k :| 0 <= k < |es| && StartsWith(es[k], key);
    p := es[k].path[1..];
    assert es[k] in es;
  }

  /** In text order an object is entered past "0" exactly when some key sorts before it. */
  lemma FirstPastZero(j: Json, es: seq<Entry>)
    requires Enumerates(j, es) && SortedPaths(es) && j.Obj? && j.members != map[]
    ensures FirstToken(es) != Some("0") <==> SomeKeyFirst(j.members)
  {
    hide Under, ToString, Less, Enumerates, LeafAt, ZeroText, Escape;
    var m := j.members;
    FirstIsChild(j, es);
    var t := FirstToken(es).value;
    if "0" in m {
      if t != "0" {
        var first, p := EntryAt(j, es, 0);
        var k, q := EntryBelow(j, es, "0");
        assert Less(ToString(es[0].path), ToString(es[k].path));
        PathOrder(t, p, q, m["0"]);
      } else if SomeKeyFirst(m) {
        var key :| key in m && key != "0" && Less(Escape(key), ZeroText(m["0"]));
        var k, p := EntryBelow(j, es, key);
        var first, q := EntryAt(j, es, 0);
        PathOrder(key, p, q, m["0"]);
        LessAsym(ToString(es[k].path), ToString(es[0].path));
        assert false;
      }
    }
  }

  lemma EntryAt(j: Json, es: seq<Entry>, k: nat) returns (key: string, p: Path)
    requires Enumerates(j, es) && j.Obj? && j.members != map[] && k < |es|
    ensures es[k].path == [key] + p && key in j.members && LeafAt(j.members[key], p).Some?
  {
    assert es[k] in es;
    key, p := es[k].path[0], es[k].path[1..];
  }

  /** The sorted order's condition, read off the document. */
  lemma {:induction false} PastZeroIffSorts(j: Json, es: seq<Entry>)
    requires SizesFit(j) && Enumerates(j, es) && SortedPaths(es)
    ensures ObjectsPastZero(j, es) <==> SortsPastZero(j)
    decreases j
  {
    hide Under, Enumerates, ArrayIndex, SortedPaths, SomeKeyFirst;
    if IsLeaf(j) {
      LeafOrder(j, es);
      NoKeyNeeded();
    } else {
      ChildrenOf(j);
      SortsChildren(j);
      forall t: string | StepChecked(j, t).Ok?
        ensures ObjectsPastZero(StepChecked(j, t).value, Under(es, t)) <==> SortsPastZero(StepChecked(j, t).value)
      {
        EnumeratesUnder(j, es, t);
        UnderSorted(es, t);
        PastZeroIffSorts(StepChecked(j, t).value, Under(es, t));
      }
      if j.Obj? {
        FirstPastZero(j, es);
      }
    }
  }

  lemma NoKeyNeeded()
    ensures SomeKeyFirst(map[])
  {
  }

  lemma SortsChildren(j: Json)
    requires SizesFit(j) && !IsLeaf(j)
    ensures SortsPastZero(j) <==>
            && (j.Obj? ==> SomeKeyFirst(j.members))
            && forall t: string | StepChecked(j, t).Ok? :: SortsPastZero(StepChecked(j, t).value)
  {
    hide ArrayIndex, Numeral, SomeKeyFirst;
    if j.Arr? {
      forall k: nat | k < |j.items| ensures StepChecked(j, Numeral(k)) == Ok(j.items[k]) {
        NumeralSteps(j.items, k);
      }
    } else {
      assert forall t :: t in j.members ==> StepChecked(j, t) == Ok(j.members[t]);
    }
  }

  /** Keys in text order are entries in the order of their paths' texts. */
  lemma SortedEntries(j: Json, m: map<string, Json>, keys: seq<string>)
    requires IsFlattened(j, m) && Visits(m, keys) && Sorted(keys)
    ensures SortedPaths(EntriesOf(m, keys))
  {
    hide Less, ToString, Split, LeafAt;
    var es := EntriesOf(m, keys);
    forall i, k | 0 <= i < k < |es| ensures Less(ToString(es[i].path), ToString(es[k].path)) {
      var p := FlatMember(j, m, keys[i]);
      var q := FlatMember(j, m, keys[k]);
    }
  }

  /**
   Visited in text order, a document comes back exactly when it has no empty container and, in every
   object with a key "0", another key sorts before it. Without a key "0" the second condition holds.
   */
  lemma SortedRoundTrip(j: Json, m: map<string, Json>, keys: seq<string>)
    requires SizesFit(j) && IsFlattened(j, m) && Visits(m, keys) && Sorted(keys)
    ensures Unflatten(Obj(m), keys) == Ok(j) <==> NoEmptyContainer(j) && SortsPastZero(j)
    ensures NoZeroKey(j) ==> SortsPastZero(j)
  {
    var es := EntriesOf(m, keys);
    SortedEntries(j, m, keys);
    FlatEnumerates(j, m, keys);
    SortedEntersAtZero(j, es);
    OrderSuffices(j, es);
    PastZeroIffSorts(j, es);
    if NoZeroKey(j) {
      NoZeroKeySuffices(j, es);
    }
    UnflattenFlatten(j, m, keys);
  }

  /** A document that does not come back in any order: an object whose only key is "0". */
  lemma ZeroKeyIsLost(v: Json, m: map<string, Json>, keys: seq<string>)
    requires SizesFit(v) && IsFlattened(Obj(map["0" := v]), m) && Visits(m, keys)
    ensures Unflatten(Obj(m), keys) != Ok(Obj(map["0" := v]))
  {
    hide Under, Enumerates, Unflatten, IsFlattened;
    var j := Obj(map["0" := v]);
    assert "0" in j.members;
    FlatEnumerates(j, m, keys);
    FirstIsChild(j, EntriesOf(m, keys));
    UnflattenFlatten(j, m, keys);
  }
}
