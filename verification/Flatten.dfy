/**
 Flattening a document into a map from pointer texts to leaves, and rebuilding the document from
 that map. The map is visited in an arbitrary order; which orders give the document back is the
 main result.
 */
module Flatten {
  import opened Wrappers
  import opened Numerals
  import opened PointerText
  import opened Json

  type Path = seq<string>

  datatype Entry = Entry(path: Path, value: Json)

  const TYPE_ERROR_UNFLATTEN: nat := 313
  const TYPE_ERROR_NOT_OBJECT: nat := 314
  const TYPE_ERROR_NOT_PRIMITIVE: nat := 315

  // ---------- rebuilding, over paths ----------

  /** `get_and_create(tokens)` on a mutable document, then storing `v` through the reference. */
  function Create(j: Json, tokens: Path, v: Json): Result<Json>
    decreases |tokens|
  {
    if tokens == [] then Ok(v)
    else
      var token, rest := tokens[0], tokens[1..];
      match j
      case Null => (
        match Create(Null, rest, v)
        case Err(e) => Err(e)
        case Ok(child) => Ok(if token == "0" then Arr([child]) else Obj(map[token := child])))
      case Obj(m) => (
        match Create(Member(m, token), rest, v)
        case Err(e) => Err(e)
        case Ok(child) => Ok(Obj(m[token := child])))
      case Arr(a) => (
        match ArrayIndex(token)
        case Err(e) => Err(e)
        case Ok(i) => (
          match Create(Grown(a, i)[i], rest, v)
          case Err(e) => Err(e)
          case Ok(child) => Ok(Arr(Grown(a, i)[i := child]))))
      case _ => Err(TYPE_ERROR_UNFLATTEN)
  }

  /** The loop of `get_and_create` and the store through its result. */
  method CreateLoop(j: Json, tokens: Path, v: Json) returns (r: Result<Json>)
    ensures r == Create(j, tokens, v)
  {
    hide Create, Plug, Fill, ArrayIndex, Grown, Member;
    var ptr := j;
    var frames: seq<Frame> := [];
    CreateEnds(j, v);
    for k := 0 to |tokens|
      invariant Create(j, tokens, v) == Plugged(frames, Create(ptr, tokens[k..], v))
    {
      var token := tokens[k];
      CreateStep(ptr, tokens[k..], v);
      assert tokens[k..][1..] == tokens[k + 1..];
      var f, child;
      match ptr {
        case Null =>
          f, child := if token == "0" then InArray([], []) else InObject(map[], token), Null;
        case Obj(m) =>
          f, child := InObject(m, token), Member(m, token);
        case Arr(a) =>
          var at := ArrayIndex(token);
          if at.Err? {
            return Err(at.id);
          }
          f, child := Element(Grown(a, at.value), at.value), Grown(a, at.value)[at.value];
        case _ =>
          return Err(TYPE_ERROR_UNFLATTEN);
      }
      PlugSnoc(frames, f, Create(child, tokens[k + 1..], v));
      frames, ptr := frames + [f], child;
    }
    assert tokens[|tokens|..] == [];
    CreateEnds(ptr, v);
    return Ok(Plug(frames, v));
  }

  lemma CreateEnds(j: Json, v: Json)
    ensures Create(j, [], v) == Ok(v)
    ensures forall r: Result<Json> :: Plugged([], r) == r
  {
  }

  /** One step: a store below `ptr` is a store below the child, put back into its frame. */
  lemma CreateStep(ptr: Json, tokens: Path, v: Json)
    requires tokens != []
    ensures var token, rest := tokens[0], tokens[1..];
            Create(ptr, tokens, v) ==
            match ptr
            case Null => Filled(if token == "0" then InArray([], []) else InObject(map[], token), Create(Null, rest, v))
            case Obj(m) => Filled(InObject(m, token), Create(Member(m, token), rest, v))
            case Arr(a) => (
              match ArrayIndex(token)
              case Err(e) => Err(e)
              case Ok(i) => Filled(Element(Grown(a, i), i), Create(Grown(a, i)[i], rest, v)))
            case _ => Err(TYPE_ERROR_UNFLATTEN)
  {
    hide ArrayIndex;
    if ptr.Null? {
      assert forall x: Json :: [] + [x] + [] == [x];
    } else if ptr.Arr? && ArrayIndex(tokens[0]).Ok? {
      var i := ArrayIndex(tokens[0]).value;
      var g := Grown(ptr.items, i);
      assert forall x: Json :: g[i := x] == g[..i] + [x] + g[i + 1..];
    }
  }

  /** Storing the entries one after the other into a null document. */
  function Build(es: seq<Entry>): Result<Json> {
    if es == [] then Ok(Null)
    else
      var last := es[|es| - 1];
      match Build(es[..|es| - 1])
      case Err(e) => Err(e)
      case Ok(j) => Create(j, last.path, last.value)
  }

  predicate StartsWith(e: Entry, token: string) { e.path != [] && e.path[0] == token }

  /** The entries below `token`, in order, with that token taken off. */
  function Under(es: seq<Entry>, token: string): seq<Entry> {
    if es == [] then []
    else
      var rest := Under(es[..|es| - 1], token);
      var last := es[|es| - 1];
      if StartsWith(last, token) then rest + [Entry(last.path[1..], last.value)] else rest
  }

  ghost predicate NonemptyPaths(es: seq<Entry>) { forall k :: 0 <= k < |es| ==> es[k].path != [] }

  lemma {:induction false} UnderMember(es: seq<Entry>, token: string, e: Entry)
    ensures e in Under(es, token) <==> Entry([token] + e.path, e.value) in es
  {
    var full := Entry([token] + e.path, e.value);
    if es != [] {
      var last := es[|es| - 1];
      UnderMember(es[..|es| - 1], token, e);
      assert es == es[..|es| - 1] + [last];
      assert full.path[1..] == e.path;
      if StartsWith(last, token) {
        assert last.path == [token] + last.path[1..];
      }
    }
  }

  lemma UnderNonempty(es: seq<Entry>, token: string)
    ensures Under(es, token) != [] <==> exists k :: 0 <= k < |es| && StartsWith(es[k], token)
  {
    if Under(es, token) != [] {
      var e := Under(es, token)[0];
      UnderMember(es, token, e);
      var k :| 0 <= k < |es| && es[k] == Entry([token] + e.path, e.value);
      assert StartsWith(es[k], token);
    }
    if k :| 0 <= k < |es| && StartsWith(es[k], token) {
      var e := es[k];
      assert e.path == [token] + e.path[1..];
      UnderMember(es, token, Entry(e.path[1..], e.value));
    }
  }

  /** Every child reached by the entries was rebuilt from the entries below its token. */
  ghost predicate ObjectBuilt(es: seq<Entry>, m: map<string, Json>) {
    forall t: string :: (t in m <==> Under(es, t) != []) && Build(Under(es, t)) == Ok(Member(m, t))
  }

  ghost predicate AllBuild(es: seq<Entry>) { forall t: string :: Build(Under(es, t)).Ok? }

  /** If the first path does not start with "0", the entries rebuild an object, child by child. */
  lemma {:induction false} ObjectDecomposes(es: seq<Entry>)
    requires es != [] && NonemptyPaths(es) && es[0].path[0] != "0"
    ensures Build(es).Ok? <==> AllBuild(es)
    ensures Build(es).Ok? ==> Build(es).value.Obj? && ObjectBuilt(es, Build(es).value.members)
  {
    hide Build, Under;
    var es', last := es[..|es| - 1], es[|es| - 1];
    var token, rest := last.path[0], last.path[1..];
    assert es == es' + [last];
    UnderSnoc(es', last);
    BuildSnoc(es', last);
    BuildSnoc(Under(es', token), Entry(rest, last.value));
    if es' == [] {
      NothingBuilt();
    } else {
      ObjectDecomposes(es');
      if Build(es').Err? {
        var t: string :| Build(Under(es', t)).Err?;
        assert Build(Under(es, t)).Err?;
      }
    }
  }

  lemma NothingBuilt()
    ensures Build([]) == Ok(Null) && forall t: string :: Under([], t) == []
  {
  }

  lemma UnderSnoc(es: seq<Entry>, last: Entry)
    requires last.path != []
    ensures Under(es + [last], last.path[0]) == Under(es, last.path[0]) + [Entry(last.path[1..], last.value)]
    ensures forall t: string :: t != last.path[0] ==> Under(es + [last], t) == Under(es, t)
  {
    assert (es + [last])[..|es|] == es;
  }

  lemma BuildSnoc(es: seq<Entry>, e: Entry)
    ensures Build(es + [e]) == match Build(es) case Err(x) => Err(x) case Ok(j) => Create(j, e.path, e.value)
  {
    assert (es + [e])[..|es|] == es;
  }

  ghost predicate AllIndices(es: seq<Entry>) {
    forall t: string :: Under(es, t) != [] ==> ArrayIndex(t).Ok?
  }

  ghost predicate InRange(t: string, a: seq<Json>) { ArrayIndex(t).Ok? && ArrayIndex(t).value < |a| }

  ghost predicate ArrayBuilt(es: seq<Entry>, a: seq<Json>) {
    && (forall t: string :: InRange(t, a) ==> Build(Under(es, t)) == Ok(a[ArrayIndex(t).value]))
    && (forall t: string :: Under(es, t) != [] ==> InRange(t, a))
    && (exists t: string :: Under(es, t) != [] && ArrayIndex(t) == Ok(|a| - 1))
  }

  /** The element a token designates was rebuilt from the entries below that token, or is a null. */
  lemma ElementBuilt(es: seq<Entry>, a: seq<Json>, token: string, i: nat)
    requires ArrayBuilt(es, a) && ArrayIndex(token) == Ok(i)
    ensures Build(Under(es, token)) == Ok(Grown(a, i)[i])
  {
    if i < |a| {
      assert InRange(token, a);
    } else {
      assert !InRange(token, a) && Under(es, token) == [];
    }
  }

  lemma ElementAfter(es: seq<Entry>, a: seq<Json>, last: Entry, i: nat, child: Json, t: string)
    requires last.path != [] && ArrayBuilt(es, a) && ArrayIndex(last.path[0]) == Ok(i)
    requires Build(Under(es + [last], last.path[0])) == Ok(child)
    requires InRange(t, Grown(a, i))
    ensures Build(Under(es + [last], t)) == Ok(Grown(a, i)[i := child][ArrayIndex(t).value])
  {
    hide Build, Under, ArrayIndex, Create;
    var k := ArrayIndex(t).value;
    if t != last.path[0] {
      UnderSnoc(es, last);
      if k == i {
        SameIndex(t, last.path[0]);
      }
      ElementBuilt(es, a, t, k);
      if k < |a| {
        assert Grown(a, i)[k] == Grown(a, i)[..|a|][k] == a[k];
      }
    }
  }

  /** Storing below one token of an array keeps it built, with the gap filled by nulls. */
  lemma ArrayGrows(es: seq<Entry>, a: seq<Json>, last: Entry, i: nat, child: Json)
    requires last.path != [] && ArrayBuilt(es, a) && ArrayIndex(last.path[0]) == Ok(i)
    requires Build(Under(es + [last], last.path[0])) == Ok(child)
    ensures ArrayBuilt(es + [last], Grown(a, i)[i := child])
  {
    hide Build, Under, ArrayIndex, Create;
    var token, b := last.path[0], Grown(a, i)[i := child];
    forall t: string | InRange(t, b) ensures Build(Under(es + [last], t)) == Ok(b[ArrayIndex(t).value]) {
      ElementAfter(es, a, last, i, child, t);
    }
    UnderSnoc(es, last);
    forall t: string | Under(es + [last], t) != [] ensures InRange(t, b) {
      assert t != token ==> InRange(t, a);
    }
    var t: string :| Under(es, t) != [] && ArrayIndex(t) == Ok(|a| - 1);
    var top := if i >= |a| then token else t;
    assert Under(es + [last], top) != [] && ArrayIndex(top) == Ok(|b| - 1);
  }

  /** A failure below one token, or a token that is no index, is not repaired by a later entry. */
  lemma FailureStays(es: seq<Entry>, last: Entry)
    requires last.path != [] && !(AllBuild(es) && AllIndices(es))
    ensures !(AllBuild(es + [last]) && AllIndices(es + [last]))
  {
    UnderSnoc(es, last);
    if !AllBuild(es) {
      var t: string :| Build(Under(es, t)).Err?;
      if t == last.path[0] {
        BuildSnoc(Under(es, t), Entry(last.path[1..], last.value));
      }
      assert Build(Under(es + [last], t)).Err?;
    } else {
      var t: string :| Under(es, t) != [] && ArrayIndex(t).Err?;
      assert Under(es + [last], t) != [];
    }
  }

  lemma ArrayStarts(last: Entry)
    requires last.path != [] && last.path[0] == "0"
    ensures Build([last]).Ok? <==> AllBuild([last]) && AllIndices([last])
    ensures Build([last]).Ok? ==> Build([last]).value.Arr? && ArrayBuilt([last], Build([last]).value.items)
  {
    var rest := last.path[1..];
    UnderSnoc([], last);
    assert [] + [last] == [last];
    BuildSnoc([], last);
    BuildSnoc([], Entry(rest, last.value));
    assert Under([last], "0") == [] + [Entry(rest, last.value)];
    ArrayIndexIff("0", 0);
    if Build([last]).Ok? {
      var a := Build([last]).value.items;
      forall t: string | InRange(t, a) ensures Build(Under([last], t)) == Ok(a[ArrayIndex(t).value]) {
        SameIndex(t, "0");
      }
      assert Under([last], "0") != [] && ArrayIndex("0") == Ok(|a| - 1);
    }
  }

  /** One more entry into a rebuilt array. */
  lemma ArrayStep(es: seq<Entry>, last: Entry)
    requires last.path != [] && AllBuild(es) && AllIndices(es)
    requires Build(es).Ok? && Build(es).value.Arr? && ArrayBuilt(es, Build(es).value.items)
    ensures Build(es + [last]).Ok? <==> AllBuild(es + [last]) && AllIndices(es + [last])
    ensures Build(es + [last]).Ok? ==>
              Build(es + [last]).value.Arr? && ArrayBuilt(es + [last], Build(es + [last]).value.items)
  {
    hide Under, Build, Grown, ArrayIndex, ArrayBuilt;
    var token, rest, a := last.path[0], last.path[1..], Build(es).value.items;
    UnderSnoc(es, last);
    BuildSnoc(es, last);
    if ArrayIndex(token).Err? {
      assert Under(es + [last], token) != [];
    } else {
      var i := ArrayIndex(token).value;
      ElementBuilt(es, a, token, i);
      BuildSnoc(Under(es, token), Entry(rest, last.value));
      if Build(Under(es + [last], token)).Ok? {
        ArrayGrows(es, a, last, i, Build(Under(es + [last], token)).value);
      }
    }
  }

  /** If the first path starts with "0", the entries rebuild an array, index by index. */
  lemma {:induction false} ArrayDecomposes(es: seq<Entry>)
    requires es != [] && NonemptyPaths(es) && es[0].path[0] == "0"
    ensures Build(es).Ok? <==> AllBuild(es) && AllIndices(es)
    ensures Build(es).Ok? ==> Build(es).value.Arr? && ArrayBuilt(es, Build(es).value.items)
  {
    var es', last := es[..|es| - 1], es[|es| - 1];
    assert es == es' + [last];
    if es' == [] {
      ArrayStarts(last);
    } else {
      ArrayDecomposes(es');
      if Build(es').Ok? {
        ArrayStep(es', last);
      } else {
        FailureStays(es', last);
      }
    }
  }

  // ---------- leaves ----------

  predicate IsLeaf(j: Json) {
    match j
    case Arr(a) => a == []
    case Obj(m) => m == map[]
    case _ => true
  }

  /** The value a leaf is flattened to; an empty container becomes null. */
  function LeafValue(j: Json): Json { if j.Arr? || j.Obj? then Null else j }

  function LeafAt(j: Json, path: Path): Option<Json> {
    if IsLeaf(j) then if path == [] then Some(LeafValue(j)) else None
    else if path == [] then None
    else
      match StepChecked(j, path[0])
      case Err(_) => None
      case Ok(child) => LeafAt(child, path[1..])
  }

  ghost predicate Distinct(es: seq<Entry>) {
    forall i, k :: 0 <= i < k < |es| ==> es[i].path != es[k].path
  }

  /** The entries are the leaves of `j`, each once. */
  ghost predicate Enumerates(j: Json, es: seq<Entry>) {
    Distinct(es) && forall e: Entry :: e in es <==> LeafAt(j, e.path) == Some(e.value)
  }

  /** Every index of every array converts back from its numeral. */
  ghost predicate SizesFit(j: Json) {
    match j
    case Arr(a) => |a| <= SIZE_MAX && forall k :: 0 <= k < |a| ==> SizesFit(a[k])
    case Obj(m) => forall key :: key in m ==> SizesFit(m[key])
    case _ => true
  }

  lemma {:induction false} HasLeaf(j: Json) returns (path: Path)
    ensures LeafAt(j, path).Some?
    decreases j
  {
    if IsLeaf(j) {
      path := [];
    } else {
      var token: string;
      match j {
        case Arr(a) =>
          token := "0";
          ArrayIndexIff("0", 0);
        case Obj(m) =>
          token :| token in m;
      }
      var rest := HasLeaf(StepChecked(j, token).value);
      path := [token] + rest;
      assert path[1..] == rest;
    }
  }

  lemma {:induction false} UnderDistinct(es: seq<Entry>, token: string)
    requires Distinct(es)
    ensures Distinct(Under(es, token))
  {
    if es != [] {
      var es', last := es[..|es| - 1], es[|es| - 1];
      UnderDistinct(es', token);
      if StartsWith(last, token) {
        forall e | e in Under(es', token) ensures e.path != last.path[1..] {
          UnderMember(es', token, e);
          var k :| 0 <= k < |es'| && es'[k] == Entry([token] + e.path, e.value);
          assert es[k].path != last.path;
          assert last.path == [token] + last.path[1..];
        }
      }
    }
  }

  /** Below a child of a container stand exactly the leaves of that child. */
  lemma EnumeratesUnder(j: Json, es: seq<Entry>, token: string)
    requires Enumerates(j, es) && !IsLeaf(j) && StepChecked(j, token).Ok?
    ensures Enumerates(StepChecked(j, token).value, Under(es, token))
  {
    hide Under, StepChecked;
    var child := StepChecked(j, token).value;
    UnderDistinct(es, token);
    forall e: Entry ensures e in Under(es, token) <==> LeafAt(child, e.path) == Some(e.value) {
      var full := Entry([token] + e.path, e.value);
      UnderMember(es, token, e);
      assert full.path[1..] == e.path;
      assert LeafAt(j, full.path) == LeafAt(child, e.path);
    }
  }

  /** The tokens that the entries of a container start with are those of its children. */
  lemma EnumeratesTokens(j: Json, es: seq<Entry>)
    requires Enumerates(j, es) && !IsLeaf(j)
    ensures es != [] && NonemptyPaths(es)
    ensures forall t: string :: Under(es, t) != [] <==> StepChecked(j, t).Ok?
  {
    forall t: string ensures Under(es, t) != [] <==> StepChecked(j, t).Ok? {
      if StepChecked(j, t).Ok? {
        EnumeratesUnder(j, es, t);
        var path := HasLeaf(StepChecked(j, t).value);
        assert Entry(path, LeafAt(StepChecked(j, t).value, path).value) in Under(es, t);
      }
      if Under(es, t) != [] {
        var e := Under(es, t)[0];
        UnderMember(es, t, e);
        assert LeafAt(j, Entry([t] + e.path, e.value).path) == Some(e.value);
        assert ([t] + e.path)[0] == t;
      }
    }
    var path := HasLeaf(j);
    assert Entry(path, LeafAt(j, path).value) in es;
    forall k | 0 <= k < |es| ensures es[k].path != [] {
      assert es[k] in es;
    }
  }

  // ---------- when the document comes back ----------

  function FirstToken(es: seq<Entry>): Option<string> {
    if es != [] && es[0].path != [] then Some(es[0].path[0]) else None
  }

  /**
   No container is empty, and in the visiting order every array is first reached through index 0
   and every object through a key other than "0".
   */
  ghost predicate ReachedInOrder(j: Json, es: seq<Entry>)
    decreases j
  {
    match j
    case Arr(a) =>
      && a != [] && FirstToken(es) == Some("0")
      && forall t: string | StepChecked(j, t).Ok? :: ReachedInOrder(StepChecked(j, t).value, Under(es, t))
    case Obj(m) =>
      && m != map[] && FirstToken(es).Some? && FirstToken(es) != Some("0")
      && forall t: string | StepChecked(j, t).Ok? :: ReachedInOrder(StepChecked(j, t).value, Under(es, t))
    case _ => true
  }

  lemma LeafEnumerated(j: Json, es: seq<Entry>)
    requires IsLeaf(j) && Enumerates(j, es)
    ensures es == [Entry([], LeafValue(j))] && Build(es) == Ok(LeafValue(j))
  {
    assert Entry([], LeafValue(j)) in es;
    assert |es| > 1 ==> es[0].path != es[1].path;
    forall k | 0 <= k < |es| ensures es[k] == Entry([], LeafValue(j)) {
      assert es[k] in es;
    }
    BuildSnoc([], es[0]);
    assert [] + [es[0]] == es;
  }

  ghost predicate ChildrenBuild(j: Json, es: seq<Entry>) {
    forall t: string | StepChecked(j, t).Ok? :: Build(Under(es, t)) == Ok(StepChecked(j, t).value)
  }

  lemma ChildrenSuffice(j: Json, es: seq<Entry>)
    requires Enumerates(j, es) && !IsLeaf(j) && ChildrenBuild(j, es)
    ensures AllBuild(es)
    ensures j.Arr? ==> AllIndices(es)
  {
    hide Build, Under, Enumerates;
    EnumeratesTokens(j, es);
    forall t: string ensures Build(Under(es, t)).Ok? {
      if Under(es, t) == [] {
        NothingBuilt();
      }
    }
  }

  /** An object is rebuilt exactly when its first key is not "0" and every member is rebuilt. */
  lemma ObjectReturns(j: Json, es: seq<Entry>)
    requires Enumerates(j, es) && j.Obj? && !IsLeaf(j)
    ensures Build(es) == Ok(j) <==> FirstToken(es) != Some("0") && ChildrenBuild(j, es)
  {
    hide Build, Under, Enumerates, ArrayIndex;
    EnumeratesTokens(j, es);
    if FirstToken(es) == Some("0") {
      ArrayDecomposes(es);
    } else {
      ObjectDecomposes(es);
      if ChildrenBuild(j, es) {
        ChildrenSuffice(j, es);
        var m := Build(es).value.members;
        assert m.Keys == j.members.Keys;
        forall t | t in m ensures m[t] == j.members[t] {
          assert StepChecked(j, t).Ok?;
        }
        assert m == j.members;
      }
    }
  }

  lemma NumeralSteps(a: seq<Json>, k: nat)
    requires k < |a| <= SIZE_MAX
    ensures ArrayIndex(Numeral(k)) == Ok(k) && StepChecked(Arr(a), Numeral(k)) == Ok(a[k])
  {
    ArrayIndexIff(Numeral(k), k);
    DashIsNoNumber();
  }

  lemma ArrayElementsReturn(a: seq<Json>, es: seq<Entry>, b: seq<Json>, k: nat)
    requires k < |a| <= SIZE_MAX && ArrayBuilt(es, b) && ChildrenBuild(Arr(a), es)
    requires Under(es, Numeral(k)) != []
    ensures k < |b| && b[k] == a[k]
  {
    hide Build, Under, ArrayIndex, StepChecked, Numeral;
    NumeralSteps(a, k);
    assert InRange(Numeral(k), b);
  }

  lemma ArrayReturnsForward(j: Json, es: seq<Entry>)
    requires Enumerates(j, es) && j.Arr? && !IsLeaf(j) && |j.items| <= SIZE_MAX
    requires FirstToken(es) == Some("0") && ChildrenBuild(j, es)
    ensures Build(es) == Ok(j)
  {
    hide Build, Under, Enumerates, ArrayIndex, Numeral, ArrayBuilt, ChildrenBuild;
    EnumeratesTokens(j, es);
    ArrayDecomposes(es);
    ChildrenSuffice(j, es);
    var a, b := j.items, Build(es).value.items;
    forall k: nat | k < |a| ensures k < |b| && b[k] == a[k] {
      NumeralSteps(a, k);
      ArrayElementsReturn(a, es, b, k);
    }
    ArrayNotLonger(j, es, b);
    NumeralSteps(a, |a| - 1);
    ArrayElementsReturn(a, es, b, |a| - 1);
    assert a == b;
  }

  lemma ArrayNotLonger(j: Json, es: seq<Entry>, b: seq<Json>)
    requires j.Arr? && ArrayBuilt(es, b)
    requires forall t: string :: Under(es, t) != [] <==> StepChecked(j, t).Ok?
    ensures |b| <= |j.items|
  {
    hide Build, Under, ArrayIndex;
    var top: string :| Under(es, top) != [] && ArrayIndex(top) == Ok(|b| - 1);
    assert StepChecked(j, top).Ok?;
  }

  /** An array is rebuilt exactly when it is first reached through "0" and every element is rebuilt. */
  lemma ArrayReturns(j: Json, es: seq<Entry>)
    requires Enumerates(j, es) && j.Arr? && !IsLeaf(j) && |j.items| <= SIZE_MAX
    ensures Build(es) == Ok(j) <==> FirstToken(es) == Some("0") && ChildrenBuild(j, es)
  {
    hide Build, Under, Enumerates, ArrayIndex;
    EnumeratesTokens(j, es);
    if FirstToken(es) != Some("0") {
      ObjectDecomposes(es);
    } else {
      ArrayDecomposes(es);
      if ChildrenBuild(j, es) {
        ArrayReturnsForward(j, es);
      }
    }
  }

  /** For every document and every order of its leaves: the exact condition for the round trip. */
  lemma {:induction false} BuildReturns(j: Json, es: seq<Entry>)
    requires SizesFit(j) && Enumerates(j, es)
    ensures Build(es) == Ok(j) <==> ReachedInOrder(j, es)
    decreases j
  {
    hide Build, Under, Enumerates, ArrayIndex;
    if IsLeaf(j) {
      LeafEnumerated(j, es);
    } else {
      forall t: string | StepChecked(j, t).Ok?
        ensures Build(Under(es, t)) == Ok(StepChecked(j, t).value) <==>
                ReachedInOrder(StepChecked(j, t).value, Under(es, t))
      {
        EnumeratesUnder(j, es, t);
        BuildReturns(StepChecked(j, t).value, Under(es, t));
      }
      EnumeratesTokens(j, es);
      if j.Arr? {
        ArrayReturns(j, es);
      } else {
        ObjectReturns(j, es);
      }
    }
  }

  // ---------- over pointer texts ----------

  predicate IsPrimitive(j: Json) { j.Null? || j.Prim? }

  /** Rebuilding from the members of a flat object, visited in the order of `keys`. */
  function UnflattenKeys(m: map<string, Json>, keys: seq<string>): Result<Json>
    requires forall key :: key in keys ==> key in m
  {
    if keys == [] then Ok(Null)
    else
      var key := keys[|keys| - 1];
      match UnflattenKeys(m, keys[..|keys| - 1])
      case Err(e) => Err(e)
      case Ok(j) =>
        if !IsPrimitive(m[key]) then Err(TYPE_ERROR_NOT_PRIMITIVE)
        else (
          match Split(key)
          case Err(e) => Err(e)
          case Ok(tokens) => Create(j, tokens, m[key]))
  }

  function Unflatten(value: Json, keys: seq<string>): Result<Json>
    requires value.Obj? ==> forall key :: key in keys ==> key in value.members
  {
    if !value.Obj? then Err(TYPE_ERROR_NOT_OBJECT) else UnflattenKeys(value.members, keys)
  }

  method UnflattenLoop(value: Json, keys: seq<string>) returns (r: Result<Json>)
    requires value.Obj? ==> forall key :: key in keys ==> key in value.members
    ensures r == Unflatten(value, keys)
  {
    if !value.Obj? {
      return Err(TYPE_ERROR_NOT_OBJECT);
    }
    var m := value.members;
    var result := Null;
    for k := 0 to |keys|
      invariant UnflattenKeys(m, keys[..k]) == Ok(result)
    {
      var key := keys[k];
      assert keys[..k + 1][..k] == keys[..k];
      FailurePersists(m, keys, k + 1);
      if !IsPrimitive(m[key]) {
        return Err(TYPE_ERROR_NOT_PRIMITIVE);
      }
      var tokens := SplitLoop(key);
      if tokens.Err? {
        return Err(tokens.id);
      }
      var stored := CreateLoop(result, tokens.value, m[key]);
      if stored.Err? {
        return stored;
      }
      result := stored.value;
    }
    assert keys[..|keys|] == keys;
    return Ok(result);
  }

  lemma {:induction false} FailurePersists(m: map<string, Json>, keys: seq<string>, k: nat)
    requires k <= |keys| && forall key :: key in keys ==> key in m
    ensures UnflattenKeys(m, keys[..k]).Err? ==> UnflattenKeys(m, keys) == UnflattenKeys(m, keys[..k])
    decreases |keys|
  {
    if k == |keys| {
      assert keys[..k] == keys;
    } else {
      var init := keys[..|keys| - 1];
      assert init[..k] == keys[..k];
      FailurePersists(m, init, k);
    }
  }

  /** The object holds, for every leaf, its value under the text of its path, and nothing else. */
  ghost predicate IsFlattened(j: Json, m: map<string, Json>) {
    && (forall p: Path | LeafAt(j, p).Some? :: ToString(p) in m && m[ToString(p)] == LeafAt(j, p).value)
    && (forall key | key in m :: exists p: Path :: LeafAt(j, p).Some? && ToString(p) == key)
  }

  /** The keys visit every member once. */
  ghost predicate Visits(m: map<string, Json>, keys: seq<string>) {
    && (forall key :: key in keys <==> key in m)
    && (forall i, k :: 0 <= i < k < |keys| ==> keys[i] != keys[k])
  }

  function TokensOf(s: string): Path { if Split(s).Ok? then Split(s).value else [] }

  /** The visit as a list of entries. */
  function EntriesOf(m: map<string, Json>, keys: seq<string>): (es: seq<Entry>)
    requires forall key :: key in keys ==> key in m
    ensures |es| == |keys|
    ensures forall i :: 0 <= i < |es| ==> es[i] == Entry(TokensOf(keys[i]), m[keys[i]])
  {
    seq(|keys|, i requires 0 <= i < |keys| => Entry(TokensOf(keys[i]), m[keys[i]]))
  }

  /** Every member of a flattened document is primitive and its key parses to the path it stands for. */
  lemma FlatMember(j: Json, m: map<string, Json>, key: string) returns (p: Path)
    requires IsFlattened(j, m) && key in m
    ensures Split(key) == Ok(p) && key == ToString(p) && LeafAt(j, p) == Some(m[key]) && IsPrimitive(m[key])
  {
    p :| LeafAt(j, p).Some? && ToString(p) == key;
    PrintThenSplit(p);
    LeafIsPrimitive(j, p);
  }

  lemma {:induction false} LeafIsPrimitive(j: Json, p: Path)
    requires LeafAt(j, p).Some?
    ensures IsPrimitive(LeafAt(j, p).value)
    decreases |p|
  {
    if !IsLeaf(j) {
      LeafIsPrimitive(StepChecked(j, p[0]).value, p[1..]);
    }
  }

  lemma LeafMember(j: Json, m: map<string, Json>, p: Path)
    requires IsFlattened(j, m) && LeafAt(j, p).Some?
    ensures ToString(p) in m && m[ToString(p)] == LeafAt(j, p).value
  {
  }

  lemma FlatEnumerates(j: Json, m: map<string, Json>, keys: seq<string>)
    requires IsFlattened(j, m) && Visits(m, keys)
    ensures Enumerates(j, EntriesOf(m, keys))
  {
    hide LeafAt, Split, ToString, IsFlattened;
    var es := EntriesOf(m, keys);
    forall i, k | 0 <= i < k < |es| ensures es[i].path != es[k].path {
      var p := FlatMember(j, m, keys[i]);
      var q := FlatMember(j, m, keys[k]);
    }
    forall e: Entry ensures e in es <==> LeafAt(j, e.path) == Some(e.value) {
      if e in es {
        var i :| 0 <= i < |es| && es[i] == e;
        var p := FlatMember(j, m, keys[i]);
      }
      if LeafAt(j, e.path) == Some(e.value) {
        var key := ToString(e.path);
        LeafMember(j, m, e.path);
        assert key in keys;
        var i :| 0 <= i < |keys| && keys[i] == key;
        PrintThenSplit(e.path);
        assert es[i] == e;
      }
    }
  }

  lemma {:induction false} UnflattenIsBuild(j: Json, m: map<string, Json>, keys: seq<string>)
    requires IsFlattened(j, m) && forall key :: key in keys ==> key in m
    ensures UnflattenKeys(m, keys) == Build(EntriesOf(m, keys))
  {
    hide Create, Split, ToString, LeafAt, IsFlattened;
    if keys != [] {
      var n := |keys| - 1;
      UnflattenIsBuild(j, m, keys[..n]);
      var es := EntriesOf(m, keys);
      assert es[..n] == EntriesOf(m, keys[..n]);
      var p := FlatMember(j, m, keys[n]);
    }
  }

  /**
   The round trip. For every document, its flattened form, and every order in which that form may
   be visited, rebuilding gives the document back if and only if no container is empty, every
   array is first reached through index 0 and every object through a key other than "0".
   */
  lemma UnflattenFlatten(j: Json, m: map<string, Json>, keys: seq<string>)
    requires SizesFit(j) && IsFlattened(j, m) && Visits(m, keys)
    ensures Unflatten(Obj(m), keys) == Ok(j) <==> ReachedInOrder(j, EntriesOf(m, keys))
  {
    FlatEnumerates(j, m, keys);
    UnflattenIsBuild(j, m, keys);
    BuildReturns(j, EntriesOf(m, keys));
  }

  // ---------- the stores, case by case ----------

  /** What `get_and_create` makes of a null, of a member, and of a value that has no parts. */
  lemma CreateCases(m: map<string, Json>, x: Scalar, t: string, rest: Path, v: Json)
    ensures Create(Null, [], v) == Create(Obj(m), [], v) == Create(Prim(x), [], v) == Ok(v)
    ensures match Create(Null, rest, v)
            case Err(e) => Create(Null, [t] + rest, v) == Err(e)
            case Ok(c) => Create(Null, [t] + rest, v) == Ok(if t == "0" then Arr([c]) else Obj(map[t := c]))
    ensures match Create(if t in m then m[t] else Null, rest, v)
            case Err(e) => Create(Obj(m), [t] + rest, v) == Err(e)
            case Ok(c) => Create(Obj(m), [t] + rest, v) == Ok(Obj(m[t := c]))
    ensures Create(Prim(x), [t] + rest, v) == Err(313)
  {
    assert ([t] + rest)[1..] == rest;
  }

  /** What it makes of an element: an existing one, or one behind a gap of nulls. */
  lemma CreateInArray(a: seq<Json>, n: nat, t: string, rest: Path, v: Json)
    requires n < 0xFFFF_FFFF_FFFF_FFFF
    ensures match Create(if n < |a| then a[n] else Null, rest, v)
            case Err(e) => Create(Arr(a), [Numeral(n)] + rest, v) == Err(e)
            case Ok(c) =>
              Create(Arr(a), [Numeral(n)] + rest, v) ==
              Ok(Arr(if n < |a| then a[n := c] else a + Nulls(n - |a|) + [c]))
    ensures ArrayIndex(t).Err? ==> Create(Arr(a), [t] + rest, v) == Err(ArrayIndex(t).id)
  {
    hide ArrayIndex, Grown;
    IndexIsNoDash(n);
    var tokens := [Numeral(n)] + rest;
    assert tokens[1..] == rest && tokens[0] == Numeral(n);
    GrownAt(a, n);
    var below := Create(Grown(a, n)[n], rest, v);
    if below.Ok? {
      assert Create(Arr(a), tokens, v) == Ok(Arr(Grown(a, n)[n := below.value]));
      GrownStore(a, n, below.value);
    }
  }

  /** How unflattening rejects: no object, a member that is a container, a key that is no pointer. */
  lemma UnflattenErrors(m: map<string, Json>, a: seq<Json>, x: Scalar, keys: seq<string>, key: string)
    requires (forall k :: k in keys ==> k in m) && key in m && UnflattenKeys(m, keys).Ok?
    ensures Unflatten(Arr(a), keys) == Unflatten(Prim(x), keys) == Unflatten(Null, keys) == Err(314)
    ensures Unflatten(Obj(m), []) == Ok(Null)
    ensures m[key].Arr? || m[key].Obj? ==> Unflatten(Obj(m), keys + [key]) == Err(315)
    ensures m[key].Null? || m[key].Prim? ==>
              Unflatten(Obj(m), keys + [key]) ==
              match Split(key)
              case Err(e) => Err(e)
              case Ok(tokens) => Create(UnflattenKeys(m, keys).value, tokens, m[key])
  {
    assert (keys + [key])[..|keys|] == keys;
  }
}
