/**
 What flattening does to empty containers: they become nulls, and apart from that the document comes
 back whenever the order of visiting allows.
 */
module EmptyContainers {
  import opened Wrappers
  import opened Numerals
  import opened PointerText
  import opened Json
  import opened Flatten
  import opened FlattenOrders

  // ---------- what a flattened document holds ----------

  /** The value is a null, a primitive or an empty container. */
  predicate HasNoParts(w: Json) { w == Null || w.Prim? || w == Arr([]) || w == Obj(map[]) }

  /** The leaves are the values without parts, with a null for each empty container. */
  lemma {:induction false} LeafIsReached(j: Json, p: Path)
    ensures match GetChecked(j, p)
            case Err(_) => LeafAt(j, p) == None
            case Ok(w) =>
              && (w == Null || w == Arr([]) || w == Obj(map[]) ==> LeafAt(j, p) == Some(Null))
              && (w.Prim? ==> LeafAt(j, p) == Some(w))
              && (!HasNoParts(w) ==> LeafAt(j, p) == None)
    decreases |p|
  {
    if p != [] && !IsLeaf(j) && StepChecked(j, p[0]).Ok? {
      LeafIsReached(StepChecked(j, p[0]).value, p[1..]);
    }
  }

  /** Every value without parts stands under the text of its path, empty containers as nulls, and nothing else does. */
  ghost predicate HoldsValues(j: Json, m: map<string, Json>) {
    && (forall p: Path :: GetChecked(j, p) == Ok(Arr([])) || GetChecked(j, p) == Ok(Obj(map[])) ==>
          ToString(p) in m && m[ToString(p)] == Null)
    && (forall p: Path :: GetChecked(j, p).Ok? && (GetChecked(j, p).value == Null || GetChecked(j, p).value.Prim?) ==>
          ToString(p) in m && m[ToString(p)] == GetChecked(j, p).value)
    && (forall key | key in m ::
          exists p: Path :: ToString(p) == key && GetChecked(j, p).Ok? && HasNoParts(GetChecked(j, p).value))
  }

  lemma FlattenedHolds(j: Json, m: map<string, Json>)
    requires IsFlattened(j, m)
    ensures HoldsValues(j, m)
  {
    hide LeafAt, GetChecked, ToString, IsFlattened;
    forall p: Path | GetChecked(j, p).Ok? && HasNoParts(GetChecked(j, p).value)
      ensures ToString(p) in m
      ensures m[ToString(p)] == if GetChecked(j, p).value.Prim? then GetChecked(j, p).value else Null
    {
      LeafIsReached(j, p);
      LeafMember(j, m, p);
    }
    forall key | key in m
      ensures exists p: Path :: ToString(p) == key && GetChecked(j, p).Ok? && HasNoParts(GetChecked(j, p).value)
    {
      var p := FlatMember(j, m, key);
      LeafIsReached(j, p);
    }
  }

  // ---------- what comes back ----------

  /** The document with every empty container replaced by null. */
  function Emptied(j: Json): Json {
    match j
    case Arr(a) => if a == [] then Null else Arr(seq(|a|, i requires 0 <= i < |a| => Emptied(a[i])))
    case Obj(m) => if m == map[] then Null else Obj(map key | key in m :: Emptied(m[key]))
    case _ => j
  }

  lemma EmptiedStep(j: Json, t: string)
    requires !IsLeaf(j)
    ensures !IsLeaf(Emptied(j)) && Emptied(j).Obj? == j.Obj? && Emptied(j).Arr? == j.Arr?
    ensures StepChecked(Emptied(j), t) ==
            match StepChecked(j, t) case Err(e) => Err(e) case Ok(child) => Ok(Emptied(child))
  {
    hide ArrayIndex;
    if j.Obj? {
      var key :| key in j.members;
      assert key in Emptied(j).members;
    }
  }

  lemma {:induction false} EmptiedLeaf(j: Json, p: Path)
    ensures LeafAt(Emptied(j), p) == LeafAt(j, p)
    decreases |p|
  {
    hide StepChecked;
    if !IsLeaf(j) {
      if p == [] {
        EmptiedStep(j, "");
      } else {
        EmptiedStep(j, p[0]);
        if StepChecked(j, p[0]).Ok? {
          EmptiedLeaf(StepChecked(j, p[0]).value, p[1..]);
        }
      }
    }
  }

  /** The same object is the flattened form of both. */
  lemma EmptiedFlattened(j: Json, m: map<string, Json>)
    requires IsFlattened(j, m)
    ensures IsFlattened(Emptied(j), m)
  {
    hide LeafAt, ToString, Emptied;
    forall p: Path ensures LeafAt(Emptied(j), p) == LeafAt(j, p) {
      EmptiedLeaf(j, p);
    }
  }

  lemma {:induction false} EmptiedShape(j: Json)
    requires SizesFit(j)
    ensures SizesFit(Emptied(j)) && NoEmptyContainer(Emptied(j))
    decreases j
  {
    match j
    case Arr(a) =>
      forall k | 0 <= k < |a| ensures SizesFit(Emptied(a[k])) && NoEmptyContainer(Emptied(a[k])) {
        EmptiedShape(a[k]);
      }
    case Obj(m) =>
      if m != map[] {
        EmptiedStep(j, "");
      }
      forall key | key in m ensures SizesFit(Emptied(m[key])) && NoEmptyContainer(Emptied(m[key])) {
        EmptiedShape(m[key]);
      }
    case _ =>
  }

  lemma {:induction false} EmptiedOrder(j: Json, es: seq<Entry>)
    requires Enumerates(j, es)
    ensures ArraysFromZero(j, es) ==> ArraysFromZero(Emptied(j), es)
    ensures ObjectsPastZero(Emptied(j), es) <==> ObjectsPastZero(j, es)
    decreases j
  {
    hide Under, StepChecked, Enumerates, Emptied;
    if IsLeaf(j) {
      LeafOrders(j, es);
    } else {
      forall t: string
        ensures StepChecked(Emptied(j), t).Ok? <==> StepChecked(j, t).Ok?
        ensures StepChecked(j, t).Ok? ==>
                  var child, below := StepChecked(j, t).value, Under(es, t);
                  && StepChecked(Emptied(j), t).value == Emptied(child)
                  && (ArraysFromZero(child, below) ==> ArraysFromZero(Emptied(child), below))
                  && (ObjectsPastZero(Emptied(child), below) <==> ObjectsPastZero(child, below))
      {
        EmptiedStep(j, t);
        if StepChecked(j, t).Ok? {
          StepDown(j, t);
          EnumeratesUnder(j, es, t);
          EmptiedOrder(StepChecked(j, t).value, Under(es, t));
        }
      }
      EmptiedStep(j, "");
    }
  }

  lemma StepDown(j: Json, t: string)
    requires StepChecked(j, t).Ok?
    ensures StepChecked(j, t).value < j
  {
  }

  lemma LeafOrders(j: Json, es: seq<Entry>)
    requires IsLeaf(j) && Enumerates(j, es)
    ensures ArraysFromZero(Emptied(j), es)
    ensures ObjectsPastZero(Emptied(j), es) && ObjectsPastZero(j, es)
  {
    LeafEnumerated(j, es);
    assert forall t: string :: StepChecked(j, t).Err? && StepChecked(Emptied(j), t).Err?;
  }

  /**
   In an order that enters arrays at 0, unflattening gives the document with its empty containers
   replaced by nulls, if and only if no object is entered through "0".
   */
  lemma EmptiedComesBack(j: Json, m: map<string, Json>, keys: seq<string>)
    requires SizesFit(j) && IsFlattened(j, m) && Visits(m, keys) && ArraysFromZero(j, EntriesOf(m, keys))
    ensures Unflatten(Obj(m), keys) == Ok(Emptied(j)) <==> ObjectsPastZero(j, EntriesOf(m, keys))
  {
    hide Unflatten, Emptied, IsFlattened, Enumerates, ArraysFromZero, ObjectsPastZero, ReachedInOrder, NoEmptyContainer;
    var es := EntriesOf(m, keys);
    FlatEnumerates(j, m, keys);
    EmptiedFlattened(j, m);
    EmptiedShape(j);
    EmptiedOrder(j, es);
    FlatEnumerates(Emptied(j), m, keys);
    OrderSuffices(Emptied(j), es);
    UnflattenFlatten(Emptied(j), m, keys);
  }

  /** In text order: if and only if in every object with a key "0" another key sorts before it. */
  lemma EmptiedSorted(j: Json, m: map<string, Json>, keys: seq<string>)
    requires SizesFit(j) && IsFlattened(j, m) && Visits(m, keys) && Sorted(keys)
    ensures Unflatten(Obj(m), keys) == Ok(Emptied(j)) <==> SortsPastZero(j)
  {
    hide Unflatten, Emptied, IsFlattened, Enumerates, ArraysFromZero, ObjectsPastZero, SortsPastZero;
    var es := EntriesOf(m, keys);
    SortedEntries(j, m, keys);
    FlatEnumerates(j, m, keys);
    SortedEntersAtZero(j, es);
    PastZeroIffSorts(j, es);
    EmptiedComesBack(j, m, keys);
  }
}
