/**
 The document tree and three walkers of `json_pointer`: the checked one, the membership test and
 the one that creates what is missing. A walker that returns a reference through which the caller
 stores `v` is modelled by the document that results from the store.
 */
module Json {
  import opened Wrappers
  import opened Numerals

  datatype Scalar = Bool(b: bool) | Number(n: int) | Float(r: real) | Text(s: string) | Binary(data: seq<bv8>)

  datatype Json =
    | Null
    | Prim(scalar: Scalar)
    | Arr(items: seq<Json>)
    | Obj(members: map<string, Json>)

  const OUT_OF_RANGE_INDEX: nat := 401
  const OUT_OF_RANGE_DASH: nat := 402
  const OUT_OF_RANGE_KEY: nat := 403

  // ---------- access without creation ----------

  /** One step of `get_checked`. */
  function StepChecked(j: Json, token: string): (r: Result<Json>)
    ensures r.Ok? ==> r.value < j
  {
    match j
    case Obj(m) => if token in m then Ok(m[token]) else Err(OUT_OF_RANGE_KEY)
    case Arr(a) =>
      if token == "-" then Err(OUT_OF_RANGE_DASH)
      else (
        match ArrayIndex(token)
        case Err(e) => Err(e)
        case Ok(i) => if i < |a| then Ok(a[i]) else Err(OUT_OF_RANGE_INDEX))
    case _ => Err(OUT_OF_RANGE_TOKEN)
  }

  function GetChecked(j: Json, tokens: seq<string>): Result<Json> {
    if tokens == [] then Ok(j)
    else
      match StepChecked(j, tokens[0])
      case Err(e) => Err(e)
      case Ok(child) => GetChecked(child, tokens[1..])
  }

  method GetCheckedLoop(j: Json, tokens: seq<string>) returns (r: Result<Json>)
    ensures r == GetChecked(j, tokens)
  {
    var ptr := j;
    for k := 0 to |tokens|
      invariant GetChecked(j, tokens) == GetChecked(ptr, tokens[k..])
    {
      var token := tokens[k];
      assert tokens[k..][1..] == tokens[k + 1..];
      match ptr {
        case Obj(m) =>
          if token !in m { return Err(OUT_OF_RANGE_KEY); }
          ptr := m[token];
        case Arr(a) =>
          if token == "-" { return Err(OUT_OF_RANGE_DASH); }
          match ArrayIndex(token) {
            case Err(e) => return Err(e);
            case Ok(i) =>
              if i >= |a| { return Err(OUT_OF_RANGE_INDEX); }
              ptr := a[i];
          }
        case _ => return Err(OUT_OF_RANGE_TOKEN);
      }
    }
    assert tokens[|tokens|..] == [];
    return Ok(ptr);
  }

  /**
   The membership test, which filters array tokens by their characters before converting them: it
   throws what the conversion throws, and otherwise says whether the checked walk succeeds.
   */
  method Contains(j: Json, tokens: seq<string>) returns (r: Result<bool>)
    ensures match Thrown(j, tokens)
            case Some(e) => r == Err(e)
            case None => r == Ok(GetChecked(j, tokens).Ok?)
    ensures r == Ok(true) <==> GetChecked(j, tokens).Ok?
  {
    var ptr := j;
    for k := 0 to |tokens|
      invariant GetChecked(j, tokens) == GetChecked(ptr, tokens[k..])
      invariant GetChecked(j, tokens[..k]) == Ok(ptr)
      invariant Thrown(j, tokens) == Thrown(ptr, tokens[k..])
    {
      var token := tokens[k];
      assert tokens[k..][1..] == tokens[k + 1..];
      assert tokens[..k + 1] == tokens[..k] + [token];
      GetCheckedSnoc(j, tokens[..k], token);
      match ptr {
        case Obj(m) =>
          if token !in m { return Ok(false); }
          ptr := m[token];
        case Arr(a) =>
          DashIsNoNumber();
          if token == "-" { return Ok(false); }
          if |token| == 1 && !('0' <= token[0] <= '9') {
            RejectedByCharacters(token, 0);
            return Ok(false);
          }
          if |token| > 1 {
            if !('1' <= token[0] <= '9') {
              RejectedByCharacters(token, 0);
              return Ok(false);
            }
            for i := 1 to |token|
              invariant forall q :: 0 <= q < i ==> IsDigit(token[q])
            {
              if !('0' <= token[i] <= '9') {
                RejectedByCharacters(token, i);
                return Ok(false);
              }
            }
          }
          AcceptedByCharacters(token);
          match ArrayIndex(token) {
            case Err(e) => return Err(e);
            case Ok(idx) =>
              if idx >= |a| { return Ok(false); }
              ptr := a[idx];
          }
        case _ => return Ok(false);
      }
    }
    assert tokens[|tokens|..] == [];
    return Ok(true);
  }

  /**
   What the conversion throws on a token that passes the character tests: 410 on the numeral of the
   largest size, 404 on the empty token and on every larger numeral.
   */
  function Unconvertible(token: string): Option<nat> {
    if token == "" || (Canonical(token) && Value(token) > SIZE_MAX) then Some(OUT_OF_RANGE_TOKEN)
    else if Canonical(token) && Value(token) == SIZE_MAX then Some(OUT_OF_RANGE_SIZE)
    else None
  }

  /** What the membership test throws: the first such token that the walk meets at an array decides. */
  function Thrown(j: Json, tokens: seq<string>): Option<nat> {
    if tokens == [] then None
    else if j.Arr? && Unconvertible(tokens[0]).Some? then Unconvertible(tokens[0])
    else
      match StepChecked(j, tokens[0])
      case Err(_) => None
      case Ok(child) => Thrown(child, tokens[1..])
  }

  /** Both errors occur, and neither is one that the documentation of `contains` lists. */
  lemma ContainsCanThrow()
    ensures Thrown(Arr([]), [""]) == Some(404)
    ensures Thrown(Arr([]), [Numeral(0xFFFF_FFFF_FFFF_FFFF)]) == Some(410)
  {
    hide Numeral, Value, StepChecked, Canonical;
    NumeralIsCanonical(SIZE_MAX);
  }

  lemma DashIsNoNumber()
    ensures ArrayIndex("-").Err? && Unconvertible("-").None?
  {
    assert !IsDigit("-"[0]);
  }

  lemma RejectedByCharacters(token: string, i: nat)
    requires i < |token| && (i == 0 && |token| > 1 ==> !('1' <= token[0] <= '9'))
    requires !(i == 0 && |token| > 1) ==> !IsDigit(token[i])
    ensures ArrayIndex(token).Err? && Unconvertible(token).None?
  {
    if ArrayIndex(token).Ok? {
      ArrayIndexIff(token, ArrayIndex(token).value);
      NumeralIsCanonical(ArrayIndex(token).value);
    }
  }

  lemma AcceptedByCharacters(token: string)
    requires token == "" || Canonical(token)
    ensures match Unconvertible(token)
            case Some(e) => ArrayIndex(token) == Err(e)
            case None => ArrayIndex(token).Ok?
  {
    if token != "" {
      CountAll(token);
      assert token[..|token|] == token && IsDigit(token[0]);
    }
  }

  lemma {:induction false} GetCheckedSnoc(j: Json, tokens: seq<string>, token: string)
    ensures GetChecked(j, tokens + [token]) ==
            match GetChecked(j, tokens) case Err(e) => Err(e) case Ok(w) => StepChecked(w, token)
  {
    if tokens == [] {
      assert tokens + [token] == [token];
    } else {
      assert (tokens + [token])[1..] == tokens[1..] + [token];
      match StepChecked(j, tokens[0])
      case Err(_) =>
      case Ok(child) => GetCheckedSnoc(child, tokens[1..], token);
    }
  }

  // ---------- access with creation ----------

  function Nulls(n: nat): (s: seq<Json>)
    ensures |s| == n && forall k :: 0 <= k < n ==> s[k] == Null
  {
    seq(n, _ => Null)
  }

  /** `operator[]` on an array: nulls fill the gap up to the index. */
  function Grown(a: seq<Json>, index: nat): (g: seq<Json>)
    ensures |g| == if index < |a| then |a| else index + 1
    ensures g[..|a|] == a && forall k :: |a| <= k < |g| ==> g[k] == Null
  {
    if index < |a| then a else a + Nulls(index + 1 - |a|)
  }

  /** `operator[]` on an object: a missing member appears as null. */
  function Member(m: map<string, Json>, key: string): Json {
    if key in m then m[key] else Null
  }

  /** What `get_unchecked` turns a null into before it looks at the token. */
  function Materialized(j: Json, token: string): Json {
    if !j.Null? then j
    else if AllDigits(token) || token == "-" then Arr([])
    else Obj(map[])
  }

  /** `get_unchecked(tokens)` on a mutable document, then storing `v` through the reference. */
  function Put(j: Json, tokens: seq<string>, v: Json): Result<Json>
    decreases |tokens|
  {
    if tokens == [] then Ok(v)
    else
      var token, rest := tokens[0], tokens[1..];
      match Materialized(j, token)
      case Obj(m) => (
        match Put(Member(m, token), rest, v)
        case Err(e) => Err(e)
        case Ok(child) => Ok(Obj(m[token := child])))
      case Arr(a) => (
        match if token == "-" then Ok(|a|) else ArrayIndex(token)
        case Err(e) => Err(e)
        case Ok(i) => (
          match Put(Grown(a, i)[i], rest, v)
          case Err(e) => Err(e)
          case Ok(child) => Ok(Arr(Grown(a, i)[i := child]))))
      case _ => Err(OUT_OF_RANGE_TOKEN)
  }

  /** `j` with the child that `token` resolves to replaced. */
  function WithChild(j: Json, token: string, child: Json): Json
    requires StepChecked(j, token).Ok?
  {
    if j.Obj? then Obj(j.members[token := child]) else Arr(j.items[ArrayIndex(token).value := child])
  }

  /** Where the checked walker can step, the creating walker steps to the same child. */
  lemma PutStep(j: Json, tokens: seq<string>, v: Json)
    requires tokens != [] && StepChecked(j, tokens[0]).Ok?
    ensures Put(j, tokens, v) ==
            match Put(StepChecked(j, tokens[0]).value, tokens[1..], v)
            case Err(e) => Err(e)
            case Ok(child) => Ok(WithChild(j, tokens[0], child))
  {
    match j
    case Obj(m) =>
    case Arr(a) => assert Grown(a, ArrayIndex(tokens[0]).value) == a;
  }

  lemma StepWithChild(j: Json, token: string, child: Json)
    requires StepChecked(j, token).Ok?
    ensures StepChecked(WithChild(j, token, child), token) == Ok(child)
  {
  }

  /** Some step of the walk resolves "-" against an array. */
  predicate UsesDash(j: Json, tokens: seq<string>)
    decreases |tokens|
  {
    tokens != [] &&
    var token, rest := tokens[0], tokens[1..];
    match Materialized(j, token)
    case Obj(m) => UsesDash(Member(m, token), rest)
    case Arr(a) => (
      token == "-" ||
      match ArrayIndex(token)
      case Err(_) => false
      case Ok(i) => UsesDash(Grown(a, i)[i], rest))
    case _ => false
  }

  /** What was stored is what the checked walker finds, unless the walk went through an array's "-". */
  lemma {:induction false} PutThenGet(j: Json, tokens: seq<string>, v: Json)
    requires Put(j, tokens, v).Ok?
    ensures GetChecked(Put(j, tokens, v).value, tokens) == Ok(v) <==> !UsesDash(j, tokens)
    decreases |tokens|
  {
    if tokens != [] {
      var token, rest := tokens[0], tokens[1..];
      match Materialized(j, token)
      case Obj(m) => PutThenGet(Member(m, token), rest, v);
      case Arr(a) =>
        if token != "-" {
          PutThenGet(Grown(a, ArrayIndex(token).value)[ArrayIndex(token).value], rest, v);
        }
      case _ =>
    }
  }

  lemma {:induction false} GetCheckedConcat(j: Json, p: seq<string>, q: seq<string>)
    ensures GetChecked(j, p + q) == match GetChecked(j, p) case Err(e) => Err(e) case Ok(w) => GetChecked(w, q)
    decreases |p|
  {
    hide StepChecked;
    if p == [] {
      assert p + q == q;
    } else {
      assert (p + q)[0] == p[0] && (p + q)[1..] == p[1..] + q;
      if StepChecked(j, p[0]).Ok? {
        GetCheckedConcat(StepChecked(j, p[0]).value, p[1..], q);
      }
    }
  }

  /** Below the place, the stored value is all there is, errors included. */
  lemma PutThenGetBelow(j: Json, p: seq<string>, v: Json, q: seq<string>)
    requires Put(j, p, v).Ok? && !UsesDash(j, p)
    ensures GetChecked(Put(j, p, v).value, p + q) == GetChecked(v, q)
  {
    PutThenGet(j, p, v);
    GetCheckedConcat(Put(j, p, v).value, p, q);
  }

  predicate IsPrefix(p: seq<string>, q: seq<string>) { p <= q }

  /** What a pointer that resolved to `w` resolves to once `v` has been stored at `p`. */
  function AfterPut(p: seq<string>, v: Json, q: seq<string>, w: Json): Result<Json> {
    if IsPrefix(q, p) then Put(w, p[|q|..], v)
    else if IsPrefix(p, q) then GetChecked(v, q[|p|..])
    else Ok(w)
  }

  lemma PrefixHead(p: seq<string>, q: seq<string>)
    requires p != [] && IsPrefix(p, q)
    ensures p[0] == q[0]
  {
  }

  /**
   The frame of a store: a pointer above the place sees the document with the store made in it, a
   pointer below it sees into the new value, and every other pointer sees what it saw before.
   */
  lemma {:induction false} PutFrame(j: Json, p: seq<string>, v: Json, q: seq<string>)
    requires Put(j, p, v).Ok? && GetChecked(j, q).Ok?
    ensures GetChecked(Put(j, p, v).value, q) == AfterPut(p, v, q, GetChecked(j, q).value)
    decreases |p|
  {
    if q == [] {
      assert p[0..] == p;
    } else if p == [] {
      assert q[0..] == q;
    } else {
      assert p == [p[0]] + p[1..] && q == [q[0]] + q[1..];
      if p[0] == q[0] {
        assert IsPrefix(q, p) <==> IsPrefix(q[1..], p[1..]);
        assert IsPrefix(p, q) <==> IsPrefix(p[1..], q[1..]);
        assert |q| <= |p| ==> p[|q|..] == p[1..][|q[1..]|..];
        assert |p| <= |q| ==> q[|p|..] == q[1..][|p[1..]|..];
        PutStep(j, p, v);
        PutFrame(StepChecked(j, q[0]).value, p[1..], v, q[1..]);
        StepWithChild(j, p[0], Put(StepChecked(j, q[0]).value, p[1..], v).value);
      } else {
        if IsPrefix(q, p) {
          PrefixHead(q, p);
          assert false;
        }
        if IsPrefix(p, q) {
          PrefixHead(p, q);
          assert false;
        }
        StepElsewhere(j, p, v, q[0]);
      }
    }
  }

  /** A store through one token leaves the children under the other tokens alone. */
  lemma StepElsewhere(j: Json, p: seq<string>, v: Json, other: string)
    requires p != [] && other != p[0] && Put(j, p, v).Ok? && StepChecked(j, other).Ok?
    ensures StepChecked(Put(j, p, v).value, other) == StepChecked(j, other)
  {
    match j
    case Obj(m) =>
    case Arr(a) =>
      var k := ArrayIndex(other).value;
      if p[0] != "-" && ArrayIndex(p[0]) == Ok(k) {
        SameIndex(p[0], other);
      }
      var i := if p[0] == "-" then |a| else ArrayIndex(p[0]).value;
      assert Grown(a, i)[k] == Grown(a, i)[..|a|][k] == a[k];
  }

  lemma SameIndex(s: string, t: string)
    requires ArrayIndex(s).Ok? && ArrayIndex(s) == ArrayIndex(t)
    ensures s == t
  {
    ArrayIndexIff(s, ArrayIndex(s).value);
    ArrayIndexIff(t, ArrayIndex(s).value);
  }

  /** Storing what is already there changes nothing. */
  lemma {:induction false} GetThenPut(j: Json, tokens: seq<string>)
    requires GetChecked(j, tokens).Ok?
    ensures Put(j, tokens, GetChecked(j, tokens).value) == Ok(j)
    decreases |tokens|
  {
    if tokens != [] {
      var child := StepChecked(j, tokens[0]).value;
      PutStep(j, tokens, GetChecked(j, tokens).value);
      GetThenPut(child, tokens[1..]);
      match j
      case Obj(m) => assert m[tokens[0] := child] == m;
      case Arr(a) => assert a[ArrayIndex(tokens[0]).value := child] == a;
    }
  }

  /** Whether a store succeeds does not depend on the value stored. */
  lemma {:induction false} PutSucceeds(j: Json, tokens: seq<string>, v: Json, w: Json)
    ensures Put(j, tokens, v).Ok? <==> Put(j, tokens, w).Ok?
    decreases |tokens|
  {
    if tokens != [] {
      var token, rest := tokens[0], tokens[1..];
      match Materialized(j, token)
      case Obj(m) => PutSucceeds(Member(m, token), rest, v, w);
      case Arr(a) =>
        var at := if token == "-" then Ok(|a|) else ArrayIndex(token);
        if at.Ok? {
          PutSucceeds(Grown(a, at.value)[at.value], rest, v, w);
        }
      case _ =>
    }
  }

  lemma PutTwiceInObject(m: map<string, Json>, tokens: seq<string>, child: Json, w: Json)
    requires tokens != []
    ensures Put(Obj(m[tokens[0] := child]), tokens, w) == Put(Obj(m), tokens, w) <==>
            Put(child, tokens[1..], w) == Put(Member(m, tokens[0]), tokens[1..], w)
  {
    var last, first := Put(child, tokens[1..], w), Put(Member(m, tokens[0]), tokens[1..], w);
    if last.Ok? && first.Ok? {
      var m1, m2 := m[tokens[0] := child][tokens[0] := last.value], m[tokens[0] := first.value];
      assert m1[tokens[0]] == last.value && m2[tokens[0]] == first.value;
      assert m1 == m[tokens[0] := last.value];
    }
  }

  lemma PutTwiceInArray(a: seq<Json>, tokens: seq<string>, i: nat, child: Json, w: Json)
    requires tokens != [] && tokens[0] != "-" && ArrayIndex(tokens[0]) == Ok(i)
    ensures Put(Arr(Grown(a, i)[i := child]), tokens, w) == Put(Arr(a), tokens, w) <==>
            Put(child, tokens[1..], w) == Put(Grown(a, i)[i], tokens[1..], w)
  {
    var g, last, first := Grown(a, i), Put(child, tokens[1..], w), Put(Grown(a, i)[i], tokens[1..], w);
    assert Grown(g[i := child], i) == g[i := child];
    if last.Ok? && first.Ok? {
      var g1, g2 := g[i := child][i := last.value], g[i := first.value];
      assert g1[i] == last.value && g2[i] == first.value;
      assert g1 == g[i := last.value];
    }
  }

  /** A second store through an array's "-" appends once more. */
  lemma PutTwiceAtDash(a: seq<Json>, tokens: seq<string>, v: Json, w: Json)
    requires tokens != [] && tokens[0] == "-" && Put(Arr(a), tokens, v).Ok?
    ensures Put(Put(Arr(a), tokens, v).value, tokens, w) != Put(Arr(a), tokens, w)
  {
    PutSucceeds(Arr(a), tokens, v, w);
    var once, twice := Put(Arr(a), tokens, w), Put(Put(Arr(a), tokens, v).value, tokens, w);
    assert |once.value.items| == |a| + 1;
    if twice.Ok? {
      assert |twice.value.items| == |a| + 2;
    }
  }

  lemma StoreInObject(j: Json, tokens: seq<string>, v: Json, m: map<string, Json>)
    requires tokens != [] && Materialized(j, tokens[0]) == Obj(m) && Put(j, tokens, v).Ok?
    ensures var below := Put(Member(m, tokens[0]), tokens[1..], v);
            below.Ok? && Put(j, tokens, v) == Ok(Obj(m[tokens[0] := below.value]))
    ensures forall w: Json :: Put(j, tokens, w) == Put(Obj(m), tokens, w)
    ensures UsesDash(j, tokens) == UsesDash(Member(m, tokens[0]), tokens[1..])
  {
  }

  lemma StoreInArray(j: Json, tokens: seq<string>, v: Json, a: seq<Json>)
    requires tokens != [] && Materialized(j, tokens[0]) == Arr(a) && Put(j, tokens, v).Ok?
    ensures forall w: Json :: Put(j, tokens, w) == Put(Arr(a), tokens, w)
    ensures tokens[0] == "-" ==> UsesDash(j, tokens)
    ensures tokens[0] != "-" ==>
              ArrayIndex(tokens[0]).Ok? &&
              var i := ArrayIndex(tokens[0]).value;
              var below := Put(Grown(a, i)[i], tokens[1..], v);
              && below.Ok? && Put(j, tokens, v) == Ok(Arr(Grown(a, i)[i := below.value]))
              && UsesDash(j, tokens) == UsesDash(Grown(a, i)[i], tokens[1..])
  {
  }

  lemma StoreSomewhere(j: Json, tokens: seq<string>, v: Json)
    requires tokens != [] && Put(j, tokens, v).Ok?
    ensures Materialized(j, tokens[0]).Obj? || Materialized(j, tokens[0]).Arr?
  {
  }

  /** The second of two stores at one place wins, unless the walk went through an array's "-". */
  lemma {:induction false} PutThenPut(j: Json, tokens: seq<string>, v: Json, w: Json)
    requires Put(j, tokens, v).Ok?
    ensures Put(Put(j, tokens, v).value, tokens, w) == Put(j, tokens, w) <==> !UsesDash(j, tokens)
    decreases |tokens|
  {
    hide Materialized, ArrayIndex, Put, UsesDash;
    if tokens == [] {
      StoreHere(j, v, w);
    } else {
      var token, rest := tokens[0], tokens[1..];
      StoreSomewhere(j, tokens, v);
      match Materialized(j, token)
      case Obj(m) =>
        StoreInObject(j, tokens, v, m);
        PutThenPut(Member(m, token), rest, v, w);
        PutTwiceInObject(m, tokens, Put(Member(m, token), rest, v).value, w);
      case Arr(a) =>
        StoreInArray(j, tokens, v, a);
        if token == "-" {
          PutTwiceAtDash(a, tokens, v, w);
        } else {
          var i := ArrayIndex(token).value;
          PutThenPut(Grown(a, i)[i], rest, v, w);
          PutTwiceInArray(a, tokens, i, Put(Grown(a, i)[i], rest, v).value, w);
        }
    }
  }

  lemma StoreHere(j: Json, v: Json, w: Json)
    ensures Put(j, [], v) == Ok(v) && Put(v, [], w) == Put(j, [], w) && !UsesDash(j, [])
  {
  }

  // ---------- the walk as a loop ----------

  /** The surroundings of a place in a document: a member without its value, an element without its value. */
  datatype Frame = InObject(members: map<string, Json>, key: string) | InArray(before: seq<Json>, after: seq<Json>)

  function Fill(f: Frame, child: Json): Json {
    match f
    case InObject(m, key) => Obj(m[key := child])
    case InArray(before, after) => Arr(before + [child] + after)
  }

  /** The whole document around a place, the innermost frame last. */
  function Plug(frames: seq<Frame>, child: Json): Json {
    if frames == [] then child
    else Plug(frames[..|frames| - 1], Fill(frames[|frames| - 1], child))
  }

  function Filled(f: Frame, r: Result<Json>): Result<Json> {
    match r case Err(e) => Err(e) case Ok(child) => Ok(Fill(f, child))
  }

  function Plugged(frames: seq<Frame>, r: Result<Json>): Result<Json> {
    match r case Err(e) => Err(e) case Ok(child) => Ok(Plug(frames, child))
  }

  /** The value that the reference returned by `get_unchecked` refers to. */
  function Reached(j: Json, tokens: seq<string>): Result<Json>
    decreases |tokens|
  {
    if tokens == [] then Ok(j)
    else
      var token, rest := tokens[0], tokens[1..];
      match Materialized(j, token)
      case Obj(m) => Reached(Member(m, token), rest)
      case Arr(a) => (
        match if token == "-" then Ok(|a|) else ArrayIndex(token)
        case Err(e) => Err(e)
        case Ok(i) => Reached(Grown(a, i)[i], rest))
      case _ => Err(OUT_OF_RANGE_TOKEN)
  }

  /** After walking `done` the pointer is at `ptr`, surrounded by `frames`. */
  ghost predicate Walked(j: Json, done: seq<string>, frames: seq<Frame>, ptr: Json) {
    && (forall rest: seq<string>, v: Json ::
          Put(j, done + rest, v) == Plugged(frames, Put(ptr, rest, v)))
    && (forall rest: seq<string> :: Reached(j, done + rest) == Reached(ptr, rest))
  }

  lemma WalkStarts(j: Json)
    ensures Walked(j, [], [], j)
  {
    forall rest: seq<string> ensures [] + rest == rest {
    }
  }

  lemma PlugSnoc(frames: seq<Frame>, f: Frame, r: Result<Json>)
    ensures Plugged(frames + [f], r) == Plugged(frames, Filled(f, r))
  {
    assert (frames + [f])[..|frames|] == frames;
  }

  /** One instance of what the walk promises. */
  lemma WalkedAt(j: Json, done: seq<string>, frames: seq<Frame>, ptr: Json, rest: seq<string>, v: Json)
    requires Walked(j, done, frames, ptr)
    ensures Put(j, done + rest, v) == Plugged(frames, Put(ptr, rest, v))
    ensures Reached(j, done + rest) == Reached(ptr, rest)
  {
  }

  /** A store below `ptr` through `token` is a store below `child`, put back into the frame. */
  ghost predicate StepsTo(ptr: Json, token: string, f: Frame, child: Json) {
    && (forall rest: seq<string>, v: Json ::
          Put(ptr, [token] + rest, v) == Filled(f, Put(child, rest, v)))
    && (forall rest: seq<string> :: Reached(ptr, [token] + rest) == Reached(child, rest))
  }

  lemma StepsAt(ptr: Json, token: string, f: Frame, child: Json, rest: seq<string>, v: Json)
    requires StepsTo(ptr, token, f, child)
    ensures Put(ptr, [token] + rest, v) == Filled(f, Put(child, rest, v))
    ensures Reached(ptr, [token] + rest) == Reached(child, rest)
  {
  }

  lemma WalkOnAt(j: Json, done: seq<string>, frames: seq<Frame>, ptr: Json, token: string, f: Frame, child: Json,
                 rest: seq<string>, v: Json)
    requires Walked(j, done, frames, ptr) && StepsTo(ptr, token, f, child)
    ensures Put(j, done + [token] + rest, v) == Plugged(frames + [f], Put(child, rest, v))
    ensures Reached(j, done + [token] + rest) == Reached(child, rest)
  {
    hide *;
    assert done + [token] + rest == done + ([token] + rest);
    WalkedAt(j, done, frames, ptr, [token] + rest, v);
    StepsAt(ptr, token, f, child, rest, v);
    PlugSnoc(frames, f, Put(child, rest, v));
  }

  /** One step of the walk. */
  lemma WalkOn(j: Json, done: seq<string>, frames: seq<Frame>, ptr: Json, token: string, f: Frame, child: Json)
    requires Walked(j, done, frames, ptr) && StepsTo(ptr, token, f, child)
    ensures Walked(j, done + [token], frames + [f], child)
  {
    hide Put, Reached, StepsTo, Plugged;
    forall rest: seq<string>, v: Json
      ensures Put(j, done + [token] + rest, v) == Plugged(frames + [f], Put(child, rest, v))
    {
      WalkOnAt(j, done, frames, ptr, token, f, child, rest, v);
    }
    forall rest: seq<string> ensures Reached(j, done + [token] + rest) == Reached(child, rest) {
      WalkOnAt(j, done, frames, ptr, token, f, child, rest, Null);
    }
  }

  lemma StepObject(ptr: Json, token: string, m: map<string, Json>)
    requires Materialized(ptr, token) == Obj(m)
    ensures StepsTo(ptr, token, InObject(m, token), Member(m, token))
  {
    forall rest: seq<string> ensures ([token] + rest)[1..] == rest {
    }
  }

  /** The place of element i. */
  function Element(a: seq<Json>, i: nat): Frame
    requires i < |a|
  {
    InArray(a[..i], a[i + 1..])
  }

  lemma StepArray(ptr: Json, token: string, a: seq<Json>, i: nat)
    requires Materialized(ptr, token) == Arr(a) && (if token == "-" then Ok(|a|) else ArrayIndex(token)) == Ok(i)
    ensures StepsTo(ptr, token, Element(Grown(a, i), i), Grown(a, i)[i])
  {
    hide ArrayIndex, Materialized;
    forall rest: seq<string> ensures ([token] + rest)[1..] == rest {
    }
    var g := Grown(a, i);
    forall x: Json ensures g[i := x] == g[..i] + [x] + g[i + 1..] {
    }
  }

  /** No step is possible at `ptr`. */
  lemma StepFails(ptr: Json, token: string, rest: seq<string>, v: Json, e: nat)
    requires match Materialized(ptr, token)
             case Obj(_) => false
             case Arr(_) => token != "-" && ArrayIndex(token) == Err(e)
             case _ => e == OUT_OF_RANGE_TOKEN
    ensures Put(ptr, [token] + rest, v) == Err(e)
  {
  }

  /**
   What a walk that throws leaves behind: everything up to some token has been created, and there a
   null has been turned into an empty container for the next token.
   */
  ghost predicate LeftBehind(j: Json, tokens: seq<string>, k: nat, doc: Json) {
    && k < |tokens|
    && Reached(j, tokens[..k]).Ok?
    && Put(j, tokens[..k], Materialized(Reached(j, tokens[..k]).value, tokens[k])) == Ok(doc)
  }

  /** The loop of `get_unchecked` and the store through its result; `doc` is the document afterwards. */
  method StoreLoop(j: Json, tokens: seq<string>, v: Json) returns (thrown: Option<nat>, doc: Json)
    ensures match thrown
            case None => Put(j, tokens, v) == Ok(doc)
            case Some(e) => Put(j, tokens, v) == Err(e) && exists k: nat :: LeftBehind(j, tokens, k, doc)
  {
    hide Put, Reached, Materialized, Plug, Walked, StepsTo, ArrayIndex, Grown, Member;
    var ptr := j;
    var frames: seq<Frame> := [];
    WalkStarts(j);
    for k := 0 to |tokens|
      invariant Walked(j, tokens[..k], frames, ptr)
    {
      var token := tokens[k];
      ghost var rest := tokens[k + 1..];
      assert tokens[..k] + ([token] + rest) == tokens && tokens[..k] + [token] == tokens[..k + 1];
      var filled := Materialized(ptr, token);
      match filled {
        case Obj(m) =>
          StepObject(ptr, token, m);
          WalkOn(j, tokens[..k], frames, ptr, token, InObject(m, token), Member(m, token));
          frames := frames + [InObject(m, token)];
          ptr := Member(m, token);
        case Arr(a) =>
          var at := if token == "-" then Ok(|a|) else ArrayIndex(token);
          match at {
            case Err(e) =>
              WalkThrows(j, tokens, k, frames, ptr, v, e);
              return Some(e), Plug(frames, filled);
            case Ok(i) =>
              var grown := Grown(a, i);
              StepArray(ptr, token, a, i);
              WalkOn(j, tokens[..k], frames, ptr, token, Element(grown, i), grown[i]);
              frames := frames + [Element(grown, i)];
              ptr := grown[i];
          }
        case _ =>
          WalkThrows(j, tokens, k, frames, ptr, v, OUT_OF_RANGE_TOKEN);
          return Some(OUT_OF_RANGE_TOKEN), Plug(frames, filled);
      }
    }
    assert tokens[..|tokens|] == tokens;
    WalkEnds(j, tokens, frames, ptr, v);
    return None, Plug(frames, v);
  }

  lemma WalkEnds(j: Json, tokens: seq<string>, frames: seq<Frame>, ptr: Json, v: Json)
    requires Walked(j, tokens, frames, ptr)
    ensures Put(j, tokens, v) == Ok(Plug(frames, v)) && Reached(j, tokens) == Ok(ptr)
  {
    hide Walked;
    assert tokens + [] == tokens;
    WalkedAt(j, tokens, frames, ptr, [], v);
  }

  lemma WalkThrows(j: Json, tokens: seq<string>, k: nat, frames: seq<Frame>, ptr: Json, v: Json, e: nat)
    requires k < |tokens| && Walked(j, tokens[..k], frames, ptr)
    requires match Materialized(ptr, tokens[k])
             case Obj(_) => false
             case Arr(_) => tokens[k] != "-" && ArrayIndex(tokens[k]) == Err(e)
             case _ => e == OUT_OF_RANGE_TOKEN
    ensures Put(j, tokens, v) == Err(e) && LeftBehind(j, tokens, k, Plug(frames, Materialized(ptr, tokens[k])))
  {
    hide Put, Reached, Materialized, Plug, ArrayIndex, Walked;
    var rest := tokens[k + 1..];
    assert tokens[..k] + ([tokens[k]] + rest) == tokens;
    StepFails(ptr, tokens[k], rest, v, e);
    WalkedAt(j, tokens[..k], frames, ptr, [tokens[k]] + rest, v);
    WalkEnds(j, tokens[..k], frames, ptr, Materialized(ptr, tokens[k]));
  }

  /** Where the checked walker gets, the creating walker gets to the same value. */
  lemma {:induction false} ReachedIfChecked(j: Json, tokens: seq<string>)
    requires GetChecked(j, tokens).Ok?
    ensures Reached(j, tokens) == GetChecked(j, tokens)
    decreases |tokens|
  {
    if tokens != [] {
      ReachedIfChecked(StepChecked(j, tokens[0]).value, tokens[1..]);
    }
  }

  /** A walk that throws changes no value except on its own path. */
  lemma FailedStore(j: Json, tokens: seq<string>, k: nat, doc: Json, q: seq<string>)
    requires LeftBehind(j, tokens, k, doc) && GetChecked(j, q).Ok? && !IsPrefix(q, tokens)
    ensures GetChecked(doc, q) == GetChecked(j, q)
  {
    hide Put, Reached;
    var p := tokens[..k];
    PutFrame(j, p, Materialized(Reached(j, p).value, tokens[k]), q);
    assert !IsPrefix(q, p) by {
      PrefixOfPrefix(q, p, tokens);
    }
    if IsPrefix(p, q) {
      assert p + q[k..] == q;
      GetCheckedConcat(j, p, q[k..]);
      ReachedIfChecked(j, p);
    }
  }

  lemma PrefixOfPrefix(q: seq<string>, p: seq<string>, tokens: seq<string>)
    requires IsPrefix(p, tokens)
    ensures IsPrefix(q, p) ==> IsPrefix(q, tokens)
  {
  }

  // ---------- the steps and the stores, case by case ----------

  /** What a checked step finds, and the error when it finds nothing. */
  lemma CheckedSteps(m: map<string, Json>, a: seq<Json>, x: Scalar, t: string)
    ensures StepChecked(Obj(m), t) == if t in m then Ok(m[t]) else Err(403)
    ensures StepChecked(Arr(a), "-") == Err(402)
    ensures forall n: nat | n < 0xFFFF_FFFF_FFFF_FFFF ::
              StepChecked(Arr(a), Numeral(n)) == if n < |a| then Ok(a[n]) else Err(401)
    ensures t != "-" && ArrayIndex(t).Err? ==> StepChecked(Arr(a), t) == Err(ArrayIndex(t).id)
    ensures StepChecked(Null, t) == Err(404) && StepChecked(Prim(x), t) == Err(404)
  {
    forall n: nat | n < 0xFFFF_FFFF_FFFF_FFFF
      ensures StepChecked(Arr(a), Numeral(n)) == if n < |a| then Ok(a[n]) else Err(401)
    {
      IndexIsNoDash(n);
    }
  }

  lemma IndexIsNoDash(n: nat)
    requires n < SIZE_MAX
    ensures Numeral(n) != "-" && ArrayIndex(Numeral(n)) == Ok(n) && AllDigits(Numeral(n))
  {
    ArrayIndexIff(Numeral(n), n);
    NumeralIsCanonical(n);
    assert !IsDigit("-"[0]);
  }

  /** A store into a member, which is a null if it is absent; and into something that has no parts. */
  lemma ObjectStores(m: map<string, Json>, x: Scalar, t: string, rest: seq<string>, v: Json)
    ensures Put(Obj(m), [], v) == Ok(v)
    ensures match Put(if t in m then m[t] else Null, rest, v)
            case Err(e) => Put(Obj(m), [t] + rest, v) == Err(e)
            case Ok(c) => Put(Obj(m), [t] + rest, v) == Ok(Obj(m[t := c]))
    ensures Put(Prim(x), [t] + rest, v) == Err(404)
  {
    assert ([t] + rest)[1..] == rest;
  }

  /** A store into an element: an existing one, or one behind a gap of nulls. */
  lemma ArrayStores(a: seq<Json>, n: nat, rest: seq<string>, v: Json)
    requires n < 0xFFFF_FFFF_FFFF_FFFF
    ensures match Put(if n < |a| then a[n] else Null, rest, v)
            case Err(e) => Put(Arr(a), [Numeral(n)] + rest, v) == Err(e)
            case Ok(c) =>
              Put(Arr(a), [Numeral(n)] + rest, v) ==
              Ok(Arr(if n < |a| then a[n := c] else a + Nulls(n - |a|) + [c]))
  {
    hide ArrayIndex, Grown;
    IndexIsNoDash(n);
    var tokens := [Numeral(n)] + rest;
    assert tokens[1..] == rest && tokens[0] == Numeral(n);
    GrownAt(a, n);
    var below := Put(Grown(a, n)[n], rest, v);
    if below.Ok? {
      assert Put(Arr(a), tokens, v) == Ok(Arr(Grown(a, n)[n := below.value]));
      GrownStore(a, n, below.value);
    }
  }

  lemma GrownAt(a: seq<Json>, n: nat)
    ensures Grown(a, n)[n] == if n < |a| then a[n] else Null
  {
  }

  lemma GrownStore(a: seq<Json>, n: nat, c: Json)
    ensures Grown(a, n)[n := c] == if n < |a| then a[n := c] else a + Nulls(n - |a|) + [c]
  {
  }

  /** A store one past the end, and through a token that designates no element. */
  lemma ArrayStoresElsewhere(a: seq<Json>, t: string, rest: seq<string>, v: Json)
    ensures match Put(Null, rest, v)
            case Err(e) => Put(Arr(a), ["-"] + rest, v) == Err(e)
            case Ok(c) => Put(Arr(a), ["-"] + rest, v) == Ok(Arr(a + [c]))
    ensures t != "-" && ArrayIndex(t).Err? ==> Put(Arr(a), [t] + rest, v) == Err(ArrayIndex(t).id)
  {
    hide ArrayIndex, Grown;
    assert (["-"] + rest)[1..] == rest && ([t] + rest)[1..] == rest;
    GrownAt(a, |a|);
    if Put(Null, rest, v).Ok? {
      GrownStore(a, |a|, Put(Null, rest, v).value);
      assert Nulls(|a| - |a|) == [] && a + [] == a;
    }
  }

  /**
   What a null becomes: an array for "-" and for digits, where digits that are no index throw; an
   object with one member for every other token.
   */
  lemma NullStores(t: string, n: nat, rest: seq<string>, v: Json)
    requires n < 0xFFFF_FFFF_FFFF_FFFF
    ensures match Put(Null, rest, v)
            case Err(e) =>
              && Put(Null, ["-"] + rest, v) == Err(e)
              && Put(Null, [Numeral(n)] + rest, v) == Err(e)
              && (t != "-" && HoldsNonDigit(t) ==> Put(Null, [t] + rest, v) == Err(e))
            case Ok(c) =>
              && Put(Null, ["-"] + rest, v) == Ok(Arr([c]))
              && Put(Null, [Numeral(n)] + rest, v) == Ok(Arr(Nulls(n) + [c]))
              && (t != "-" && HoldsNonDigit(t) ==> Put(Null, [t] + rest, v) == Ok(Obj(map[t := c])))
    ensures !HoldsNonDigit(t) && ArrayIndex(t).Err? ==> Put(Null, [t] + rest, v) == Err(ArrayIndex(t).id)
  {
    hide ArrayIndex, AllDigits, Nulls, Put, HoldsNonDigit;
    DigitsOrNot(t);
    IndexIsNoDash(n);
    NullAsArray("-", rest, v);
    NullAsArray(Numeral(n), rest, v);
    NullAsArray(t, rest, v);
    ArrayStores([], n, rest, v);
    ArrayStoresElsewhere([], t, rest, v);
    if Put(Null, rest, v).Ok? {
      assert [] + Nulls(n - 0) + [Put(Null, rest, v).value] == Nulls(n) + [Put(Null, rest, v).value];
      assert [] + [Put(Null, rest, v).value] == [Put(Null, rest, v).value];
    }
    NullAsObject(t, rest, v);
  }

  lemma DigitsOrNot(t: string)
    ensures AllDigits(t) <==> !HoldsNonDigit(t)
    ensures !AllDigits("-")
  {
    assert !IsDigit("-"[0]);
  }

  lemma NullAsObject(t: string, rest: seq<string>, v: Json)
    ensures t != "-" && !AllDigits(t) ==>
              match Put(Null, rest, v)
              case Err(e) => Put(Null, [t] + rest, v) == Err(e)
              case Ok(c) => Put(Null, [t] + rest, v) == Ok(Obj(map[t := c]))
  {
    assert ([t] + rest)[1..] == rest;
  }

  predicate HoldsNonDigit(t: string) { exists k :: 0 <= k < |t| && !('0' <= t[k] <= '9') }

  lemma NullAsArray(t: string, rest: seq<string>, v: Json)
    ensures t == "-" || AllDigits(t) ==> Put(Null, [t] + rest, v) == Put(Arr([]), [t] + rest, v)
  {
  }

  /** Below a place that resolves, a store is the store into what stands there. */
  lemma {:induction false} StoreBelow(j: Json, p: seq<string>, q: seq<string>, v: Json)
    requires GetChecked(j, p).Ok?
    ensures match Put(GetChecked(j, p).value, q, v)
            case Err(e) => Put(j, p + q, v) == Err(e)
            case Ok(x) => Put(j, p + q, v).Ok? && GetChecked(Put(j, p + q, v).value, p) == Ok(x)
    decreases |p|
  {
    if p == [] {
      assert p + q == q;
    } else {
      hide Put, StepChecked, WithChild;
      var child := StepChecked(j, p[0]).value;
      assert (p + q)[0] == p[0] && (p + q)[1..] == p[1..] + q;
      StoreBelow(child, p[1..], q, v);
      PutStep(j, p + q, v);
      if Put(child, p[1..] + q, v).Ok? {
        StepWithChild(j, p[0], Put(child, p[1..] + q, v).value);
      }
    }
  }
}
