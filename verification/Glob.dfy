/**
 The glob matcher: a single loop with one remembered backtrack point. `past` is the character that
 stands one past the text, which the loop may read.
 */
module Glob {

  predicate Wild(c: char) { c == '*' || c == '#' }

  // ---------- the loop as a transition system ----------

  datatype State = Running(i: nat, j: nat, ni: nat, nj: nat) | Done(result: bool)

  /** `(ni, nj)` is the last wildcard and the text position it resumes from; nj == 0 means none yet. */
  predicate Sane(p: string, t: string, s: State) {
    s.Running? ==>
      && s.i <= |p| && s.j <= |t| && s.nj <= |t| + 1
      && (s.nj > 0 ==> s.ni < |p| && Wild(p[s.ni]) && s.ni <= s.i && s.nj <= s.j + 1)
      && (s.nj > 0 && s.nj <= |t| ==> t[s.nj - 1] != p[s.ni])
  }

  function At(t: string, past: char, j: nat): char { if j < |t| then t[j] else past }

  /** One pass through the loop body. */
  function Step(p: string, t: string, past: char, s: State): (r: State)
    requires Sane(p, t, s)
    ensures Sane(p, t, r)
  {
    if s.Done? then s
    else if s.i >= |p| && s.j >= |t| then Done(true)
    else if s.i < |p| && s.j < |t| && (p[s.i] == '?' || t[s.j] == p[s.i]) then s.(i := s.i + 1, j := s.j + 1)
    else if s.i < |p| && Wild(p[s.i]) then Running(s.i + 1, s.j, s.i, s.j + 1)
    else if s.nj > 0 && s.nj <= |t| && (p[s.i - 1] == '#' || At(t, past, s.j) != '/') then
      Running(s.ni, s.nj, s.ni, s.nj)
    else Done(false)
  }

  function Steps(p: string, t: string, past: char, n: nat): (r: State)
    ensures Sane(p, t, r)
  {
    if n == 0 then Running(0, 0, 0, 0) else Step(p, t, past, Steps(p, t, past, n - 1))
  }

  ghost predicate Returns(p: string, t: string, past: char, result: bool) {
    exists n: nat :: Steps(p, t, past, n) == Done(result)
  }

  lemma {:induction false} DoneStays(p: string, t: string, past: char, m: nat, n: nat)
    requires m <= n && Steps(p, t, past, m).Done?
    ensures Steps(p, t, past, n) == Steps(p, t, past, m)
    decreases n - m
  {
    if m < n {
      DoneStays(p, t, past, m + 1, n);
    }
  }

  lemma ReturnsOnce(p: string, t: string, past: char, a: bool, b: bool)
    requires Returns(p, t, past, a) && Returns(p, t, past, b)
    ensures a == b
  {
    var m: nat :| Steps(p, t, past, m) == Done(a);
    var n: nat :| Steps(p, t, past, n) == Done(b);
    if m <= n {
      DoneStays(p, t, past, m, n);
    } else {
      DoneStays(p, t, past, n, m);
    }
  }

  // ---------- what a pattern means ----------

  /** '?' stands for any one character, a wildcard for any sequence. */
  predicate Matches(p: string, t: string)
    decreases |p| + |t|
  {
    if p == "" then t == ""
    else if Wild(p[0]) then Matches(p[1..], t) || (t != "" && Matches(p, t[1..]))
    else t != "" && (p[0] == '?' || p[0] == t[0]) && Matches(p[1..], t[1..])
  }

  /** `Matches` on the rest of the pattern from i and the rest of the text from j. */
  predicate MatchesFrom(p: string, t: string, i: nat, j: nat)
    requires i <= |p| && j <= |t|
  {
    Matches(p[i..], t[j..])
  }

  lemma MatchesUnfold(p: string, t: string, i: nat, j: nat)
    requires i <= |p| && j <= |t|
    ensures i == |p| ==> (MatchesFrom(p, t, i, j) <==> j == |t|)
    ensures i < |p| && Wild(p[i]) ==>
              (MatchesFrom(p, t, i, j) <==> MatchesFrom(p, t, i + 1, j) || (j < |t| && MatchesFrom(p, t, i, j + 1)))
    ensures i < |p| && !Wild(p[i]) ==>
              (MatchesFrom(p, t, i, j) <==>
               j < |t| && (p[i] == '?' || p[i] == t[j]) && MatchesFrom(p, t, i + 1, j + 1))
  {
    assert i < |p| ==> p[i..][1..] == p[i + 1..];
    assert j < |t| ==> t[j..][1..] == t[j + 1..];
  }

  lemma MatchesWhole(p: string, t: string)
    ensures MatchesFrom(p, t, 0, 0) == Matches(p, t)
  {
    assert p[0..] == p && t[0..] == t;
  }

  // ---------- soundness, for every text ----------

  /** A match from the current or the remembered position is a match of the whole. */
  ghost predicate Sound(p: string, t: string, s: State)
    requires Sane(p, t, s)
  {
    match s
    case Running(i, j, ni, nj) =>
      && (MatchesFrom(p, t, i, j) ==> Matches(p, t))
      && (0 < nj <= |t| && MatchesFrom(p, t, ni, nj) ==> Matches(p, t))
    case Done(r) => r ==> Matches(p, t)
  }

  lemma {:induction false} SoundStep(p: string, t: string, past: char, s: State)
    requires Sane(p, t, s) && Sound(p, t, s)
    ensures Sound(p, t, Step(p, t, past, s))
  {
    hide Matches, MatchesFrom;
    if s.Running? {
      MatchesUnfold(p, t, s.i, s.j);
      if s.j < |t| {
        MatchesUnfold(p, t, s.i, s.j + 1);
      }
    }
  }

  /** Whatever the text, a match that is reported is a match. */
  lemma {:induction false} Soundness(p: string, t: string, past: char, n: nat)
    ensures Sound(p, t, Steps(p, t, past, n))
  {
    if n == 0 {
      MatchesWhole(p, t);
    } else {
      Soundness(p, t, past, n - 1);
      SoundStep(p, t, past, Steps(p, t, past, n - 1));
    }
  }

  // ---------- completeness ----------

  predicate NoWild(t: string) { forall k :: 0 <= k < |t| ==> !Wild(t[k]) }

  predicate NoSlash(t: string) { forall k :: 0 <= k < |t| ==> t[k] != '/' }

  /** What was matched since the remembered wildcard is one literal stretch. */
  ghost predicate Stretch(p: string, s: State)
    requires s.Running?
  {
    s.nj > 0 ==>
      && s.ni <= s.i <= |p|
      && if s.i == s.ni then s.j == s.nj
         else s.i - s.ni == s.j + 2 - s.nj && forall k :: s.ni < k < s.i ==> !Wild(p[k])
  }

  /** If the pattern matches, it matches from the current or from the remembered position. */
  ghost predicate Complete(p: string, t: string, s: State)
    requires Sane(p, t, s)
  {
    match s
    case Running(i, j, ni, nj) =>
      && Stretch(p, s)
      && (Matches(p, t) ==> MatchesFrom(p, t, i, j) || (0 < nj <= |t| && MatchesFrom(p, t, ni, nj)))
    case Done(r) => Matches(p, t) ==> r
  }

  /** A literal stretch of the pattern uses up as many characters of the text. */
  lemma {:induction false} LiteralStretch(p: string, t: string, i: nat, j: nat, n: nat)
    requires i + n <= |p| && j <= |t| && MatchesFrom(p, t, i, j)
    requires forall k :: i <= k < i + n ==> !Wild(p[k])
    ensures j + n <= |t| && MatchesFrom(p, t, i + n, j + n)
    decreases n
  {
    hide Matches, MatchesFrom;
    if n > 0 {
      MatchesUnfold(p, t, i, j);
      LiteralStretch(p, t, i + 1, j + 1, n - 1);
    }
  }

  /** A wildcard that matches from a later position matches from an earlier one. */
  lemma {:induction false} WildcardReachesBack(p: string, t: string, i: nat, j: nat, k: nat)
    requires i < |p| && Wild(p[i]) && j <= k <= |t| && MatchesFrom(p, t, i, k)
    ensures MatchesFrom(p, t, i, j)
    decreases k - j
  {
    hide Matches, MatchesFrom;
    if j < k {
      WildcardReachesBack(p, t, i, j + 1, k);
      MatchesUnfold(p, t, i, j);
    }
  }

  lemma {:induction false} WildcardAbsorbs(p: string, t: string, i: nat, j: nat) returns (m: nat)
    requires i < |p| && Wild(p[i]) && j <= |t| && MatchesFrom(p, t, i, j)
    ensures j <= m <= |t| && MatchesFrom(p, t, i + 1, m)
    decreases |t| - j
  {
    hide Matches, MatchesFrom;
    MatchesUnfold(p, t, i, j);
    if MatchesFrom(p, t, i + 1, j) {
      m := j;
    } else {
      m := WildcardAbsorbs(p, t, i, j + 1);
    }
  }

  /** At a new wildcard the older backtrack point is not needed any more. */
  lemma ForgetOlder(p: string, t: string, s: State)
    requires Sane(p, t, s) && s.Running? && Stretch(p, s) && 0 < s.nj <= |t| && s.ni < s.i < |p| && Wild(p[s.i])
    requires MatchesFrom(p, t, s.ni, s.nj)
    ensures MatchesFrom(p, t, s.i, s.j)
  {
    hide Matches, MatchesFrom;
    var m := WildcardAbsorbs(p, t, s.ni, s.nj);
    var n := s.i - s.ni - 1;
    LiteralStretch(p, t, s.ni + 1, m, n);
    WildcardReachesBack(p, t, s.i, s.j, m + n);
  }

  lemma {:induction false} CompleteStep(p: string, t: string, past: char, s: State)
    requires NoWild(t) && NoSlash(t) && past != '/'
    requires Sane(p, t, s) && Complete(p, t, s)
    ensures Complete(p, t, Step(p, t, past, s))
  {
    hide Matches, MatchesFrom;
    if s.Running? {
      var r := Step(p, t, past, s);
      MatchesUnfold(p, t, s.i, s.j);
      if s.i < |p| && Wild(p[s.i]) && s.nj > 0 && s.nj <= |t| {
        if s.i > s.ni && MatchesFrom(p, t, s.ni, s.nj) {
          ForgetOlder(p, t, s);
        }
      }
    }
  }

  lemma {:induction false} Completeness(p: string, t: string, past: char, n: nat)
    requires NoWild(t) && NoSlash(t) && past != '/'
    ensures Complete(p, t, Steps(p, t, past, n))
  {
    if n == 0 {
      MatchesWhole(p, t);
    } else {
      Completeness(p, t, past, n - 1);
      CompleteStep(p, t, past, Steps(p, t, past, n - 1));
    }
  }

  // ---------- termination ----------

  /** The wildcard characters of the text, if any, are one run of the same character at its start. */
  predicate WildOnlyInLeadingRun(t: string) {
    forall k :: 1 <= k < |t| && Wild(t[k]) ==> t[k - 1] == t[k]
  }

  /** Just resumed at the remembered wildcard. */
  predicate Resumed(s: State)
    requires s.Running?
  {
    s.nj > 0 && s.i == s.ni
  }

  /** The loop decreases: the resume position advances, or a resume happens, or the pattern position advances. */
  lemma StepDecreases(p: string, t: string, past: char, s: State)
    requires Sane(p, t, s) && s.Running? && (Resumed(s) ==> s.j == s.nj) && WildOnlyInLeadingRun(t)
    ensures var r := Step(p, t, past, s);
            r.Running? ==>
              && (Resumed(r) ==> r.j == r.nj)
              && (r.nj > s.nj
                  || (r.nj == s.nj && Resumed(r) && !Resumed(s))
                  || (r.nj == s.nj && !Resumed(r) && !Resumed(s) && r.i > s.i))
  {
  }

  lemma {:induction false} Halts(p: string, t: string, past: char, n: nat) returns (m: nat)
    requires WildOnlyInLeadingRun(t)
    requires var s := Steps(p, t, past, n); s.Running? ==> Resumed(s) ==> s.j == s.nj
    ensures Steps(p, t, past, m).Done?
    decreases var s := Steps(p, t, past, n); if s.Running? then |t| + 2 - s.nj else 0,
              var s := Steps(p, t, past, n); if s.Running? && !Resumed(s) then 1 else 0,
              var s := Steps(p, t, past, n); if s.Running? then |p| + 1 - s.i else 0
  {
    var s := Steps(p, t, past, n);
    if s.Done? {
      m := n;
    } else {
      StepDecreases(p, t, past, s);
      m := Halts(p, t, past, n + 1);
    }
  }

  /** For such a text the matcher returns on every pattern, with '/' allowed anywhere. */
  lemma Termination(p: string, t: string, past: char)
    requires WildOnlyInLeadingRun(t)
    ensures Returns(p, t, past, true) || Returns(p, t, past, false)
  {
    var m := Halts(p, t, past, 0);
    assert Steps(p, t, past, m) == Done(Steps(p, t, past, m).result);
  }

  // ---------- texts on which it fails ----------

  function Marks(n: nat): (s: string)
    ensures |s| == n && forall k :: 0 <= k < n ==> s[k] == '?'
  {
    seq(n, _ => '?')
  }

  /** A letter that stands neither before nor after position k. */
  function Letter(t: string, k: nat): (c: char)
    requires 1 <= k < |t|
    ensures c in "abc" && c != t[k - 1] && (k + 1 < |t| ==> c != t[k + 1])
  {
    if 'a' != t[k - 1] && (k + 1 < |t| ==> 'a' != t[k + 1]) then 'a'
    else if 'b' != t[k - 1] && (k + 1 < |t| ==> 'b' != t[k + 1]) then 'b'
    else 'c'
  }

  function Trap(t: string, k: nat): string
    requires 1 <= k < |t|
  {
    Marks(k - 1) + [t[k]] + [Letter(t, k)]
  }

  /** The states the loop goes through on the trap pattern, the last two for ever. */
  ghost predicate Trapped(k: nat, s: State)
    requires k >= 1
  {
    || (exists m: nat :: m < k && s == Running(m, m, 0, 0))
    || s == Running(k, k - 1, k - 1, k)
    || s == Running(k - 1, k, k - 1, k)
    || s == Running(k, k + 1, k - 1, k)
  }

  /** A wildcard character after a different character makes the matcher loop on some pattern. */
  lemma {:induction false} Divergence(t: string, past: char, k: nat, n: nat)
    requires 1 <= k < |t| && Wild(t[k]) && t[k - 1] != t[k] && NoSlash(t) && past != '/'
    ensures Trapped(k, Steps(Trap(t, k), t, past, n))
  {
    if n == 0 {
      assert Running(0, 0, 0, 0) == Running(0, 0, 0, 0);
    } else {
      Divergence(t, past, k, n - 1);
      TrapStep(t, past, k, Steps(Trap(t, k), t, past, n - 1));
    }
  }

  lemma TrapStep(t: string, past: char, k: nat, s: State)
    requires 1 <= k < |t| && Wild(t[k]) && t[k - 1] != t[k] && NoSlash(t) && past != '/'
    requires Sane(Trap(t, k), t, s) && Trapped(k, s)
    ensures Trapped(k, Step(Trap(t, k), t, past, s))
  {
    var p := Trap(t, k);
    assert |p| == k + 1 && p[k - 1] == t[k] && p[k] == Letter(t, k) && forall q :: 0 <= q < k - 1 ==> p[q] == '?';
    if m: nat :| m < k && s == Running(m, m, 0, 0) {
      if m + 1 < k {
        assert Step(p, t, past, s) == Running(m + 1, m + 1, 0, 0);
      }
    }
  }

  /** A leading wildcard character is taken literally, and the match that needed it is missed. */
  lemma {:induction false} LeadingWildcardMissed(t: string, past: char, n: nat)
    requires t != "" && Wild(t[0]) && n <= |t|
    ensures var p := [t[0]] + Marks(|t|);
            Steps(p, t, past, n) == Running(n, n, 0, 0) && Steps(p, t, past, |t| + 1) == Done(false)
    decreases |t| - n
  {
    var p := [t[0]] + Marks(|t|);
    LeadingWildcardRuns(t, past, n);
    LeadingWildcardRuns(t, past, |t|);
  }

  lemma {:induction false} LeadingWildcardRuns(t: string, past: char, n: nat)
    requires t != "" && Wild(t[0]) && n <= |t|
    ensures Steps([t[0]] + Marks(|t|), t, past, n) == Running(n, n, 0, 0)
  {
    if n > 0 {
      LeadingWildcardRuns(t, past, n - 1);
    }
  }

  lemma {:induction false} MarksMatch(t: string)
    ensures Matches(Marks(|t|), t)
    decreases |t|
  {
    if t != "" {
      MarksMatch(t[1..]);
      assert Marks(|t|)[1..] == Marks(|t[1..]|);
    }
  }

  /** The matcher returns, and what it returns is whether the pattern matches. */
  ghost predicate Decides(p: string, t: string, past: char) {
    Returns(p, t, past, Matches(p, t))
  }

  /**
   On a text without '/', the matcher is correct on every pattern if and only if the text holds
   neither '*' nor '#'.
   */
  lemma Correctness(t: string, past: char)
    requires NoSlash(t) && past != '/'
    ensures (forall p: string :: Decides(p, t, past)) <==> NoWild(t)
  {
    hide Steps, Matches;
    if NoWild(t) {
      forall p: string ensures Decides(p, t, past) {
        var m := Halts0(p, t, past);
        Soundness(p, t, past, m);
        Completeness(p, t, past, m);
      }
    } else {
      var p := WrongPattern(t, past);
    }
  }

  lemma Halts0(p: string, t: string, past: char) returns (m: nat)
    requires WildOnlyInLeadingRun(t)
    ensures Steps(p, t, past, m).Done?
  {
    m := Halts(p, t, past, 0);
  }

  lemma WrongPattern(t: string, past: char) returns (p: string)
    requires NoSlash(t) && past != '/' && !NoWild(t)
    ensures !Decides(p, t, past)
  {
    if !WildOnlyInLeadingRun(t) {
      var k :| 1 <= k < |t| && Wild(t[k]) && t[k - 1] != t[k];
      p := Trap(t, k);
      forall n: nat ensures !Steps(p, t, past, n).Done? {
        Divergence(t, past, k, n);
      }
    } else {
      LeadingRun(t);
      p := [t[0]] + Marks(|t|);
      LeadingWildcardMissed(t, past, 0);
      MarksMatch(t);
      assert p[1..] == Marks(|t|);
      assert Returns(p, t, past, false);
      if Decides(p, t, past) {
        ReturnsOnce(p, t, past, false, true);
      }
    }
  }

  lemma LeadingRun(t: string)
    requires WildOnlyInLeadingRun(t) && !NoWild(t)
    ensures t != "" && Wild(t[0])
  {
    var k :| 0 <= k < |t| && Wild(t[k]);
    while k > 0
      invariant 0 <= k < |t| && Wild(t[k])
    {
      assert t[k - 1] == t[k];
      k := k - 1;
    }
  }

  /** On a text without '/', the matcher returns on every pattern exactly for such texts. */
  lemma TerminationIff(t: string, past: char)
    requires NoSlash(t) && past != '/'
    ensures (forall p: string :: Returns(p, t, past, true) || Returns(p, t, past, false)) <==> WildOnlyInLeadingRun(t)
  {
    hide Steps;
    if WildOnlyInLeadingRun(t) {
      forall p: string ensures Returns(p, t, past, true) || Returns(p, t, past, false) {
        Termination(p, t, past);
      }
    } else {
      var k :| 1 <= k < |t| && Wild(t[k]) && t[k - 1] != t[k];
      forall n: nat ensures !Steps(Trap(t, k), t, past, n).Done? {
        Divergence(t, past, k, n);
      }
      assert !Returns(Trap(t, k), t, past, true) && !Returns(Trap(t, k), t, past, false);
    }
  }

  // ---------- the loop ----------

  lemma NextStep(p: string, t: string, past: char, n: nat)
    ensures Steps(p, t, past, n + 1) == Step(p, t, past, Steps(p, t, past, n))
  {
  }

  /** What a final state says about the pattern. */
  lemma Verdict(p: string, t: string, past: char, n: nat, r: bool)
    requires Steps(p, t, past, n) == Done(r)
    ensures Returns(p, t, past, r) && (r ==> Matches(p, t))
    ensures NoWild(t) && NoSlash(t) && past != '/' ==> r == Matches(p, t)
  {
    hide Steps, Matches;
    Soundness(p, t, past, n);
    if NoWild(t) && NoSlash(t) && past != '/' {
      Completeness(p, t, past, n);
    }
  }

  lemma Ends(p: string, t: string, past: char) returns (limit: nat)
    requires Returns(p, t, past, true) || Returns(p, t, past, false)
    ensures Steps(p, t, past, limit).Done?
  {
    if Returns(p, t, past, true) {
      limit :| Steps(p, t, past, limit) == Done(true);
    } else {
      limit :| Steps(p, t, past, limit) == Done(false);
    }
  }

  lemma NotYet(p: string, t: string, past: char, n: nat, limit: nat)
    requires Steps(p, t, past, n).Running? && Steps(p, t, past, limit).Done?
    ensures n < limit
  {
    if n >= limit {
      DoneStays(p, t, past, limit, n);
    }
  }

  /** `mg_globmatch`, whenever its loop ends; `Termination` says for which texts it always does. */
  method Globmatch(p: string, t: string, past: char) returns (r: bool)
    requires Returns(p, t, past, true) || Returns(p, t, past, false)
    ensures Returns(p, t, past, r)
    ensures r ==> Matches(p, t)
    ensures NoWild(t) && NoSlash(t) && past != '/' ==> r == Matches(p, t)
  {
    hide Matches, Steps, Returns, NoWild, NoSlash;
    var i: nat, j: nat, ni: nat, nj: nat := 0, 0, 0, 0;
    ghost var n: nat := 0;
    ghost var limit := Ends(p, t, past);
    Start(p, t, past);
    while i < |p| || j < |t|
      invariant Sane(p, t, Running(i, j, ni, nj)) && Steps(p, t, past, n) == Running(i, j, ni, nj)
      decreases limit - n
    {
      NotYet(p, t, past, n, limit);
      NextStep(p, t, past, n);
      n := n + 1;
      if i < |p| && j < |t| && (p[i] == '?' || t[j] == p[i]) {
        i, j := i + 1, j + 1;
      } else if i < |p| && Wild(p[i]) {
        ni, nj, i := i, j + 1, i + 1;
      } else if nj > 0 && nj <= |t| && (p[i - 1] == '#' || At(t, past, j) != '/') {
        i, j := ni, nj;
      } else {
        Verdict(p, t, past, n, false);
        return false;
      }
    }
    NextStep(p, t, past, n);
    Verdict(p, t, past, n + 1, true);
    return true;
  }

  lemma Start(p: string, t: string, past: char)
    ensures Steps(p, t, past, 0) == Running(0, 0, 0, 0)
  {
  }

  // ---------- one wildcard, with '/' in the text ----------

  /** `q` stands in the text at `s`, '?' for any character. */
  predicate Agrees(q: string, t: string, s: nat) {
    s + |q| <= |t| && forall k :: 0 <= k < |q| ==> q[k] == '?' || q[k] == t[s + k]
  }

  /** How far `r` can be followed in the text from `s`. */
  function Followed(r: string, t: string, s: nat): (d: nat)
    requires s <= |t|
    ensures d <= |r| && s + d <= |t|
    ensures forall k :: 0 <= k < d ==> r[k] == '?' || r[k] == t[s + k]
    ensures d < |r| && s + d < |t| ==> r[d] != '?' && r[d] != t[s + d]
    decreases |r|
  {
    if r == "" || s == |t| || (r[0] != '?' && r[0] != t[s]) then 0 else 1 + Followed(r[1..], t, s + 1)
  }

  /**
   Following `r` from `s` stops at a '/', and the wildcard may not go on from there: a '#' may, but
   only if it stands right before.
   */
  predicate Blocked(w: char, r: string, t: string, past: char, s: nat)
    requires s <= |t|
  {
    var d := Followed(r, t, s);
    At(t, past, s + d) == '/' && !(w == '#' && d == 0)
  }

  /** The text ends with `r`, and no start from `s` on before that is blocked. */
  predicate MatchFromStart(w: char, r: string, t: string, past: char, s: nat) {
    && s + |r| <= |t| && Agrees(r, t, |t| - |r|)
    && forall k :: s <= k < |t| - |r| ==> !Blocked(w, r, t, past, k)
  }

  lemma {:induction false} FollowPrefix(q: string, p: string, t: string, past: char, k: nat)
    requires |q| <= |p| && p[..|q|] == q && NoWild(q) && k <= Followed(q, t, 0)
    ensures Steps(p, t, past, k) == Running(k, k, 0, 0)
  {
    if k > 0 {
      FollowPrefix(q, p, t, past, k - 1);
      assert p[k - 1] == q[k - 1];
    }
  }

  /** `p` is `q`, a wildcard and `r`. */
  predicate OneWild(p: string, q: string, w: char, r: string) {
    p == q + [w] + r && Wild(w) && NoWild(q) && NoWild(r)
  }

  lemma OneWildParts(p: string, q: string, w: char, r: string)
    requires OneWild(p, q, w, r)
    ensures |p| == |q| + 1 + |r| && p[..|q|] == q && p[|q|] == w
    ensures forall k :: 0 <= k < |r| ==> p[|q| + 1 + k] == r[k] && !Wild(r[k])
  {
  }

  /** The pattern from the wildcard on, started at text position s. */
  lemma {:induction false} FollowRest(p: string, q: string, w: char, r: string, t: string, past: char,
                                      n: nat, s: nat, d: nat)
    requires OneWild(p, q, w, r) && s <= |t| && d <= Followed(r, t, s)
    requires Steps(p, t, past, n) == Running(|q| + 1, s, |q|, s + 1)
    ensures Steps(p, t, past, n + d) == Running(|q| + 1 + d, s + d, |q|, s + 1)
  {
    hide Steps, Followed, OneWild;
    OneWildParts(p, q, w, r);
    if d > 0 {
      FollowRest(p, q, w, r, t, past, n, s, d - 1);
      NextStep(p, t, past, n + d - 1);
      assert r[d - 1] == p[|q| + 1 + (d - 1)];
    }
  }

  /** From one start to the next, or to the end. */
  lemma StartStep(p: string, q: string, w: char, r: string, t: string, past: char, n: nat, s: nat)
    requires OneWild(p, q, w, r) && NoWild(t) && s <= |t|
    requires Steps(p, t, past, n) == Running(|q| + 1, s, |q|, s + 1)
    ensures var d := Followed(r, t, s);
            if d == |r| && s + d == |t| then Steps(p, t, past, n + d + 1) == Done(true)
            else if s < |t| && !Blocked(w, r, t, past, s) then
              Steps(p, t, past, n + d + 2) == Running(|q| + 1, s + 1, |q|, s + 2)
            else Steps(p, t, past, n + d + 1) == Done(false)
  {
    hide Steps, Followed, OneWild;
    OneWildParts(p, q, w, r);
    var d := Followed(r, t, s);
    FollowRest(p, q, w, r, t, past, n, s, d);
    NextStep(p, t, past, n + d);
    NextStep(p, t, past, n + d + 1);
    assert d > 0 ==> p[|q| + 1 + (d - 1)] == r[d - 1];
    assert d < |r| ==> p[|q| + 1 + d] == r[d];
  }

  lemma {:induction false} FromStart(p: string, q: string, w: char, r: string, t: string, past: char, n: nat, s: nat)
    requires OneWild(p, q, w, r) && NoWild(t) && s <= |t|
    requires Steps(p, t, past, n) == Running(|q| + 1, s, |q|, s + 1)
    ensures Returns(p, t, past, MatchFromStart(w, r, t, past, s))
    decreases |t| - s
  {
    hide Steps, OneWild, Blocked;
    var d := Followed(r, t, s);
    StartStep(p, q, w, r, t, past, n, s);
    if d == |r| && s + d == |t| {
    } else if s < |t| && !Blocked(w, r, t, past, s) {
      FromStart(p, q, w, r, t, past, n + d + 2, s + 1);
      if s + |r| == |t| {
        assert !Agrees(r, t, s);
      }
    } else {
      if s + |r| == |t| {
        assert !Agrees(r, t, s);
      }
    }
  }

  /**
   A pattern with one wildcard against any text without wildcard characters, '/' allowed: the exact
   answer, whatever character stands past the text.
   */
  lemma OneWildcard(q: string, w: char, r: string, t: string, past: char)
    requires Wild(w) && NoWild(q) && NoWild(r) && NoWild(t)
    ensures Returns(q + [w] + r, t, past, Agrees(q, t, 0) && MatchFromStart(w, r, t, past, |q|))
  {
    hide Steps, MatchFromStart;
    var p := q + [w] + r;
    var k := Followed(q, t, 0);
    OneWildParts(p, q, w, r);
    FollowPrefix(q, p, t, past, k);
    NextStep(p, t, past, k);
    if k == |q| {
      assert Steps(p, t, past, k + 1) == Running(|q| + 1, |q|, |q|, |q| + 1);
      FromStart(p, q, w, r, t, past, k + 1, |q|);
    } else {
      assert p[k] == q[k];
      assert Steps(p, t, past, k + 1) == Done(false);
    }
  }

  /** A pattern without wildcards is compared character by character. */
  lemma NoWildcard(q: string, t: string, past: char)
    requires NoWild(q)
    ensures Returns(q, t, past, |q| == |t| && Agrees(q, t, 0))
  {
    hide Steps;
    var k := Followed(q, t, 0);
    FollowPrefix(q, q, t, past, k);
    NextStep(q, t, past, k);
    assert Steps(q, t, past, k + 1) == Done(|q| == |t| && Agrees(q, t, 0));
  }

  /** A last '#' takes the rest of the text, '/' included; a last '*' takes it up to a '/', which it does not. */
  lemma LastWildcard(q: string, t: string, past: char)
    requires NoWild(q) && NoWild(t)
    ensures Returns(q + "#", t, past, true) <==> Agrees(q, t, 0)
    ensures Returns(q + "#", t, past, false) <==> !Agrees(q, t, 0)
    ensures Returns(q + "*", t, past, true) <==> Agrees(q, t, 0) && '/' !in t[|q|..]
    ensures Returns(q + "*", t, past, false) <==> !(Agrees(q, t, 0) && '/' !in t[|q|..])
  {
    hide Returns;
    LastOne(q, '#', t, past);
    LastOne(q, '*', t, past);
  }

  lemma LastOne(q: string, w: char, t: string, past: char)
    requires Wild(w) && NoWild(q) && NoWild(t)
    ensures var yes := Agrees(q, t, 0) && (w == '#' || '/' !in t[|q|..]);
            forall b: bool :: Returns(q + [w], t, past, b) <==> b == yes
  {
    hide Returns;
    OneWildcard(q, w, "", t, past);
    assert q + [w] + "" == q + [w];
    var yes := Agrees(q, t, 0) && (w == '#' || '/' !in t[|q|..]);
    if Agrees(q, t, 0) {
      forall k | |q| <= k < |t| ensures Blocked(w, "", t, past, k) <==> w == '*' && t[|q|..][k - |q|] == '/' {
        assert t[k] == t[|q|..][k - |q|];
      }
      if w == '*' && '/' in t[|q|..] {
        var k :| 0 <= k < |t[|q|..]| && t[|q|..][k] == '/';
        assert Blocked(w, "", t, past, |q| + k);
      }
    }
    assert Returns(q + [w], t, past, yes);
    if Returns(q + [w], t, past, !yes) {
      ReturnsOnce(q + [w], t, past, yes, !yes);
    }
  }

  /** The '#' misses a match when what follows it starts to agree too early and then meets a '/'. */
  lemma HashMissed(past: char)
    ensures Returns("#bc", "b/bc", past, false) && Matches("#bc", "b/bc")
  {
    var p, t := "#bc", "b/bc";
    assert "" + ['#'] + "bc" == p;
    OneWildcard("", '#', "bc", t, past);
    FollowedIs("bc", t, 0, 1);
    assert Blocked('#', "bc", t, past, 0);
    assert p[1..] == "bc" && t[1..] == "/bc" && t[1..][1..] == "bc";
    assert "bc"[1..] == "c" && "c"[1..] == "";
    assert Matches("bc", "bc");
    assert Matches(p, "bc");
    assert Matches(p, "/bc");
  }

  /** The '*' crosses a '/' when what follows it agrees with that '/' and fails only after it. */
  lemma StarCrosses(past: char)
    ensures Returns("*/bc", "a/x/bc", past, true)
  {
    var t := "a/x/bc";
    assert "" + ['*'] + "/bc" == "*/bc";
    OneWildcard("", '*', "/bc", t, past);
    FollowedIs("/bc", t, 0, 0);
    FollowedIs("/bc", t, 1, 1);
    FollowedIs("/bc", t, 2, 0);
    assert |t| - |"/bc"| == 3;
  }

  lemma FollowedIs(r: string, t: string, s: nat, d: nat)
    requires s + d < |t| && d < |r| && forall k :: 0 <= k < d ==> r[k] == '?' || r[k] == t[s + k]
    requires r[d] != '?' && r[d] != t[s + d]
    ensures Followed(r, t, s) == d
  {
  }
}
