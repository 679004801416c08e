/**
 The text form of a JSON Pointer: splitting a reference string into tokens and printing tokens
 back. The syntax is the one of section 3 of RFC 6901, the escaping the one of section 4.
 */
module PointerText {
  import opened Wrappers

  // ---------- substring replacement ----------

  /** Left-to-right replacement of every occurrence of `f` by `t`, never looking inside a replacement. */
  function ReplaceAll(s: string, f: string, t: string): string
    requires f != ""
  {
    if s == "" then ""
    else if f <= s then t + ReplaceAll(s[|f|..], f, t)
    else [s[0]] + ReplaceAll(s[1..], f, t)
  }

  predicate OccursAt(s: string, f: string, k: nat)
    requires k <= |s|
  {
    k + |f| <= |s| && f <= s[k..]
  }

  /** The first position at or after `from` where `f` occurs, or |s| if there is none. */
  method Find(s: string, f: string, from: nat) returns (pos: nat)
    requires f != "" && from <= |s|
    ensures from <= pos <= |s|
    ensures pos < |s| ==> OccursAt(s, f, pos)
    ensures forall k :: from <= k < pos ==> !OccursAt(s, f, k)
  {
    pos := from;
    while pos < |s| && !OccursAt(s, f, pos)
      invariant from <= pos <= |s|
      invariant forall k :: from <= k < pos ==> !OccursAt(s, f, k)
    {
      pos := pos + 1;
    }
  }

  lemma ReplaceNothing(s: string, f: string, t: string)
    requires f != "" && s != "" && !(f <= s)
    ensures ReplaceAll(s, f, t) == [s[0]] + ReplaceAll(s[1..], f, t)
  {
  }

  lemma {:induction false} ReplaceAllSkips(s: string, f: string, t: string, from: nat, to: nat)
    requires f != "" && from <= to <= |s|
    requires forall k :: from <= k < to ==> !OccursAt(s, f, k)
    ensures ReplaceAll(s[from..], f, t) == s[from..to] + ReplaceAll(s[to..], f, t)
    decreases |s| - from
  {
    hide ReplaceAll;
    if from < to {
      assert !OccursAt(s, f, from);
      ReplaceAllSkips(s, f, t, from + 1, to);
      assert s[from..][1..] == s[from + 1..];
      ReplaceNothing(s[from..], f, t);
      assert s[from..to] == [s[from]] + s[from + 1..to];
    } else {
      assert s[from..to] == "";
    }
  }

  lemma ReplaceFront(s: string, f: string, t: string, pos: nat)
    requires f != "" && pos < |s| && OccursAt(s, f, pos)
    ensures pos + |f| <= |s| && ReplaceAll(s[pos..], f, t) == t + ReplaceAll(s[pos + |f|..], f, t)
  {
    assert s[pos..][|f|..] == s[pos + |f|..];
  }

  /**
   One round of the loop below: the occurrence at `pos` becomes `t` and the search has moved on
   to `next`, so the rewritten prefix has grown and the rest is still to be done.
   */
  lemma ReplaceRound(s: string, f: string, t: string, pos: nat, s': string, next: nat)
    requires f != "" && pos < |s| && OccursAt(s, f, pos)
    requires s' == s[..pos] + t + s[pos + |f|..]
    requires pos + |t| <= next <= |s'|
    requires forall k :: pos + |t| <= k < next ==> !OccursAt(s', f, k)
    ensures s[..pos] + ReplaceAll(s[pos..], f, t) == s'[..next] + ReplaceAll(s'[next..], f, t)
  {
    hide OccursAt, ReplaceAll;
    var mid := pos + |t|;
    ReplaceFront(s, f, t, pos);
    ReplaceAllSkips(s', f, t, mid, next);
    Spliced(s[..pos], t, s[pos + |f|..], next);
    Regroup(s[..pos], t, s'[mid..next], ReplaceAll(s'[next..], f, t));
  }

  lemma Spliced(a: string, t: string, b: string, next: nat)
    requires |a| + |t| <= next <= |a + t + b|
    ensures var s, mid := a + t + b, |a| + |t|;
            s[mid..] == b && s[..next] == a + t + s[mid..next]
  {
  }

  lemma Regroup(a: string, b: string, c: string, d: string)
    ensures a + (b + (c + d)) == a + b + c + d
  {
  }

  /** The in-place loop over the string: find, replace, and resume after the replacement. */
  method ReplaceSubstring(s0: string, f: string, t: string) returns (s: string)
    requires f != ""
    ensures s == ReplaceAll(s0, f, t)
  {
    s := s0;
    var pos := Find(s, f, 0);
    ReplaceAllSkips(s, f, t, 0, pos);
    assert s[0..] == s && s[0..pos] == s[..pos];
    while pos < |s|
      invariant 0 <= pos <= |s|
      invariant pos < |s| ==> OccursAt(s, f, pos)
      invariant ReplaceAll(s0, f, t) == s[..pos] + ReplaceAll(s[pos..], f, t)
      decreases |s| - pos
    {
      ghost var before := s;
      ghost var was := pos;
      s := s[..pos] + t + s[pos + |f|..];
      pos := Find(s, f, pos + |t|);
      ReplaceRound(before, f, t, was, s, pos);
    }
  }

  // ---------- escaping ----------

  function Escape(s: string): string {
    ReplaceAll(ReplaceAll(s, "~", "~0"), "/", "~1")
  }

  function Unescape(s: string): string {
    ReplaceAll(ReplaceAll(s, "~1", "/"), "~0", "~")
  }

  /** Section 4 of RFC 6901, one character at a time. */
  function EscapeChar(c: char): string {
    if c == '~' then "~0" else if c == '/' then "~1" else [c]
  }

  function EscapeChars(s: string): string {
    if s == "" then "" else EscapeChar(s[0]) + EscapeChars(s[1..])
  }

  /** Every '~' is followed by '0' or '1'. */
  predicate WellEscaped(s: string) {
    forall k :: 0 <= k < |s| && s[k] == '~' ==> k + 1 < |s| && (s[k + 1] == '0' || s[k + 1] == '1')
  }

  /** The reading of an escaped token from left to right. */
  function Decode(s: string): string {
    if s == "" then ""
    else if s[0] == '~' && |s| >= 2 then [if s[1] == '1' then '/' else '~'] + Decode(s[2..])
    else [s[0]] + Decode(s[1..])
  }

  lemma {:induction false} ReplaceTwice(s: string)
    ensures Escape(s) == EscapeChars(s)
  {
    if s != "" {
      ReplaceTwice(s[1..]);
      var mid := ReplaceAll(s[1..], "~", "~0");
      if s[0] == '~' {
        assert "~" <= s && ReplaceAll(s, "~", "~0") == "~0" + mid;
        var u := "~0" + mid;
        assert u[1..] == "0" + mid && ("0" + mid)[1..] == mid;
        assert u[0] == '~' && ("0" + mid)[0] == '0';
        assert ReplaceAll(u, "/", "~1") == "~" + ReplaceAll("0" + mid, "/", "~1");
        assert ReplaceAll("0" + mid, "/", "~1") == "0" + ReplaceAll(mid, "/", "~1");
        assert "~" + ("0" + ReplaceAll(mid, "/", "~1")) == "~0" + ReplaceAll(mid, "/", "~1");
      } else {
        assert !("~" <= s);
        var u := [s[0]] + mid;
        assert ReplaceAll(s, "~", "~0") == u && u[1..] == mid;
        if s[0] == '/' {
          assert "/" <= u;
        } else {
          assert u[0] != '/';
        }
      }
    }
  }

  lemma WellEscapedTail(s: string, n: nat)
    requires WellEscaped(s) && n <= |s|
    ensures WellEscaped(s[n..])
  {
    forall k | 0 <= k < |s[n..]| && s[n..][k] == '~'
      ensures k + 1 < |s[n..]| && (s[n..][k + 1] == '0' || s[n..][k + 1] == '1')
    {
      assert s[n..][k] == s[n + k];
    }
  }

  /** Rewriting "~1" first and "~0" second reads a well-escaped token correctly. */
  lemma {:induction false} UnescapeIsDecode(s: string)
    requires WellEscaped(s)
    ensures Unescape(s) == Decode(s)
  {
    if s != "" {
      if s[0] == '~' {
        assert s[1] == '0' || s[1] == '1';
        WellEscapedTail(s, 2);
        UnescapeIsDecode(s[2..]);
        var mid := ReplaceAll(s[2..], "~1", "/");
        if s[1] == '1' {
          assert "~1" <= s;
          assert ReplaceAll(s, "~1", "/") == "/" + mid;
          assert ("/" + mid)[1..] == mid;
          assert ("/" + mid)[0] != '~';
        } else {
          assert !("~1" <= s) by { assert s[1] == '0'; }
          assert !("~1" <= s[1..]) by { assert s[1..][0] == '0'; }
          assert s[1..][1..] == s[2..];
          assert ReplaceAll(s[1..], "~1", "/") == "0" + mid;
          var u := "~0" + mid;
          assert ReplaceAll(s, "~1", "/") == ['~'] + ("0" + mid) == u;
          assert "~0" <= u && u[2..] == mid;
        }
      } else {
        WellEscapedTail(s, 1);
        UnescapeIsDecode(s[1..]);
        var mid := ReplaceAll(s[1..], "~1", "/");
        assert !("~1" <= s);
        var u := [s[0]] + mid;
        assert ReplaceAll(s, "~1", "/") == u && u[1..] == mid;
        assert u[0] != '~';
      }
    }
  }

  lemma {:induction false} DecodeEscape(t: string)
    ensures Decode(EscapeChars(t)) == t
  {
    if t != "" {
      DecodeEscape(t[1..]);
      var e, r := EscapeChar(t[0]), EscapeChars(t[1..]);
      assert (e + r)[|e|..] == r;
      assert (e + r)[0] == e[0] && (|e| == 2 ==> (e + r)[1] == e[1]);
    }
  }

  lemma {:induction false} EscapedIsClean(t: string)
    ensures WellEscaped(EscapeChars(t)) && '/' !in EscapeChars(t)
  {
    if t != "" {
      EscapedIsClean(t[1..]);
      var e, r := EscapeChar(t[0]), EscapeChars(t[1..]);
      var s := e + r;
      forall k | 0 <= k < |s| && s[k] == '~'
        ensures k + 1 < |s| && (s[k + 1] == '0' || s[k + 1] == '1')
      {
        if k >= |e| {
          assert r[k - |e|] == '~' && s[k + 1] == r[k - |e| + 1];
        } else {
          assert e == "~0" || e == "~1";
        }
      }
    }
  }

  lemma {:induction false} EscapeDecode(s: string)
    requires WellEscaped(s) && '/' !in s
    ensures EscapeChars(Decode(s)) == s
  {
    if s != "" {
      if s[0] == '~' {
        WellEscapedTail(s, 2);
        EscapeDecode(s[2..]);
        var c := if s[1] == '1' then '/' else '~';
        assert Decode(s)[1..] == Decode(s[2..]);
        assert s == EscapeChar(c) + s[2..];
      } else {
        WellEscapedTail(s, 1);
        EscapeDecode(s[1..]);
        assert Decode(s)[1..] == Decode(s[1..]);
        assert s == [s[0]] + s[1..];
      }
    }
  }

  // ---------- printing ----------

  /** The fold of `to_string`: each token is appended as '/' and its escaped form. */
  function ToString(tokens: seq<string>): (s: string)
    ensures tokens == [] ==> s == ""
  {
    if tokens == [] then ""
    else ToString(tokens[..|tokens| - 1]) + "/" + Escape(tokens[|tokens| - 1])
  }

  lemma {:induction false} ToStringConcat(a: seq<string>, b: seq<string>)
    ensures ToString(a + b) == ToString(a) + ToString(b)
  {
    if b == [] {
      assert a + b == a;
    } else {
      hide ToString, Escape;
      var n := |b| - 1;
      ToStringConcat(a, b[..n]);
      assert b == b[..n] + [b[n]] && a + b == a + b[..n] + [b[n]];
      ToStringLast(b[..n], b[n]);
      ToStringLast(a + b[..n], b[n]);
      var end := "/" + Escape(b[n]);
      assert ToString(a) + (ToString(b[..n]) + end) == ToString(a) + ToString(b[..n]) + end;
    }
  }

  lemma ToStringLast(a: seq<string>, t: string)
    ensures ToString(a + [t]) == ToString(a) + ("/" + Escape(t))
  {
    hide Escape;
    assert (a + [t])[..|a|] == a;
    assert ToString(a) + "/" + Escape(t) == ToString(a) + ("/" + Escape(t));
  }

  lemma ToStringCons(t: string, rest: seq<string>)
    ensures ToString([t] + rest) == "/" + Escape(t) + ToString(rest)
  {
    ToStringConcat([t], rest);
    assert [t][..0] == [];
    assert ToString([t]) == ToString([]) + "/" + Escape(t);
  }

  // ---------- splitting ----------

  const PARSE_ERROR_NO_SLASH: nat := 107
  const PARSE_ERROR_TILDE: nat := 108

  /** The position of the first '/' at or after `from`, or |s|. */
  function NextSlash(s: string, from: nat): (pos: nat)
    requires from <= |s|
    ensures from <= pos <= |s|
    ensures pos < |s| ==> s[pos] == '/'
    ensures forall k :: from <= k < pos ==> s[k] != '/'
    decreases |s| - from
  {
    if from == |s| || s[from] == '/' then from else NextSlash(s, from + 1)
  }

  /** The tokens of the text that follows a slash. */
  function Tokens(s: string, start: nat): Result<seq<string>>
    requires start <= |s|
    decreases |s| - start
  {
    var slash := NextSlash(s, start);
    var token := s[start..slash];
    if !WellEscaped(token) then Err(PARSE_ERROR_TILDE)
    else if slash == |s| then Ok([Unescape(token)])
    else
      match Tokens(s, slash + 1)
      case Err(e) => Err(e)
      case Ok(rest) => Ok([Unescape(token)] + rest)
  }

  function Split(s: string): Result<seq<string>> {
    if s == "" then Ok([])
    else if s[0] != '/' then Err(PARSE_ERROR_NO_SLASH)
    else Tokens(s, 1)
  }

  method FindChar(s: string, c: char, from: nat) returns (pos: nat)
    requires from <= |s|
    ensures from <= pos <= |s|
    ensures pos < |s| ==> s[pos] == c
    ensures forall k :: from <= k < pos ==> s[k] != c
  {
    pos := from;
    while pos < |s| && s[pos] != c
      invariant from <= pos <= |s|
      invariant forall k :: from <= k < pos ==> s[k] != c
    {
      pos := pos + 1;
    }
  }

  /** The inner check loop: visit each '~' and look at what follows it. */
  method CheckEscapes(token: string) returns (ok: bool)
    ensures ok == WellEscaped(token)
  {
    var pos := FindChar(token, '~', 0);
    while pos < |token|
      invariant 0 <= pos <= |token|
      invariant pos < |token| ==> token[pos] == '~'
      invariant forall k :: 0 <= k < pos && token[k] == '~' ==>
        k + 1 < |token| && (token[k + 1] == '0' || token[k + 1] == '1')
      decreases |token| - pos
    {
      if pos == |token| - 1 || (token[pos + 1] != '0' && token[pos + 1] != '1') {
        return false;
      }
      pos := FindChar(token, '~', pos + 1);
    }
    return true;
  }

  lemma SplitStarts(s: string)
    requires s != "" && s[0] == '/'
    ensures Split(s) == Onto([], Tokens(s, 1))
  {
    if Tokens(s, 1).Ok? {
      assert [] + Tokens(s, 1).value == Tokens(s, 1).value;
    }
  }

  /** Tokens found later, after those found already. */
  function Onto(found: seq<string>, later: Result<seq<string>>): Result<seq<string>> {
    match later case Err(e) => Err(e) case Ok(rest) => Ok(found + rest)
  }

  lemma OntoSnoc(found: seq<string>, t: string, later: Result<seq<string>>)
    ensures Onto(found, Onto([t], later)) == Onto(found + [t], later)
    ensures Onto(found, Ok([t])) == Ok(found + [t])
  {
    if later.Ok? {
      assert found + ([t] + later.value) == found + [t] + later.value;
    }
  }

  lemma OntoError(found: seq<string>, e: nat)
    ensures Onto(found, Err(e)) == Err(e)
  {
  }

  /** One token and the rest. */
  lemma TokensNow(s: string, start: nat)
    requires start <= |s|
    ensures var slash := NextSlash(s, start);
            var token := s[start..slash];
            Tokens(s, start) ==
            if !WellEscaped(token) then Err(PARSE_ERROR_TILDE)
            else if slash == |s| then Ok([Unescape(token)])
            else Onto([Unescape(token)], Tokens(s, slash + 1))
  {
    hide WellEscaped, Unescape, NextSlash;
  }

  /** The constructor's tokenizer, with its moving `slash` and `start`. */
  method SplitLoop(s: string) returns (r: Result<seq<string>>)
    ensures r == Split(s)
  {
    var result: seq<string> := [];
    if s == "" {
      return Ok(result);
    }
    if s[0] != '/' {
      return Err(PARSE_ERROR_NO_SLASH);
    }
    var start := 1;
    var slash := FindChar(s, '/', 1);
    SlashAt(s, 1, slash);
    hide Tokens, WellEscaped, ReplaceAll, NextSlash, Split, Onto;
    SplitStarts(s);
    while start != 0
      invariant start <= |s|
      invariant start != 0 ==> slash == NextSlash(s, start)
      invariant start != 0 ==> Split(s) == Onto(result, Tokens(s, start))
      invariant start == 0 ==> Split(s) == Ok(result)
      decreases if start == 0 then 0 else |s| + 1 - start
    {
      TokensNow(s, start);
      var token := s[start..slash];
      var ok := CheckEscapes(token);
      if !ok {
        OntoError(result, PARSE_ERROR_TILDE);
        return Err(PARSE_ERROR_TILDE);
      }
      token := ReplaceSubstring(token, "~1", "/");
      token := ReplaceSubstring(token, "~0", "~");
      OntoSnoc(result, token, if slash == |s| then Ok([]) else Tokens(s, slash + 1));
      result := result + [token];
      if slash == |s| {
        start := 0;
      } else {
        start := slash + 1;
        slash := FindChar(s, '/', start);
        SlashAt(s, start, slash);
      }
    }
    return Ok(result);
  }

  // ---------- the bijection ----------

  /** Section 3 of RFC 6901: a sequence of slash-introduced tokens, '~' only as "~0" or "~1". */
  predicate Rfc6901Syntax(s: string) {
    (s == "" || s[0] == '/') &&
    forall k :: 0 <= k < |s| && s[k] == '~' ==> k + 1 < |s| && (s[k + 1] == '0' || s[k + 1] == '1')
  }

  lemma TokenText(token: string)
    requires WellEscaped(token) && '/' !in token
    ensures Escape(Unescape(token)) == token
  {
    UnescapeIsDecode(token);
    EscapeDecode(token);
    ReplaceTwice(Unescape(token));
  }

  lemma TextToken(t: string)
    ensures Unescape(Escape(t)) == t && WellEscaped(Escape(t)) && '/' !in Escape(t)
  {
    ReplaceTwice(t);
    DecodeEscape(t);
    EscapedIsClean(t);
    UnescapeIsDecode(Escape(t));
  }

  lemma {:induction false} TokensAccept(s: string, start: nat)
    requires start <= |s|
    ensures Tokens(s, start).Ok? <==> WellEscaped(s[start..])
    decreases |s| - start
  {
    hide WellEscaped, Unescape, NextSlash;
    var slash := NextSlash(s, start);
    var token := s[start..slash];
    if slash < |s| {
      assert s[start..] == token + "/" + s[slash + 1..];
      WellEscapedJoin(token, s[slash + 1..]);
      TokensAccept(s, slash + 1);
    } else {
      assert token == s[start..];
    }
  }

  lemma {:induction false} TokensPrint(s: string, start: nat)
    requires start <= |s| && Tokens(s, start).Ok?
    ensures "/" + s[start..] == ToString(Tokens(s, start).value)
    decreases |s| - start
  {
    hide Escape, Unescape, ToString, WellEscaped, NextSlash;
    var slash := NextSlash(s, start);
    var token := s[start..slash];
    TokenText(token);
    if slash == |s| {
      assert token == s[start..];
      ToStringCons(Unescape(token), []);
      assert [Unescape(token)] + [] == [Unescape(token)];
    } else {
      TokensPrint(s, slash + 1);
      ToStringCons(Unescape(token), Tokens(s, slash + 1).value);
      assert "/" + s[start..] == "/" + token + ("/" + s[slash + 1..]);
    }
  }

  lemma WellEscapedJoin(a: string, b: string)
    ensures WellEscaped(a + "/" + b) <==> WellEscaped(a) && WellEscaped(b)
  {
    var s := a + "/" + b;
    assert forall k :: 0 <= k < |a| ==> s[k] == a[k];
    assert s[|a|] == '/';
    assert forall k :: 0 <= k < |b| ==> s[|a| + 1 + k] == b[k];
    if WellEscaped(s) {
      WellEscapedTail(s, |a| + 1);
      assert s[|a| + 1..] == b;
    }
  }

  /** `split` accepts exactly the RFC 6901 syntax, and printing what it returns gives the text back. */
  lemma SplitThenPrint(s: string)
    ensures Split(s).Ok? <==> Rfc6901Syntax(s)
    ensures Split(s).Ok? ==> ToString(Split(s).value) == s
  {
    if s != "" && s[0] == '/' {
      TokensAccept(s, 1);
      if Split(s).Ok? {
        TokensPrint(s, 1);
      }
      assert s == "/" + s[1..];
      if WellEscaped(s[1..]) {
        assert forall k :: 1 <= k < |s| ==> s[k] == s[1..][k - 1];
      }
      if Rfc6901Syntax(s) {
        WellEscapedTail(s, 1);
      }
    }
  }

  lemma SlashAt(s: string, from: nat, pos: nat)
    requires from <= pos <= |s|
    requires forall k :: from <= k < pos ==> s[k] != '/'
    requires pos == |s| || s[pos] == '/'
    ensures NextSlash(s, from) == pos
  {
    if NextSlash(s, from) < pos {
      assert false;
    }
  }

  /** Reading one printed token: it stops at the next printed slash or at the end. */
  lemma OneToken(s: string, pre: string, e: string, post: string)
    requires s == pre + "/" + e + post
    requires '/' !in e && (post == "" || post[0] == '/')
    ensures NextSlash(s, |pre| + 1) == |pre| + 1 + |e|
    ensures s[|pre| + 1..|pre| + 1 + |e|] == e
  {
    var start := |pre| + 1;
    forall k | start <= k < start + |e| ensures s[k] != '/' {
      assert s[k] == e[k - start];
    }
    assert post != "" ==> s[start + |e|] == post[0];
    SlashAt(s, start, start + |e|);
  }

  lemma TokensStep(s: string, start: nat, t: string, rest: seq<string>)
    requires start <= |s|
    requires var e := Escape(t); start + |e| == NextSlash(s, start) && s[start..start + |e|] == e
    requires if rest == [] then NextSlash(s, start) == |s|
             else NextSlash(s, start) < |s| && Tokens(s, NextSlash(s, start) + 1) == Ok(rest)
    ensures Tokens(s, start) == Ok([t] + rest)
  {
    TextToken(t);
    assert rest == [] ==> [t] + rest == [t];
  }

  /** Cutting at slashes finds exactly the tokens that were printed. */
  lemma {:induction false} PrintThenTokens(pre: string, tokens: seq<string>)
    requires tokens != []
    ensures Tokens(pre + ToString(tokens), |pre| + 1) == Ok(tokens)
    decreases |tokens|
  {
    hide Escape, ToString, Tokens, NextSlash;
    var t, rest := tokens[0], tokens[1..];
    var s, e, post := pre + ToString(tokens), Escape(t), ToString(rest);
    assert tokens == [t] + rest;
    assert s == pre + "/" + e + post by {
      ToStringCons(t, rest);
    }
    assert '/' !in e by {
      TextToken(t);
    }
    if rest != [] {
      assert post[0] == '/' by {
        ToStringCons(rest[0], rest[1..]);
        assert rest == [rest[0]] + rest[1..];
      }
      PrintThenTokens(pre + "/" + e, rest);
    }
    OneToken(s, pre, e, post);
    TokensStep(s, |pre| + 1, t, rest);
  }

  /** Every token list survives printing and splitting, whatever characters its tokens hold. */
  lemma PrintThenSplit(tokens: seq<string>)
    ensures Split(ToString(tokens)) == Ok(tokens)
  {
    hide ToString, Tokens, Escape;
    if tokens != [] {
      PrintThenTokens("", tokens);
      assert tokens == [tokens[0]] + tokens[1..];
      ToStringCons(tokens[0], tokens[1..]);
      assert "" + ToString(tokens) == ToString(tokens);
    }
  }

  // ---------- the escapes and the errors, spelled out ----------

  /** Section 4 of RFC 6901, character by character. */
  lemma EscapeReads(c: char, s: string)
    ensures Escape("") == ""
    ensures Escape([c] + s) == (if c == '~' then "~0" else if c == '/' then "~1" else [c]) + Escape(s)
  {
    hide Escape;
    ReplaceTwice("");
    ReplaceTwice(s);
    ReplaceTwice([c] + s);
    assert ([c] + s)[1..] == s;
  }

  /** The reverse reading: '~' appears as "~0" or "~1" only. */
  lemma UnescapeReads(c: char, s: string)
    requires Rfc6901Syntax("/" + s)
    ensures Unescape("") == ""
    ensures Unescape("~0" + s) == "~" + Unescape(s) && Unescape("~1" + s) == "/" + Unescape(s)
    ensures c != '~' ==> Unescape([c] + s) == [c] + Unescape(s)
  {
    hide Unescape;
    SyntaxEscapes(s);
    UnescapeIsDecode("");
    UnescapeIsDecode(s);
    assert ("~0" + s)[2..] == s && ("~1" + s)[2..] == s && ([c] + s)[1..] == s;
    UnescapeIsDecode("~0" + s);
    UnescapeIsDecode("~1" + s);
    if c != '~' {
      UnescapeIsDecode([c] + s);
    }
  }

  lemma SyntaxEscapes(s: string)
    requires Rfc6901Syntax("/" + s)
    ensures WellEscaped(s)
  {
    hide WellEscaped;
    SplitThenPrint("/" + s);
    TokensAccept("/" + s, 1);
    assert ("/" + s)[1..] == s;
  }

  /** Which texts are rejected, and how. */
  lemma SplitErrors(s: string)
    ensures Split(s) == Err(107) <==> s != "" && s[0] != '/'
    ensures Split(s) == Err(108) <==> s != "" && s[0] == '/' && !Rfc6901Syntax(s)
    ensures Split(s).Err? ==> Split(s).id in {107, 108}
  {
    SplitThenPrint(s);
    if s != "" && s[0] == '/' {
      TokensError(s, 1);
    }
  }

  lemma {:induction false} TokensError(s: string, start: nat)
    requires start <= |s|
    ensures Tokens(s, start).Err? ==> Tokens(s, start).id == 108
    decreases |s| - start
  {
    if NextSlash(s, start) < |s| {
      TokensError(s, NextSlash(s, start) + 1);
    }
  }
}
