/** Percent-encoding, and looking a variable up in an encoded form. */
module Forms {
  import opened Bytes
  import opened Wrappers

  const PERCENT: byte := 37
  const AMP: byte := 38
  const PLUS: byte := 43
  const EQUALS: byte := 61
  const SPACE: byte := 32

  predicate IsUrlSafe(c: byte) {
    48 <= c <= 57 || 97 <= c <= 122 || 65 <= c <= 90 || c == 46 || c == 95 || c == 45 || c == 126
  }

  function HexDigit(n: byte): byte { if n < 10 then n + 48 else n - 10 + 97 }

  predicate IsXDigit(c: byte) { 48 <= c <= 57 || 65 <= c <= 70 || 97 <= c <= 102 }

  /** `mg_unhex_nimble`. */
  function Unhex(c: byte): byte {
    if 48 <= c <= 57 then c - 48 else if 65 <= c <= 70 then c - 55 else c - 87
  }

  function High(c: byte): byte { HexDigit(c >> 4) }
  function Low(c: byte): byte { HexDigit(c & 0x0f) }
  function Join(a: byte, b: byte): byte { (Unhex(a) << 4) | Unhex(b) }

  lemma HexRoundTrip(c: byte)
    ensures IsXDigit(High(c)) && IsXDigit(Low(c)) && Join(High(c), Low(c)) == c
    ensures High(c) != AMP && Low(c) != AMP
  {
  }

  // ---------- encoding ----------

  function EncodeByte(c: byte): seq<byte> {
    if IsUrlSafe(c) then [c] else [PERCENT, High(c), Low(c)]
  }

  /** Section 2.1 of RFC 3986 on every byte that is not unreserved. */
  function Encode(s: seq<byte>): seq<byte> {
    if s == [] then [] else Encode(s[..|s| - 1]) + EncodeByte(s[|s| - 1])
  }

  /** Room for the encoder: before its last byte it still has five cells. */
  predicate Fits(s: seq<byte>, len: nat) {
    s == [] || |Encode(s[..|s| - 1])| + 4 < len
  }

  lemma {:induction false} EncodeGrows(s: seq<byte>, k: nat)
    requires k <= |s|
    ensures |Encode(s[..k])| <= |Encode(s)|
    decreases |s|
  {
    hide EncodeByte;
    if k == |s| {
      assert s[..k] == s;
    } else {
      EncodeGrows(s[..|s| - 1], k);
      assert s[..|s| - 1][..k] == s[..k];
    }
  }

  lemma {:induction false} EncodeBound(s: seq<byte>)
    ensures |s| <= |Encode(s)| <= 3 * |s|
  {
    if s != [] {
      EncodeBound(s[..|s| - 1]);
    }
  }

  /** Three cells a byte and two more are always room enough. */
  lemma EncodeAlwaysFits(s: seq<byte>, len: nat)
    requires len >= 3 * |s| + 2
    ensures Fits(s, len)
  {
    if s != [] {
      EncodeBound(s[..|s| - 1]);
    }
  }

  method Write(buf: array<byte>, n: nat, data: seq<byte>)
    requires n + |data| <= buf.Length
    modifies buf
    ensures buf[..n + |data|] == old(buf[..n]) + data
    ensures forall i :: n + |data| <= i < buf.Length ==> buf[i] == old(buf[i])
  {
    forall i | 0 <= i < |data| {
      buf[n + i] := data[i];
    }
  }

  /** `mg_url_encode`: the length of the encoding, or 0 if it does not fit. */
  method UrlEncode(s: seq<byte>, buf: array<byte>, len: nat) returns (n: nat)
    requires len <= buf.Length
    modifies buf
    ensures Fits(s, len) ==> n == |Encode(s)| <= buf.Length && buf[..n] == Encode(s)
    ensures !Fits(s, len) ==> n == 0
    ensures forall i :: len <= i < buf.Length ==> buf[i] == old(buf[i])
  {
    hide EncodeByte, IsUrlSafe, High, Low;
    n := 0;
    for i := 0 to |s|
      invariant n <= buf.Length && n == |Encode(s[..i])| && buf[..n] == Encode(s[..i])
      invariant forall k :: len <= k < buf.Length ==> buf[k] == old(buf[k])
      invariant i > 0 ==> |Encode(s[..i - 1])| + 4 < len
    {
      if n + 4 >= len {
        EncodeGrows(s[..|s| - 1], i);
        assert s[..|s| - 1][..i] == s[..i];
        return 0;
      }
      assert s[..i + 1][..i] == s[..i];
      OneByteLen(s[i]);
      var c := s[i];
      Write(buf, n, EncodeByte(c));
      n := n + |EncodeByte(c)|;
    }
    assert s[..|s|] == s;
  }

  lemma OneByteLen(c: byte)
    ensures 1 <= |EncodeByte(c)| <= 3
  {
  }

  // ---------- decoding ----------

  /** The decoded bytes, or nothing if a '%' is not followed by two hexadecimal digits. */
  function Decode(s: seq<byte>, form: bool): Option<seq<byte>> {
    if s == [] then Some([])
    else if s[0] == PERCENT then
      if |s| >= 3 && IsXDigit(s[1]) && IsXDigit(s[2]) then Prepend(Join(s[1], s[2]), Decode(s[3..], form)) else None
    else Prepend(if form && s[0] == PLUS then SPACE else s[0], Decode(s[1..], form))
  }

  function Prepend(b: byte, rest: Option<seq<byte>>): Option<seq<byte>> {
    match rest case None => None case Some(bytes) => Some([b] + bytes)
  }

  function Attach(bytes: seq<byte>, rest: Option<seq<byte>>): Option<seq<byte>> {
    match rest case None => None case Some(more) => Some(bytes + more)
  }

  lemma AttachOne(bytes: seq<byte>, b: byte, rest: Option<seq<byte>>)
    ensures Attach(bytes, Prepend(b, rest)) == Attach(bytes + [b], rest)
  {
    if rest.Some? {
      assert bytes + ([b] + rest.value) == bytes + [b] + rest.value;
    }
  }

  lemma DecodeAt(s: seq<byte>, i: nat, form: bool)
    requires i < |s|
    ensures s[i] == PERCENT ==>
              Decode(s[i..], form) ==
              if i + 2 < |s| && IsXDigit(s[i + 1]) && IsXDigit(s[i + 2])
              then Prepend(Join(s[i + 1], s[i + 2]), Decode(s[i + 3..], form)) else None
    ensures s[i] != PERCENT ==>
              Decode(s[i..], form) == Prepend(if form && s[i] == PLUS then SPACE else s[i], Decode(s[i + 1..], form))
  {
    hide IsXDigit, Join;
    assert s[i..][1..] == s[i + 1..];
    assert i + 3 <= |s| ==> s[i..][3..] == s[i + 3..];
  }

  /** `mg_url_decode`: the number of bytes decoded, or -1 if the text is malformed or does not fit with its zero. */
  method UrlDecode(src: seq<byte>, dst: array<byte>, dstLen: nat, form: bool) returns (r: int)
    requires dstLen <= dst.Length
    modifies dst
    ensures var d := Decode(src, form);
            if d.Some? && |d.value| < dstLen
            then r == |d.value| && dst[..r] == d.value && dst[r] == 0
            else r == -1
    ensures forall k :: dstLen <= k < dst.Length ==> dst[k] == old(dst[k])
  {
    hide IsXDigit, Join, Decode;
    var i: nat, j: nat := 0, 0;
    assert src[0..] == src && dst[..0] == [];
    AttachNothing(Decode(src, form));
    while i < |src| && j + 1 < dstLen
      invariant i <= |src| && j <= dst.Length && (j > 0 ==> j < dstLen)
      invariant Decode(src, form) == Attach(dst[..j], Decode(src[i..], form))
      invariant forall k :: dstLen <= k < dst.Length ==> dst[k] == old(dst[k])
    {
      DecodeAt(src, i, form);
      ghost var was := dst[..j];
      var b: byte;
      if src[i] == PERCENT {
        if i + 2 < |src| && IsXDigit(src[i + 1]) && IsXDigit(src[i + 2]) {
          b := Join(src[i + 1], src[i + 2]);
          i := i + 2;
        } else {
          return -1;
        }
      } else if form && src[i] == PLUS {
        b := SPACE;
      } else {
        b := src[i];
      }
      dst[j] := b;
      assert dst[..j + 1] == was + [b];
      AttachOne(was, b, Decode(src[i + 1..], form));
      i, j := i + 1, j + 1;
    }
    DecodeTail(src, i, form);
    if j < dstLen {
      dst[j] := 0;
    }
    r := if i >= |src| && j < dstLen then j else -1;
  }

  lemma AttachNothing(d: Option<seq<byte>>)
    ensures Attach([], d) == d
  {
    assert d.Some? ==> [] + d.value == d.value;
  }

  /** Unread text stands for at least one more byte. */
  lemma DecodeTail(src: seq<byte>, i: nat, form: bool)
    requires i <= |src|
    ensures i == |src| ==> Decode(src[i..], form) == Some([])
    ensures i < |src| && Decode(src[i..], form).Some? ==> |Decode(src[i..], form).value| >= 1
  {
  }

  lemma {:induction false} DecodeEncodeThen(s: seq<byte>, tail: seq<byte>)
    ensures Decode(Encode(s) + tail, true) == Attach(s, Decode(tail, true))
  {
    hide IsUrlSafe, High, Low, Join, IsXDigit;
    if s == [] {
      assert Encode(s) + tail == tail;
      AttachNothing(Decode(tail, true));
    } else {
      var init, c := s[..|s| - 1], s[|s| - 1];
      var more := EncodeByte(c) + tail;
      assert Encode(s) + tail == Encode(init) + more;
      DecodeEncodeThen(init, more);
      HexRoundTrip(c);
      SafeIsPlain(c);
      assert more[|EncodeByte(c)|..] == tail;
      AttachOne(init, c, Decode(tail, true));
      assert s == init + [c];
    }
  }

  lemma SafeIsPlain(c: byte)
    ensures IsUrlSafe(c) ==> c != PERCENT && c != PLUS && c != AMP
  {
  }

  /** Decoding a form value that was encoded gives every byte string back. */
  lemma DecodeEncode(s: seq<byte>)
    ensures Decode(Encode(s), true) == Some(s)
  {
    DecodeEncodeThen(s, []);
    assert Encode(s) + [] == Encode(s) && s + [] == s;
  }

  // ---------- lookup ----------

  function Lower(c: byte): byte { if 65 <= c <= 90 then c + 32 else c }

  /** `mg_ncasecmp` is 0 on n characters of a name without a zero byte. */
  predicate SameName(a: seq<byte>, b: seq<byte>) {
    |a| == |b| && forall k :: 0 <= k < |a| ==> Lower(a[k]) == Lower(b[k])
  }

  /** A field with this name starts at p. */
  predicate FieldAt(buf: seq<byte>, name: seq<byte>, p: nat) {
    && p + |name| < |buf|
    && (p == 0 || buf[p - 1] == AMP)
    && buf[p + |name|] == EQUALS
    && SameName(name, buf[p..p + |name|])
  }

  /** The first position at or after p where a field with this name starts, or |buf|. */
  function FirstField(buf: seq<byte>, name: seq<byte>, p: nat): (q: nat)
    requires p <= |buf|
    ensures p <= q <= |buf|
    ensures q < |buf| ==> FieldAt(buf, name, q)
    ensures forall k :: p <= k < q ==> !FieldAt(buf, name, k)
    decreases |buf| - p
  {
    if p == |buf| || FieldAt(buf, name, p) then p else FirstField(buf, name, p + 1)
  }

  /** The end of the value that starts at p. */
  function ValueEnd(buf: seq<byte>, p: nat): (q: nat)
    requires p <= |buf|
    ensures p <= q <= |buf| && (q < |buf| ==> buf[q] == AMP)
    ensures forall k :: p <= k < q ==> buf[k] != AMP
    decreases |buf| - p
  {
    if p == |buf| || buf[p] == AMP then p else ValueEnd(buf, p + 1)
  }

  datatype Lookup = BadSource | NotFound | Malformed | Found(value: seq<byte>)

  /** What a form says about a name. */
  function GetVarOf(buf: seq<byte>, name: seq<byte>): Lookup {
    if buf == [] then BadSource
    else
      var p := FirstField(buf, name, 0);
      if p == |buf| then NotFound
      else
        var start := p + |name| + 1;
        match Decode(buf[start..ValueEnd(buf, start)], true)
        case None => Malformed
        case Some(v) => Found(v)
  }

  method Memchr(buf: seq<byte>, from: nat) returns (q: nat)
    requires from <= |buf|
    ensures q == ValueEnd(buf, from)
  {
    q := from;
    while q < |buf| && buf[q] != AMP
      invariant from <= q <= |buf| && ValueEnd(buf, q) == ValueEnd(buf, from)
    {
      q := q + 1;
    }
  }

  /**
   `mg_http_get_var`: -2 without a destination, -1 on an empty form, -4 if there is no such field,
   -3 if its value is malformed or does not fit with its terminating zero, otherwise the length of
   the decoded value.
   */
  method GetVar(buf: seq<byte>, name: seq<byte>, dst: array<byte>) returns (len: int)
    requires 0 !in name
    modifies dst
    ensures dst.Length == 0 ==> len == -2
    ensures dst.Length > 0 ==>
              match GetVarOf(buf, name)
              case BadSource => len == -1 && dst[0] == 0
              case NotFound => len == -4 && dst[0] == 0
              case Malformed => len == -3
              case Found(v) =>
                if |v| < dst.Length then len == |v| && dst[..len] == v && dst[len] == 0 else len == -3
  {
    hide Decode, FieldAt;
    if dst.Length == 0 {
      return -2;
    }
    if |buf| == 0 {
      dst[0] := 0;
      return -1;
    }
    len := -4;
    dst[0] := 0;
    var p: nat := 0;
    while p + |name| < |buf|
      invariant p <= |buf| && len == -4 && dst[0] == 0
      invariant FirstField(buf, name, p) == FirstField(buf, name, 0)
    {
      FieldUnfold(buf, name, p);
      if (p == 0 || buf[p - 1] == AMP) && buf[p + |name|] == EQUALS && SameName(name, buf[p..p + |name|]) {
        p := p + |name| + 1;
        var s := Memchr(buf, p);
        len := UrlDecode(buf[p..s], dst, dst.Length, true);
        if len < 0 {
          len := -3;
        }
        return;
      }
      p := p + 1;
    }
    NoFieldLeft(buf, name, p);
  }

  lemma FieldUnfold(buf: seq<byte>, name: seq<byte>, p: nat)
    requires p + |name| < |buf|
    ensures FieldAt(buf, name, p) <==>
            (p == 0 || buf[p - 1] == AMP) && buf[p + |name|] == EQUALS && SameName(name, buf[p..p + |name|])
  {
  }

  lemma NoFieldLeft(buf: seq<byte>, name: seq<byte>, p: nat)
    requires p <= |buf| <= p + |name|
    ensures FirstField(buf, name, p) == |buf|
  {
  }

  // ---------- lookup inverts form building ----------

  datatype Pair = Pair(name: seq<byte>, value: seq<byte>)

  predicate PlainName(name: seq<byte>) { AMP !in name && EQUALS !in name }

  function FieldText(p: Pair): seq<byte> { p.name + [EQUALS] + Encode(p.value) }

  /** name=value pairs joined with '&'. */
  function FormText(pairs: seq<Pair>): seq<byte> {
    if pairs == [] then []
    else if |pairs| == 1 then FieldText(pairs[0])
    else FieldText(pairs[0]) + [AMP] + FormText(pairs[1..])
  }

  /** The value of the first pair with that name, whatever the case of its letters. */
  function LookupOf(pairs: seq<Pair>, name: seq<byte>): (r: Lookup)
    ensures r.NotFound? || r.Found?
  {
    if pairs == [] then NotFound
    else if SameName(name, pairs[0].name) then Found(pairs[0].value)
    else LookupOf(pairs[1..], name)
  }

  lemma {:induction false} EncodeHasNoAmp(s: seq<byte>)
    ensures AMP !in Encode(s)
  {
    hide IsUrlSafe, High, Low;
    if s != [] {
      EncodeHasNoAmp(s[..|s| - 1]);
      HexRoundTrip(s[|s| - 1]);
      SafeIsPlain(s[|s| - 1]);
    }
  }

  lemma LowerEquals(c: byte)
    ensures Lower(c) == Lower(EQUALS) <==> c == EQUALS
  {
  }

  /** At the start of a field, the lookup test succeeds exactly when the names agree. */
  lemma FieldStart(buf: seq<byte>, pre: seq<byte>, f: Pair, post: seq<byte>, name: seq<byte>)
    requires buf == pre + FieldText(f) + post && (pre == [] || pre[|pre| - 1] == AMP)
    requires PlainName(f.name) && PlainName(name)
    ensures FieldAt(buf, name, |pre|) <==> SameName(name, f.name)
  {
    hide Encode, Lower;
    var p := |pre|;
    assert forall k :: 0 <= k < |f.name| ==> buf[p + k] == f.name[k];
    assert buf[p + |f.name|] == EQUALS;
    assert buf[p..p + |f.name|] == f.name;
    assert forall k :: 0 <= k < |f.name| ==> f.name[k] != EQUALS;
    if |name| > |f.name| && p + |name| < |buf| {
      var k := |f.name|;
      assert buf[p..p + |name|][k] == EQUALS;
      LowerEquals(name[k]);
      assert name[k] in name;
    }
  }

  /** Inside a field no field starts. */
  lemma FieldInside(buf: seq<byte>, pre: seq<byte>, f: Pair, post: seq<byte>, name: seq<byte>, p: nat)
    requires buf == pre + FieldText(f) + post && PlainName(f.name)
    requires |pre| < p <= |pre| + |FieldText(f)|
    ensures !FieldAt(buf, name, p)
  {
    hide Encode, SameName;
    EncodeHasNoAmp(f.value);
    var t := FieldText(f);
    assert buf[p - 1] == t[p - 1 - |pre|];
  }

  lemma SkipTo(buf: seq<byte>, name: seq<byte>, p: nat, q: nat)
    requires p <= q <= |buf| && forall k :: p <= k < q ==> !FieldAt(buf, name, k)
    ensures FirstField(buf, name, p) == FirstField(buf, name, q)
    decreases q - p
  {
    hide FieldAt;
    if p < q {
      SkipTo(buf, name, p + 1, q);
    }
  }

  /** The value that follows a matching name is the pair's. */
  lemma FieldValue(buf: seq<byte>, pre: seq<byte>, f: Pair, post: seq<byte>)
    requires buf == pre + FieldText(f) + post && (post == [] || post[0] == AMP)
    ensures var start := |pre| + |f.name| + 1;
            start <= |buf| && Decode(buf[start..ValueEnd(buf, start)], true) == Some(f.value)
  {
    hide Encode, Decode;
    EncodeHasNoAmp(f.value);
    DecodeEncode(f.value);
    var start, e := |pre| + |f.name| + 1, Encode(f.value);
    assert buf == (pre + f.name + [EQUALS]) + e + post;
    assert buf[start..start + |e|] == e;
    assert forall k :: start <= k < start + |e| ==> buf[k] == e[k - start];
    assert post != [] ==> buf[start + |e|] == post[0];
    ValueEndsAt(buf, start, start + |e|);
  }

  lemma ValueEndsAt(buf: seq<byte>, start: nat, end: nat)
    requires start <= end <= |buf| && (forall k :: start <= k < end ==> buf[k] != AMP)
    requires end == |buf| || buf[end] == AMP
    ensures ValueEnd(buf, start) == end
  {
    if ValueEnd(buf, start) < end {
      assert false;
    }
  }

  /** A field with another name is passed over, with the '&' after it if there is one. */
  lemma FieldSkipped(buf: seq<byte>, pre: seq<byte>, f: Pair, post: seq<byte>, name: seq<byte>)
    requires buf == pre + FieldText(f) + post && (pre == [] || pre[|pre| - 1] == AMP)
    requires PlainName(f.name) && PlainName(name) && !SameName(name, f.name)
    ensures var next := |pre| + |FieldText(f)| + if post == [] then 0 else 1;
            FirstField(buf, name, |pre|) == FirstField(buf, name, next)
  {
    hide Encode, SameName, FieldAt, FieldText;
    FieldStart(buf, pre, f, post, name);
    var next := |pre| + |FieldText(f)| + if post == [] then 0 else 1;
    forall k | |pre| <= k < next ensures !FieldAt(buf, name, k) {
      if k > |pre| {
        FieldInside(buf, pre, f, post, name, k);
      }
    }
    SkipTo(buf, name, |pre|, next);
  }

  lemma FieldFound(buf: seq<byte>, pre: seq<byte>, f: Pair, post: seq<byte>, name: seq<byte>)
    requires buf == pre + FieldText(f) + post && (pre == [] || pre[|pre| - 1] == AMP)
    requires PlainName(f.name) && PlainName(name) && SameName(name, f.name)
    ensures |name| == |f.name| && FirstField(buf, name, |pre|) == |pre| < |buf|
  {
    hide Encode, FieldAt, PlainName, FieldText, FirstField, SameName;
    FieldStart(buf, pre, f, post, name);
    FirstHere(buf, name, |pre|);
    SameLength(name, f.name);
  }

  lemma SameLength(a: seq<byte>, b: seq<byte>)
    requires SameName(a, b)
    ensures |a| == |b|
  {
  }

  lemma FirstHere(buf: seq<byte>, name: seq<byte>, p: nat)
    requires p <= |buf| && FieldAt(buf, name, p)
    ensures FirstField(buf, name, p) == p < |buf|
  {
  }

  lemma FormUnfold(pairs: seq<Pair>)
    requires pairs != []
    ensures FormText(pairs) ==
            FieldText(pairs[0]) + if |pairs| == 1 then [] else [AMP] + FormText(pairs[1..])
    ensures FormText(pairs) != []
  {
    hide FieldText;
    FieldTextNonempty(pairs[0]);
    if |pairs| > 1 {
      Assoc(FieldText(pairs[0]), [AMP], FormText(pairs[1..]));
    }
  }

  lemma FieldTextNonempty(p: Pair)
    ensures FieldText(p) != []
  {
  }

  lemma Assoc(a: seq<byte>, b: seq<byte>, c: seq<byte>)
    ensures a + b + c == a + (b + c)
  {
  }

  /** Scanning from the start of a field. */
  lemma {:induction false} ScanForm(buf: seq<byte>, pre: seq<byte>, pairs: seq<Pair>, name: seq<byte>)
    requires buf == pre + FormText(pairs) && pairs != [] && (pre == [] || pre[|pre| - 1] == AMP)
    requires PlainName(name) && forall k :: 0 <= k < |pairs| ==> PlainName(pairs[k].name)
    ensures var p := FirstField(buf, name, |pre|);
            match LookupOf(pairs, name)
            case Found(v) =>
              p < |buf| && Decode(buf[p + |name| + 1..ValueEnd(buf, p + |name| + 1)], true) == Some(v)
            case _ => p == |buf|
    decreases |pairs|
  {
    hide Encode, Decode, SameName, FieldAt, FieldText, PlainName, FormText, FirstField, ValueEnd;
    var f := pairs[0];
    var post := if |pairs| == 1 then [] else [AMP] + FormText(pairs[1..]);
    FormUnfold(pairs);
    assert buf == pre + FieldText(f) + post;
    if SameName(name, f.name) {
      FieldFound(buf, pre, f, post, name);
      FieldValue(buf, pre, f, post);
    } else {
      FieldSkipped(buf, pre, f, post, name);
      if |pairs| > 1 {
        var pre' := pre + FieldText(f) + [AMP];
        assert buf == pre' + FormText(pairs[1..]);
        ScanForm(buf, pre', pairs[1..], name);
      } else {
        assert LookupOf(pairs[1..], name) == NotFound;
      }
    }
  }

  /**
   Looking a name up in a form built from pairs returns the value of the first pair with that name,
   for arbitrary values, as long as no name holds '&' or '='.
   */
  lemma FormRoundTrip(pairs: seq<Pair>, name: seq<byte>)
    requires pairs != [] && PlainName(name) && forall k :: 0 <= k < |pairs| ==> PlainName(pairs[k].name)
    ensures GetVarOf(FormText(pairs), name) == LookupOf(pairs, name)
  {
    hide Encode, Decode, SameName, FieldAt, FormText, LookupOf, PlainName, ValueEnd;
    var buf := FormText(pairs);
    FormUnfold(pairs);
    assert buf == [] + buf;
    ScanForm(buf, [], pairs, name);
  }

  // ---------- the tables, with literal values ----------

  /** Unreserved characters stand for themselves; every other byte is '%' and two lower-case hexadecimal digits. */
  lemma EncodedByte(s: seq<byte>, c: byte)
    ensures Encode([]) == []
    ensures (65 <= c <= 90 || 97 <= c <= 122 || 48 <= c <= 57 || c == 45 || c == 46 || c == 95 || c == 126) ==>
              Encode(s + [c]) == Encode(s) + [c]
    ensures !(65 <= c <= 90 || 97 <= c <= 122 || 48 <= c <= 57 || c == 45 || c == 46 || c == 95 || c == 126) ==>
              Encode(s + [c]) == Encode(s) + [37, High(c), Low(c)]
  {
    assert (s + [c])[..|s|] == s;
  }

  lemma HexDigits(c: byte)
    ensures High(c) as int == "0123456789abcdef"[(c >> 4) as int] as int
    ensures Low(c) as int == "0123456789abcdef"[(c & 0x0f) as int] as int
  {
  }

  /** The value of a hexadecimal digit of either case. */
  lemma HexValues(c: byte)
    ensures IsXDigit(c) <==> 48 <= c <= 57 || 65 <= c <= 70 || 97 <= c <= 102
    ensures 48 <= c <= 57 ==> Unhex(c) == c - 48
    ensures 65 <= c <= 70 ==> Unhex(c) == c - 65 + 10
    ensures 97 <= c <= 102 ==> Unhex(c) == c - 97 + 10
  {
  }

  /** Reading an escape: two hexadecimal digits must follow the '%'. */
  lemma DecodedEscape(x: byte, y: byte, rest: seq<byte>, form: bool)
    ensures IsXDigit(x) && IsXDigit(y) ==>
              Decode([37, x, y] + rest, form) == Attach([(Unhex(x) << 4) | Unhex(y)], Decode(rest, form))
    ensures !(IsXDigit(x) && IsXDigit(y)) ==> Decode([37, x, y] + rest, form) == None
    ensures Decode([37], form) == None && Decode([37, x], form) == None
  {
    hide Unhex, IsXDigit, Decode;
    var s := [37, x, y] + rest;
    assert s[3..] == rest && s[0] == 37 && s[1] == x && s[2] == y;
    DecodeOnce(s, form);
    DecodeOnce([37], form);
    DecodeOnce([37, x], form);
    AttachPrepend((Unhex(x) << 4) | Unhex(y), Decode(rest, form));
  }

  lemma DecodeOnce(s: seq<byte>, form: bool)
    requires s != [] && s[0] == PERCENT
    ensures Decode(s, form) ==
            if |s| >= 3 && IsXDigit(s[1]) && IsXDigit(s[2])
            then Prepend(Join(s[1], s[2]), Decode(s[3..], form)) else None
  {
    hide Join, IsXDigit;
  }

  lemma AttachPrepend(b: byte, rest: Option<seq<byte>>)
    ensures Prepend(b, rest) == Attach([b], rest)
  {
  }

  /** Reading anything else: in a form a plus sign is a space, all other characters stand for themselves. */
  lemma DecodedPlain(c: byte, rest: seq<byte>, form: bool)
    requires c != 37
    ensures Decode([], form) == Some([])
    ensures Decode([c] + rest, form) == Attach([if form && c == 43 then 32 else c], Decode(rest, form))
  {
    hide Join, IsXDigit;
    assert ([c] + rest)[1..] == rest;
  }

  /** The encoder's room test, before every byte. */
  lemma FitsExactly(s: seq<byte>, len: nat)
    ensures Fits(s, len) <==> forall k :: 0 <= k < |s| ==> |Encode(s[..k])| + 5 <= len
  {
    if s != [] {
      forall k | 0 <= k < |s| ensures |Encode(s[..k])| <= |Encode(s[..|s| - 1])| {
        EncodeGrows(s[..|s| - 1], k);
        assert s[..|s| - 1][..k] == s[..k];
      }
    }
  }

  /** Names agree character by character, up to the case of letters. */
  lemma NamesAgree(a: seq<byte>, b: seq<byte>)
    ensures SameName(a, b) <==>
            |a| == |b| &&
            forall k :: 0 <= k < |a| ==>
              a[k] == b[k] || (65 <= a[k] <= 90 && b[k] == a[k] + 32) || (65 <= b[k] <= 90 && a[k] == b[k] + 32)
  {
    hide Lower;
    forall x: byte, y: byte
      ensures Lower(x) == Lower(y) <==> x == y || (65 <= x <= 90 && y == x + 32) || (65 <= y <= 90 && x == y + 32)
    {
      LowerAgrees(x, y);
    }
  }

  lemma LowerAgrees(x: byte, y: byte)
    ensures Lower(x) == Lower(y) <==> x == y || (65 <= x <= 90 && y == x + 32) || (65 <= y <= 90 && x == y + 32)
  {
  }

  /** A form: names and encoded values joined with '=', pairs joined with '&'. */
  lemma FormLayout(p: Pair, pairs: seq<Pair>)
    ensures FormText([]) == [] && FormText([p]) == p.name + [61] + Encode(p.value)
    ensures pairs != [] ==> FormText([p] + pairs) == p.name + [61] + Encode(p.value) + [38] + FormText(pairs)
  {
    hide Encode;
    assert ([p] + pairs)[1..] == pairs;
  }

  /** A single field with any text as its value, '+' standing for a space; and a text that is no field. */
  lemma RawField(name: seq<byte>, text: seq<byte>)
    requires 61 !in name && 38 !in name && 38 !in text
    ensures GetVarOf(name + [61] + text, name) ==
            match Decode(text, true) case None => Malformed case Some(v) => Found(v)
    ensures GetVarOf([], name) == BadSource
    ensures 61 !in text ==> GetVarOf(text, name) == if text == [] then BadSource else NotFound
  {
    hide Decode, FirstField, ValueEnd, FieldAt;
    var buf := name + [61] + text;
    FieldFirst(name, text);
    FirstHere(buf, name, 0);
    assert buf[|name| + 1..] == text;
    NoAmpAfter(name, text);
    ValueEndsAt(buf, |name| + 1, |buf|);
    assert buf[|name| + 1..|buf|] == text;
    if text != [] && 61 !in text {
      NoFields(text, name);
      SkipTo(text, name, 0, |text|);
      NoFieldLeft(text, name, |text|);
    }
  }

  lemma FieldFirst(name: seq<byte>, text: seq<byte>)
    ensures FieldAt(name + [61] + text, name, 0)
  {
    assert (name + [61] + text)[0..|name|] == name;
  }

  lemma NoAmpAfter(name: seq<byte>, text: seq<byte>)
    requires 38 !in text
    ensures var buf := name + [61] + text; forall k :: |name| + 1 <= k < |buf| ==> buf[k] != AMP
  {
    forall k | |name| + 1 <= k < |name + [61] + text| ensures (name + [61] + text)[k] != AMP {
      assert (name + [61] + text)[k] == text[k - |name| - 1];
    }
  }

  lemma NoFields(text: seq<byte>, name: seq<byte>)
    requires 61 !in text
    ensures forall k :: 0 <= k < |text| ==> !FieldAt(text, name, k)
  {
    assert forall k :: 0 <= k < |text| ==> text[k] in text;
  }

  lemma PlusIsSpace(name: seq<byte>)
    requires 61 !in name && 38 !in name
    ensures GetVarOf(name + [61] + [43], name) == Found([32])
  {
    hide Decode;
    RawField(name, [43]);
    DecodedPlain(43, [], true);
    assert [43] + [] == [43 as byte];
  }
}
