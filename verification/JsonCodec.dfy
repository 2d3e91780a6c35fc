/**
 Encoding and decoding undo each other: the laws that tie the two halves of JsonText together.
 */
module JsonCodec {
  import opened JsonText
  import opened Wrappers

  // ---------- Which trees can be written ----------

  /** The tokens of a tree are those of the grammar and fit a token buffer, and only containers have
      children.  Keys may still be missing or superfluous. */
  ghost predicate WellFormed(t: Json) {
    && IsStringBody(t.key) && |t.key| + 1 < TOKEN_SZ
    && (match t.typ
        case StringType => IsStringBody(t.val) && |t.val| + 1 < TOKEN_SZ && t.kids == []
        case NumberType => IsNumber(t.val) && |t.val| + 1 < TOKEN_SZ && t.kids == []
        case ObjectType => t.val == "" && AllWellFormed(t.kids)
        case ArrayType => t.val == "" && AllWellFormed(t.kids)
        case UnknownType => false
        case _ => t.val == "" && t.kids == [])
  }

  ghost predicate AllWellFormed(ts: seq<Json>) {
    ts == [] || (WellFormed(ts[0]) && AllWellFormed(ts[1..]))
  }

  /** Members of objects are named and elements of arrays are not. */
  ghost predicate KeysRight(t: Json)
    decreases t
  {
    AllKeysRight(t.typ == ObjectType, t.kids)
  }

  ghost predicate AllKeysRight(named: bool, ts: seq<Json>)
    decreases ts
  {
    ts == [] || ((ts[0].key != "") == named && KeysRight(ts[0]) && AllKeysRight(named, ts[1..]))
  }

  predicate IsContainer(t: Json) { t.typ == ObjectType || t.typ == ArrayType }

  // ---------- Writing in front of a text ----------

  function EncodeTo(t: Json, z: string): string {
    Head(t) + EncodeAllTo(t.kids, Close(t) + z)
  }

  function EncodeAllTo(ts: seq<Json>, z: string): string {
    if ts == [] then z else EncodeTo(ts[0], (if |ts| > 1 then ", " else "") + EncodeAllTo(ts[1..], z))
  }

  lemma Regroup(a: string, b: string, c: string, z: string)
    ensures a + (b + (c + z)) == a + b + c + z
  {
  }

  lemma {:induction false} EncodeToIs(t: Json, z: string)
    ensures EncodeTo(t, z) == Encode(t) + z
    decreases t
  {
    EncodeAllToIs(t.kids, Close(t) + z);
    Regroup(Head(t), EncodeAll(t.kids), Close(t), z);
  }

  lemma {:induction false} EncodeAllToIs(ts: seq<Json>, z: string)
    ensures EncodeAllTo(ts, z) == EncodeAll(ts) + z
    decreases ts
  {
    if ts != [] {
      var comma := if |ts| > 1 then ", " else "";
      EncodeAllToIs(ts[1..], z);
      EncodeToIs(ts[0], comma + EncodeAllTo(ts[1..], z));
      Regroup(Encode(ts[0]), comma, EncodeAll(ts[1..]), z);
    }
  }

  // ---------- Tokens are read back ----------

  lemma {:induction false} BodyReadBack(b: string, z: string)
    requires IsStringBody(b)
    ensures BodyEnd(b + "\"" + z) == Some("\"" + z)
    decreases |b|
  {
    var r := b + "\"" + z;
    if b == "" {
      assert r == "\"" + z;
    } else if b[0] == '\\' {
      if b[1] == 'u' {
        BodyReadBack(b[6..], z);
        assert r[6..] == b[6..] + "\"" + z;
      } else {
        BodyReadBack(b[2..], z);
        assert r[2..] == b[2..] + "\"" + z;
      }
    } else {
      BodyReadBack(b[1..], z);
      assert r[1..] == b[1..] + "\"" + z;
    }
  }

  /** A literal written in front of any text is read back, and nothing of that text is taken. */
  lemma StrReadBack(b: string, z: string)
    requires IsStringBody(b)
    ensures Str("\"" + b + "\"" + z) == Ok(z, b, |b| + 1 < TOKEN_SZ)
  {
    hide BodyEnd, IsStringBody;
    BodyReadBack(b, z);
    LiteralParts(b, z);
  }

  lemma LiteralParts(b: string, z: string)
    ensures var r, q := "\"" + b + "\"" + z, "\"" + z;
            && r[0] == '"' && r[1..] == b + "\"" + z && r[1..|b| + 1] == b && q[1..] == z
            && |r| - 1 - |q| == |b|
  {
    var r := "\"" + b + "\"" + z;
    assert r == ['"'] + (b + "\"" + z);
  }

  /** Conversely whatever the string matcher takes is a literal of the grammar. */
  lemma StrReadsALiteral(r: string)
    requires Str(r).Ok?
    ensures IsStringBody(Str(r).v) && r == "\"" + Str(r).v + "\"" + Str(r).rest
  {
    hide BodyEnd, IsStringBody;
    var q := BodyEnd(r[1..]).value;
    var b := BodyEndSound(r[1..]);
    assert r == [r[0]] + (b + q) && q == [q[0]] + q[1..];
    assert r[1..|r| - |q|] == b;
  }

  /** One character of a string literal, as written: plain, or an escape. */
  predicate IsStringChar(p: string) {
    || (|p| == 1 && p[0] != '\\' && p[0] != '"' && !IsCntrl(p[0]))
    || (|p| == 2 && p[0] == '\\' && IsEscape(p[1]))
    || (|p| == 6 && p[0] == '\\' && p[1] == 'u'
        && IsXDigit(p[2]) && IsXDigit(p[3]) && IsXDigit(p[4]) && IsXDigit(p[5]))
  }

  lemma BodyGrows(p: string, b: string)
    requires IsStringChar(p) && IsStringBody(b)
    ensures IsStringBody(p + b)
  {
    assert (p + b)[|p|..] == b;
  }

  lemma {:induction false} BodyEndSound(r: string) returns (b: string)
    requires BodyEnd(r).Some?
    ensures IsStringBody(b) && r == b + BodyEnd(r).value && Peek(BodyEnd(r).value) == '"'
    decreases |r|
  {
    if r[0] == '"' {
      b := "";
    } else {
      var k := if r[0] != '\\' then 1 else if r[1] == 'u' then 6 else 2;
      var b1 := BodyEndSound(r[k..]);
      BodyGrows(r[..k], b1);
      b := r[..k] + b1;
      Rejoin(r, k, b1, BodyEnd(r).value);
    }
  }

  lemma Rejoin(r: string, k: nat, b: string, q: string)
    requires k <= |r| && r[k..] == b + q
    ensures r == r[..k] + b + q
  {
    assert r == r[..k] + r[k..];
  }

  /** HEXDIG of RFC 4234, in both cases as section 2.5 of RFC 4627 has it */
  predicate RfcHexDigit(c: char) {
    RfcDigit(c) || c in {'A', 'B', 'C', 'D', 'E', 'F', 'a', 'b', 'c', 'd', 'e', 'f'}
  }

  /** The inside of a string literal as section 2.5 of RFC 4627 has it: escapes for the quotation mark, the
      two slashes, backspace, form feed, line feed, carriage return and tab, and four hexadecimal digits
      after "u"; anything else but control characters below space, DEL included, stands for itself. */
  predicate IsRfcStringBody(b: string) {
    if b == "" then true
    else if b[0] == '\\' then
      && |b| >= 2
      && if b[1] == 'u' then
           |b| >= 6 && (forall i :: 2 <= i < 6 ==> RfcHexDigit(b[i])) && IsRfcStringBody(b[6..])
         else b[1] in {'"', '\\', '/', 'b', 'f', 'n', 'r', 't'} && IsRfcStringBody(b[2..])
    else b[0] != '"' && b[0] >= ' ' && IsRfcStringBody(b[1..])
  }

  /** A string literal of the RFC is read back exactly when it has no DEL in it. */
  lemma RfcStringReadBack(b: string, z: string)
    requires IsRfcStringBody(b)
    ensures Str("\"" + b + "\"" + z) == Ok(z, b, |b| + 1 < TOKEN_SZ) <==> '\U{7F}' !in b
  {
    DelTellsThemApart(b);
    if IsStringBody(b) {
      StrReadBack(b, z);
    } else if Str("\"" + b + "\"" + z) == Ok(z, b, |b| + 1 < TOKEN_SZ) {
      StrReadsALiteral("\"" + b + "\"" + z);
      assert false;
    }
  }

  lemma {:induction false} DelTellsThemApart(b: string)
    requires IsRfcStringBody(b)
    ensures IsStringBody(b) <==> '\U{7F}' !in b
    decreases |b|
  {
    if b != "" {
      var k := if b[0] != '\\' then 1 else if b[1] == 'u' then 6 else 2;
      DelTellsThemApart(b[k..]);
      assert forall c :: c in b <==> c in b[..k] || c in b[k..] by { assert b == b[..k] + b[k..]; }
    }
  }

  /** `z` does not go on with a number. */
  predicate EndsNumber(z: string) { z != "" && !IsDigit(z[0]) && z[0] !in {'.', 'e', 'E'} }

  lemma {:induction false} DigitsReadBack(d: string, z: string)
    requires AllDigits(d) && !IsDigit(Peek(z))
    ensures DropDigits(d + z) == z
  {
    if d == "" {
      assert d + z == z;
    } else {
      DigitsReadBack(d[1..], z);
      assert (d + z)[1..] == d[1..] + z;
    }
  }

  lemma IntReadBack(a: string, z: string)
    requires IsInt(a) && !IsDigit(Peek(z))
    ensures IntEnd(a + z) == Some(z)
  {
    var d := if a[0] == '-' then a[1..] else a;
    var r := if Peek(a + z) == '-' then (a + z)[1..] else a + z;
    assert r == d + z;
    assert r[1..] == d[1..] + z;
    if d[0] == '0' {
      assert d[1..] == "";
    } else {
      DigitsReadBack(d[1..], z);
    }
  }

  lemma FracReadBack(b: string, z: string)
    requires IsFrac(b) && !IsDigit(Peek(z))
    ensures Peek(b + z) == '.' && FracEnd(b + z) == Some(z)
  {
    assert (b + z)[1..] == b[1..] + z;
    DigitsReadBack(b[1..], z);
  }

  lemma ExpReadBack(c: string, z: string)
    requires IsExp(c) && !IsDigit(Peek(z))
    ensures Peek(c + z) in {'e', 'E'} && ExpEnd(c + z) == Some(z)
  {
    var r := c + z;
    assert r[1..] == c[1..] + z && r[2..] == c[2..] + z;
    DigitsReadBack(if c[1] in {'+', '-'} then c[2..] else c[1..], z);
  }

  lemma NumberEndReadBack(a: string, b: string, c: string, z: string)
    requires IsInt(a) && (b == "" || IsFrac(b)) && (c == "" || IsExp(c)) && EndsNumber(z)
    ensures NumberEnd(a + (b + (c + z))) == Some(z)
  {
    var r2 := c + z;
    if c != "" {
      ExpReadBack(c, z);
    } else {
      assert r2 == z;
    }
    var r1 := b + r2;
    if b != "" {
      FracReadBack(b, r2);
    } else {
      assert r1 == r2;
    }
    IntReadBack(a, r1);
  }

  lemma NumberReadBack(v: string, z: string)
    requires IsNumber(v) && EndsNumber(z)
    ensures Number(v + z) == Ok(z, v, |v| + 1 < TOKEN_SZ)
  {
    hide IsInt, IsFrac, IsExp, NumberEnd, IsNumber;
    var a, b, c := NumberParts(v);
    Regroup(a, b, c, z);
    NumberEndReadBack(a, b, c, z);
    MatchedToken(v, z);
    assert Number(v + z) == Ok(z, v, |v| + 1 < TOKEN_SZ);
  }

  lemma NumberParts(v: string) returns (a: string, b: string, c: string)
    requires IsNumber(v)
    ensures v == a + b + c && IsInt(a) && (b == "" || IsFrac(b)) && (c == "" || IsExp(c))
  {
    hide IsInt, IsFrac, IsExp;
    var i: nat, j: nat :| IsNumberSplit(v, i, j);
    a, b, c := v[..i], v[i..j], v[j..];
    assert v == v[..i] + v[i..j] + v[j..];
  }

  lemma MatchedToken(v: string, z: string)
    requires z != ""
    ensures TrimLast(Matched(v + z, |v|)) == v
  {
    assert (v + z)[..|v| + 1] == v + [z[0]];
  }

  lemma {:induction false} LetterReadBack(w: string, z: string)
    requires w != "" && z != "" && forall i :: 0 <= i < |w| ==> !IsSpace(w[i])
    ensures Word(w + z, w) == Some(DropSpaces(z))
    decreases |w|
  {
    assert (w + z)[1..] == w[1..] + z;
    if |w| == 1 {
      assert w[1..] + z == z;
    } else {
      LetterReadBack(w[1..], z);
    }
  }

  /** Skipping over a character and one blank leads to what follows. */
  lemma SkipBlank(x: char, body: string)
    requires body != "" && !IsSpace(body[0])
    ensures SkipRest([x, ' '] + body) == body
  {
    var r := [x, ' '] + body;
    assert r[1..] == [' '] + body && r[1..][1..] == body;
    assert DropSpaces(body) == body;
  }

  // ---------- Values are read back ----------

  /** The text after an item starts with the comma and blank of the next one, or with the blank and
      bracket that close the list. */
  predicate AfterItem(z: string) {
    |z| >= 2 && ((z[0] == ',' && z[1] == ' ') || (z[0] == ' ' && z[1] in {']', '}'}))
  }

  /** `m` reads the value `v` off the front of a text that goes on with `z`; the blank at the start
      of `z` may be taken or not. */
  predicate Reads(m: Match<Json>, v: Json, z: string) {
    m.Ok? && m.v == v && m.fits && (m.rest == z || m.rest == DropSpaces(z))
  }

  predicate StartsValue(r: string) {
    r != "" && (r[0] in {'"', '-', '{', '[', 't', 'f', 'n'} || IsDigit(r[0]))
  }

  lemma NumberStarts(v: string)
    requires IsNumber(v)
    ensures v != "" && (v[0] == '-' || IsDigit(v[0]))
  {
    var a, b, c := NumberParts(v);
    assert v[0] == a[0];
  }

  lemma OpenStarts(t: Json, z: string)
    requires WellFormed(t)
    ensures StartsValue(Open(t) + z) && StartsValue(Head(t) + z)
  {
    if t.typ == NumberType {
      NumberStarts(t.val);
    }
  }

  lemma {:induction false} ValueReadBack(t: Json, z: string)
    requires WellFormed(t) && KeysRight(t)
    requires AfterItem(z) || (IsContainer(t) && z == "")
    ensures Reads(Value(Open(t) + EncodeAllTo(t.kids, Close(t) + z)), t.(key := ""), z)
    decreases t, 1
  {
    var r := Open(t) + EncodeAllTo(t.kids, Close(t) + z);
    if IsContainer(t) {
      ContainerReadBack(t, z);
    } else {
      assert r == Open(t) + z;
      ScalarReadBack(t, z);
    }
  }

  lemma ScalarReadBack(t: Json, z: string)
    requires WellFormed(t) && !IsContainer(t) && AfterItem(z)
    ensures Reads(Value(Open(t) + z), t.(key := ""), z)
  {
    hide Str, Number, IsStringBody, IsNumber;
    if t.typ == StringType {
      StrReadBack(t.val, z);
    } else if t.typ == NumberType {
      NumberStarts(t.val);
      NumberReadBack(t.val, z);
    } else {
      LetterReadBack(Open(t), z);
    }
  }

  lemma ContainerReadBack(t: Json, z: string)
    requires WellFormed(t) && KeysRight(t) && IsContainer(t)
    ensures Container(t.typ == ObjectType, Open(t) + EncodeAllTo(t.kids, Close(t) + z))
            == Ok(DropSpaces(z), t.(key := ""), true)
    decreases t, 0
  {
    var isObj := t.typ == ObjectType;
    var open := Open(t)[0];
    var tail := EncodeAllTo(t.kids, Close(t) + z);
    assert Open(t) + tail == [open, ' '] + tail;
    assert Close(t) + z == [' ', Closing(isObj)] + z;
    ItemsReadBack(isObj, open, t.kids, z);
  }

  lemma {:induction false} ItemsReadBack(isObj: bool, before: char, ts: seq<Json>, z: string)
    requires AllWellFormed(ts) && AllKeysRight(isObj, ts)
    ensures Items(isObj, [before, ' '] + EncodeAllTo(ts, [' ', Closing(isObj)] + z))
            == Ok(DropSpaces(z), ts, true)
    decreases ts
  {
    var close := [' ', Closing(isObj)] + z;
    if ts == [] {
      NoItems(isObj, before, z);
    } else {
      var t, more := ts[0], EncodeAllTo(ts[1..], close);
      assert [t] + ts[1..] == ts;
      if |ts| == 1 {
        ItemReadBack(isObj, t, close);
        ItemStarts(isObj, t, close);
        SettleOnClosing(isObj, z);
        assert ts == [t] && more == close && "" + close == close;
        LastItem(isObj, before, t, EncodeTo(t, close), z);
      } else {
        var after := [',', ' '] + more;
        ItemReadBack(isObj, t, after);
        ItemStarts(isObj, t, after);
        ItemsReadBack(isObj, ',', ts[1..], z);
        assert after == ", " + more;
        NextItem(isObj, before, t, EncodeTo(t, after), after);
      }
    }
  }

  lemma NextItem(isObj: bool, before: char, t: Json, r1: string, after: string)
    requires r1 != "" && !IsSpace(r1[0]) && r1[0] != Closing(isObj)
    requires after != "" && after[0] == ',' && Reads(Item(isObj, r1), t, after)
    requires Items(isObj, after).Ok? && Items(isObj, after).fits
    ensures Items(isObj, [before, ' '] + r1)
            == Ok(Items(isObj, after).rest, [t] + Items(isObj, after).v, true)
  {
    SkipBlank(before, r1);
    assert Settle(Item(isObj, r1).rest) == after;
  }

  lemma LastItem(isObj: bool, before: char, t: Json, r1: string, z: string)
    requires r1 != "" && !IsSpace(r1[0]) && r1[0] != Closing(isObj)
    requires Reads(Item(isObj, r1), t, [' ', Closing(isObj)] + z)
    ensures Items(isObj, [before, ' '] + r1) == Ok(DropSpaces(z), [t], true)
  {
    SkipBlank(before, r1);
    SettleOnClosing(isObj, z);
    assert Settle(Item(isObj, r1).rest) == [Closing(isObj)] + z;
  }

  lemma NoItems(isObj: bool, before: char, z: string)
    ensures Items(isObj, [before, ' '] + ([' ', Closing(isObj)] + z)) == Ok(DropSpaces(z), [], true)
  {
    var close := [Closing(isObj)] + z;
    var r := [before, ' '] + ([' ', Closing(isObj)] + z);
    assert r[1..] == [' ', ' '] + close && r[1..][1..] == [' '] + close && r[1..][1..][1..] == close;
    assert DropSpaces([' '] + close) == close;
    assert close[1..] == z;
  }

  lemma SettleOnClosing(isObj: bool, z: string)
    ensures var close := [' ', Closing(isObj)] + z;
            && DropSpaces(close) == SkipRest(close) == [Closing(isObj)] + z
            && SkipRest([Closing(isObj)] + z) == DropSpaces(z)
  {
    var close := [' ', Closing(isObj)] + z;
    assert close[1..] == [Closing(isObj)] + z;
    assert ([Closing(isObj)] + z)[1..] == z;
  }

  /** An item, be it a member or an element, is read back. */
  lemma ItemReadBack(isObj: bool, t: Json, z: string)
    requires WellFormed(t) && KeysRight(t) && (t.key != "") == isObj && AfterItem(z)
    ensures Reads(Item(isObj, EncodeTo(t, z)), t, z)
    decreases t, 2
  {
    var r1 := Open(t) + EncodeAllTo(t.kids, Close(t) + z);
    OpenStarts(t, EncodeAllTo(t.kids, Close(t) + z));
    ValueReadBack(t, z);
    ItemAfterKey(t, z);
    if isObj {
      PairReadBack(t, r1, z);
    } else {
      assert t.(key := "") == t;
      assert KeyPart(t.key) + r1 == r1;
    }
  }

  lemma ItemAfterKey(t: Json, z: string)
    ensures EncodeTo(t, z) == KeyPart(t.key) + (Open(t) + EncodeAllTo(t.kids, Close(t) + z))
  {
    Associative(KeyPart(t.key), Open(t), EncodeAllTo(t.kids, Close(t) + z));
  }

  lemma Associative(a: string, b: string, c: string)
    ensures a + b + c == a + (b + c)
  {
  }

  lemma ItemStarts(isObj: bool, t: Json, z: string)
    requires WellFormed(t)
    ensures EncodeTo(t, z) != "" && !IsSpace(EncodeTo(t, z)[0]) && EncodeTo(t, z)[0] != Closing(isObj)
  {
    OpenStarts(t, EncodeAllTo(t.kids, Close(t) + z));
  }

  lemma PairReadBack(t: Json, r1: string, z: string)
    requires WellFormed(t) && t.key != "" && StartsValue(r1)
    requires Reads(Value(r1), t.(key := ""), z)
    ensures Reads(Pair(KeyPart(t.key) + r1), t, z)
  {
    hide Value, IsStringBody, Str;
    var r := KeyPart(t.key) + r1;
    var colon := [':', ' '] + r1;
    StrReadBack(t.key, colon);
    assert r == "\"" + t.key + "\"" + colon;
    SkipBlank(':', r1);
  }

  // ---------- What the parser returns ----------

  lemma {:induction false} DigitsSound(r: string) returns (d: string)
    ensures AllDigits(d) && r == d + DropDigits(r)
    decreases |r|
  {
    d := "";
    if r != "" && IsDigit(r[0]) {
      var d1 := DigitsSound(r[1..]);
      d := [r[0]] + d1;
      assert r == [r[0]] + r[1..];
    }
  }

  lemma IntSound(r: string) returns (a: string)
    requires IntEnd(r).Some?
    ensures IsInt(a) && r == a + IntEnd(r).value
  {
    if Peek(r) == '-' {
      var u := UnsignedSound(r[1..]);
      a := "-" + u;
      assert a[1..] == u;
      assert r == [r[0]] + r[1..];
    } else {
      a := UnsignedSound(r);
    }
  }

  lemma UnsignedSound(d: string) returns (u: string)
    requires IsDigit(Peek(d))
    ensures IsInt(u) && u[0] != '-' && d == u + (if d[0] == '0' then d[1..] else DropDigits(d[1..]))
  {
    assert d == [d[0]] + d[1..];
    if d[0] == '0' {
      u := "0";
    } else {
      var more := DigitsSound(d[1..]);
      u := [d[0]] + more;
    }
  }

  lemma FracSound(r: string) returns (b: string)
    requires Peek(r) == '.' && FracEnd(r).Some?
    ensures IsFrac(b) && r == b + FracEnd(r).value
  {
    var d := DigitsSound(r[1..]);
    b := "." + d;
    assert b[1..] == d;
    assert r == [r[0]] + r[1..];
  }

  lemma ExpSound(r: string) returns (c: string)
    requires Peek(r) in {'e', 'E'} && ExpEnd(r).Some?
    ensures IsExp(c) && r == c + ExpEnd(r).value
  {
    var k := if Peek(r[1..]) in {'+', '-'} then 2 else 1;
    var d := DigitsSound(r[k..]);
    assert d != "" && d[0] == r[k];
    c := r[..k] + d;
    PrefixAnd(r, k, d, DropDigits(r[k..]));
  }

  lemma PrefixAnd(r: string, k: nat, d: string, z: string)
    requires k <= |r| && r[k..] == d + z
    ensures (r[..k] + d)[k..] == d && r == r[..k] + d + z
    ensures forall i :: 0 <= i < k ==> (r[..k] + d)[i] == r[i]
  {
    assert r == r[..k] + r[k..];
  }

  lemma NumberEndSound(r: string) returns (v: string)
    requires NumberEnd(r).Some?
    ensures IsNumber(v) && r == v + NumberEnd(r).value
  {
    var r1 := IntEnd(r).value;
    var a := IntSound(r);
    var b, c := "", "";
    var r2 := r1;
    if Peek(r1) == '.' {
      b := FracSound(r1);
      r2 := FracEnd(r1).value;
    }
    assert r1 == b + r2;
    if Peek(r2) in {'e', 'E'} {
      c := ExpSound(r2);
    }
    assert r2 == c + NumberEnd(r).value;
    v := a + b + c;
    Regroup(a, b, c, NumberEnd(r).value);
    NumberJoins(a, b, c);
  }

  lemma NumberJoins(a: string, b: string, c: string)
    requires IsInt(a) && (b == "" || IsFrac(b)) && (c == "" || IsExp(c))
    ensures IsNumber(a + b + c)
  {
    var v, i, j := a + b + c, |a|, |a| + |b|;
    assert v[..i] == a && v[i..j] == b && v[j..] == c;
    assert IsNumberSplit(v, i, j);
  }

  lemma NumberSound(r: string)
    requires Number(r).Ok?
    ensures Number(r).rest != "" ==> IsNumber(Number(r).v) && r == Number(r).v + Number(r).rest
    ensures Number(r).rest == "" ==> IsNumber(r) && Number(r).v == r[..|r| - 1]
    ensures Number(r).rest != "" && Number(r).fits ==> |Number(r).v| + 1 < TOKEN_SZ
  {
    var v := NumberEndSound(r);
    if Number(r).rest != "" {
      MatchedToken(v, Number(r).rest);
    } else {
      assert v + "" == v && r[..|r|] == r;
    }
  }

  // ---------- Counting name separators ----------

  /** The colons of a text that stand outside its string literals. */
  function Colons(r: string): nat
    decreases |r|
  {
    if r == "" then 0
    else if r[0] == '"' then
      match BodyEnd(r[1..])
      case None => 0
      case Some(q) => Colons(q[1..])
    else (if r[0] == ':' then 1 else 0) + Colons(r[1..])
  }

  /** How many members the objects of a tree have, named or not. */
  function Members(t: Json): nat
    decreases t
  {
    AllMembers(t.typ == ObjectType, t.kids)
  }

  function AllMembers(inObj: bool, ts: seq<Json>): nat
    decreases ts
  {
    if ts == [] then 0 else (if inObj then 1 else 0) + Members(ts[0]) + AllMembers(inObj, ts[1..])
  }

  /** How many nodes of a tree are named. */
  function Named(t: Json): nat
    decreases t
  {
    (if t.key != "" then 1 else 0) + AllNamed(t.kids)
  }

  function AllNamed(ts: seq<Json>): nat
    decreases ts
  {
    if ts == [] then 0 else Named(ts[0]) + AllNamed(ts[1..])
  }

  /** Elements of arrays are not named. */
  ghost predicate ElementsBare(t: Json)
    decreases t
  {
    AllElementsBare(t.typ == ObjectType, t.kids)
  }

  ghost predicate AllElementsBare(inObj: bool, ts: seq<Json>)
    decreases ts
  {
    ts == [] || ((inObj || ts[0].key == "") && ElementsBare(ts[0]) && AllElementsBare(inObj, ts[1..]))
  }

  /** With bare elements, every member is named exactly when there are as many names as members. */
  lemma {:induction false} NamesCountMembers(inObj: bool, ts: seq<Json>)
    requires AllElementsBare(inObj, ts)
    ensures AllNamed(ts) <= AllMembers(inObj, ts)
    ensures AllNamed(ts) == AllMembers(inObj, ts) <==> AllKeysRight(inObj, ts)
    decreases ts
  {
    if ts != [] {
      NamesCountMembers(ts[0].typ == ObjectType, ts[0].kids);
      NamesCountMembers(inObj, ts[1..]);
    }
  }

  lemma {:induction false} SpacesHaveNoColons(r: string)
    ensures Colons(DropSpaces(r)) == Colons(r)
    decreases |r|
  {
    if r != "" && IsSpace(r[0]) {
      SpacesHaveNoColons(r[1..]);
    }
  }

  lemma SkipColons(r: string)
    requires r != "" && r[0] != '"'
    ensures Colons(r) == (if r[0] == ':' then 1 else 0) + Colons(SkipRest(r))
  {
    SpacesHaveNoColons(r[1..]);
  }

  lemma SettleColons(r: string)
    ensures Colons(Settle(r)) == Colons(r)
  {
    if IsSpace(Peek(r)) {
      SkipColons(r);
    }
  }

  predicate Plain(v: string) { forall i :: 0 <= i < |v| ==> v[i] != '"' && v[i] != ':' }

  lemma {:induction false} PlainHasNoColons(v: string, z: string)
    requires Plain(v)
    ensures Colons(v + z) == Colons(z)
  {
    if v == "" {
      assert v + z == z;
    } else {
      PlainHasNoColons(v[1..], z);
      assert (v + z)[1..] == v[1..] + z;
    }
  }

  lemma NumberIsPlain(v: string)
    requires IsNumber(v)
    ensures Plain(v)
  {
    var a, b, c := NumberParts(v);
    IntIsPlain(a);
    FracIsPlain(b);
    ExpIsPlain(c);
    PlainJoins(a, b);
    PlainJoins(a + b, c);
  }

  lemma PlainJoins(a: string, b: string)
    requires Plain(a) && Plain(b)
    ensures Plain(a + b)
  {
  }

  lemma FracIsPlain(b: string)
    requires b == "" || IsFrac(b)
    ensures Plain(b)
  {
    assert forall i :: 1 <= i < |b| ==> b[i] == b[1..][i - 1];
  }

  lemma IntIsPlain(a: string)
    requires IsInt(a)
    ensures Plain(a)
  {
    var d := if a != "" && a[0] == '-' then a[1..] else a;
    assert forall i :: 0 <= i < |d| ==> d[i] == a[i + |a| - |d|];
    assert forall i :: 0 <= i < |a| ==> i < |a| - |d| || a[i] == d[i - (|a| - |d|)];
  }

  lemma ExpIsPlain(c: string)
    requires c == "" || IsExp(c)
    ensures Plain(c)
  {
    if c != "" {
      var k := if c[1] in {'+', '-'} then 2 else 1;
      assert forall i :: k <= i < |c| ==> c[i] == c[k..][i - k];
    }
  }

  lemma LiteralColons(b: string, z: string)
    requires IsStringBody(b)
    ensures Colons("\"" + b + "\"" + z) == Colons(z)
  {
    var r := "\"" + b + "\"" + z;
    assert r[1..] == b + "\"" + z;
    BodyReadBack(b, z);
    assert ("\"" + z)[1..] == z;
  }

  // ---------- Soundness of the parser ----------

  /** A value read: bare at the root, elements bare, one colon per member, and well formed when its
      tokens fit. */
  ghost predicate SoundValue(r: string, m: Match<Json>) {
    m.Ok? ==>
      && m.v.key == "" && ElementsBare(m.v)
      && Colons(r) == Members(m.v) + Colons(m.rest)
      && (m.fits && m.rest != "" ==> WellFormed(m.v))
  }

  ghost predicate SoundItem(isObj: bool, r: string, m: Match<Json>) {
    m.Ok? ==>
      && (isObj || m.v.key == "") && ElementsBare(m.v)
      && Colons(r) == (if isObj then 1 else 0) + Members(m.v) + Colons(m.rest)
      && (m.fits && m.rest != "" ==> WellFormed(m.v))
  }

  ghost predicate SoundItems(isObj: bool, r: string, m: Match<seq<Json>>) {
    m.Ok? ==>
      && AllElementsBare(isObj, m.v)
      && Colons(r) == AllMembers(isObj, m.v) + Colons(m.rest)
      && (m.fits ==> AllWellFormed(m.v))
  }

  lemma {:induction false} WordSound(r: string, w: string)
    requires w != "" && Plain(w) && Word(r, w).Some?
    ensures Colons(r) == Colons(Word(r, w).value)
    decreases |w|
  {
    SkipColons(r);
    if |w| > 1 {
      WordSound(SkipRest(r), w[1..]);
    }
  }

  lemma NumberValueSound(r: string)
    requires Number(r).Ok? && (Peek(r) == '-' || IsDigit(Peek(r)))
    ensures SoundValue(r, Value(r))
  {
    var v := NumberEndSound(r);
    NumberIsPlain(v);
    PlainHasNoColons(v, Number(r).rest);
    if Number(r).rest != "" {
      NumberSound(r);
    }
  }

  lemma ScalarSound(r: string)
    requires Value(r).Ok? && Peek(r) !in {'{', '['}
    ensures SoundValue(r, Value(r))
  {
    var c := Peek(r);
    if c == '"' {
      StrReadsALiteral(r);
      LiteralColons(Str(r).v, Str(r).rest);
    } else if c == '-' || IsDigit(c) {
      NumberValueSound(r);
    } else {
      WordSound(r, if c == 't' then "true" else if c == 'f' then "false" else "null");
    }
  }

  lemma {:induction false} ValueSound(r: string)
    ensures SoundValue(r, Value(r))
    decreases |r|, 2
  {
    if Value(r).Ok? {
      if Peek(r) in {'{', '['} {
        ContainerSound(Peek(r) == '{', r);
      } else {
        ScalarSound(r);
      }
    }
  }

  lemma ContainerSound(isObj: bool, r: string)
    ensures var m := Container(isObj, r);
            SoundValue(r, m) && (m.Ok? && m.fits ==> WellFormed(m.v))
    decreases |r|, 1
  {
    if Peek(r) == Opening(isObj) {
      ItemsSound(isObj, r);
    }
  }

  lemma {:induction false} ItemsSound(isObj: bool, r: string)
    requires r != "" && r[0] != '"' && r[0] != ':'
    ensures SoundItems(isObj, r, Items(isObj, r))
    decreases |r|, 0
  {
    if Items(isObj, r).Ok? {
      var r1 := SkipRest(r);
      SkipColons(r);
      if Peek(r1) == Closing(isObj) {
        SkipColons(r1);
      } else {
        ItemSound(isObj, r1);
        var Ok(r2, v, f) := Item(isObj, r1);
        var r3 := Settle(r2);
        SettleColons(r2);
        if Peek(r3) == ',' {
          ItemsSound(isObj, r3);
          var vs := Items(isObj, r3).v;
          assert ([v] + vs)[1..] == vs;
        } else {
          SkipColons(r3);
          assert [v][1..] == [];
        }
      }
    }
  }

  lemma ItemSound(isObj: bool, r: string)
    ensures SoundItem(isObj, r, Item(isObj, r))
    decreases |r|, 3
  {
    if isObj {
      if Pair(r).Ok? {
        StrReadsALiteral(r);
        var Ok(r2, key, _) := Str(r);
        LiteralColons(key, r2);
        SettleColons(r2);
        SkipColons(Settle(r2));
        ValueSound(SkipRest(Settle(r2)));
        var v := Value(SkipRest(Settle(r2))).v;
        assert v.(key := key).kids == v.kids;
      }
    } else {
      ValueSound(r);
    }
  }

  // ---------- The names an encoding carries ----------

  lemma {:induction false} EncodingColons(t: Json, z: string)
    requires WellFormed(t)
    ensures Colons(EncodeTo(t, z)) == Named(t) + Colons(z)
    decreases t
  {
    var tail := EncodeAllTo(t.kids, Close(t) + z);
    ItemAfterKey(t, z);
    KeyColons(t.key, Open(t) + tail);
    OpenColons(t, tail);
    PlainHasNoColons(Close(t), z);
    if IsContainer(t) {
      AllEncodingsColons(t.kids, Close(t) + z);
    }
  }

  lemma {:induction false} AllEncodingsColons(ts: seq<Json>, z: string)
    requires AllWellFormed(ts)
    ensures Colons(EncodeAllTo(ts, z)) == AllNamed(ts) + Colons(z)
    decreases ts
  {
    if ts != [] {
      var comma := if |ts| > 1 then ", " else "";
      AllEncodingsColons(ts[1..], z);
      PlainHasNoColons(comma, EncodeAllTo(ts[1..], z));
      EncodingColons(ts[0], comma + EncodeAllTo(ts[1..], z));
    }
  }

  lemma KeyColons(key: string, z: string)
    requires IsStringBody(key)
    ensures Colons(KeyPart(key) + z) == (if key != "" then 1 else 0) + Colons(z)
  {
    if key != "" {
      var colon := [':', ' '] + z;
      assert KeyPart(key) + z == "\"" + key + "\"" + colon;
      LiteralColons(key, colon);
      assert colon[1..] == " " + z;
      PlainHasNoColons(" ", z);
    } else {
      assert KeyPart(key) + z == z;
    }
  }

  lemma OpenColons(t: Json, z: string)
    requires WellFormed(t)
    ensures Colons(Open(t) + z) == Colons(z)
  {
    if t.typ == StringType {
      LiteralColons(t.val, z);
    } else {
      if t.typ == NumberType {
        NumberIsPlain(t.val);
      }
      PlainHasNoColons(Open(t), z);
    }
  }

  // ---------- The main results ----------

  lemma TextOfContainer(t: Json)
    requires WellFormed(t) && IsContainer(t) && t.key == ""
    ensures Text(Encode(t)) == Container(t.typ == ObjectType, EncodeTo(t, ""))
    ensures EncodeTo(t, "") == Encode(t) == Open(t) + EncodeAllTo(t.kids, Close(t) + "")
  {
    EncodeToIs(t, "");
    assert Encode(t) + "" == Encode(t);
    ItemAfterKey(t, "");
    assert "" + (Open(t) + EncodeAllTo(t.kids, Close(t) + "")) == Open(t) + EncodeAllTo(t.kids, Close(t) + "");
  }

  /** Reading back what was written gives the very tree, whatever its depth, and every token met fits
      its buffer. */
  lemma ReadBack(t: Json)
    requires WellFormed(t) && IsContainer(t) && t.key == "" && KeysRight(t)
    ensures Text(Encode(t)) == Ok("", t, true)
  {
    TextOfContainer(t);
    ContainerReadBack(t, "");
    assert t.(key := "") == t;
  }

  /** The node that a path of child numbers leads to is there. */
  predicate HasNode(t: Json, path: seq<nat>)
    decreases |path|
  {
    path == [] || (path[0] < |t.kids| && HasNode(t.kids[path[0]], path[1..]))
  }

  /** The height of a tree is the length of the longest path to a node of it. */
  lemma {:induction false} HeightIsReached(t: Json) returns (path: seq<nat>)
    ensures HasNode(t, path) && |path| == Height(t)
    ensures forall p :: HasNode(t, p) ==> |p| <= Height(t)
    decreases t, 1
  {
    path := [];
    if t.kids != [] {
      var i, rest := HighestKid(t.kids);
      path := [i] + rest;
    }
    forall p | HasNode(t, p) && p != [] ensures |p| <= Height(t) {
      var i, rest := HighestKid(t.kids);
      assert HasNode(t.kids[p[0]], p[1..]);
    }
  }

  lemma {:induction false} HighestKid(ts: seq<Json>) returns (i: nat, path: seq<nat>)
    requires ts != []
    ensures i < |ts| && HasNode(ts[i], path) && Heights(ts) == 1 + |path|
    ensures forall k, p :: 0 <= k < |ts| && HasNode(ts[k], p) ==> 1 + |p| <= Heights(ts)
    decreases ts, 0
  {
    path := HeightIsReached(ts[0]);
    i := 0;
    if |ts| > 1 {
      var j, q := HighestKid(ts[1..]);
      if |q| > |path| {
        i, path := j + 1, q;
      }
      forall k, p | 0 < k < |ts| && HasNode(ts[k], p) ensures 1 + |p| <= Heights(ts) {
        assert HasNode(ts[1..][k - 1], p);
      }
    }
  }

  /** Decoding undoes encoding exactly when the tree is an unnamed container, its members are named,
      its elements are not, and no node lies too deep. */
  lemma RoundTrip(t: Json)
    requires WellFormed(t)
    ensures Decode(Encode(t)) == Some(t) <==>
            IsContainer(t) && t.key == "" && KeysRight(t) && Height(t) < 16
  {
    if IsContainer(t) && t.key == "" && KeysRight(t) {
      ReadBack(t);
    } else if Decode(Encode(t)) == Some(t) {
      var r := DropSpaces(Encode(t));
      ContainerSound(Peek(r) == '{', r);
      TextOfContainer(t);
      EncodingColons(t, "");
      NamesCountMembers(t.typ == ObjectType, t.kids);
      assert false;
    }
  }

  /** No two trees that can be written are written alike. */
  lemma EncodeIsInjective(t: Json, u: Json)
    requires WellFormed(t) && IsContainer(t) && t.key == "" && KeysRight(t)
    requires WellFormed(u) && IsContainer(u) && u.key == "" && KeysRight(u)
    requires Encode(t) == Encode(u)
    ensures t == u
  {
    ReadBack(t);
    ReadBack(u);
  }

  /** Any text that decodes, its tokens fitting, decodes to a well-formed tree; when that tree has no
      member with an empty name, encoding it gives a text that decodes to the same tree. */
  lemma Normalizes(s: string)
    requires Decode(s).Some? && Text(s).fits
    ensures var t := Decode(s).value;
            && WellFormed(t) && IsContainer(t) && t.key == "" && ElementsBare(t)
            && (KeysRight(t) <==> Decode(Encode(t)) == Some(t))
  {
    var r := DropSpaces(s);
    ContainerSound(Peek(r) == '{', r);
    RoundTrip(Decode(s).value);
  }

  /** An empty member name is accepted on the way in and lost on the way out. */
  lemma EmptyNameIsLost()
    ensures var t := Json(ObjectType, "", "", [Json(NullType, "", "", [])]);
            && Decode("{\"\":null}") == Some(t) && Text("{\"\":null}").fits
            && WellFormed(t) && Encode(t) == "{ null }" && Decode(Encode(t)) != Some(t)
  {
    EmptyNameIsRead();
    EmptyNameIsNotWritten();
    hide Text, Encode, WellFormed;
    var k := Json(NullType, "", "", []);
    assert [k][1..] == [] && Height(k) == 0 && Heights([k]) == 1;
  }

  lemma EmptyNameIsNotWritten()
    ensures var t := Json(ObjectType, "", "", [Json(NullType, "", "", [])]);
            WellFormed(t) && Encode(t) == "{ null }" && Decode(Encode(t)) != Some(t)
  {
    hide Text, WellFormed, Encode, KeysRight;
    NullMember();
    RoundTrip(Json(ObjectType, "", "", [Json(NullType, "", "", [])]));
  }

  lemma NullMember()
    ensures var t := Json(ObjectType, "", "", [Json(NullType, "", "", [])]);
            WellFormed(t) && Encode(t) == "{ null }" && !KeysRight(t)
  {
    var k := Json(NullType, "", "", []);
    assert WellFormed(k) && AllWellFormed([k]);
    assert Encode(k) == "null" && EncodeAll([k]) == "null";
    assert !AllKeysRight(true, [k]);
  }

  lemma EmptyNameIsRead()
    ensures Text("{\"\":null}") == Ok("", Json(ObjectType, "", "", [Json(NullType, "", "", [])]), true)
  {
    hide Value, Pair, Word, Str;
    var s, r, v := "{\"\":null}", "\"\":null}", "null}";
    NullIsRead();
    NoNameIsRead();
    assert s[1..] == r && "}"[1..] == "";
    assert SkipRest("}") == "" && SkipRest(s) == r && Settle("}") == "}";
    assert Items(true, s) == Ok("", [Leaf(NullType, "")], true);
  }

  lemma NoNameIsRead()
    requires Value("null}") == Ok("}", Leaf(NullType, ""), true)
    ensures Pair("\"\":null}") == Ok("}", Leaf(NullType, ""), true)
  {
    hide Value, BodyEnd;
    var r, q := "\"\":null}", "\":null}";
    assert r[1..] == q && q[1..] == ":null}" && ":null}"[1..] == "null}";
    EndsHere(q);
    assert r[1..1] == "";
    assert Str(r) == Ok(":null}", "", true) && SkipRest(":null}") == "null}";
  }

  lemma EndsHere(q: string)
    requires q != "" && q[0] == '"'
    ensures BodyEnd(q) == Some(q)
  {
  }

  lemma NullIsRead()
    ensures Value("null}") == Ok("}", Leaf(NullType, ""), true)
  {
    var v := "null}";
    assert v[1..] == "ull}" && "ull}"[1..] == "ll}" && "ll}"[1..] == "l}" && "l}"[1..] == "}";
    assert "null"[1..] == "ull" && "ull"[1..] == "ll" && "ll"[1..] == "l";
    assert SkipRest("l}") == "}" && SkipRest("ll}") == "l}" && SkipRest("ull}") == "ll}" && SkipRest(v) == "ull}";
    assert Word("l}", "l") == Some("}") && Word("ll}", "ll") == Some("}");
    assert Word("ull}", "ull") == Some("}") && Word(v, "null") == Some("}");
  }
}
