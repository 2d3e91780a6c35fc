/**
 JSON texts as srcs/toolbox/json.c writes and reads them: the grammar of tokens, the encoder, and
 the parser stated on the text still to be read.
 */
module JsonText {
  import opened Wrappers

  const TOKEN_SZ: nat := 128   // U_TOKEN_SZ
  const MAX_DEPTH: nat := 16   // U_JSON_MAX_DEPTH

  datatype JType =
    | UnknownType | StringType | NumberType | ObjectType | ArrayType | TrueType | FalseType | NullType

  datatype Json = Json(typ: JType, key: string, val: string, kids: seq<Json>)

  /** What a matcher finds: the text left, the thing matched, and whether every token met on the way
      fits a buffer of TOKEN_SZ bytes. */
  datatype Match<+T> = Fail | Ok(rest: string, v: T, fits: bool)

  // ---------- Characters ----------

  predicate IsSpace(c: char) { c == ' ' || '\t' <= c <= '\r' }
  predicate IsDigit(c: char) { '0' <= c <= '9' }
  predicate IsXDigit(c: char) { IsDigit(c) || 'a' <= c <= 'f' || 'A' <= c <= 'F' }
  predicate IsCntrl(c: char) { c < ' ' || c == '\U{7F}' }
  predicate IsEscape(c: char) { c in {'"', '\\', '/', 'b', 'f', 'n', 'r', 't'} }

  // ---------- The grammar of tokens (RFC 4627, sections 2.4 and 2.5) ----------

  /** DIGIT of RFC 4234, which the parser asks isdigit for */
  predicate RfcDigit(c: char) { c in {'0', '1', '2', '3', '4', '5', '6', '7', '8', '9'} }

  predicate AllDigits(d: string) { forall i :: 0 <= i < |d| ==> RfcDigit(d[i]) }

  predicate IsInt(a: string) {
    var d := if a != "" && a[0] == '-' then a[1..] else a;
    d == "0" || (d != "" && d[0] != '0' && AllDigits(d))
  }

  predicate IsFrac(b: string) { |b| >= 2 && b[0] == '.' && AllDigits(b[1..]) }

  predicate IsExp(c: string) {
    && |c| >= 2 && c[0] in {'e', 'E'}
    && var d := if c[1] in {'+', '-'} then c[2..] else c[1..];
       d != "" && AllDigits(d)
  }

  ghost predicate IsNumberSplit(v: string, i: nat, j: nat) {
    && i <= j <= |v| && IsInt(v[..i])
    && (i == j || IsFrac(v[i..j]))
    && (j == |v| || IsExp(v[j..]))
  }

  ghost predicate IsNumber(v: string) { exists i: nat, j: nat :: IsNumberSplit(v, i, j) }

  /** The inside of a string literal, escapes not decoded.  DEL is left out: the code takes it for a
      control character, which the RFC does not. */
  predicate IsStringBody(b: string) {
    if b == "" then true
    else if b[0] == '\\' then
      && |b| >= 2
      && if b[1] == 'u' then
           |b| >= 6 && IsXDigit(b[2]) && IsXDigit(b[3]) && IsXDigit(b[4]) && IsXDigit(b[5]) && IsStringBody(b[6..])
         else IsEscape(b[1]) && IsStringBody(b[2..])
    else b[0] != '"' && !IsCntrl(b[0]) && IsStringBody(b[1..])
  }

  // ---------- Reading: the cursor (srcs/toolbox/lexer.c) ----------

  /** The character under the cursor; NUL at the end of the text. */
  function Peek(r: string): char { if r == "" then '\0' else r[0] }

  function DropSpaces(r: string): (r': string)
    ensures |r'| <= |r|
  {
    if r != "" && IsSpace(r[0]) then DropSpaces(r[1..]) else r
  }

  /** u_lexer_skip: one character and the white space after it; it succeeds when some text follows the
      character. */
  predicate CanSkip(r: string) { |r| >= 2 }

  function SkipRest(r: string): (r': string)
    ensures r != "" ==> |r'| < |r|
  {
    if r == "" then "" else DropSpaces(r[1..])
  }

  /** White space under the cursor is skipped over, if there is any. */
  predicate CanSettle(r: string) { IsSpace(Peek(r)) ==> CanSkip(r) }

  function Settle(r: string): (r': string)
    ensures |r'| <= |r|
  {
    if IsSpace(Peek(r)) then SkipRest(r) else r
  }

  // ---------- Reading: tokens ----------

  function DropDigits(r: string): (r': string)
    ensures |r'| <= |r|
  {
    if r != "" && IsDigit(r[0]) then DropDigits(r[1..]) else r
  }

  function IntEnd(r: string): (e: Option<string>)
    ensures e.Some? ==> |e.value| < |r|
  {
    var d := if Peek(r) == '-' then r[1..] else r;
    if Peek(d) == '0' then Some(d[1..])
    else if IsDigit(Peek(d)) then Some(DropDigits(d[1..]))
    else None
  }

  function FracEnd(r: string): (e: Option<string>)
    ensures e.Some? ==> |e.value| < |r|
  {
    if Peek(r) != '.' then None
    else if IsDigit(Peek(r[1..])) then Some(DropDigits(r[1..])) else None
  }

  function ExpEnd(r: string): (e: Option<string>)
    ensures e.Some? ==> |e.value| < |r|
  {
    if Peek(r) !in {'e', 'E'} then None
    else
      var d := if Peek(r[1..]) in {'+', '-'} then r[2..] else r[1..];
      if IsDigit(Peek(d)) then Some(DropDigits(d)) else None
  }

  function NumberEnd(r: string): (e: Option<string>)
    ensures e.Some? ==> |e.value| < |r|
  {
    match IntEnd(r)
    case None => None
    case Some(r1) =>
      match if Peek(r1) == '.' then FracEnd(r1) else Some(r1)
      case None => None
      case Some(r2) => if Peek(r2) in {'e', 'E'} then ExpEnd(r2) else Some(r2)
  }

  /** What u_lexer_get_match extracts: from the start of the token up to and including the character
      `n` places further, unless the text ends there. */
  function Matched(r: string, n: nat): string
    requires n <= |r|
  {
    if n < |r| then r[..n + 1] else r
  }

  function TrimLast(m: string): string { if m == "" then m else m[..|m| - 1] }

  function Number(r: string): (m: Match<string>)
    ensures m.Ok? ==> |m.rest| < |r|
  {
    match NumberEnd(r)
    case None => Fail
    case Some(rest) =>
      var n := |r| - |rest|;
      Ok(rest, TrimLast(Matched(r, n)), n + 1 < TOKEN_SZ)
  }

  /** The text from the closing quote on, when `r` starts inside a string literal. */
  function BodyEnd(r: string): (e: Option<string>)
    ensures e.Some? ==> |e.value| <= |r| && Peek(e.value) == '"'
  {
    if r == "" then None
    else if r[0] == '"' then Some(r)
    else if r[0] == '\\' then
      if |r| < 2 then None
      else if r[1] == 'u' then
        if |r| >= 6 && IsXDigit(r[2]) && IsXDigit(r[3]) && IsXDigit(r[4]) && IsXDigit(r[5])
        then BodyEnd(r[6..]) else None
      else if IsEscape(r[1]) then BodyEnd(r[2..])
      else None
    else if IsCntrl(r[0]) then None
    else BodyEnd(r[1..])
  }

  function Str(r: string): (m: Match<string>)
    ensures m.Ok? ==> |m.rest| < |r|
  {
    if Peek(r) != '"' then Fail
    else
      match BodyEnd(r[1..])
      case None => Fail
      case Some(q) =>
        var n := |r| - 1 - |q|;
        Ok(q[1..], r[1..n + 1], n + 1 < TOKEN_SZ)
  }

  /** A keyword, letter by letter, white space allowed after each letter. */
  function Word(r: string, w: string): (e: Option<string>)
    requires w != ""
    ensures e.Some? ==> |e.value| < |r|
    decreases |w|
  {
    if Peek(r) != w[0] || !CanSkip(r) then None
    else if |w| == 1 then Some(SkipRest(r))
    else Word(SkipRest(r), w[1..])
  }

  // ---------- Reading: values ----------

  function Leaf(t: JType, v: string): Json { Json(t, "", v, []) }

  function Opening(isObj: bool): char { if isObj then '{' else '[' }

  function Closing(isObj: bool): char { if isObj then '}' else ']' }

  function Keyword(r: string, w: string, t: JType): (m: Match<Json>)
    requires w != ""
    ensures m.Ok? ==> |m.rest| < |r|
  {
    match Word(r, w)
    case None => Fail
    case Some(rest) => Ok(rest, Leaf(t, ""), true)
  }

  function Value(r: string): (m: Match<Json>)
    ensures m.Ok? ==> |m.rest| < |r|
    decreases |r|, 2
  {
    var c := Peek(r);
    if c == '"' then
      match Str(r)
      case Fail => Fail
      case Ok(rest, v, f) => Ok(rest, Leaf(StringType, v), f)
    else if c == '-' || IsDigit(c) then
      match Number(r)
      case Fail => Fail
      case Ok(rest, v, f) => Ok(rest, Leaf(NumberType, v), f)
    else if c == '{' then Container(true, r)
    else if c == '[' then Container(false, r)
    else if c == 't' then Keyword(r, "true", TrueType)
    else if c == 'f' then Keyword(r, "false", FalseType)
    else if c == 'n' then Keyword(r, "null", NullType)
    else Fail
  }

  function Container(isObj: bool, r: string): (m: Match<Json>)
    ensures m.Ok? ==> |m.rest| < |r|
    decreases |r|, 1
  {
    match if Peek(r) == Opening(isObj) then Items(isObj, r) else Fail
    case Fail => Fail
    case Ok(rest, kids, f) => Ok(rest, Json(ContainerType(isObj), "", "", kids), f)
  }

  function ContainerType(isObj: bool): JType { if isObj then ObjectType else ArrayType }

  /** The items that follow an opening bracket or a comma, and the closing bracket. */
  function Items(isObj: bool, r: string): (m: Match<seq<Json>>)
    requires r != ""
    ensures m.Ok? ==> |m.rest| < |r|
    decreases |r|, 0
  {
    if !CanSkip(r) then Fail
    else
      var r1 := SkipRest(r);
      if Peek(r1) == Closing(isObj) then Ok(SkipRest(r1), [], true)
      else
        match Item(isObj, r1)
        case Fail => Fail
        case Ok(r2, v, f) =>
          if !CanSettle(r2) then Fail
          else
            var r3 := Settle(r2);
            if Peek(r3) == ',' then
              match Items(isObj, r3)
              case Fail => Fail
              case Ok(rest, vs, fs) => Ok(rest, [v] + vs, f && fs)
            else if Peek(r3) == Closing(isObj) then Ok(SkipRest(r3), [v], f)
            else Fail
  }

  function Item(isObj: bool, r: string): (m: Match<Json>)
    ensures m.Ok? ==> |m.rest| < |r|
    decreases |r|, 4
  {
    if isObj then Pair(r) else Value(r)
  }

  function Pair(r: string): (m: Match<Json>)
    ensures m.Ok? ==> |m.rest| < |r|
    decreases |r|, 3
  {
    match Name(r)
    case Fail => Fail
    case Ok(r1, key, f) =>
      match Value(r1)
      case Fail => Fail
      case Ok(rest, v, fv) => Ok(rest, v.(key := key), f && fv)
  }

  /** The name of a member, up to and including the colon. */
  function Name(r: string): (m: Match<string>)
    ensures m.Ok? ==> |m.rest| < |r|
  {
    match Str(r)
    case Fail => Fail
    case Ok(r2, key, f) =>
      if !CanSettle(r2) then Fail
      else
        var r3 := Settle(r2);
        if Peek(r3) != ':' || !CanSkip(r3) then Fail else Ok(SkipRest(r3), key, f)
  }

  /** A whole text: an object or an array, after optional white space; what follows it is ignored. */
  function Text(s: string): Match<Json> {
    var r := DropSpaces(s);
    if Peek(r) == '{' then Container(true, r)
    else if Peek(r) == '[' then Container(false, r)
    else Fail
  }

  /** How far below `t` its deepest node is. */
  function Height(t: Json): nat { Heights(t.kids) }

  function Heights(ts: seq<Json>): nat {
    if ts == [] then 0 else Max(1 + Height(ts[0]), Heights(ts[1..]))
  }

  /** The tree a text decodes to: the text must match and no node may lie MAX_DEPTH or more below the
      root. */
  function Decode(s: string): Option<Json> {
    var m := Text(s);
    if m.Ok? && Height(m.v) < MAX_DEPTH then Some(m.v) else None
  }

  // ---------- Writing (u_json_do_encode) ----------

  function KeyPart(key: string): string { if key != "" then "\"" + key + "\": " else "" }

  function Head(t: Json): string { KeyPart(t.key) + Open(t) }

  function Open(t: Json): string {
    match t.typ
    case StringType => "\"" + t.val + "\""
    case NumberType => t.val
    case ObjectType => "{ "
    case ArrayType => "[ "
    case TrueType => "true"
    case FalseType => "false"
    case NullType => "null"
    case UnknownType => ""
  }

  function Close(t: Json): string {
    match t.typ
    case ArrayType => " ]"
    case ObjectType => " }"
    case _ => ""
  }

  function Encode(t: Json): string { Head(t) + EncodeAll(t.kids) + Close(t) }

  function EncodeAll(ts: seq<Json>): string {
    if ts == [] then "" else Encode(ts[0]) + (if |ts| > 1 then ", " else "") + EncodeAll(ts[1..])
  }
}
