/**
 The recursive-descent JSON parser and the encoder of srcs/toolbox/json.c, with the lexer of
 srcs/toolbox/lexer.c: a mutable cursor, nodes filled in place, and a growing output string.
 JsonText says what each of them computes.
 */
module Json {
  import opened JsonText
  import opened Wrappers

  /** A NUL-terminated text with a cursor and the bounds of the current match (u_lexer_t). */
  class Lexer {
    const s: string
    var pos: nat
    var lmatch: nat
    var rmatch: nat

    ghost predicate Valid()
      reads this
    {
      pos <= |s| && '\0' !in s
    }

    ghost function Rest(): string
      requires pos <= |s|
      reads this
    {
      s[pos..]
    }

    constructor (s: string)
      requires '\0' !in s
      ensures Valid() && this.s == s && pos == 0
    {
      this.s := s;
      pos, lmatch, rmatch := 0, 0, 0;
    }

    /** u_lexer_peek */
    function PeekChar(): (c: char)
      requires Valid()
      reads this
      ensures c == Peek(Rest())
      ensures c == '\0' <==> Rest() == ""
    {
      if pos < |s| then s[pos] else '\0'
    }

    /** u_lexer_eat_ws */
    method EatWs() returns (ok: bool)
      requires Valid()
      modifies this`pos
      ensures Valid() && Rest() == DropSpaces(old(Rest()))
      ensures ok <==> old(Rest()) != ""
    {
      if pos >= |s| {
        return false;
      }
      while IsSpace(PeekChar())
        invariant Valid() && DropSpaces(Rest()) == DropSpaces(old(Rest()))
        decreases |s| - pos
      {
        pos := pos + 1;
      }
      ok := true;
    }

    /** u_lexer_next */
    method Next() returns (ok: bool, c: char)
      requires Valid()
      modifies this`pos
      ensures Valid()
      ensures ok <==> old(Rest()) != ""
      ensures ok ==> Rest() == old(Rest())[1..] && c == Peek(Rest())
    {
      c := '\0';
      if pos >= |s| {
        return false, c;
      }
      pos := pos + 1;
      ok, c := true, PeekChar();
    }

    /** u_lexer_skip */
    method Skip() returns (ok: bool, c: char)
      requires Valid()
      modifies this`pos
      ensures Valid() && Rest() == SkipRest(old(Rest()))
      ensures ok <==> CanSkip(old(Rest()))
      ensures ok ==> c == Peek(Rest())
    {
      c := '\0';
      if pos >= |s| {
        return false, c;
      }
      pos := pos + 1;
      assert Rest() == old(Rest())[1..];
      ok := EatWs();
      if ok {
        c := PeekChar();
      }
    }

    /** u_lexer_get_match: the buffer is left as it was, that is arbitrary, when the match is too long */
    method GetMatch() returns (m: string)
      requires Valid()
      ensures lmatch <= rmatch <= |s| && rmatch - lmatch + 1 < TOKEN_SZ ==>
                m == Matched(s[lmatch..], rmatch - lmatch)
    {
      if rmatch < lmatch || rmatch - lmatch + 1 >= TOKEN_SZ || rmatch > |s| {
        m := *;
        return;
      }
      m := s[lmatch..if rmatch < |s| then rmatch + 1 else |s|];
    }
  }

  /** u_json_t, without the index machinery */
  class Node {
    var typ: JType
    var key: string
    var val: string
    var kids: seq<Node>
    var parent: Node?
    var count: nat
    var depth: nat

    /** u_json_new */
    constructor ()
      ensures typ == UnknownType && key == "" && val == "" && kids == [] && count == 0 && depth == 0
    {
      typ, key, val, kids, parent, count, depth := UnknownType, "", "", [], null, 0, 0;
    }

    /** u_json_set_depth */
    method SetDepth(d: nat) returns (ok: bool)
      modifies this`depth
      ensures depth == d && (ok <==> d < MAX_DEPTH)
    {
      depth := d;
      ok := d < MAX_DEPTH;
    }

    /** u_json_set_key: a key that does not fit is truncated */
    method SetKey(k: string) returns (ok: bool)
      modifies this`key
      ensures ok <==> |k| < TOKEN_SZ
      ensures key == if ok then k else k[..TOKEN_SZ - 1]
    {
      key := if |k| < TOKEN_SZ then k else k[..TOKEN_SZ - 1];
      ok := |k| < TOKEN_SZ;
    }

    /** u_json_set_val: only strings and numbers take a value */
    method SetVal(v: string) returns (ok: bool)
      modifies this`val
      ensures typ in {StringType, NumberType} ==>
        (ok <==> |v| < TOKEN_SZ) && val == if ok then v else v[..TOKEN_SZ - 1]
      ensures typ !in {StringType, NumberType} ==> ok && val == old(val)
    {
      if typ == StringType || typ == NumberType {
        val := if |v| < TOKEN_SZ then v else v[..TOKEN_SZ - 1];
        return |v| < TOKEN_SZ;
      }
      ok := true;
    }

    /** u_json_add */
    method Add(jo: Node) returns (ok: bool)
      requires jo != this
      modifies this`kids, this`count, jo`parent
      ensures ok <==> typ == ObjectType || typ == ArrayType
      ensures ok ==> kids == old(kids) + [jo] && jo.parent == this
      ensures ok ==> count == if typ == ArrayType then old(count) + 1 else old(count)
    {
      if typ != ObjectType && typ != ArrayType {
        return false;
      }
      kids := kids + [jo];
      jo.parent := this;
      if typ == ArrayType {
        count := count + 1;
      }
      ok := true;
    }
  }

  // ---------- Which tree the nodes hold ----------

  datatype Plan = Plan(node: Node, kids: seq<Plan>)

  ghost function Nodes(p: Plan): set<Node>
    decreases p
  {
    {p.node} + AllNodes(p.kids)
  }

  ghost function AllNodes(ps: seq<Plan>): set<Node>
    decreases ps
  {
    if ps == [] then {} else AllNodes(ps[..|ps| - 1]) + Nodes(ps[|ps| - 1])
  }

  /** The nodes planned by `p` hold the tree `t`; an array counts its elements. */
  ghost predicate Holds(p: Plan, t: JsonText.Json)
    reads Nodes(p)
    decreases p
  {
    && p.node.typ == t.typ && p.node.key == t.key && p.node.val == t.val
    && p.node.count == (if t.typ == ArrayType then |t.kids| else 0)
    && AllHold(p.node.kids, p.kids, t.kids)
  }

  ghost predicate AllHold(ns: seq<Node>, ps: seq<Plan>, ts: seq<JsonText.Json>)
    reads AllNodes(ps)
    decreases ps
  {
    && |ns| == |ps| == |ts|
    && (ps == [] ||
        var n := |ps| - 1;
        ns[n] == ps[n].node && Holds(ps[n], ts[n]) && AllHold(ns[..n], ps[..n], ts[..n]))
  }

  lemma AllHoldAppend(ns: seq<Node>, ps: seq<Plan>, ts: seq<JsonText.Json>, p: Plan, t: JsonText.Json)
    requires AllHold(ns, ps, ts) && Holds(p, t)
    ensures AllHold(ns + [p.node], ps + [p], ts + [t])
    ensures AllNodes(ps + [p]) == AllNodes(ps) + Nodes(p)
  {
    assert (ns + [p.node])[..|ns|] == ns && (ps + [p])[..|ps|] == ps && (ts + [t])[..|ts|] == ts;
  }

  lemma {:induction false} AllHoldAt(ns: seq<Node>, ps: seq<Plan>, ts: seq<JsonText.Json>, i: nat)
    requires AllHold(ns, ps, ts) && i < |ps|
    ensures ns[i] == ps[i].node && Holds(ps[i], ts[i])
    decreases |ps|
  {
    var n := |ps| - 1;
    if i < n {
      AllHoldAt(ns[..n], ps[..n], ts[..n], i);
    }
  }

  // ---------- Matching tokens ----------

  /** The cursor stands where the matcher of the specification says. */
  ghost predicate At(jl: Lexer, ok: bool, e: Option<string>)
    requires jl.pos <= |jl.s|
    reads jl
  {
    (ok <==> e.Some?) && (ok ==> jl.Rest() == e.value)
  }

  /** A loop of U_LEXER_NEXT over digits, `c` being the character under the cursor. */
  method SkipDigits(jl: Lexer)
    requires jl.Valid()
    modifies jl`pos
    ensures jl.Valid() && jl.Rest() == DropDigits(old(jl.Rest()))
  {
    var c := jl.PeekChar();
    while IsDigit(c)
      invariant jl.Valid() && c == Peek(jl.Rest())
      invariant DropDigits(jl.Rest()) == DropDigits(old(jl.Rest()))
      decreases |jl.Rest()|
    {
      var ok;
      ok, c := jl.Next();
    }
  }

  /** u_json_match_int */
  method MatchInt(jl: Lexer) returns (ok: bool)
    requires jl.Valid()
    modifies jl`pos
    ensures jl.Valid() && At(jl, ok, IntEnd(old(jl.Rest())))
  {
    var c := jl.PeekChar();
    if c == '-' {
      ok, c := jl.Next();
      if !ok { return; }
    }
    if c == '0' {
      ok, c := jl.Next();
      return;
    }
    if !IsDigit(c) {
      return false;
    }
    ok, c := jl.Next();
    SkipDigits(jl);
  }

  /** u_json_match_frac */
  method MatchFrac(jl: Lexer) returns (ok: bool)
    requires jl.Valid()
    modifies jl`pos
    ensures jl.Valid() && At(jl, ok, FracEnd(old(jl.Rest())))
  {
    var c := jl.PeekChar();
    if c != '.' {
      return false;
    }
    ok, c := jl.Next();
    if !ok || !IsDigit(c) {
      return false;
    }
    SkipDigits(jl);
  }

  /** u_json_match_exp */
  method MatchExp(jl: Lexer) returns (ok: bool)
    requires jl.Valid()
    modifies jl`pos
    ensures jl.Valid() && At(jl, ok, ExpEnd(old(jl.Rest())))
  {
    var c := jl.PeekChar();
    if c != 'e' && c != 'E' {
      return false;
    }
    ok, c := jl.Next();
    if ok && (c == '+' || c == '-') {
      ok, c := jl.Next();
    }
    if !ok || !IsDigit(c) {
      return false;
    }
    SkipDigits(jl);
  }

  /** The first part of u_json_match_number: INT [FRAC] [EXP] */
  method MatchNumberParts(jl: Lexer) returns (ok: bool)
    requires jl.Valid()
    modifies jl`pos
    ensures jl.Valid() && At(jl, ok, NumberEnd(old(jl.Rest())))
  {
    ok := MatchInt(jl);
    if !ok { return; }
    if jl.PeekChar() == '.' {
      ok := MatchFrac(jl);
      if !ok { return; }
    }
    if jl.PeekChar() == 'e' || jl.PeekChar() == 'E' {
      ok := MatchExp(jl);
    }
  }

  /** u_json_match_number; the left side of the match was recorded by the caller */
  method MatchNumber(jl: Lexer, jo: Node?) returns (ok: bool)
    requires jl.Valid() && jl.lmatch == jl.pos
    modifies jl, if jo != null then {jo} else {}
    ensures jl.Valid()
    ensures var m := Number(old(jl.Rest()));
            && (ok ==> m.Ok? && jl.Rest() == m.rest)
            && (m.Ok? && (jo == null || m.fits) ==> ok)
            && (jo != null && ok && m.fits ==> jo.typ == NumberType && jo.val == m.v)
    ensures jo != null ==> SameBut(jo)
  {
    ghost var r := jl.Rest();
    ok := MatchNumberParts(jl);
    if !ok { return; }
    jl.rmatch := jl.pos;
    assert |r| - |jl.Rest()| == jl.rmatch - jl.lmatch;
    var m := jl.GetMatch();
    m := TrimLast(m);
    if jo != null {
      jo.typ := NumberType;
      ok := jo.SetVal(m);
    }
  }

  /** Of `jo` nothing but the type and the value has changed. */
  twostate predicate SameBut(jo: Node)
    reads jo
  {
    && jo.key == old(jo.key) && jo.kids == old(jo.kids) && jo.parent == old(jo.parent)
    && jo.count == old(jo.count) && jo.depth == old(jo.depth)
  }

  /** u_json_match_escaped_unicode, the cursor standing on the 'u' */
  method MatchEscapedUnicode(jl: Lexer) returns (ok: bool)
    requires jl.Valid() && Peek(jl.Rest()) == 'u'
    modifies jl`pos
    ensures jl.Valid()
    ensures var r := old(jl.Rest());
            && (ok <==> |r| >= 5 && IsXDigit(r[1]) && IsXDigit(r[2]) && IsXDigit(r[3]) && IsXDigit(r[4]))
            && (ok ==> jl.Rest() == r[4..])
  {
    ghost var r := jl.Rest();
    var i := 0;
    while i < 4
      invariant 0 <= i <= 4 && i < |r|
      invariant jl.Valid() && jl.Rest() == r[i..]
      invariant forall k :: 1 <= k <= i ==> IsXDigit(r[k])
    {
      var c;
      ok, c := jl.Next();
      if !ok || !IsXDigit(c) {
        return false;
      }
      i := i + 1;
    }
    ok := true;
  }

  /** The loop of u_json_match_string: on to the closing quote. */
  method MatchBody(jl: Lexer) returns (ok: bool)
    requires jl.Valid()
    modifies jl`pos
    ensures jl.Valid() && At(jl, ok, BodyEnd(old(jl.Rest())))
  {
    var c := jl.PeekChar();
    while c != '"'
      invariant jl.Valid()
      // after an escaped code point the cursor is on its last digit, and `c` still the letter u
      invariant c == Peek(jl.Rest()) || (c == 'u' && jl.Rest() != "")
      invariant BodyEnd(if c == Peek(jl.Rest()) then jl.Rest() else jl.Rest()[1..]) == BodyEnd(old(jl.Rest()))
      decreases |jl.Rest()|
    {
      if c == '\\' {
        ok, c := jl.Next();
        if !ok { return; }
        if c == 'u' {
          ok := MatchEscapedUnicode(jl);
          if !ok { return; }
        } else if IsEscape(c) {
          ok, c := jl.Next();
          if !ok { return; }
        } else {
          return false;
        }
      } else if IsCntrl(c) {
        return false;
      } else {
        ok, c := jl.Next();
        if !ok { return; }
      }
    }
    ok := true;
  }

  /** The cursor has passed the literal at the front of `r`, and the match bounds enclose its body. */
  ghost predicate PassedLiteral(jl: Lexer, r: string)
    reads jl
  {
    && jl.Valid() && Str(r).Ok? && jl.Rest() == Str(r).rest
    && jl.lmatch <= jl.rmatch < |jl.s|
    && jl.s[jl.lmatch..jl.rmatch] == Str(r).v && jl.s[jl.rmatch] == '"'
  }

  /** u_json_match_string, but for its last step */
  method MatchLiteral(jl: Lexer) returns (ok: bool)
    requires jl.Valid()
    modifies jl
    ensures jl.Valid()
    ensures ok <==> Str(old(jl.Rest())).Ok?
    ensures ok ==> PassedLiteral(jl, old(jl.Rest()))
  {
    ghost var r := jl.Rest();
    if jl.PeekChar() != '"' {
      return false;
    }
    var c;
    ok, c := jl.Next();
    if !ok { return; }
    jl.lmatch := jl.pos;
    ok := MatchBody(jl);
    if !ok { return; }
    jl.rmatch := jl.pos;
    ghost var n := jl.rmatch - jl.lmatch;
    assert |r| - 1 - |jl.Rest()| == n;
    assert jl.s[jl.lmatch..jl.rmatch] == r[1..n + 1];
    ok, c := jl.Next();
  }

  /** u_lexer_get_match on a literal, without its closing quote */
  method GetLiteral(jl: Lexer, ghost r: string) returns (m: string)
    requires PassedLiteral(jl, r)
    ensures Str(r).fits ==> m == Str(r).v && |m| < TOKEN_SZ
  {
    QuotedMatch(jl.s, jl.lmatch, jl.rmatch);
    m := jl.GetMatch();
    m := TrimLast(m);
  }

  /** u_json_match_string */
  method MatchString(jl: Lexer, jo: Node?) returns (ok: bool)
    requires jl.Valid()
    modifies jl, if jo != null then {jo} else {}
    ensures jl.Valid()
    ensures var m := Str(old(jl.Rest()));
            && (ok ==> PassedLiteral(jl, old(jl.Rest())))
            && (m.Ok? && (jo == null || m.fits) ==> ok)
            && (jo != null && ok && m.fits ==> jo.typ == StringType && jo.val == m.v)
    ensures jo != null ==> SameBut(jo)
  {
    ok := MatchLiteral(jl);
    if ok && jo != null {
      jo.typ := StringType;
      var m := GetLiteral(jl, old(jl.Rest()));
      ok := jo.SetVal(m);
    }
  }

  /** What is extracted of a string match ends with the closing quote. */
  lemma QuotedMatch(s: string, l: nat, r: nat)
    requires l <= r < |s|
    ensures Matched(s[l..], r - l) == s[l..r] + [s[r]]
    ensures TrimLast(Matched(s[l..], r - l)) == s[l..r]
  {
    assert s[l..][..r - l + 1] == s[l..r] + [s[r]];
  }

  lemma WordStep(r: string, w: string)
    requires w != ""
    ensures Peek(r) != w[0] ==> Word(r, w) == None
    ensures Peek(r) == w[0] ==>
              Word(r, w) == if !CanSkip(r) then None else if |w| == 1 then Some(SkipRest(r))
                            else Word(SkipRest(r), w[1..])
  {
  }

  /** u_json_match_seq: a keyword */
  method MatchSeq(jl: Lexer, jo: Node?, typ: JType, word: string) returns (ok: bool)
    requires jl.Valid() && word != ""
    modifies jl, if jo != null then {jo} else {}
    ensures jl.Valid() && At(jl, ok, Word(old(jl.Rest()), word))
    ensures jo != null && ok ==> jo.typ == typ
    ensures jo != null ==> SameBut(jo) && jo.val == old(jo.val)
  {
    var c := jl.PeekChar();
    if c != word[0] {
      return false;
    }
    var i := 1;
    while i < |word|
      invariant 1 <= i <= |word|
      invariant jl.Valid() && Peek(jl.Rest()) == word[i - 1]
      invariant Word(jl.Rest(), word[i - 1..]) == Word(old(jl.Rest()), word)
      modifies jl
    {
      assert word[i - 1..][1..] == word[i..] && word[i..][0] == word[i];
      WordStep(jl.Rest(), word[i - 1..]);
      WordStep(SkipRest(jl.Rest()), word[i..]);
      ok, c := jl.Skip();
      if !ok || c != word[i] {
        return false;
      }
      i := i + 1;
    }
    WordStep(jl.Rest(), word[i - 1..]);
    ok, c := jl.Skip();
    if ok && jo != null {
      jo.typ := typ;
    }
  }

  // ---------- Matching values ----------

  /** `jo`, when given, has received the value `m` found; it is refused only when the value is not
      there or lies too deep.  Nothing is said of values with a token that does not fit. */
  ghost predicate Filled(jo: Node?, ok: bool, m: Match<JsonText.Json>, kids: seq<Plan>)
    reads if jo != null then {jo} + AllNodes(kids) else {}
  {
    && (ok ==> m.Ok?)
    && (jo == null && m.Ok? ==> ok)
    && (jo != null && m.Ok? && m.fits ==>
          && (ok <==> jo.depth + Height(m.v) < MAX_DEPTH)
          && (ok ==> Holds(Plan(jo, kids), m.v.(key := jo.key))))
  }

  /** A node as u_json_new makes it, possibly named and placed at some depth. */
  ghost predicate Blank(jo: Node)
    reads jo
  {
    jo.kids == [] && jo.count == 0 && jo.val == "" && jo.depth < MAX_DEPTH
  }

  /** The container `jo`, when given, has received the items `acc`. */
  ghost predicate Collected(jo: Node?, isObj: bool, acc: seq<JsonText.Json>, fits: bool, plans: seq<Plan>)
    reads if jo != null then {jo} + AllNodes(plans) else {}
  {
    jo != null ==>
      && jo.typ == ContainerType(isObj) && jo.val == "" && jo !in AllNodes(plans)
      && (fits ==>
            && AllHold(jo.kids, plans, acc)
            && jo.count == (if isObj then 0 else |acc|)
            && jo.depth + Heights(acc) < MAX_DEPTH)
  }

  /** The item `m` was found and appended to those of `jo`, unless missing or too deep. */
  ghost predicate ItemTaken(jo: Node?, ok: bool, m: Match<JsonText.Json>, fits: bool)
    reads if jo != null then {jo} else {}
  {
    && (ok ==> m.Ok?)
    && (jo == null && m.Ok? ==> ok)
    && (jo != null && m.Ok? && m.fits && fits ==> (ok <==> jo.depth + 1 + Height(m.v) < MAX_DEPTH))
  }

  lemma {:induction false} HeightsAppend(ts: seq<JsonText.Json>, us: seq<JsonText.Json>)
    ensures Heights(ts + us) == Max(Heights(ts), Heights(us))
  {
    if ts == [] {
      assert ts + us == us;
    } else {
      HeightsAppend(ts[1..], us);
      assert (ts + us)[1..] == ts[1..] + us;
    }
  }

  /** u_json_add, on an item just read into `item` */
  method AddItem(jo: Node, item: Node, isObj: bool, ghost v: JsonText.Json, ghost vfits: bool, ghost kids: seq<Plan>,
                 ghost acc: seq<JsonText.Json>, ghost fits: bool, ghost plans: seq<Plan>)
    returns (ok: bool)
    requires Collected(jo, isObj, acc, fits, plans) && item != jo
    requires item !in AllNodes(plans) && item !in AllNodes(kids) && jo !in AllNodes(kids)
    requires fits && vfits ==> Holds(Plan(item, kids), v) && jo.depth + 1 + Height(v) < MAX_DEPTH
    modifies jo, item
    ensures ok && Collected(jo, isObj, acc + [v], fits && vfits, plans + [Plan(item, kids)])
    ensures AllNodes(plans + [Plan(item, kids)]) == AllNodes(plans) + {item} + AllNodes(kids)
    ensures jo.key == old(jo.key) && jo.depth == old(jo.depth)
  {
    assert allocated(AllNodes(plans)) && allocated(AllNodes(kids));
    assert (plans + [Plan(item, kids)])[..|plans|] == plans;
    ok := jo.Add(item);
    if fits && vfits {
      assert Holds(Plan(item, kids), v);
      AllHoldAppend(old(jo.kids), plans, acc, Plan(item, kids), v);
      HeightsAppend(acc, [v]);
      assert [v][1..] == [];
    }
  }

  /** An element of an array: the part of u_json_match_array from 1498 to 1514. */
  method MatchElement(jl: Lexer, jo: Node?, ghost acc: seq<JsonText.Json>, ghost fits: bool, ghost plans: seq<Plan>)
    returns (ok: bool, ghost plans': seq<Plan>)
    requires jl.Valid() && Collected(jo, false, acc, fits, plans)
    modifies jl, if jo != null then {jo} else {}
    ensures jl.Valid()
    ensures var m := Value(old(jl.Rest()));
            && ItemTaken(jo, ok, m, fits)
            && (ok ==> jl.Rest() == m.rest && Collected(jo, false, acc + [m.v], fits && m.fits, plans'))
    ensures jo != null ==> jo.key == old(jo.key) && jo.depth == old(jo.depth)
    ensures forall n :: n in AllNodes(plans') ==> n in AllNodes(plans) || fresh(n)
    decreases |jl.Rest()|, 4
  {
    hide Value, AllHold;
    ValueIsBare(jl.Rest());
    plans' := plans;
    assert allocated(AllNodes(plans));
    var elem: Node? := null;
    ghost var m := Value(jl.Rest());
    if jo != null {
      elem := new Node();
      elem.typ := UnknownType;
      ok := elem.SetDepth(jo.depth + 1);
      if !ok { return; }
    }
    ghost var kids;
    ok, kids := MatchValue(jl, elem);
    if ok && jo != null {
      ok := AddItem(jo, elem, false, m.v, m.fits, kids, acc, fits, plans);
      plans' := plans + [Plan(elem, kids)];
    }
  }

  lemma ValueIsBare(r: string)
    ensures Value(r).Ok? ==> Value(r).v.key == ""
  {
  }

  /** White space under the cursor is skipped over. */
  method SettleOver(jl: Lexer) returns (ok: bool)
    requires jl.Valid()
    modifies jl`pos
    ensures jl.Valid() && (ok <==> CanSettle(old(jl.Rest())))
    ensures ok ==> jl.Rest() == Settle(old(jl.Rest()))
  {
    ok := true;
    if IsSpace(jl.PeekChar()) {
      var c;
      ok, c := jl.Skip();
    }
  }

  /** The first part of u_json_match_pair: the name, the node to hold the member, and the colon. */
  method MatchName(jl: Lexer, jo: Node?) returns (ok: bool, pair: Node?)
    requires jl.Valid()
    modifies jl
    ensures jl.Valid()
    ensures var m := Name(old(jl.Rest()));
            && (ok ==> m.Ok? && jl.Rest() == m.rest)
            && (m.Ok? && jo == null ==> ok)
            && (m.Ok? && m.fits && jo != null ==> (ok <==> jo.depth + 1 < MAX_DEPTH))
            && (ok && jo != null ==>
                  && pair != null && fresh(pair) && Blank(pair) && pair.depth == jo.depth + 1
                  && (m.fits ==> pair.key == m.v))
    ensures jo == null ==> pair == null
  {
    hide Str;
    pair := null;
    ok := MatchString(jl, null);
    if !ok { return; }
    ok, pair := NewPair(jo);
    if !ok { return; }
    var name := GetLiteral(jl, old(jl.Rest()));
    if jo != null {
      ok := pair.SetKey(name);
      if !ok { return; }
    }
    ok := MatchColon(jl);
  }

  /** The colon behind a name, white space around it */
  method MatchColon(jl: Lexer) returns (ok: bool)
    requires jl.Valid()
    modifies jl`pos
    ensures jl.Valid()
    ensures var r := old(jl.Rest()); var r1 := Settle(r);
            && (ok <==> CanSettle(r) && Peek(r1) == ':' && CanSkip(r1))
            && (ok ==> jl.Rest() == SkipRest(r1))
  {
    ok := SettleOver(jl);
    if !ok { return; }
    if jl.PeekChar() != ':' {
      return false;
    }
    var c;
    ok, c := jl.Skip();
  }

  /** The node to hold a member of `jo` */
  method NewPair(jo: Node?) returns (ok: bool, pair: Node?)
    ensures if jo == null then ok && pair == null
            else pair != null && fresh(pair) && pair.depth == jo.depth + 1
                 && (ok <==> pair.depth < MAX_DEPTH) && (ok ==> Blank(pair))
  {
    ok, pair := true, null;
    if jo != null {
      pair := new Node();
      ok := pair.SetDepth(jo.depth + 1);
    }
  }

  /** u_json_match_pair */
  method MatchPair(jl: Lexer, jo: Node?, ghost acc: seq<JsonText.Json>, ghost fits: bool, ghost plans: seq<Plan>)
    returns (ok: bool, ghost plans': seq<Plan>)
    requires jl.Valid() && Collected(jo, true, acc, fits, plans)
    modifies jl, if jo != null then {jo} else {}
    ensures jl.Valid()
    ensures var m := Pair(old(jl.Rest()));
            && ItemTaken(jo, ok, m, fits)
            && (ok ==> jl.Rest() == m.rest && Collected(jo, true, acc + [m.v], fits && m.fits, plans'))
    ensures jo != null ==> jo.key == old(jo.key) && jo.depth == old(jo.depth)
    ensures forall n :: n in AllNodes(plans') ==> n in AllNodes(plans) || fresh(n)
    decreases |jl.Rest()|, 4
  {
    hide Value, Name, AllHold;
    plans' := plans;
    assert allocated(AllNodes(plans));
    ghost var m, name := Pair(jl.Rest()), Name(jl.Rest());
    var pair: Node?;
    ok, pair := MatchName(jl, jo);
    if !ok { return; }
    assert Collected(jo, true, acc, fits, plans);
    ghost var mv := Value(jl.Rest());
    ghost var kids;
    ok, kids := MatchValue(jl, pair);
    assert m.Ok? ==> m.v == mv.v.(key := name.v) && Height(m.v) == Height(mv.v);
    if ok && jo != null {
      assert Collected(jo, true, acc, fits, plans);
      ok := AddItem(jo, pair, true, m.v, m.fits, kids, acc, fits, plans);
      plans' := plans + [Plan(pair, kids)];
    }
  }

  function Lift(acc: seq<JsonText.Json>, fits: bool, m: Match<seq<JsonText.Json>>): Match<seq<JsonText.Json>> {
    if m.Ok? then Ok(m.rest, acc + m.v, fits && m.fits) else Fail
  }

  /** u_json_match_value */
  method MatchValue(jl: Lexer, jo: Node?) returns (ok: bool, ghost kids: seq<Plan>)
    requires jl.Valid() && (jo != null ==> Blank(jo))
    modifies jl, if jo != null then {jo} else {}
    ensures jl.Valid()
    ensures Filled(jo, ok, Value(old(jl.Rest())), kids)
    ensures ok ==> jl.Rest() == Value(old(jl.Rest())).rest
    ensures jo != null ==> jo.key == old(jo.key) && jo.depth == old(jo.depth)
    ensures fresh(AllNodes(kids))
    decreases |jl.Rest()|, 3
  {
    kids := [];
    var c := jl.PeekChar();
    if c == '"' {
      ok := MatchString(jl, jo);
    } else if c == '-' || IsDigit(c) {
      jl.lmatch := jl.pos;
      ok := MatchNumber(jl, jo);
    } else if c == '{' {
      ok, kids := MatchContainer(jl, jo, true);
    } else if c == '[' {
      ok, kids := MatchContainer(jl, jo, false);
    } else if c == 't' {
      ok := MatchSeq(jl, jo, TrueType, "true");
    } else if c == 'f' {
      ok := MatchSeq(jl, jo, FalseType, "false");
    } else if c == 'n' {
      ok := MatchSeq(jl, jo, NullType, "null");
    } else {
      ok := false;
    }
  }

  /** The items `m` are not there, or one of them lies too deep for `jo`. */
  ghost predicate Refused(jo: Node?, m: Match<seq<JsonText.Json>>)
    reads if jo != null then {jo} else {}
  {
    m.Ok? ==> jo != null && (m.fits ==> jo.depth + Heights(m.v) >= MAX_DEPTH)
  }

  /** What one round of the loop adds to what the rest of the text holds. */
  lemma LiftStep(acc: seq<JsonText.Json>, fits: bool, isObj: bool, r: string)
    requires CanSkip(r) && Peek(SkipRest(r)) != Closing(isObj)
    ensures var m, all := Item(isObj, SkipRest(r)), Lift(acc, fits, Items(isObj, r));
            if m.Fail? || !CanSettle(m.rest) then all.Fail?
            else
              var r3 := Settle(m.rest);
              if Peek(r3) == ',' then all == Lift(acc + [m.v], fits && m.fits, Items(isObj, r3))
              else if Peek(r3) == Closing(isObj) then all == Ok(SkipRest(r3), acc + [m.v], fits && m.fits)
              else all.Fail?
  {
    var m := Item(isObj, SkipRest(r));
    if m.Ok? && CanSettle(m.rest) && Peek(Settle(m.rest)) == ',' {
      var m3 := Items(isObj, Settle(m.rest));
      assert m3.Ok? ==> acc + ([m.v] + m3.v) == (acc + [m.v]) + m3.v;
    }
  }

  /** An item that lies too deep makes the whole list too deep. */
  lemma TooDeep(acc: seq<JsonText.Json>, fits: bool, isObj: bool, r: string, d: nat)
    requires CanSkip(r) && Peek(SkipRest(r)) != Closing(isObj)
    requires var m := Item(isObj, SkipRest(r)); m.Ok? && m.fits && fits ==> d + 1 + Height(m.v) >= MAX_DEPTH
    ensures var all := Lift(acc, fits, Items(isObj, r)); all.Ok? && all.fits ==> d + Heights(all.v) >= MAX_DEPTH
  {
    var m, all := Item(isObj, SkipRest(r)), Lift(acc, fits, Items(isObj, r));
    LiftStep(acc, fits, isObj, r);
    if all.Ok? && all.fits {
      HeightsAppend(acc, [m.v]);
      HeightsAppend(acc + [m.v], all.v[|acc| + 1..]);
      assert all.v == acc + [m.v] + all.v[|acc| + 1..];
    }
  }

  method MatchItem(jl: Lexer, jo: Node?, isObj: bool, ghost acc: seq<JsonText.Json>, ghost fits: bool,
                   ghost plans: seq<Plan>)
    returns (ok: bool, ghost plans': seq<Plan>)
    requires jl.Valid() && Collected(jo, isObj, acc, fits, plans)
    modifies jl, if jo != null then {jo} else {}
    ensures jl.Valid()
    ensures var m := Item(isObj, old(jl.Rest()));
            && ItemTaken(jo, ok, m, fits)
            && (ok ==> jl.Rest() == m.rest && Collected(jo, isObj, acc + [m.v], fits && m.fits, plans'))
    ensures jo != null ==> jo.key == old(jo.key) && jo.depth == old(jo.depth)
    ensures forall n :: n in AllNodes(plans') ==> n in AllNodes(plans) || fresh(n)
    decreases |jl.Rest()|, 5
  {
    if isObj {
      ok, plans' := MatchPair(jl, jo, acc, fits, plans);
    } else {
      ok, plans' := MatchElement(jl, jo, acc, fits, plans);
    }
  }

  /** One round of the loops of u_json_match_array and u_json_match_object, which differ in the item
      only; `more` tells that a comma follows. */
  method MatchRound(jl: Lexer, jo: Node?, isObj: bool, ghost acc: seq<JsonText.Json>, ghost fits: bool,
                    ghost plans: seq<Plan>)
    returns (ok: bool, more: bool, ghost acc': seq<JsonText.Json>, ghost fits': bool, ghost plans': seq<Plan>)
    requires jl.Valid() && jl.Rest() != "" && Collected(jo, isObj, acc, fits, plans)
    modifies jl, if jo != null then {jo} else {}
    ensures jl.Valid()
    ensures var all := Lift(acc, fits, Items(isObj, old(jl.Rest())));
            && (!ok ==> Refused(jo, all))
            && (ok && more ==>
                  && jl.Rest() != ""
                  && all == Lift(acc', fits', Items(isObj, jl.Rest())))
            && (ok && !more ==>
                  all == if Peek(jl.Rest()) == Closing(isObj) then Ok(SkipRest(jl.Rest()), acc', fits') else Fail)
    ensures ok ==> |jl.Rest()| < |old(jl.Rest())| && Collected(jo, isObj, acc', fits', plans')
    ensures jo != null ==> jo.key == old(jo.key) && jo.depth == old(jo.depth)
    ensures forall n :: n in AllNodes(plans') ==> n in AllNodes(plans) || fresh(n)
    decreases |jl.Rest()|, 0
  {
    acc', fits', plans', more := acc, fits, plans, false;
    ghost var r := jl.Rest();
    assert allocated(AllNodes(plans));
    var c;
    ok, c := jl.Skip();
    if !ok { return; }
    assert Collected(jo, isObj, acc, fits, plans);
    if c == Closing(isObj) {
      assert acc + [] == acc;
      return;
    }
    ghost var m := Item(isObj, jl.Rest());
    LiftStep(acc, fits, isObj, r);
    ok, plans' := MatchItem(jl, jo, isObj, acc, fits, plans);
    if !ok {
      if jo != null {
        TooDeep(acc, fits, isObj, r, jo.depth);
      }
      return;
    }
    acc', fits' := acc + [m.v], fits && m.fits;
    assert allocated(AllNodes(plans'));
    ok := SettleOver(jl);
    if !ok { return; }
    assert Collected(jo, isObj, acc', fits', plans');
    more := jl.PeekChar() == ',';
  }

  method MatchItems(jl: Lexer, jo: Node?, isObj: bool)
    returns (ok: bool, ghost acc: seq<JsonText.Json>, ghost fits: bool, ghost kids: seq<Plan>)
    requires jl.Valid() && jl.Rest() != ""
    requires jo != null ==> Blank(jo) && jo.typ == ContainerType(isObj)
    modifies jl, if jo != null then {jo} else {}
    ensures jl.Valid()
    ensures !ok ==> Refused(jo, Items(isObj, old(jl.Rest())))
    ensures ok ==> Collected(jo, isObj, acc, fits, kids)
    ensures ok ==> Items(isObj, old(jl.Rest()))
                   == if Peek(jl.Rest()) == Closing(isObj) then Ok(SkipRest(jl.Rest()), acc, fits) else Fail
    ensures jo != null ==> jo.key == old(jo.key) && jo.depth == old(jo.depth)
    ensures fresh(AllNodes(kids))
    decreases |jl.Rest()|, 1
  {
    ghost var r := jl.Rest();
    acc, fits, kids, ok := [], true, [], true;
    assert Items(isObj, r).Ok? ==> [] + Items(isObj, r).v == Items(isObj, r).v;
    var more := true;
    while more
      invariant jl.Valid() && ok && |jl.Rest()| <= |r|
      invariant more ==> jl.Rest() != "" && Lift(acc, fits, Items(isObj, jl.Rest())) == Items(isObj, r)
      invariant !more ==>
        Items(isObj, r) == if Peek(jl.Rest()) == Closing(isObj) then Ok(SkipRest(jl.Rest()), acc, fits) else Fail
      invariant Collected(jo, isObj, acc, fits, kids)
      invariant jo != null ==> jo.key == old(jo.key) && jo.depth == old(jo.depth)
      invariant fresh(AllNodes(kids))
      decreases more, |jl.Rest()|
    {
      ok, more, acc, fits, kids := MatchRound(jl, jo, isObj, acc, fits, kids);
      if !ok { return; }
    }
  }

  /** u_json_match_array and u_json_match_object */
  method MatchContainer(jl: Lexer, jo: Node?, isObj: bool) returns (ok: bool, ghost kids: seq<Plan>)
    requires jl.Valid() && (jo != null ==> Blank(jo))
    modifies jl, if jo != null then {jo} else {}
    ensures jl.Valid()
    ensures Filled(jo, ok, Container(isObj, old(jl.Rest())), kids)
    ensures ok ==> jl.Rest() == Container(isObj, old(jl.Rest())).rest
    ensures jo != null ==> jo.key == old(jo.key) && jo.depth == old(jo.depth)
    ensures fresh(AllNodes(kids))
    decreases |jl.Rest()|, 2
  {
    kids := [];
    if jl.PeekChar() != Opening(isObj) {
      return false, kids;
    }
    if jo != null {
      jo.typ := ContainerType(isObj);
    }
    ghost var acc, fits;
    ok, acc, fits, kids := MatchItems(jl, jo, isObj);
    if !ok { return; }
    if jl.PeekChar() != Closing(isObj) {
      return false, kids;
    }
    assert allocated(AllNodes(kids));
    var more, c := jl.Skip();
    assert Collected(jo, isObj, acc, fits, kids);
  }

  // ---------- Decoding and validating ----------

  lemma ContainerIsBare(r: string)
    ensures Container(true, r).Ok? ==> Container(true, r).v.key == ""
    ensures Container(false, r).Ok? ==> Container(false, r).v.key == ""
  {
  }

  /** u_json_do_parse; without `build` it only validates */
  method DoParse(json: string, build: bool) returns (ok: bool, jo: Node?, ghost kids: seq<Plan>)
    requires '\0' !in json
    ensures ok ==> Text(json).Ok? && (build <==> jo != null)
    ensures !build && Text(json).Ok? ==> ok
    ensures build && Text(json).Ok? && Text(json).fits ==> (ok <==> Height(Text(json).v) < MAX_DEPTH)
    ensures build && ok && Text(json).fits ==> Holds(Plan(jo, kids), Text(json).v)
    ensures jo != null ==> fresh(jo)
    ensures fresh(AllNodes(kids))
  {
    hide Container, AllHold, Heights;
    jo, kids := null, [];
    var jl := new Lexer(json);
    assert jl.Rest() == json;
    ContainerIsBare(DropSpaces(json));
    if build {
      jo := new Node();
    }
    ok := jl.EatWs();
    if !ok {
      return;
    }
    if jl.PeekChar() == '{' {
      ok, kids := MatchContainer(jl, jo, true);
    } else if jl.PeekChar() == '[' {
      ok, kids := MatchContainer(jl, jo, false);
    } else {
      ok := false;
    }
  }

  /** u_json_decode: when the tokens fit, it succeeds exactly on the texts that validate and put no node
      MAX_DEPTH or more below the root. */
  method DecodeText(json: string) returns (ok: bool, jo: Node?, ghost kids: seq<Plan>)
    requires '\0' !in json
    ensures Text(json).Ok? && Text(json).fits ==> (ok <==> Decode(json).Some?)
    ensures ok ==> Text(json).Ok? && jo != null
    ensures ok && Text(json).fits ==> Holds(Plan(jo, kids), Decode(json).value)
  {
    ok, jo, kids := DoParse(json, true);
  }

  /** u_json_validate */
  method Validate(json: string) returns (ok: bool)
    requires '\0' !in json
    ensures ok <==> Text(json).Ok?
  {
    var jo;
    ghost var kids;
    ok, jo, kids := DoParse(json, false);
  }

  // ---------- Encoding ----------

  /** The part of u_string_t the encoder needs. */
  class StringBuf {
    var data: string

    constructor ()
      ensures data == ""
    {
      data := "";
    }

    method Append(x: string)
      modifies this
      ensures data == old(data) + x
    {
      data := data + x;
    }
  }

  /** Every node of the trees has a type that can be written. */
  predicate AllTyped(ts: seq<JsonText.Json>)
    decreases ts
  {
    ts == [] || (ts[0].typ != UnknownType && AllTyped(ts[0].kids) && AllTyped(ts[1..]))
  }

  /** The part of u_json_do_encode that comes before the children: 1142-1172 */
  method WriteHead(jo: Node, buf: StringBuf, ghost t: JsonText.Json) returns (ok: bool)
    requires jo.typ == t.typ && jo.key == t.key && jo.val == t.val
    modifies buf
    ensures ok <==> t.typ != UnknownType
    ensures ok ==> buf.data == old(buf.data) + Head(t)
  {
    hide KeyPart, Open;
    WriteKey(jo.key, buf);
    ok := WriteOpen(jo, buf, t);
    assert old(buf.data) + KeyPart(t.key) + Open(t) == old(buf.data) + (KeyPart(t.key) + Open(t));
  }

  method WriteKey(key: string, buf: StringBuf)
    modifies buf
    ensures buf.data == old(buf.data) + KeyPart(key)
  {
    if key != "" {
      buf.Append("\"" + key + "\": ");
    } else {
      assert old(buf.data) + "" == old(buf.data);
    }
  }

  /** The value of a node, or the opening bracket */
  method WriteOpen(jo: Node, buf: StringBuf, ghost t: JsonText.Json) returns (ok: bool)
    requires jo.typ == t.typ && jo.val == t.val
    modifies buf
    ensures ok <==> t.typ != UnknownType
    ensures ok ==> buf.data == old(buf.data) + Open(t)
  {
    ok := true;
    match jo.typ {
      case StringType => buf.Append("\"" + jo.val + "\"");
      case NumberType => buf.Append(jo.val);
      case ObjectType => buf.Append("{ ");
      case ArrayType => buf.Append("[ ");
      case TrueType => buf.Append("true");
      case FalseType => buf.Append("false");
      case NullType => buf.Append("null");
      case UnknownType => ok := false;
    }
  }

  /** The part that comes after them: 1177-1192 */
  method WriteTail(jo: Node, last: bool, buf: StringBuf, ghost t: JsonText.Json)
    requires jo.typ == t.typ
    modifies buf
    ensures buf.data == old(buf.data) + Close(t) + if last then "" else ", "
  {
    match jo.typ {
      case ArrayType => buf.Append(" ]");
      case ObjectType => buf.Append(" }");
      case _ =>
    }
    if !last {
      buf.Append(", ");
    }
  }

  lemma Regroup5(a: string, b: string, c: string, d: string, e: string, f: string)
    ensures a + b + c + d + e + f == a + (b + c + d + e + f)
  {
  }

  /** u_json_do_encode on the i-th of some siblings: the node, what is below it, and its next siblings. */
  method DoEncode(sibs: seq<Node>, i: nat, buf: StringBuf, ghost ps: seq<Plan>, ghost ts: seq<JsonText.Json>)
    returns (ok: bool)
    requires AllHold(sibs, ps, ts) && i <= |sibs|
    modifies buf
    ensures ok <==> AllTyped(ts[i..])
    ensures ok ==> buf.data == old(buf.data) + EncodeAll(ts[i..])
    decreases ps, |sibs| - i
  {
    hide AllHold, EncodeAll, AllTyped, Encode, Holds;
    Counted(sibs, ps, ts);
    EncodeFrom(ts, i);
    if i == |sibs| {
      return true;
    }
    AllHoldAt(sibs, ps, ts, i);
    NodeHolds(ps[i], ts[i]);
    var jo := sibs[i];
    ghost var t, kids := ts[i], ps[i].kids;
    assert allocated(AllNodes(ps)) && allocated(AllNodes(kids));
    ok := WriteHead(jo, buf, t);
    if !ok { return; }
    ok := DoEncode(jo.kids, 0, buf, kids, t.kids);
    if !ok { return; }
    assert t.kids[0..] == t.kids;
    WriteTail(jo, i + 1 == |sibs|, buf, t);
    ok := DoEncode(sibs, i + 1, buf, ps, ts);
    ghost var comma := if i + 1 == |sibs| then "" else ", ";
    Regroup5(old(buf.data), Head(t), EncodeAll(t.kids), Close(t), comma, EncodeAll(ts[i + 1..]));
  }

  lemma Counted(sibs: seq<Node>, ps: seq<Plan>, ts: seq<JsonText.Json>)
    requires AllHold(sibs, ps, ts)
    ensures |sibs| == |ps| == |ts|
  {
  }

  lemma NodeHolds(p: Plan, t: JsonText.Json)
    requires Holds(p, t)
    ensures p.node.typ == t.typ && p.node.key == t.key && p.node.val == t.val
    ensures AllHold(p.node.kids, p.kids, t.kids)
  {
  }

  /** What is written from the i-th of some siblings on */
  lemma EncodeFrom(ts: seq<JsonText.Json>, i: nat)
    requires i <= |ts|
    ensures i == |ts| ==> AllTyped(ts[i..]) && EncodeAll(ts[i..]) == ""
    ensures i < |ts| ==>
      && (AllTyped(ts[i..]) <==> ts[i].typ != UnknownType && AllTyped(ts[i].kids) && AllTyped(ts[i + 1..]))
      && EncodeAll(ts[i..]) ==
         Head(ts[i]) + EncodeAll(ts[i].kids) + Close(ts[i]) + (if i + 1 == |ts| then "" else ", ")
         + EncodeAll(ts[i + 1..])
  {
    if i < |ts| {
      assert ts[i..][0] == ts[i] && ts[i..][1..] == ts[i + 1..];
    }
  }

  /** u_json_encode: the text of a node and, if it is not a root, of its next siblings */
  method EncodeNode(sibs: seq<Node>, i: nat, ghost ps: seq<Plan>, ghost ts: seq<JsonText.Json>)
    returns (ok: bool, text: string)
    requires AllHold(sibs, ps, ts) && i < |sibs|
    ensures i < |ts| && (ok <==> AllTyped(ts[i..]))
    ensures ok ==> text == EncodeAll(ts[i..]) && (i + 1 == |ts| ==> text == Encode(ts[i]))
  {
    text := "";
    Counted(sibs, ps, ts);
    EncodeFrom(ts, i);
    EncodeFrom(ts, |ts|);
    assert allocated(AllNodes(ps));
    var buf := new StringBuf();
    ok := DoEncode(sibs, i, buf, ps, ts);
    if ok {
      text := buf.data;
    }
  }
}
