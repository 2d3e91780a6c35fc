/**
 The texts that srcs/toolbox/json.c reads, by a grammar of their own: that of RFC 4627, sections 2 to
 2.5, and the wider one that the parser follows.
 */
module JsonGrammar {
  import opened JsonText
  import opened JsonCodec
  import opened Wrappers

  /** A value as it is written, white space included.  In a box `last` is what stands between the opening
      bracket, or a comma behind the last item, and the closing bracket. */
  datatype Doc =
    | StringDoc(body: string)
    | NumberDoc(text: string)
    | WordDoc(typ: JType, spelling: string)
    | BoxDoc(isObj: bool, items: seq<Part>, comma: bool, last: string)

  /** An element, or a member: its name, and the white space around the colon */
  datatype Part = Part(before: string, name: string, pre: string, post: string, doc: Doc, after: string)

  // ---------- The text of a document, in front of `z` ----------

  function Written(d: Doc, z: string): string
    decreases d
  {
    match d
    case StringDoc(b) => "\"" + b + "\"" + z
    case NumberDoc(v) => v + z
    case WordDoc(_, s) => s + z
    case BoxDoc(isObj, items, comma, last) => [if isObj then '{' else '['] + ItemsWritten(isObj, items, comma, last, z)
  }

  /** What follows the opening bracket of a box, or a comma in it */
  function ItemsWritten(isObj: bool, items: seq<Part>, comma: bool, last: string, z: string): string
    decreases items
  {
    if items == [] then last + ([if isObj then '}' else ']'] + z)
    else
      var i := items[0];
      var more := if |items| > 1 || comma then "," + ItemsWritten(isObj, items[1..], comma, last, z)
                  else [if isObj then '}' else ']'] + z;
      i.before + WithName(isObj, i, Written(i.doc, i.after + more))
  }

  function WithName(isObj: bool, i: Part, z: string): string {
    if isObj then "\"" + i.name + "\"" + (i.pre + (":" + (i.post + z))) else z
  }

  // ---------- The grammar ----------

  /** White space: of the RFC, or what isspace takes for it in the C locale, vertical tab and form feed too */
  predicate IsGap(s: string, rfc: bool) {
    forall i :: 0 <= i < |s| ==>
      s[i] in {' ', '\t', '\n', '\r'} || (!rfc && s[i] in {'\U{0B}', '\U{0C}'})
  }

  function Letters(t: JType): (w: string)
    ensures w != ""
  {
    match t
    case TrueType => "true"
    case FalseType => "false"
    case _ => "null"
  }

  /** The letters of a word with white space between them */
  predicate SpelledOut(s: string, w: string)
    requires w != ""
    decreases |w|
  {
    s != "" && s[0] == w[0] && if |w| == 1 then |s| == 1 else SpelledOut(DropSpaces(s[1..]), w[1..])
  }

  /** The grammar of the RFC, or the wider one: there isspace says what white space is, words may be spelled
      out, and a comma may follow the last item. */
  ghost predicate Grammatical(d: Doc, rfc: bool)
    decreases d
  {
    match d
    case StringDoc(b) => IsRfcStringBody(b)
    case NumberDoc(v) => IsNumber(v)
    case WordDoc(t, s) =>
      t in {TrueType, FalseType, NullType} && if rfc then s == Letters(t) else SpelledOut(s, Letters(t))
    case BoxDoc(isObj, items, comma, last) =>
      && AllGrammatical(isObj, items, rfc) && IsGap(last, rfc)
      && (comma ==> !rfc && items != []) && (items != [] && !comma ==> last == "")
  }

  ghost predicate AllGrammatical(isObj: bool, items: seq<Part>, rfc: bool)
    decreases items
  {
    items == [] ||
    (PartGrammatical(isObj, items[0], rfc) && Grammatical(items[0].doc, rfc) && AllGrammatical(isObj, items[1..], rfc))
  }

  ghost predicate PartGrammatical(isObj: bool, i: Part, rfc: bool) {
    && IsGap(i.before, rfc) && IsGap(i.after, rfc)
    && if isObj then IsRfcStringBody(i.name) && IsGap(i.pre, rfc) && IsGap(i.post, rfc)
       else i.name == i.pre == i.post == ""
  }

  /** No string contains DEL, which the parser takes for a control character. */
  predicate Clean(d: Doc)
    decreases d
  {
    match d
    case StringDoc(b) => '\U{7F}' !in b
    case BoxDoc(_, items, _, _) => AllClean(items)
    case _ => true
  }

  predicate AllClean(items: seq<Part>)
    decreases items
  {
    items == [] || ('\U{7F}' !in items[0].name && Clean(items[0].doc) && AllClean(items[1..]))
  }

  // ---------- What a document stands for ----------

  function TreeOf(d: Doc): Json
    decreases d
  {
    match d
    case StringDoc(b) => Leaf(StringType, b)
    case NumberDoc(v) => Leaf(NumberType, v)
    case WordDoc(t, _) => Leaf(t, "")
    case BoxDoc(isObj, items, _, _) => Json(if isObj then ObjectType else ArrayType, "", "", TreesOf(items))
  }

  function TreesOf(items: seq<Part>): seq<Json>
    decreases items
  {
    if items == [] then [] else [TreeOf(items[0].doc).(key := items[0].name)] + TreesOf(items[1..])
  }

  /** Every string, name and number fits a token buffer of 128 bytes with its last quote and a NUL. */
  predicate Fits(d: Doc)
    decreases d
  {
    match d
    case StringDoc(b) => |b| <= 126
    case NumberDoc(v) => |v| <= 126
    case WordDoc(_, _) => true
    case BoxDoc(isObj, items, _, _) => AllFit(isObj, items)
  }

  predicate AllFit(isObj: bool, items: seq<Part>)
    decreases items
  {
    items == [] ||
    ((isObj ==> |items[0].name| <= 126) && Fits(items[0].doc) && AllFit(isObj, items[1..]))
  }

  // ---------- White space ----------

  lemma {:induction false} GapDropped(s: string, z: string)
    requires IsGap(s, false) && (z == "" || !IsSpace(z[0]))
    ensures DropSpaces(s + z) == z
    decreases |s|
  {
    if s == "" {
      assert s + z == z;
    } else {
      assert (s + z)[1..] == s[1..] + z;
      GapDropped(s[1..], z);
    }
  }

  lemma InFront(r: string, s: string, z: string)
    requires r != "" && r[1..] == s + z
    ensures r == [r[0]] + s + z
  {
    assert r == [r[0]] + r[1..];
  }

  lemma {:induction false} GapSplit(r: string) returns (s: string)
    ensures IsGap(s, false) && r == s + DropSpaces(r)
    ensures DropSpaces(r) == "" || !IsSpace(DropSpaces(r)[0])
    decreases |r|
  {
    if r != "" && IsSpace(r[0]) {
      var s1 := GapSplit(r[1..]);
      s := [r[0]] + s1;
      InFront(r, s1, DropSpaces(r[1..]));
    } else {
      s := "";
    }
  }

  /** Behind white space, skipped or not, the cursor settles on what comes next. */
  lemma SettlesOn(s: string, z: string, r: string)
    requires IsGap(s, false) && z != "" && !IsSpace(z[0]) && (r == s + z || r == DropSpaces(s + z))
    ensures CanSettle(r) && Settle(r) == z
  {
    GapDropped(s, z);
    if r == s + z && IsSpace(Peek(r)) {
      assert s != "" && r[1..] == s[1..] + z;
      GapDropped(s[1..], z);
    } else if r == s + z {
      assert s == "" && s + z == z;
    }
  }

  lemma SkipsTo(c: char, s: string, z: string)
    requires IsGap(s, false) && z != "" && !IsSpace(z[0])
    ensures CanSkip([c] + (s + z)) && SkipRest([c] + (s + z)) == z
  {
    GapDropped(s, z);
    assert ([c] + (s + z))[1..] == s + z;
  }

  // ---------- Reading what is written ----------

  /** What may follow a value inside a box */
  predicate Goes(z: string) { z != "" && (IsSpace(z[0]) || z[0] in {',', ']', '}'}) }

  /** `m` is the document `d` read in front of `z`, or fails if that is not clean. */
  predicate ReadAs(m: Match<Json>, d: Doc, z: string) {
    if Clean(d) then m.Ok? && m.v == TreeOf(d) && m.fits == Fits(d) && (m.rest == z || m.rest == DropSpaces(z))
    else m.Fail?
  }

  /** A string with DEL in it stops the parser. */
  lemma {:induction false} DelStops(b: string, z: string)
    requires IsRfcStringBody(b) && '\U{7F}' in b
    ensures BodyEnd(b + "\"" + z) == None
    decreases |b|
  {
    var r := b + "\"" + z;
    if b[0] == '\U{7F}' {
      assert r[0] == b[0];
    } else {
      var k := if b[0] != '\\' then 1 else if b[1] == 'u' then 6 else 2;
      assert b == b[..k] + b[k..] && '\U{7F}' !in b[..k];
      DelStops(b[k..], z);
      assert r[k..] == b[k..] + "\"" + z;
    }
  }

  lemma LiteralReads(b: string, z: string)
    requires IsRfcStringBody(b)
    ensures Str("\"" + b + "\"" + z) == if '\U{7F}' !in b then Ok(z, b, |b| + 1 < TOKEN_SZ) else Fail
  {
    hide IsRfcStringBody, IsStringBody, BodyEnd;
    DelTellsThemApart(b);
    if '\U{7F}' !in b {
      StrReadBack(b, z);
    } else {
      DelStops(b, z);
      LiteralParts(b, z);
    }
  }

  lemma {:induction false} WordReads(s: string, w: string, z: string)
    requires w != "" && SpelledOut(s, w) && z != ""
    ensures Word(s + z, w) == Some(DropSpaces(z))
    decreases |w|
  {
    assert (s + z)[0] == w[0] && (s + z)[1..] == s[1..] + z;
    if |w| == 1 {
      assert s[1..] + z == z;
    } else {
      DropInFront(s[1..], z);
      WordReads(DropSpaces(s[1..]), w[1..], z);
    }
  }

  lemma {:induction false} DropInFront(s: string, z: string)
    requires DropSpaces(s) != ""
    ensures DropSpaces(s + z) == DropSpaces(s) + z
    decreases |s|
  {
    if IsSpace(s[0]) {
      assert (s + z)[1..] == s[1..] + z;
      DropInFront(s[1..], z);
    }
  }

  lemma WordDocReads(t: JType, s: string, z: string)
    requires Grammatical(WordDoc(t, s), false) && z != ""
    ensures Value(s + z) == Ok(DropSpaces(z), Leaf(t, ""), true)
  {
    hide Word;
    WordReads(s, Letters(t), z);
    assert Peek(s + z) == Letters(t)[0];
  }

  lemma StartOf(d: Doc, z: string)
    requires Grammatical(d, false)
    ensures StartsValue(Written(d, z))
  {
    if d.NumberDoc? {
      NumberStarts(d.text);
    }
  }

  /** A document is read back from what is written, up to white space behind it, exactly when it is clean. */
  lemma {:induction false} DocReads(d: Doc, z: string)
    requires Grammatical(d, false) && (Goes(z) || d.BoxDoc?)
    ensures ReadAs(Value(Written(d, z)), d, z)
    decreases d, 1
  {
    hide Str, Number, IsRfcStringBody, IsNumber;
    match d
    case StringDoc(b) => LiteralReads(b, z);
    case NumberDoc(v) =>
      NumberStarts(v);
      NumberReadBack(v, z);
    case WordDoc(t, s) => WordDocReads(t, s, z);
    case BoxDoc(isObj, items, comma, last) => BoxReads(d, z);
  }

  lemma {:induction false} BoxReads(d: Doc, z: string)
    requires d.BoxDoc? && Grammatical(d, false)
    ensures var m := Container(d.isObj, Written(d, z));
            ReadAs(m, d, z) && (m.Ok? ==> m.rest == DropSpaces(z)) && Peek(Written(d, z)) == Opening(d.isObj)
    decreases d, 0
  {
    ItemsRead(Opening(d.isObj), d.isObj, d.items, d.comma, d.last, z);
  }

  lemma {:induction false} ItemsRead(c: char, isObj: bool, items: seq<Part>, comma: bool, last: string, z: string)
    requires AllGrammatical(isObj, items, false) && IsGap(last, false)
    ensures Items(isObj, [c] + ItemsWritten(isObj, items, comma, last, z)) ==
            if AllClean(items) then Ok(DropSpaces(z), TreesOf(items), AllFit(isObj, items)) else Fail
    decreases items
  {
    hide Value, Pair, Grammatical, PartGrammatical, Written;
    if items == [] {
      SkipsTo(c, last, [Closing(isObj)] + z);
      assert ([Closing(isObj)] + z)[1..] == z;
    } else {
      var i := items[0];
      var more := if |items| > 1 || comma then "," + ItemsWritten(isObj, items[1..], comma, last, z)
                  else [Closing(isObj)] + z;
      var r := WithName(isObj, i, Written(i.doc, i.after + more));
      FirstPartStarts(c, isObj, i, i.after + more);
      FirstPartReads(isObj, i, more);
      if |items| > 1 || comma {
        ItemsRead(',', isObj, items[1..], comma, last, z);
      } else {
        assert items[1..] == [] && TreesOf(items) == [TreeOf(i.doc).(key := i.name)] && more[1..] == z;
      }
    }
  }

  lemma FirstPartStarts(c: char, isObj: bool, i: Part, z: string)
    requires PartGrammatical(isObj, i, false) && Grammatical(i.doc, false)
    ensures var r := WithName(isObj, i, Written(i.doc, z));
            CanSkip([c] + (i.before + r)) && SkipRest([c] + (i.before + r)) == r && Peek(r) != Closing(isObj)
  {
    hide Grammatical, Written, IsRfcStringBody;
    StartOf(i.doc, z);
    SkipsTo(c, i.before, WithName(isObj, i, Written(i.doc, z)));
  }

  /** The first item of some, and what it leaves to be read */
  lemma {:induction false} FirstPartReads(isObj: bool, i: Part, more: string)
    requires PartGrammatical(isObj, i, false) && Grammatical(i.doc, false)
    requires more != "" && more[0] in {',', ']', '}'}
    ensures var m := Item(isObj, WithName(isObj, i, Written(i.doc, i.after + more)));
            if '\U{7F}' !in i.name && Clean(i.doc)
            then m.Ok? && m.v == TreeOf(i.doc).(key := i.name) && CanSettle(m.rest) && Settle(m.rest) == more
                 && m.fits == ((isObj ==> |i.name| + 1 < TOKEN_SZ) && Fits(i.doc))
            else m.Fail?
    decreases i.doc, 2
  {
    hide Value, Str, Grammatical, Written, IsRfcStringBody;
    var z := i.after + more;
    assert Goes(z);
    DocReads(i.doc, z);
    if isObj {
      StartOf(i.doc, z);
      NameReads(i, Written(i.doc, z));
    } else {
      BareKey(i.doc);
    }
    var m := Value(Written(i.doc, z));
    if m.Ok? {
      SettlesOn(i.after, more, m.rest);
    }
  }

  lemma BareKey(d: Doc)
    ensures TreeOf(d).key == "" && TreeOf(d).(key := "") == TreeOf(d)
  {
  }

  lemma NameReads(i: Part, z: string)
    requires PartGrammatical(true, i, false) && z != "" && !IsSpace(z[0])
    ensures Name(WithName(true, i, z)) == if '\U{7F}' !in i.name then Ok(z, i.name, |i.name| + 1 < TOKEN_SZ) else Fail
  {
    hide Str, IsRfcStringBody;
    var colon := ":" + (i.post + z);
    LiteralReads(i.name, i.pre + colon);
    SettlesOn(i.pre, colon, i.pre + colon);
    SkipsTo(':', i.post, z);
  }

  // ---------- The texts of the RFC ----------

  lemma {:induction false} StrictIsWide(d: Doc)
    requires Grammatical(d, true)
    ensures Grammatical(d, false)
    decreases d, 1
  {
    match d
    case WordDoc(t, s) => PlainIsSpelled(Letters(t));
    case BoxDoc(isObj, items, _, last) => AllStrictIsWide(isObj, items);
    case _ =>
  }

  lemma {:induction false} AllStrictIsWide(isObj: bool, items: seq<Part>)
    requires AllGrammatical(isObj, items, true)
    ensures AllGrammatical(isObj, items, false)
    decreases items, 0
  {
    if items != [] {
      StrictIsWide(items[0].doc);
      AllStrictIsWide(isObj, items[1..]);
    }
  }

  lemma {:induction false} PlainIsSpelled(w: string)
    requires w != "" && forall i :: 0 <= i < |w| ==> !IsSpace(w[i])
    ensures SpelledOut(w, w)
    decreases |w|
  {
    if |w| > 1 {
      assert DropSpaces(w[1..]) == w[1..];
      PlainIsSpelled(w[1..]);
    }
  }

  /** A box of the wider grammar, with white space in front and anything behind, is accepted, and gives its
      tree, exactly when no string in it contains DEL. */
  lemma GrammarReads(lead: string, d: Doc, trail: string)
    requires IsGap(lead, false) && Grammatical(d, false) && d.BoxDoc?
    ensures var m := Text(lead + Written(d, trail));
            if Clean(d) then m.Ok? && m.v == TreeOf(d) && m.fits == Fits(d) else m.Fail?
  {
    hide Container;
    BoxReads(d, trail);
    GapDropped(lead, Written(d, trail));
  }

  /** A text of RFC 4627 is accepted, and gives its tree, exactly when no string in it contains DEL. */
  lemma RfcTextReads(lead: string, d: Doc, trail: string)
    requires IsGap(lead, true) && Grammatical(d, true) && d.BoxDoc? && IsGap(trail, true)
    ensures var m := Text(lead + Written(d, trail));
            if Clean(d) then m.Ok? && m.v == TreeOf(d) && m.fits == Fits(d) else m.Fail?
  {
    StrictIsWide(d);
    GrammarReads(lead, d, trail);
  }

  // ---------- What is read is written ----------

  lemma {:induction false} ReadBodyIsRfc(b: string)
    requires IsStringBody(b)
    ensures IsRfcStringBody(b) && '\U{7F}' !in b
    decreases |b|
  {
    if b != "" {
      var k := if b[0] != '\\' then 1 else if b[1] == 'u' then 6 else 2;
      ReadBodyIsRfc(b[k..]);
      assert b == b[..k] + b[k..] && '\U{7F}' !in b[..k];
    }
  }

  lemma BehindSpaces(r: string, ws: string, s: string, z: string)
    requires r != "" && r[1..] == ws + (s + z)
    ensures r == [r[0]] + (ws + s) + z
  {
    assert ws + (s + z) == ws + s + z;
    InFront(r, ws + s, z);
  }

  /** The spelling of a word read, and the white space skipped behind it */
  lemma {:induction false} WordFound(r: string, w: string) returns (s: string, gap: string)
    requires w != "" && Word(r, w).Some?
    ensures s != "" && s[0] == w[0] && SpelledOut(s, w)
    ensures IsGap(gap, false) && r == s + (gap + Word(r, w).value)
    decreases |w|
  {
    var rest := Word(r, w).value;
    var ws := GapSplit(r[1..]);
    if |w| == 1 {
      s, gap := [r[0]], ws;
      assert r == [r[0]] + r[1..];
    } else {
      var s1;
      s1, gap := WordFound(SkipRest(r), w[1..]);
      assert SkipRest(r)[0] == s1[0];
      GapDropped(ws, s1);
      s := [r[0]] + (ws + s1);
      assert s[1..] == ws + s1;
      BehindSpaces(r, ws, s1, gap + rest);
    }
  }

  lemma WordDocFound(r: string, t: JType) returns (d: Doc, gap: string)
    requires t in {TrueType, FalseType, NullType} && Keyword(r, Letters(t), t).Ok?
    ensures var m := Keyword(r, Letters(t), t);
            Grammatical(d, false) && Clean(d) && TreeOf(d) == m.v && IsGap(gap, false) && r == Written(d, gap + m.rest)
  {
    var s;
    s, gap := WordFound(r, Letters(t));
    d := WordDoc(t, s);
  }

  lemma ScalarFound(r: string) returns (d: Doc, gap: string)
    requires Value(r).Ok? && Value(r).rest != "" && Peek(r) !in {'{', '['}
    ensures var m := Value(r);
            Grammatical(d, false) && Clean(d) && TreeOf(d) == m.v && IsGap(gap, false) && r == Written(d, gap + m.rest)
  {
    hide Str, Number, Word, IsStringBody, IsRfcStringBody, IsNumber;
    var c := Peek(r);
    gap := "";
    assert "" + Value(r).rest == Value(r).rest;
    if c == '"' {
      StrReadsALiteral(r);
      ReadBodyIsRfc(Str(r).v);
      d := StringDoc(Str(r).v);
    } else if c == '-' || IsDigit(c) {
      NumberSound(r);
      d := NumberDoc(Number(r).v);
    } else {
      d, gap := WordDocFound(r, if c == 't' then TrueType else if c == 'f' then FalseType else NullType);
    }
  }

  /** The document read by a value, and the white space skipped behind it */
  lemma {:induction false} DocFound(r: string) returns (d: Doc, gap: string)
    requires Value(r).Ok? && Value(r).rest != ""
    ensures var m := Value(r);
            Grammatical(d, false) && Clean(d) && TreeOf(d) == m.v && IsGap(gap, false) && r == Written(d, gap + m.rest)
    decreases |r|, 2
  {
    hide Grammatical, Clean, TreeOf, Written, Container;
    if Peek(r) in {'{', '['} {
      d, gap := BoxFound(Peek(r) == '{', r);
    } else {
      d, gap := ScalarFound(r);
    }
  }

  lemma {:induction false} BoxFound(isObj: bool, r: string) returns (d: Doc, gap: string)
    requires Container(isObj, r).Ok?
    ensures var m := Container(isObj, r);
            && d.BoxDoc? && Grammatical(d, false) && Clean(d) && TreeOf(d) == m.v
            && IsGap(gap, false) && r == Written(d, gap + m.rest)
    decreases |r|, 1
  {
    hide Items, ItemsWritten, AllGrammatical, AllClean, TreesOf;
    var items, comma, last;
    items, comma, last, gap := ItemsFound(isObj, r);
    d := BoxDoc(isObj, items, comma, last);
  }

  /** The items read, whether a comma follows the last, and the white space in front of the closing bracket
      and behind it */
  lemma {:induction false} ItemsFound(isObj: bool, r: string)
    returns (items: seq<Part>, comma: bool, last: string, gap: string)
    requires r != "" && Items(isObj, r).Ok?
    ensures AllGrammatical(isObj, items, false) && AllClean(items) && TreesOf(items) == Items(isObj, r).v
    ensures IsGap(last, false) && (comma ==> items != []) && (items != [] && !comma ==> last == "")
    ensures IsGap(gap, false) && r == [r[0]] + ItemsWritten(isObj, items, comma, last, gap + Items(isObj, r).rest)
    decreases |r|, 0
  {
    hide Item, Grammatical, PartGrammatical, Clean, TreeOf, Written, WithName, IsGap, AllGrammatical, AllClean,
         TreesOf, ItemsWritten;
    var before := FrontFound(r);
    var r1 := SkipRest(r);
    NoParts(isObj);
    if Peek(r1) == Closing(isObj) {
      gap := FrontFound(r1);
      items, comma, last := [], false, before;
      NoneWritten(isObj, comma, before, gap + SkipRest(r1));
    } else {
      var part := PartFound(isObj, r1, before);
      var r3 := Settle(Item(isObj, r1).rest);
      if Peek(r3) == ',' {
        items, comma, last, gap := ItemsFound(isObj, r3);
        NoneWritten(isObj, comma, last, gap + Items(isObj, r).rest);
        comma := comma || items == [];
        NoneWritten(isObj, comma, last, gap + Items(isObj, r).rest);
      } else {
        gap := FrontFound(r3);
        items, comma, last := [], false, "";
        NoGap();
      }
      PartJoins(isObj, part, items, comma, last, gap + Items(isObj, r).rest);
      items := [part] + items;
    }
  }

  /** One character, and the white space behind it */
  lemma FrontFound(r: string) returns (gap: string)
    requires r != ""
    ensures IsGap(gap, false) && r == [r[0]] + (gap + SkipRest(r))
  {
    gap := GapSplit(r[1..]);
    assert r == [r[0]] + r[1..];
  }

  lemma NoParts(isObj: bool)
    ensures AllGrammatical(isObj, [], false) && AllClean([]) && TreesOf([]) == []
  {
  }

  lemma NoneWritten(isObj: bool, comma: bool, last: string, z: string)
    ensures ItemsWritten(isObj, [], comma, last, z) == last + ([Closing(isObj)] + z)
  {
  }

  lemma PartJoins(isObj: bool, i: Part, items: seq<Part>, comma: bool, last: string, z: string)
    requires PartGrammatical(isObj, i, false) && Grammatical(i.doc, false) && Clean(i.doc) && '\U{7F}' !in i.name
    requires AllGrammatical(isObj, items, false) && AllClean(items)
    ensures AllGrammatical(isObj, [i] + items, false) && AllClean([i] + items)
    ensures TreesOf([i] + items) == [TreeOf(i.doc).(key := i.name)] + TreesOf(items)
    ensures var more := if items != [] || comma then "," + ItemsWritten(isObj, items, comma, last, z)
                        else [Closing(isObj)] + z;
            ItemsWritten(isObj, [i] + items, comma, last, z) ==
            i.before + WithName(isObj, i, Written(i.doc, i.after + more))
  {
    hide Grammatical, PartGrammatical, Clean, Written, WithName;
    assert ([i] + items)[1..] == items;
  }

  lemma NoGap()
    ensures IsGap("", false)
  {
  }

  lemma SettleSplit(r: string) returns (s: string)
    ensures IsGap(s, false) && r == s + Settle(r)
  {
    if IsSpace(Peek(r)) {
      s := GapSplit(r);
    } else {
      s := "";
    }
  }

  /** The item read, with the white space in front of it and behind */
  lemma {:induction false} PartFound(isObj: bool, r: string, before: string) returns (i: Part)
    requires Item(isObj, r).Ok? && Item(isObj, r).rest != "" && IsGap(before, false)
    ensures PartGrammatical(isObj, i, false) && Grammatical(i.doc, false) && Clean(i.doc) && '\U{7F}' !in i.name
    ensures i.before == before && TreeOf(i.doc).(key := i.name) == Item(isObj, r).v
    ensures r == WithName(isObj, i, Written(i.doc, i.after + Settle(Item(isObj, r).rest)))
    decreases |r|, 4
  {
    hide Value, Grammatical, Clean, Written, TreeOf, Name, Settle, IsRfcStringBody;
    NoGap();
    var name, pre, post, r1 := "", "", "", r;
    if isObj {
      name, pre, post := NameFound(r);
      r1 := Name(r).rest;
    }
    var d, after := DocSettled(r1);
    i := Part(before, name, pre, post, d, after);
    BareKey(d);
  }

  /** The document read by a value, and the white space behind it on which the cursor settles */
  lemma {:induction false} DocSettled(r: string) returns (d: Doc, after: string)
    requires Value(r).Ok? && Value(r).rest != ""
    ensures var m := Value(r);
            && Grammatical(d, false) && Clean(d) && TreeOf(d) == m.v
            && IsGap(after, false) && r == Written(d, after + Settle(m.rest))
    decreases |r|, 3
  {
    hide Value, Grammatical, Clean, TreeOf, Written, Settle;
    var gap;
    d, gap := DocFound(r);
    var ws := SettleSplit(Value(r).rest);
    after := gap + ws;
    assert gap + (ws + Settle(Value(r).rest)) == after + Settle(Value(r).rest);
  }

  lemma NameFound(r: string) returns (name: string, pre: string, post: string)
    requires Name(r).Ok?
    ensures name == Name(r).v && IsRfcStringBody(name) && '\U{7F}' !in name && IsGap(pre, false) && IsGap(post, false)
    ensures r == "\"" + name + "\"" + (pre + (":" + (post + Name(r).rest)))
  {
    hide Str, IsStringBody, IsRfcStringBody;
    name := Str(r).v;
    StrReadsALiteral(r);
    ReadBodyIsRfc(name);
    pre := SettleSplit(Str(r).rest);
    post := FrontFound(Settle(Str(r).rest));
  }

  // ---------- Which texts are accepted ----------

  ghost predicate Derived(s: string, lead: string, d: Doc, trail: string) {
    IsGap(lead, false) && d.BoxDoc? && Grammatical(d, false) && Clean(d) && s == lead + Written(d, trail)
  }

  /** The parser accepts exactly the texts that begin with a box of the wider grammar without DEL in its
      strings, and what it reads is the tree of that box. */
  lemma AcceptedTexts(s: string)
    ensures Text(s).Ok? <==> exists lead, d, trail :: Derived(s, lead, d, trail)
    ensures forall lead, d, trail :: Derived(s, lead, d, trail) ==> Text(s).v == TreeOf(d) && Text(s).fits == Fits(d)
  {
    forall lead, d, trail | Derived(s, lead, d, trail)
      ensures Text(s).Ok? && Text(s).v == TreeOf(d) && Text(s).fits == Fits(d)
    {
      GrammarReads(lead, d, trail);
    }
    if Text(s).Ok? {
      hide Container, Grammatical, Clean, TreeOf, Written;
      var lead := GapSplit(s);
      var r := DropSpaces(s);
      var d, gap := BoxFound(Peek(r) == '{', r);
      assert Derived(s, lead, d, gap + Text(s).rest);
    }
  }

  /** What RFC 4627 does not have: white space inside a word, a comma behind the last item, and text behind
      the root. */
  lemma BeyondTheRfc()
    ensures Text("[t rue,]x") == Ok("x", Json(ArrayType, "", "", [Leaf(TrueType, "")]), true)
  {
    hide Grammatical, Written, Container;
    var d := BoxDoc(false, [Part("", "", "", "", WordDoc(TrueType, "t rue"), "")], true, "");
    SpacedWord();
    SpacedList(d);
    BoxReads(d, "x");
  }

  lemma SpacedWord()
    ensures SpelledOut("t rue", "true")
  {
    assert DropSpaces("rue") == "rue" && "t rue"[1..] == " rue" && " rue"[1..] == "rue" && "true"[1..] == "rue";
    PlainIsSpelled("rue");
  }

  lemma SpacedList(d: Doc)
    requires d == BoxDoc(false, [Part("", "", "", "", WordDoc(TrueType, "t rue"), "")], true, "")
    requires SpelledOut("t rue", "true")
    ensures Grammatical(d, false) && Clean(d) && TreeOf(d) == Json(ArrayType, "", "", [Leaf(TrueType, "")]) && Fits(d)
    ensures Written(d, "x") == "[t rue,]x"
  {
    NoGap();
    var items, none := d.items, [];
    assert items[1..] == none;
    assert AllGrammatical(false, none, false) && AllClean(none) && AllFit(false, none) && TreesOf(none) == [];
    assert TreesOf(items) == [Leaf(TrueType, "")];
    assert ItemsWritten(false, none, true, "", "x") == "]x";
    assert Written(items[0].doc, "," + "]x") == "t rue,]x";
  }

  // ---------- The encoder writes texts of the RFC ----------

  /** The document that the encoder writes for a tree, less its own name */
  function DocOf(t: Json): Doc
    decreases t, 1
  {
    match t.typ
    case StringType => StringDoc(t.val)
    case NumberType => NumberDoc(t.val)
    case ObjectType => BoxDoc(true, PartsOf(true, t.kids), false, if t.kids == [] then "  " else "")
    case ArrayType => BoxDoc(false, PartsOf(false, t.kids), false, if t.kids == [] then "  " else "")
    case typ => WordDoc(typ, Letters(typ))
  }

  function PartsOf(isObj: bool, ts: seq<Json>): (r: seq<Part>)
    ensures |r| == |ts|
    decreases ts, 0
  {
    if ts == [] then []
    else
      [Part(" ", ts[0].key, "", if isObj then " " else "", DocOf(ts[0]), if |ts| == 1 then " " else "")] +
      PartsOf(isObj, ts[1..])
  }

  lemma {:induction false} DocOfIsRfc(t: Json)
    requires WellFormed(t) && KeysRight(t)
    ensures Grammatical(DocOf(t), true) && Clean(DocOf(t)) && TreeOf(DocOf(t)) == t.(key := "")
    decreases t, 1
  {
    hide IsStringBody, IsRfcStringBody, IsNumber;
    if t.typ == StringType {
      ReadBodyIsRfc(t.val);
    } else if IsContainer(t) {
      PartsAreRfc(t.typ == ObjectType, t.kids);
    }
  }

  lemma {:induction false} PartsAreRfc(isObj: bool, ts: seq<Json>)
    requires AllWellFormed(ts) && AllKeysRight(isObj, ts)
    ensures AllGrammatical(isObj, PartsOf(isObj, ts), true) && AllClean(PartsOf(isObj, ts))
    ensures TreesOf(PartsOf(isObj, ts)) == ts
    decreases ts, 0
  {
    hide IsStringBody, IsRfcStringBody;
    if ts != [] {
      DocOfIsRfc(ts[0]);
      PartsAreRfc(isObj, ts[1..]);
      ReadBodyIsRfc(ts[0].key);
      assert PartsOf(isObj, ts)[1..] == PartsOf(isObj, ts[1..]);
      assert TreeOf(DocOf(ts[0])).(key := ts[0].key) == ts[0];
      assert ts == [ts[0]] + ts[1..];
    }
  }

  lemma {:induction false} WrittenIs(t: Json, z: string)
    requires WellFormed(t) && KeysRight(t)
    ensures Written(DocOf(t), z) == Open(t) + EncodeAllTo(t.kids, Close(t) + z)
    decreases t, 1
  {
    if IsContainer(t) {
      BoxWrittenIs(t, z);
    } else {
      hide IsStringBody, IsNumber;
      assert "" + z == z && EncodeAllTo([], Close(t) + z) == z;
    }
  }

  lemma {:induction false} BoxWrittenIs(t: Json, z: string)
    requires WellFormed(t) && KeysRight(t) && IsContainer(t)
    ensures Written(DocOf(t), z) == Open(t) + EncodeAllTo(t.kids, Close(t) + z)
    decreases t, 0
  {
    hide *;
    var isObj := t.typ == ObjectType;
    BoxUnfold(t, z);
    ItemsWrittenAre(isObj, t.kids, z);
    Regrouped([if isObj then '{' else '['], " ", EncodeAllTo(t.kids, Close(t) + z));
  }

  lemma Regrouped(a: string, b: string, c: string)
    ensures a + (b + c) == a + b + c
  {
  }

  lemma BoxUnfold(t: Json, z: string)
    requires WellFormed(t) && KeysRight(t) && IsContainer(t)
    ensures var isObj := t.typ == ObjectType;
            && AllWellFormed(t.kids) && AllKeysRight(isObj, t.kids)
            && Close(t) == (if isObj then " }" else " ]") && Open(t) == [if isObj then '{' else '['] + " "
            && Written(DocOf(t), z) == [if isObj then '{' else '['] +
                 ItemsWritten(isObj, PartsOf(isObj, t.kids), false, if t.kids == [] then "  " else "", z)
  {
    hide ItemsWritten, PartsOf, IsStringBody;
  }

  /** What follows the opening bracket, of which the encoder takes the first blank for part */
  lemma {:induction false} ItemsWrittenAre(isObj: bool, ts: seq<Json>, z: string)
    requires AllWellFormed(ts) && AllKeysRight(isObj, ts)
    ensures var close := if isObj then " }" else " ]";
            ItemsWritten(isObj, PartsOf(isObj, ts), false, if ts == [] then "  " else "", z) ==
            " " + EncodeAllTo(ts, close + z)
    decreases ts, 0
  {
    hide *;
    var bracket := [if isObj then '}' else ']'] + z;
    Brackets(isObj, z);
    PartsUnfold(isObj, ts, z);
    if ts != [] {
      var i, rest := PartsOf(isObj, ts)[0], PartsOf(isObj, ts)[1..];
      ItemsWrittenAre(isObj, ts[1..], z);
      var more := if |ts| > 1 then "," + ItemsWritten(isObj, rest, false, "", z) else bracket;
      var y := (if |ts| > 1 then ", " else "") + EncodeAllTo(ts[1..], (if isObj then " }" else " ]") + z);
      SpacedComma(EncodeAllTo(ts[1..], (if isObj then " }" else " ]") + z), bracket);
      assert i.after + more == y;
      NamedIs(isObj, ts[0], y);
      SameWritten(isObj, i, y);
    }
  }

  lemma Brackets(isObj: bool, z: string)
    ensures (if isObj then " }" else " ]") + z == " " + ([if isObj then '}' else ']'] + z)
    ensures "  " + ([if isObj then '}' else ']'] + z) == " " + ((if isObj then " }" else " ]") + z)
  {
  }

  lemma SpacedComma(e: string, bracket: string)
    ensures "" + ("," + (" " + e)) == ", " + e && " " + bracket == "" + (" " + bracket)
  {
  }

  lemma SameWritten(isObj: bool, i: Part, y: string)
    ensures WithName(isObj, i, Written(i.doc, y)) == WithName(isObj, i.(after := ""), Written(i.doc, y))
  {
  }

  lemma PartsUnfold(isObj: bool, ts: seq<Json>, z: string)
    requires AllWellFormed(ts) && AllKeysRight(isObj, ts)
    ensures var close, bracket := if isObj then " }" else " ]", [if isObj then '}' else ']'] + z;
            var items := PartsOf(isObj, ts);
            if ts == [] then
              ItemsWritten(isObj, items, false, "  ", z) == "  " + bracket && EncodeAllTo(ts, close + z) == close + z
            else
              && WellFormed(ts[0]) && KeysRight(ts[0]) && (isObj <==> ts[0].key != "")
              && AllWellFormed(ts[1..]) && AllKeysRight(isObj, ts[1..]) && items[1..] == PartsOf(isObj, ts[1..])
              && (ts[1..] == [] <==> |ts| == 1) && (|ts| == 1 ==> EncodeAllTo(ts[1..], close + z) == close + z)
              && items[0] ==
                 Part(" ", ts[0].key, "", if isObj then " " else "", DocOf(ts[0]), if |ts| == 1 then " " else "")
              && ItemsWritten(isObj, items, false, "", z) ==
                 " " + WithName(isObj, items[0], Written(items[0].doc, items[0].after +
                         if |ts| > 1 then "," + ItemsWritten(isObj, items[1..], false, "", z) else bracket))
              && EncodeAllTo(ts, close + z) ==
                 EncodeTo(ts[0], (if |ts| > 1 then ", " else "") + EncodeAllTo(ts[1..], close + z))
  {
    hide EncodeTo, Written, WellFormed, KeysRight, DocOf, WithName;
    if ts != [] {
      assert PartsOf(isObj, ts)[1..] == PartsOf(isObj, ts[1..]);
    }
  }

  /** A tree with its name, or an element without one */
  lemma {:induction false} NamedIs(isObj: bool, t: Json, y: string)
    requires WellFormed(t) && KeysRight(t) && (isObj <==> t.key != "")
    ensures var i := Part(" ", t.key, "", if isObj then " " else "", DocOf(t), "");
            WithName(isObj, i, Written(DocOf(t), y)) == EncodeTo(t, y)
    decreases t, 2
  {
    WrittenIs(t, y);
    hide Written, EncodeAllTo, Open, WellFormed, KeysRight;
    var w := Written(DocOf(t), y);
    assert EncodeTo(t, y) == KeyPart(t.key) + w;
    assert isObj ==> "\"" + t.key + "\"" + ("" + (":" + (" " + w))) == "\"" + t.key + "\": " + w;
    assert "" + w == w;
  }

  /** What the encoder writes for a well-formed tree is a text of RFC 4627 that stands for the tree. */
  lemma EncodingIsRfc(t: Json) returns (d: Doc)
    requires WellFormed(t) && IsContainer(t) && t.key == "" && KeysRight(t)
    ensures Grammatical(d, true) && d.BoxDoc? && TreeOf(d) == t && Encode(t) == Written(d, "")
  {
    d := DocOf(t);
    DocOfIsRfc(t);
    WrittenIs(t, "");
    EncodeToIs(t, "");
    hide EncodeAllTo, Written, WellFormed, KeysRight, Grammatical, TreeOf, Encode;
    assert t.(key := "") == t;
    assert Encode(t) + "" == Encode(t) && Head(t) == "" + Open(t) == Open(t);
  }

  /** How it writes: "[ 1, true ]" and { "a": "x" } */
  lemma EncodingExamples()
    ensures Encode(Json(ArrayType, "", "", [Leaf(NumberType, "1"), Leaf(TrueType, "")])) == "[ 1, true ]"
    ensures Encode(Json(ObjectType, "", "", [Json(StringType, "a", "x", [])])) == "{ \"a\": \"x\" }"
  {
    var n, y, x := Leaf(NumberType, "1"), Leaf(TrueType, ""), Json(StringType, "a", "x", []);
    ScalarsEncoded();
    TwoEncoded(n, y);
    OneEncoded(x);
    hide EncodeAll;
  }

  lemma ScalarsEncoded()
    ensures Encode(Leaf(NumberType, "1")) == "1" && Encode(Leaf(TrueType, "")) == "true"
    ensures Encode(Json(StringType, "a", "x", [])) == "\"a\": \"x\""
  {
  }

  lemma OneEncoded(t: Json)
    ensures EncodeAll([t]) == Encode(t)
  {
    assert EncodeAll([]) == "" && [t][1..] == [];
  }

  lemma TwoEncoded(t: Json, u: Json)
    ensures EncodeAll([t, u]) == Encode(t) + ", " + Encode(u)
  {
    OneEncoded(u);
    assert [t, u][1..] == [u];
  }
}
