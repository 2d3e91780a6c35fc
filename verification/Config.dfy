/**
 The configuration objects of srcs/toolbox/config.c: a tree of nodes updated in place, saved to a
 string and loaded line by line from a buffer.  ConfigText says what is written and read.
 */
module Config {
  import opened ConfigLaws
  import opened ConfigText
  import opened Wrappers

  // ---------- Lines ----------

  /** u_config_buf_s: the text still to be read */
  class Source {
    var data: string

    constructor (data: string)
      ensures this.data == data
    {
      this.data := data;
    }

    /** u_config_buf_gets: what is copied into a buffer of `size` characters, before its NUL */
    method Gets(size: nat) returns (buf: Option<string>)
      requires size > 1
      modifies this
      ensures IsEof(old(data)) ==> buf.None? && data == old(data)
      ensures !IsEof(old(data)) ==>
        var n := Chunk(old(data), size - 1); buf == Some(old(data)[..n]) && data == old(data)[n..]
    {
      if IsEof(data) {
        return None;
      }
      var s, left := "", size - 1;
      ghost var was := data;
      while left > 0 && data != ""
        invariant |s| + left == size - 1 && s + data == was && |s| <= |was|
        invariant Chunk(was, size - 1) == |s| + Chunk(data, left)
        decreases left
      {
        var c := data[0];
        assert s + data == s + [c] + data[1..];
        s, data, left := s + [c], data[1..], left - 1;
        if c == '\n' {
          break;
        }
      }
      assert was[..|s|] == s && was[|s|..] == data;
      buf := Some(s);
    }

    /** cs_getline */
    method Line() returns (line: Option<string>)
      modifies this
      ensures (line, data) == GetLine(old(data))
    {
      var ln := "";
      LongerLaws("", "", GetLine(data));
      while true
        invariant |data| <= |old(data)|
        invariant GetLine(old(data)) == Longer(ln, GetLine(data))
        decreases |data|
      {
        var p := Gets(BUFSZ);
        if p.None? {
          return None;
        }
        var buf := ToNul(p.value);
        var len := |buf| - 1;
        LongerLaws(ln, buf[..len], GetLine(data));
        ln := ln + buf[..len];
        if IsNl(buf[len]) {
          return Some(ln);
        }
      }
    }
  }

  function Longer(s: string, l: (Option<string>, string)): (Option<string>, string) {
    (if l.0.Some? then Some(s + l.0.value) else None, l.1)
  }

  lemma LongerLaws(a: string, b: string, l: (Option<string>, string))
    ensures Longer("", l) == l && Longer(a, Longer(b, l)) == Longer(a + b, l)
  {
    if l.0.Some? {
      assert "" + l.0.value == l.0.value;
      assert a + (b + l.0.value) == a + b + l.0.value;
    }
  }

  /** u_trim */
  method TrimBlanks(s: string) returns (r: string)
    ensures r == Trim(s)
  {
    r := s;
    while r != "" && IsBlank(r[|r| - 1])
      invariant TrimRight(r) == TrimRight(s)
      decreases |r|
    {
      r := r[..|r| - 1];
    }
    while r != "" && IsBlank(r[0])
      invariant TrimLeft(r) == Trim(s)
      decreases |r|
    {
      r := r[1..];
    }
  }

  /** u_config_remove_comment, for a line that fits its buffer; the backslash before a "#" is shifted out. */
  method RemoveComment(line: string) returns (ln: string)
    ensures ln == Uncomment("", line)
  {
    ln := line;
    var p := 0;
    var last := '\0';
    while p < |ln|
      invariant p <= |ln| && last == (if p == 0 then '\0' else ln[p - 1])
      invariant Uncomment(ln[..p], ln[p..]) == Uncomment("", line)
      decreases |ln| - p
    {
      if ln[p] == '#' {
        if last != '\\' {
          ln := ln[..p];
          break;
        }
        last := ln[p];
        Shifted(ln, p);
        ln := ln[..p - 1] + ln[p..];
        continue;
      }
      last := ln[p];
      Advanced(ln, p);
      p := p + 1;
    }
  }

  lemma Advanced(s: string, p: nat)
    requires p < |s|
    ensures s[..p] + [s[p]] == s[..p + 1] && s[p..] == [s[p]] + s[p + 1..] && s[p..][1..] == s[p + 1..]
  {
  }

  lemma Shifted(s: string, p: nat)
    requires 0 < p < |s|
    ensures var r := s[..p - 1] + s[p..];
            |r| == |s| - 1 && r[p - 1] == s[p] && r[..p] == s[..p][..p - 1] + [s[p]] && r[p..] == s[p..][1..]
  {
  }

  /** The part of u_config_do_load_drv that looks at one line */
  method Parse(line: string) returns (l: ConfigText.Line)
    ensures l == ReadLine(line)
  {
    if |line| >= LINESZ {
      return Bad;
    }
    ghost var plain := Uncomment("", line);
    var ln := RemoveComment(line);
    ln := TrimBlanks(ln);
    while ln != "" && IsNl(ln[|ln| - 1])
      invariant DropNls(ln) == DropNls(Trim(plain))
      decreases |ln|
    {
      ln := ln[..|ln| - 1];
    }
    while ln != "" && IsBlank(ln[0])
      invariant TrimLeft(ln) == TrimLeft(DropNls(Trim(plain)))
      decreases |ln|
    {
      ln := ln[1..];
    }
    l := ParseTrimmed(ln);
  }

  /** The same, for a line without blanks and newlines around it */
  method ParseTrimmed(ln: string) returns (l: ConfigText.Line)
    ensures l == ReadTrimmed(ln)
  {
    if ln == "" {
      return Empty;
    } else if ln[0] == '{' {
      return if AllBlank(ln[1..]) then Open else Bad;
    } else if ln[0] == '}' {
      return if AllBlank(ln[1..]) then Close else Bad;
    }
    var p := 0;
    while p < |ln| && !IsBlank(ln[p])
      invariant p <= |ln| && forall i :: 0 <= i < p ==> !IsBlank(ln[i])
    {
      p := p + 1;
    }
    assert p == KeyLen(ln);
    var key := ln[..p];
    var value := TrimBlanks(ln[p..]);
    if key == "include" || key == "-include" || HasVariable(value) {
      return Unmodelled;
    }
    l := if value == "" then Name(key) else Pair(key, value);
  }

  // ---------- Nodes ----------

  /** u_config_t; only the root has no parent. */
  class Node {
    const key: string
    const parent: Node?
    var value: Option<string>
    var children: seq<Node>

    /** u_config_create, with what u_config_add_child sets */
    constructor (key: string, parent: Node?)
      ensures this.key == key && this.parent == parent && value == None && children == []
    {
      this.key, this.parent, value, children := key, parent, None, [];
    }
  }

  /** The nodes below a node, for specifications */
  datatype Plan = Plan(node: Node, kids: seq<Plan>)

  ghost function Nodes(p: Plan): set<Node>
    decreases p, 0
  {
    {p.node} + AllNodes(p.kids)
  }

  ghost function AllNodes(ps: seq<Plan>): set<Node>
    decreases ps, 1
  {
    if ps == [] then {} else AllNodes(ps[..|ps| - 1]) + Nodes(ps[|ps| - 1])
  }

  /** The nodes planned by `p`, all different, hold the tree `t`. */
  ghost predicate Holds(p: Plan, t: Tree)
    reads Nodes(p)
    decreases p, 0
  {
    && p.node.key == t.key && p.node.value == t.value && p.node !in AllNodes(p.kids)
    && AllHold(p.node, p.node.children, p.kids, t.kids)
  }

  /** The children `ns` of `c`, planned by `ps`, hold `ts`. */
  ghost predicate AllHold(c: Node, ns: seq<Node>, ps: seq<Plan>, ts: seq<Tree>)
    reads AllNodes(ps)
    decreases ps, 1
  {
    && |ns| == |ps| == |ts|
    && (ps == [] ||
        var n := |ps| - 1;
        && ns[n] == ps[n].node && ns[n].parent == c && Holds(ps[n], ts[n])
        && Nodes(ps[n]) !! AllNodes(ps[..n])
        && AllHold(c, ns[..n], ps[..n], ts[..n]))
  }

  /** `c` and the nodes below it are different and hold a tree with children `ts`. */
  ghost predicate Has(c: Node, ps: seq<Plan>, ts: seq<Tree>)
    reads c, AllNodes(ps)
  {
    c !in AllNodes(ps) && AllHold(c, c.children, ps, ts)
  }

  // ---------- Saving ----------

  class StringBuf {
    var s: string

    constructor ()
      ensures s == ""
    {
      s := "";
    }
  }

  lemma {:induction false} KidHolds(c: Node, ns: seq<Node>, ps: seq<Plan>, ts: seq<Tree>, i: nat)
    requires AllHold(c, ns, ps, ts) && i < |ps|
    ensures |ns| == |ps| == |ts| && ns[i] == ps[i].node && ns[i].parent == c && Holds(ps[i], ts[i])
    ensures Nodes(ps[i]) <= AllNodes(ps)
    decreases |ps|
  {
    var n := |ps| - 1;
    if i < n {
      KidHolds(c, ns[..n], ps[..n], ts[..n], i);
    }
  }

  /** u_config_to_str */
  method ToStr(c: Node, out: StringBuf, ghost p: Plan, ghost t: Tree)
    requires p.node == c && Holds(p, t)
    modifies out
    ensures out.s == old(out.s) + if c.parent == null then Items(t.kids) else Item(t)
    decreases p, 0
  {
    hide AllHold, HeadLine, AllNodes;
    ghost var head := if c.parent == null then "" else HeadLine(t);
    assert allocated(AllNodes(p.kids));
    HeadToStr(c, out, t);
    assert AllHold(c, c.children, p.kids, t.kids);
    SameCount(c, c.children, p.kids, t.kids);
    if c.children != [] {
      if c.parent != null {
        out.s := out.s + "{\n";
      }
      assert AllHold(c, c.children, p.kids, t.kids);
      KidsToStr(c, out, p.kids, t.kids);
      if c.parent != null {
        out.s := out.s + "}\n";
        assert out.s == old(out.s) + head + "{\n" + Items(t.kids) + "}\n";
        assert out.s == old(out.s) + (head + ("{\n" + Items(t.kids) + "}\n"));
      }
    }
  }

  /** The first part of u_config_to_str */
  method HeadToStr(c: Node, out: StringBuf, ghost t: Tree)
    requires c.key == t.key && c.value == t.value
    modifies out
    ensures out.s == old(out.s) + if c.parent == null then "" else HeadLine(t)
  {
    if c.parent != null && c.key != "include" {
      var line := c.key + " " + (if c.value.Some? then c.value.value else "") + "\n";
      out.s := out.s + line;
    }
  }

  lemma SameCount(c: Node, ns: seq<Node>, ps: seq<Plan>, ts: seq<Tree>)
    requires AllHold(c, ns, ps, ts)
    ensures |ns| == |ps| == |ts|
  {
  }

  /** The loop of u_config_to_str over the children */
  method KidsToStr(c: Node, out: StringBuf, ghost ps: seq<Plan>, ghost ts: seq<Tree>)
    requires AllHold(c, c.children, ps, ts)
    modifies out
    ensures out.s == old(out.s) + Items(ts)
    decreases ps, 1
  {
    hide AllHold, Holds, Item, AllNodes, Nodes;
    SameCount(c, c.children, ps, ts);
    assert allocated(AllNodes(ps));
    for i := 0 to |c.children|
      invariant AllHold(c, c.children, ps, ts)
      invariant out.s == old(out.s) + Items(ts[..i])
    {
      KidHolds(c, c.children, ps, ts, i);
      ToStr(c.children[i], out, ps[i], ts[i]);
      assert AllHold(c, c.children, ps, ts);
      assert ts[..i + 1][..i] == ts[..i];
    }
    assert ts[..|c.children|] == ts;
  }

  // ---------- Children ----------

  lemma {:induction false} AllHoldAppend(c: Node, ns: seq<Node>, ps: seq<Plan>, ts: seq<Tree>, p: Plan, t: Tree)
    requires AllHold(c, ns, ps, ts) && Holds(p, t) && p.node.parent == c && Nodes(p) !! AllNodes(ps)
    ensures AllHold(c, ns + [p.node], ps + [p], ts + [t])
    ensures AllNodes(ps + [p]) == AllNodes(ps) + Nodes(p)
  {
    assert (ns + [p.node])[..|ns|] == ns && (ps + [p])[..|ps|] == ps && (ts + [t])[..|ts|] == ts;
  }

  lemma {:induction false} KidNodes(ps: seq<Plan>, i: nat)
    requires i < |ps|
    ensures Nodes(ps[i]) <= AllNodes(ps)
    decreases |ps|
  {
    var k := |ps| - 1;
    if i < k {
      KidNodes(ps[..k], i);
    }
  }

  /** AllHold, less what it says of the nodes below child `i` and of that child. */
  ghost predicate AllBut(c: Node, ns: seq<Node>, ps: seq<Plan>, ts: seq<Tree>, i: nat)
    requires i < |ps|
    reads AllNodes(ps) - Nodes(ps[i])
    decreases |ps|
  {
    && |ns| == |ps| == |ts|
    && var n := |ps| - 1;
       && ns[n] == ps[n].node && ns[n].parent == c && Nodes(ps[n]) !! AllNodes(ps[..n])
       && if i == n then AllHold(c, ns[..n], ps[..n], ts[..n])
          else
            KidNodes(ps[..n], i);
            Holds(ps[n], ts[n]) && AllBut(c, ns[..n], ps[..n], ts[..n], i)
  }

  lemma {:induction false} HoldsBut(c: Node, ns: seq<Node>, ps: seq<Plan>, ts: seq<Tree>, i: nat)
    requires AllHold(c, ns, ps, ts) && i < |ps|
    ensures AllBut(c, ns, ps, ts, i) && i < |ts| && Holds(ps[i], ts[i]) && Nodes(ps[i]) <= AllNodes(ps)
    decreases |ps|
  {
    if i < |ps| - 1 {
      HoldsBut(c, ns[..|ps| - 1], ps[..|ps| - 1], ts[..|ps| - 1], i);
    }
  }

  /** The nodes of `p` are nodes of child `i` or among `new_`. */
  lemma {:induction false} AllHoldUpdate(c: Node, ns: seq<Node>, ps: seq<Plan>, ts: seq<Tree>, i: nat, p: Plan,
                                         t: Tree, more: set<Node>)
    requires i < |ps| && i < |ts| && AllBut(c, ns, ps, ts, i) && Holds(p, t) && p.node == ps[i].node
    requires Nodes(p) <= Nodes(ps[i]) + more && more !! AllNodes(ps)
    ensures AllHold(c, ns, ps[i := p], ts[i := t])
    ensures AllNodes(ps[i := p]) <= AllNodes(ps) + more
    decreases |ps|
  {
    var k := |ps| - 1;
    var ps', ts' := ps[i := p], ts[i := t];
    if i == k {
      assert ps'[..k] == ps[..k] && ts'[..k] == ts[..k];
    } else {
      assert ps'[..k] == ps[..k][i := p] && ts'[..k] == ts[..k][i := t];
      KidNodes(ps[..k], i);
      AllHoldUpdate(c, ns[..k], ps[..k], ts[..k], i, p, t, more);
    }
  }

  /** u_config_get_child */
  method GetChild(c: Node, key: string, ghost ps: seq<Plan>, ghost ts: seq<Tree>) returns (child: Node?, ghost i: nat)
    requires Has(c, ps, ts)
    ensures Has(c, ps, ts) && |ps| == |ts| && i == FindKid(ts, key)
    ensures if i == |ts| then child == null
            else i < |ps| && child == ps[i].node && Holds(ps[i], ts[i]) && child in AllNodes(ps)
    ensures if child == null then forall n :: n in c.children ==> n.key != key
            else child in c.children && child.key == key
  {
    SameCount(c, c.children, ps, ts);
    assert allocated(AllNodes(ps));
    for k := 0 to |c.children|
      invariant AllHold(c, c.children, ps, ts)
      invariant forall l :: 0 <= l < k ==> ts[l].key != key && c.children[l].key != key
    {
      KidHolds(c, c.children, ps, ts, k);
      if c.children[k].key == key {
        i := k;
        FindKidIs(ts, key, k);
        return c.children[k], k;
      }
    }
    FindKidIs(ts, key, |ts|);
    return null, |ts|;
  }

  lemma FindKidIs(ts: seq<Tree>, key: string, i: nat)
    requires i <= |ts| && (i < |ts| ==> ts[i].key == key) && forall l :: 0 <= l < i ==> ts[l].key != key
    ensures FindKid(ts, key) == i
  {
    var k := FindKid(ts, key);
  }

  /** u_config_add_child */
  method AddChild(c: Node, key: string, ghost ps: seq<Plan>, ghost ts: seq<Tree>) returns (child: Node)
    requires Has(c, ps, ts)
    modifies c`children
    ensures fresh(child) && child.key == key && child.parent == c
    ensures Holds(Plan(child, []), Tree(key, None, []))
    ensures Has(c, ps + [Plan(child, [])], ts + [Tree(key, None, [])])
    ensures AllNodes(ps + [Plan(child, [])]) == AllNodes(ps) + {child}
  {
    assert allocated(AllNodes(ps));
    child := new Node(key, c);
    ghost var p := Plan(child, []);
    assert AllHold(c, c.children, ps, ts);
    assert Nodes(p) == {child} && child !in AllNodes(ps);
    c.children := c.children + [child];
    assert AllHold(c, old(c.children), ps, ts);
    assert Holds(p, Tree(key, None, []));
    AllHoldAppend(c, old(c.children), ps, ts, p, Tree(key, None, []));
  }

  /** u_config_set_value, for a value without variables */
  method SetValue(c: Node, val: string)
    requires !HasVariable(val)
    modifies c`value
    ensures c.value == Some(Trim(val)) && Trimmed(val, Trim(val))
  {
    TrimIsTrimmed(val);
    var v := TrimBlanks(val);
    c.value := Some(v);
  }

  // ---------- Setting keys ----------

  /** The plan and the tree with child `i` changed */
  lemma {:induction false} KidChanged(c: Node, ps: seq<Plan>, ts: seq<Tree>, i: nat, p: Plan, t: Tree, more: set<Node>)
    requires i < |ps| && i < |ts| && AllBut(c, c.children, ps, ts, i) && Holds(p, t) && p.node == ps[i].node
    requires Nodes(p) <= Nodes(ps[i]) + more && more !! AllNodes(ps) && c !in AllNodes(ps) + more
    ensures Has(c, ps[i := p], ts[i := t]) && AllNodes(ps[i := p]) <= AllNodes(ps) + more
  {
    AllHoldUpdate(c, c.children, ps, ts, i, p, t, more);
  }

  /** u_config_do_set_key: the last part of the key */
  method SetPlainKey(c: Node, key: string, val: string, over: bool, ghost ps: seq<Plan>, ghost ts: seq<Tree>)
    returns (ghost ps': seq<Plan>)
    requires !HasVariable(val)
    requires Has(c, ps, ts) && DotAt(key) == |key|
    modifies c`children, AllNodes(ps)
    ensures Has(c, ps', SetKey(ts, key, val, over))
    ensures forall n :: n in AllNodes(ps') ==> n in AllNodes(ps) || fresh(n)
  {
    hide AllHold, Holds, AllBut;
    assert key[..|key|] == key;
    ghost var i;
    var child;
    child, i := GetChild(c, key, ps, ts);
    if child == null || !over {
      child := AddChild(c, key, ps, ts);
      ps' := ps + [Plan(child, [])];
      ghost var ts1 := ts + [Tree(key, None, [])];
      SetChildValue(c, child, val, ps', ts1, |ps|);
      assert ts1[|ts| := Tree(key, Some(Trim(val)), [])] == ts + [Tree(key, Some(Trim(val)), [])];
    } else {
      ps' := ps;
      SetChildValue(c, child, val, ps, ts, i);
    }
  }

  /** u_config_set_value on child `i` */
  method SetChildValue(c: Node, child: Node, val: string, ghost ps: seq<Plan>, ghost ts: seq<Tree>, ghost i: nat)
    requires !HasVariable(val)
    requires Has(c, ps, ts) && i < |ps| && i < |ts| && child == ps[i].node
    modifies child`value
    ensures Has(c, ps, ts[i := ts[i].(value := Some(Trim(val)))])
  {
    hide AllHold, AllBut;
    HoldsBut(c, c.children, ps, ts, i);
    assert allocated(AllNodes(ps)) && allocated(AllNodes(ps[i].kids));
    ghost var t := ts[i].(value := Some(Trim(val)));
    SetValue(child, val);
    assert AllBut(c, c.children, ps, ts, i);
    assert Holds(ps[i], t);
    KidChanged(c, ps, ts, i, ps[i], t, {});
    assert ps[i := ps[i]] == ps;
  }

  /** strchr, for the dot that ends the first part of a key */
  method FirstDot(key: string) returns (p: nat)
    ensures p == DotAt(key)
  {
    p := 0;
    while p < |key| && key[p] != '.'
      invariant p <= |key| && forall j :: 0 <= j < p ==> key[j] != '.'
    {
      p := p + 1;
    }
  }

  lemma HeldBelow(p: Plan, t: Tree)
    requires Holds(p, t)
    ensures Has(p.node, p.kids, t.kids) && p.node.value == t.value && AllNodes(p.kids) <= Nodes(p)
  {
  }

  /** u_config_get_subkey: the first child of each name, part by part */
  method GetSubkey(c: Node, key: string, ghost ps: seq<Plan>, ghost ts: seq<Tree>) returns (child: Node?)
    requires Has(c, ps, ts)
    ensures child == null <==> NodeAt(ts, key).None?
    ensures child != null ==> child in AllNodes(ps) && child.value == ValueAt(ts, key)
    decreases |key|
  {
    hide AllHold, Holds;
    assert allocated(AllNodes(ps));
    var p := FirstDot(key);
    ghost var i;
    child, i := GetChild(c, key[..p], ps, ts);
    if child != null && p < |key| {
      KidNodes(ps, i);
      HeldBelow(ps[i], ts[i]);
      child := GetSubkey(child, key[p + 1..], ps[i].kids, ts[i].kids);
    }
  }

  /** u_config_do_set_key */
  method DoSetKey(c: Node, key: string, val: string, over: bool, ghost ps: seq<Plan>, ghost ts: seq<Tree>)
    returns (ghost ps': seq<Plan>)
    requires !HasVariable(val)
    requires Has(c, ps, ts)
    modifies c`children, AllNodes(ps)
    ensures Has(c, ps', SetKey(ts, key, val, over))
    ensures IsSet(ts, key, Trim(val), over, SetKey(ts, key, val, over)) && Trimmed(val, Trim(val))
    ensures forall n :: n in AllNodes(ps') ==> n in AllNodes(ps) || fresh(n)
    decreases |key|, 2
  {
    SetKeyIsSet(ts, key, val, over);
    TrimIsTrimmed(val);
    hide IsSet, Trimmed, Trim, AllHold;
    assert allocated(AllNodes(ps));
    var p := FirstDot(key);
    if p == |key| {
      ps' := SetPlainKey(c, key, val, over, ps, ts);
    } else {
      ps' := SetDottedKey(c, key, p, val, over, ps, ts);
    }
  }

  /** u_config_do_set_key: the first part of a dotted key, and what is below its child */
  method SetDottedKey(c: Node, key: string, p: nat, val: string, over: bool, ghost ps: seq<Plan>, ghost ts: seq<Tree>)
    returns (ghost ps': seq<Plan>)
    requires !HasVariable(val)
    requires Has(c, ps, ts) && p == DotAt(key) < |key|
    modifies c`children, AllNodes(ps)
    ensures Has(c, ps', SetKey(ts, key, val, over))
    ensures forall n :: n in AllNodes(ps') ==> n in AllNodes(ps) || fresh(n)
    decreases |key|, 1
  {
    hide AllHold, Holds, AllBut;
    ghost var i;
    var child;
    child, i := GetChild(c, key[..p], ps, ts);
    if child == null {
      ps' := SetBelowNew(c, key[..p], key[p + 1..], val, over, ps, ts);
    } else {
      ps' := SetBelow(c, child, key[p + 1..], val, over, ps, ts, i);
    }
  }

  /** The rest of a dotted key is set below a new child. */
  method SetBelowNew(c: Node, name: string, key: string, val: string, over: bool, ghost ps: seq<Plan>,
                     ghost ts: seq<Tree>)
    returns (ghost ps': seq<Plan>)
    requires !HasVariable(val)
    requires Has(c, ps, ts) && |ps| == |ts|
    modifies c`children, AllNodes(ps)
    ensures Has(c, ps', ts + [Tree(name, None, SetKey([], key, val, over))])
    ensures forall n :: n in AllNodes(ps') ==> n in AllNodes(ps) || fresh(n)
    decreases |key|, 4
  {
    hide AllHold, Holds, AllBut, SetKey;
    var child := AddChild(c, name, ps, ts);
    ghost var ts1 := ts + [Tree(name, None, [])];
    ps' := SetBelow(c, child, key, val, over, ps + [Plan(child, [])], ts1, |ps|);
    assert ts1[|ts| := ts1[|ts|].(kids := SetKey([], key, val, over))] ==
           ts + [Tree(name, None, SetKey([], key, val, over))];
  }

  /** The rest of a dotted key is set below child `i`. */
  method SetBelow(c: Node, child: Node, key: string, val: string, over: bool, ghost ps: seq<Plan>,
                  ghost ts: seq<Tree>, ghost i: nat)
    returns (ghost ps': seq<Plan>)
    requires !HasVariable(val)
    requires Has(c, ps, ts) && i < |ps| && i < |ts| && child == ps[i].node
    modifies AllNodes(ps)
    ensures Has(c, ps', ts[i := ts[i].(kids := SetKey(ts[i].kids, key, val, over))])
    ensures forall n :: n in AllNodes(ps') ==> n in AllNodes(ps) || fresh(n)
    decreases |key|, 3
  {
    hide AllHold, AllBut;
    HoldsBut(c, c.children, ps, ts, i);
    assert allocated(AllNodes(ps)) && allocated(AllNodes(ps[i].kids));
    ghost var t := ts[i].(kids := SetKey(ts[i].kids, key, val, over));
    ghost var sub := DoSetKey(child, key, val, over, ps[i].kids, ts[i].kids);
    assert AllBut(c, c.children, ps, ts, i);
    ghost var p := Plan(child, sub);
    assert Holds(p, t);
    KidChanged(c, ps, ts, i, p, t, Nodes(p) - Nodes(ps[i]));
    ps' := ps[i := p];
  }

  // ---------- Loading ----------

  datatype Rc = Loaded | Failed | NotModelled

  /** The outcome of a load, as the code reports it */
  function RcOf(o: Outcome): Rc {
    match o
    case Done(_, _) => Loaded
    case Fail => Failed
    case Beyond => NotModelled
  }

  lemma PairIsPlain(line: string)
    requires ReadLine(line).Pair?
    ensures !HasVariable(ReadLine(line).value)
  {
  }

  /** u_config_do_load_drv, over a buffer */
  method DoLoad(c: Node, g: Source, over: bool, ghost ps: seq<Plan>, ghost ts: seq<Tree>)
    returns (rc: Rc, ghost ps': seq<Plan>)
    requires Has(c, ps, ts)
    modifies g, c`children, AllNodes(ps)
    ensures var o := Load(old(g.data), ts, "", c.parent == null, over);
            && rc == RcOf(o) && (rc == Loaded <==> o.Done?) && (rc == Failed <==> o.Fail?)
            && (o.Done? ==> Has(c, ps', o.kids) && g.data == o.rest)
    ensures forall n :: n in AllNodes(ps') ==> n in AllNodes(ps) || fresh(n)
    decreases |g.data|, 2
  {
    hide AllHold, AllNodes, SetKey, GetLine, ReadLine, Put, GroupAt;
    var lastkey := "";
    ghost var cur := ts;
    ps' := ps;
    while true
      invariant Has(c, ps', cur) && |g.data| <= |old(g.data)|
      invariant Load(old(g.data), ts, "", c.parent == null, over) == Load(g.data, cur, lastkey, c.parent == null, over)
      invariant forall n :: n in AllNodes(ps') ==> n in AllNodes(ps) || fresh(n)
      decreases |g.data|
    {
      assert allocated(AllNodes(ps'));
      var line := g.Line();
      if line.None? {
        return Loaded, ps';
      }
      assert Has(c, ps', cur);
      var l := Parse(line.value);
      match l {
        case Empty =>
        case Bad => return Failed, ps';
        case Unmodelled => return NotModelled, ps';
        case Name(key) => lastkey := key;
        case Pair(key, value) =>
          PairIsPlain(line.value);
          ps' := DoSetKey(c, key, value, over, ps', cur);
          cur := SetKey(cur, key, value, over);
        case Close =>
          return if c.parent == null then Failed else Loaded, ps';
        case Open =>
          if lastkey == "" {
            return Failed, ps';
          }
          ghost var o;
          rc, ps', o := LoadGroup(c, g, lastkey, over, ps', cur);
          if rc != Loaded {
            return;
          }
          cur, lastkey := o, "";
      }
    }
  }

  /** The case of "{" in u_config_do_load_drv: what follows is loaded into a child. */
  method LoadGroup(c: Node, g: Source, lastkey: string, over: bool, ghost ps: seq<Plan>, ghost ts: seq<Tree>)
    returns (rc: Rc, ghost ps': seq<Plan>, ghost ts': seq<Tree>)
    requires Has(c, ps, ts)
    modifies g, c`children, AllNodes(ps)
    ensures var i := GroupAt(ts, lastkey, over);
            var child := if i < |ts| then ts[i] else Tree(lastkey, None, []);
            var o := Load(old(g.data), child.kids, "", false, over);
            && rc == RcOf(o)
            && (o.Done? ==> g.data == o.rest && ts' == Put(ts, i, child.(kids := o.kids)) && Has(c, ps', ts'))
    ensures forall n :: n in AllNodes(ps') ==> n in AllNodes(ps) || fresh(n)
    decreases |g.data|, 4
  {
    hide AllHold, Holds, AllBut, Load, AllNodes, GroupAt;
    ghost var i, ps1, ts1;
    var child;
    child, i, ps1, ts1 := GroupChild(c, lastkey, over, ps, ts);
    rc, ps', ts' := LoadChild(c, child, g, over, ps1, ts1, i);
    PutLast(ts, Tree(lastkey, None, []));
  }

  lemma PutLast(ts: seq<Tree>, t: Tree)
    ensures forall u :: (ts + [t])[|ts| := u] == ts + [u]
  {
  }

  /** The child that a group goes to, found or added */
  method GroupChild(c: Node, lastkey: string, over: bool, ghost ps: seq<Plan>, ghost ts: seq<Tree>)
    returns (child: Node, ghost i: nat, ghost ps': seq<Plan>, ghost ts': seq<Tree>)
    requires Has(c, ps, ts)
    modifies c`children
    ensures Has(c, ps', ts') && i < |ps'| && child == ps'[i].node
    ensures i == GroupAt(ts, lastkey, over) < |ts'|
    ensures ts' == if i < |ts| then ts else ts + [Tree(lastkey, None, [])]
    ensures forall n :: n in AllNodes(ps') ==> n in AllNodes(ps) || fresh(n)
  {
    hide AllHold, Holds;
    ps', ts' := ps, ts;
    var found: Node? := null;
    SameCount(c, c.children, ps, ts);
    if over {
      found, i := GetChild(c, lastkey, ps, ts);
    }
    if found == null {
      child := AddChild(c, lastkey, ps, ts);
      i, ps', ts' := |ts|, ps + [Plan(child, [])], ts + [Tree(lastkey, None, [])];
    } else {
      child := found;
    }
  }

  /** The group goes to child `i`. */
  method LoadChild(c: Node, child: Node, g: Source, over: bool, ghost ps: seq<Plan>, ghost ts: seq<Tree>, ghost i: nat)
    returns (rc: Rc, ghost ps': seq<Plan>, ghost ts': seq<Tree>)
    requires Has(c, ps, ts) && i < |ps| && i < |ts| && child == ps[i].node
    modifies g, AllNodes(ps)
    ensures var o := Load(old(g.data), ts[i].kids, "", false, over);
            && rc == RcOf(o)
            && (o.Done? ==> g.data == o.rest && ts' == ts[i := ts[i].(kids := o.kids)] && Has(c, ps', ts'))
    ensures forall n :: n in AllNodes(ps') ==> n in AllNodes(ps) || fresh(n)
    decreases |g.data|, 3
  {
    hide AllHold, AllBut, Load;
    HoldsBut(c, c.children, ps, ts, i);
    KidHolds(c, c.children, ps, ts, i);
    assert allocated(AllNodes(ps)) && allocated(AllNodes(ps[i].kids));
    ghost var o := Load(g.data, ts[i].kids, "", false, over);
    ghost var sub;
    rc, sub := DoLoad(child, g, over, ps[i].kids, ts[i].kids);
    ps', ts' := ps, ts;
    if o.Done? {
      ghost var t := ts[i].(kids := o.kids);
      assert AllBut(c, c.children, ps, ts, i);
      ghost var p := Plan(child, sub);
      assert Holds(p, t);
      KidChanged(c, ps, ts, i, p, t, Nodes(p) - Nodes(ps[i]));
      ps', ts' := ps[i := p], ts[i := t];
    }
  }

  /** u_config_save_to_buf: the text and its NUL must fit the buffer. */
  method SaveToBuf(c: Node, size: nat, ghost p: Plan, ghost t: Tree) returns (buf: Option<string>)
    requires p.node == c && Holds(p, t)
    ensures var text := if c.parent == null then Items(t.kids) else Item(t);
            buf == if |text| < size then Some(text) else None
  {
    assert allocated(Nodes(p));
    var s := new StringBuf();
    assert Holds(p, t);
    ToStr(c, s, p, t);
    assert s.s == if c.parent == null then Items(t.kids) else Item(t);
    buf := if |s.s| >= size then None else Some(s.s);
  }

  /** u_config_load_from_buf */
  method LoadFromBuf(buf: string) returns (rc: Rc, c: Node, ghost ps: seq<Plan>)
    ensures var o := Load(buf, [], "", true, false);
            && (rc == Loaded <==> o.Done?) && (rc == Failed <==> o.Fail?)
            && (o.Done? ==> Holds(Plan(c, ps), Tree("", None, o.kids)))
    ensures fresh(c) && c.parent == null
  {
    c := new Node("", null);
    var g := new Source(buf);
    ghost var o := Load(buf, [], "", true, false);
    rc, ps := DoLoad(c, g, false, [], []);
    if o.Done? {
      assert Has(c, ps, o.kids);
    }
  }
}
