/**
 What setting a key of a configuration of srcs/toolbox/config.c changes, and what is found under every key
 afterwards.
 */
module ConfigLaws {
  import opened ConfigText
  import opened Wrappers

  // ---------- Values are trimmed ----------

  predicate Blanks(s: string) { forall i :: 0 <= i < |s| ==> s[i] in {' ', '\t'} }

  /** `v` is `s` without the blanks around it. */
  ghost predicate Trimmed(s: string, v: string) {
    && (v != "" ==> v[0] !in {' ', '\t'} && v[|v| - 1] !in {' ', '\t'})
    && exists a, b :: Blanks(a) && Blanks(b) && s == a + v + b
  }

  lemma {:induction false} TrimLeftIs(s: string) returns (a: string)
    ensures Blanks(a) && s == a + TrimLeft(s) && (TrimLeft(s) != "" ==> TrimLeft(s)[0] !in {' ', '\t'})
    decreases |s|
  {
    a := "";
    if s != "" && IsBlank(s[0]) {
      var a1 := TrimLeftIs(s[1..]);
      a := [s[0]] + a1;
      assert s == [s[0]] + s[1..];
    }
  }

  lemma {:induction false} TrimRightIs(s: string) returns (b: string)
    ensures Blanks(b) && s == TrimRight(s) + b
    ensures TrimRight(s) != "" ==> TrimRight(s)[|TrimRight(s)| - 1] !in {' ', '\t'}
    decreases |s|
  {
    b := "";
    if s != "" && IsBlank(s[|s| - 1]) {
      var b1 := TrimRightIs(s[..|s| - 1]);
      b := b1 + [s[|s| - 1]];
      assert s == s[..|s| - 1] + [s[|s| - 1]];
    }
  }

  lemma TrimIsTrimmed(s: string)
    ensures Trimmed(s, Trim(s))
  {
    var b := TrimRightIs(s);
    var r := TrimRight(s);
    var a := TrimLeftIs(r);
    SameEnd(a, TrimLeft(r));
    hide TrimLeft, TrimRight;
  }

  lemma SameEnd(a: string, v: string)
    ensures v != "" ==> (a + v)[|a + v| - 1] == v[|v| - 1]
  {
  }

  lemma BlanksDropped(a: string, m: string, c: string)
    requires Blanks(a) && Blanks(c) && (m != "" ==> m[0] !in {' ', '\t'} && m[|m| - 1] !in {' ', '\t'})
    ensures Trim(a + m + c) == m
  {
    hide TrimLeft, TrimRight;
    if m != "" {
      SameEnd(a, m);
      DroppedRight(a + m, c);
      DroppedLeft(a, m);
    } else {
      assert a + m + c == "" + (a + c);
      DroppedRight("", a + c);
      DroppedLeft("", "");
      assert "" + "" == "";
    }
  }

  lemma {:induction false} DroppedRight(m: string, c: string)
    requires Blanks(c) && (m != "" ==> m[|m| - 1] !in {' ', '\t'})
    ensures TrimRight(m + c) == m
    decreases |c|
  {
    var s := m + c;
    if c == "" {
      assert s == m;
    } else {
      assert s[..|s| - 1] == m + c[..|c| - 1] && s[|s| - 1] == c[|c| - 1];
      DroppedRight(m, c[..|c| - 1]);
    }
  }

  lemma {:induction false} DroppedLeft(a: string, m: string)
    requires Blanks(a) && (m != "" ==> m[0] !in {' ', '\t'})
    ensures TrimLeft(a + m) == m
    decreases |a|
  {
    if a == "" {
      assert a + m == m;
    } else {
      assert (a + m)[1..] == a[1..] + m;
      DroppedLeft(a[1..], m);
    }
  }

  // ---------- What is written ----------

  lemma Appended(ts: seq<Tree>, t: Tree)
    ensures Items([]) == "" && Items(ts + [t]) == Items(ts) + Item(t)
  {
    assert (ts + [t])[..|ts|] == ts;
  }

  /** A value is saved as a line, and nothing for an include directive. */
  lemma ValueIsSaved(ts: seq<Tree>, key: string, value: string)
    requires key != "include"
    ensures Items([]) == "" && Items(ts + [Tree(key, Some(value), [])]) == Items(ts) + (key + " " + value + "\n")
    ensures Items(ts + [Tree("include", Some(value), [])]) == Items(ts)
  {
    Appended(ts, Tree("include", Some(value), []));
    Appended(ts, Tree(key, Some(value), []));
    assert key + " " + value + "\n" + "" == key + " " + value + "\n" && Items(ts) + "" == Items(ts);
  }

  /** A group is saved between braces on lines of their own. */
  lemma GroupIsSaved(ts: seq<Tree>, key: string, kids: seq<Tree>)
    requires key != "include" && kids != []
    ensures Items(ts + [Tree(key, None, kids)]) == Items(ts) + (key + " \n{\n" + Items(kids) + "}\n")
  {
    var g := Tree(key, None, kids);
    Appended(ts, g);
    assert Item(g) == HeadLine(g) + ("{\n" + Items(kids) + "}\n") && HeadLine(g) == key + " " + "" + "\n";
    hide *;
    assert key + " " + "" + "\n" + ("{\n" + Items(kids) + "}\n") == key + " \n{\n" + Items(kids) + "}\n";
  }

  // ---------- What setting a key changes ----------

  /** The first child of that name */
  ghost predicate First(ts: seq<Tree>, name: string, i: nat) {
    i < |ts| && ts[i].key == name && forall j :: 0 <= j < i ==> ts[j].key != name
  }

  predicate Absent(ts: seq<Tree>, name: string) { forall t :: t in ts ==> t.key != name }

  /** `r` is `ts` with the value `v` under `key`: that of the first child so named when values are
      overwritten, else that of a new child behind all others.  A dotted key leads through the first child
      that its first part names, or a new one, and to the children of that one; nothing else changes. */
  ghost predicate IsSet(ts: seq<Tree>, key: string, v: string, over: bool, r: seq<Tree>)
    decreases |key|, 1
  {
    if '.' !in key then
      if over && !Absent(ts, key) then exists i: nat :: First(ts, key, i) && r == ts[i := ts[i].(value := Some(v))]
      else r == ts + [Tree(key, Some(v), [])]
    else exists d: nat, i: nat, kids :: IsSetBelow(ts, key, v, over, r, d, i, kids)
  }

  /** The same for a key whose first dot is at place `d`: what changes are the children `kids` of child `i` */
  ghost predicate IsSetBelow(ts: seq<Tree>, key: string, v: string, over: bool, r: seq<Tree>, d: nat, i: nat,
                             kids: seq<Tree>)
    decreases |key|, 0
  {
    && d < |key| && key[d] == '.' && '.' !in key[..d]
    && if Absent(ts, key[..d]) then
         i == |ts| && IsSet([], key[d + 1..], v, over, kids) && r == ts + [Tree(key[..d], None, kids)]
       else
         First(ts, key[..d], i) && IsSet(ts[i].kids, key[d + 1..], v, over, kids) && r == ts[i := ts[i].(kids := kids)]
  }

  lemma FindKidIsFirst(ts: seq<Tree>, name: string)
    ensures var i := FindKid(ts, name); if i < |ts| then First(ts, name, i) && !Absent(ts, name) else Absent(ts, name)
  {
    var i := FindKid(ts, name);
    if i < |ts| {
      assert ts[i] in ts;
    }
  }

  /** The child that setting `key` changes or adds, and where it stands then */
  function Touched(ts: seq<Tree>, key: string, val: string, over: bool): (r: (nat, Tree))
    ensures r.0 <= |ts|
  {
    var d := DotAt(key);
    var i := FindKid(ts, key[..d]);
    var t := if i < |ts| then ts[i] else Tree(key[..d], None, []);
    if d < |key| then (i, t.(kids := SetKey(t.kids, key[d + 1..], val, over)))
    else if over && i < |ts| then (i, t.(value := Some(Trim(val))))
    else (|ts|, Tree(key[..d], Some(Trim(val)), []))
  }

  lemma SetKeyTouches(ts: seq<Tree>, key: string, val: string, over: bool)
    ensures var (i, t) := Touched(ts, key, val, over);
            && t.key == key[..DotAt(key)] && (i < |ts| ==> ts[i].key == t.key)
            && SetKey(ts, key, val, over) == if i < |ts| then ts[i := t] else ts + [t]
  {
    var d := DotAt(key);
    assert d == |key| ==> key[..d] == key;
  }

  lemma {:induction false} SetKeyIsSet(ts: seq<Tree>, key: string, val: string, over: bool)
    ensures IsSet(ts, key, Trim(val), over, SetKey(ts, key, val, over))
    decreases |key|
  {
    hide Trim, FindKid;
    var d := DotAt(key);
    FindKidIsFirst(ts, key[..d]);
    var i := FindKid(ts, key[..d]);
    if d == |key| {
      assert key[..d] == key && '.' !in key;
    } else {
      hide SetKey;
      var below := if i < |ts| then ts[i].kids else [];
      SetKeyIsSet(below, key[d + 1..], val, over);
      SetKeyTouches(ts, key, val, over);
      var kids := SetKey(below, key[d + 1..], val, over);
      assert key[d] in key && IsSetBelow(ts, key, Trim(val), over, SetKey(ts, key, val, over), d, i, kids);
    }
  }

  // ---------- What is found under a key (u_config_get_subkey) ----------

  function Kid(ts: seq<Tree>, name: string): Option<Tree> {
    var i := FindKid(ts, name);
    if i < |ts| then Some(ts[i]) else None
  }

  /** The node that a dotted key leads to, by the first child of each name */
  function NodeAt(ts: seq<Tree>, key: string): Option<Tree>
    decreases |key|
  {
    var d := DotAt(key);
    match Kid(ts, key[..d])
    case None => None
    case Some(t) => if d == |key| then Some(t) else NodeAt(t.kids, key[d + 1..])
  }

  /** u_config_get_subkey_value: none where no node is, or one without a value */
  function ValueAt(ts: seq<Tree>, key: string): Option<string> {
    match NodeAt(ts, key)
    case None => None
    case Some(t) => t.value
  }

  lemma FindAppended(ts: seq<Tree>, t: Tree, name: string)
    ensures FindKid(ts + [t], name) == if Absent(ts, name) && t.key != name then |ts| + 1 else FindKid(ts, name)
  {
    var i, j := FindKid(ts, name), FindKid(ts + [t], name);
    FindKidIsFirst(ts, name);
    assert (ts + [t])[|ts|] == t && forall k :: 0 <= k < |ts| ==> (ts + [t])[k] == ts[k];
  }

  lemma FindUpdated(ts: seq<Tree>, i: nat, t: Tree, name: string)
    requires i < |ts| && t.key == ts[i].key
    ensures FindKid(ts[i := t], name) == FindKid(ts, name)
  {
    var ts' := ts[i := t];
    var j, k := FindKid(ts, name), FindKid(ts', name);
    assert forall l :: 0 <= l < |ts| ==> ts'[l].key == ts[l].key;
  }

  lemma NothingIn(key: string)
    ensures NodeAt([], key) == None
  {
  }

  /** Which child has some name after that */
  lemma KidAfter(ts: seq<Tree>, i: nat, t: Tree, name: string)
    requires i <= |ts| && (i < |ts| ==> ts[i].key == t.key)
    ensures Kid(if i < |ts| then ts[i := t] else ts + [t], name) ==
            if t.key == name && i == FindKid(ts, name) then Some(t) else Kid(ts, name)
  {
    FindKidIsFirst(ts, name);
    if i < |ts| {
      FindUpdated(ts, i, t, name);
    } else {
      FindAppended(ts, t, name);
    }
  }

  /** What was set is found: the value set, unless values are not overwritten and the key was there. */
  lemma {:induction false} SetIsFound(ts: seq<Tree>, key: string, val: string, over: bool)
    ensures NodeAt(SetKey(ts, key, val, over), key).Some?
    ensures ValueAt(SetKey(ts, key, val, over), key) ==
            if over || NodeAt(ts, key).None? then Some(Trim(val)) else ValueAt(ts, key)
    decreases |key|
  {
    hide Trim, FindKid, SetKey;
    var d := DotAt(key);
    var (i, t) := Touched(ts, key, val, over);
    SetKeyTouches(ts, key, val, over);
    KidAfter(ts, i, t, key[..d]);
    if d < |key| {
      var below := if i < |ts| then ts[i].kids else [];
      SetIsFound(below, key[d + 1..], val, over);
      NothingIn(key[d + 1..]);
    }
  }

  /** Under every other key the same is found as before. */
  lemma {:induction false} OthersStay(ts: seq<Tree>, key: string, val: string, over: bool, other: string)
    requires other != key
    ensures ValueAt(SetKey(ts, key, val, over), other) == ValueAt(ts, other)
    decreases |key|
  {
    hide FindKid, SetKey, ValueAt, Trim;
    var d, e := DotAt(key), DotAt(other);
    var (i, t) := Touched(ts, key, val, over);
    SetKeyTouches(ts, key, val, over);
    KidAfter(ts, i, t, other[..e]);
    ValueStep(ts, other);
    ValueStep(SetKey(ts, key, val, over), other);
    Halves(key);
    Halves(other);
    if key[..d] == other[..e] && i == FindKid(ts, other[..e]) && e < |other| {
      ValueInNone(other[e + 1..]);
      if d < |key| {
        OthersStay(if i < |ts| then ts[i].kids else [], key[d + 1..], val, over, other[e + 1..]);
      }
    }
  }

  lemma ValueStep(ts: seq<Tree>, key: string)
    ensures var e := DotAt(key);
            ValueAt(ts, key) == match Kid(ts, key[..e])
                                case None => None
                                case Some(t) => if e == |key| then t.value else ValueAt(t.kids, key[e + 1..])
  {
  }

  lemma ValueInNone(key: string)
    ensures ValueAt([], key) == None
  {
  }

  lemma Halves(key: string)
    ensures var d := DotAt(key); key == if d < |key| then key[..d] + "." + key[d + 1..] else key[..d]
  {
    CutAt(key, DotAt(key));
  }

  lemma CutAt(s: string, d: nat)
    requires d <= |s|
    ensures s == if d < |s| then s[..d] + [s[d]] + s[d + 1..] else s[..d]
  {
  }
}
