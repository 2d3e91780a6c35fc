/**
 What loading a saved configuration of srcs/toolbox/config.c over another one does, when values are
 overwritten: the same as setting each of its values under its dotted key.
 */
module ConfigOverwrite {
  import opened ConfigCodec
  import opened ConfigLaws
  import opened ConfigText
  import opened Wrappers

  /** A dotted key and the value under it */
  datatype Setting = Setting(key: string, value: string)

  function Under(name: string, s: seq<Setting>): (r: seq<Setting>)
    ensures |r| == |s|
  {
    if s == [] then [] else Under(name, s[..|s| - 1]) + [Setting(name + "." + s[|s| - 1].key, s[|s| - 1].value)]
  }

  /** The values of a tree, in order */
  function Settings(t: Tree): seq<Setting>
    decreases t, 1
  {
    (if t.value.Some? then [Setting(t.key, t.value.value)] else []) + Under(t.key, AllSettings(t.kids))
  }

  function AllSettings(ts: seq<Tree>): seq<Setting>
    decreases ts, 0
  {
    if ts == [] then [] else AllSettings(ts[..|ts| - 1]) + Settings(ts[|ts| - 1])
  }

  function SetAll(kids: seq<Tree>, s: seq<Setting>): seq<Tree> {
    if s == [] then kids else SetKey(SetAll(kids, s[..|s| - 1]), s[|s| - 1].key, s[|s| - 1].value, true)
  }

  lemma {:induction false} SetAllJoins(kids: seq<Tree>, a: seq<Setting>, b: seq<Setting>)
    ensures SetAll(kids, a + b) == SetAll(SetAll(kids, a), b)
    decreases |b|
  {
    if b == [] {
      assert a + b == a;
    } else {
      assert (a + b)[..|a + b| - 1] == a + b[..|b| - 1];
      SetAllJoins(kids, a, b[..|b| - 1]);
    }
  }

  /** The child a group goes to, a new one if there is none of its name */
  function Group(kids: seq<Tree>, name: string): Tree {
    var i := FindKid(kids, name);
    if i < |kids| then kids[i] else Tree(name, None, [])
  }

  lemma PutTwice(kids: seq<Tree>, name: string, t: Tree, u: Tree)
    requires t.key == name
    ensures var r := Put(kids, FindKid(kids, name), t);
            && FindKid(r, name) == FindKid(kids, name) < |r| && Group(r, name) == t
            && Put(r, FindKid(r, name), u) == Put(kids, FindKid(kids, name), u)
  {
    var i := FindKid(kids, name);
    if i < |kids| {
      FindUpdated(kids, i, t, name);
    } else {
      FindKidIsFirst(kids, name);
      FindAppended(kids, t, name);
    }
  }

  lemma DottedSets(kids: seq<Tree>, name: string, key: string, val: string)
    requires '.' !in name
    ensures var g := Group(kids, name);
            SetKey(kids, name + "." + key, val, true) ==
            Put(kids, FindKid(kids, name), g.(kids := SetKey(g.kids, key, val, true)))
  {
    var k := name + "." + key;
    assert k[|name|] == '.' && forall i :: 0 <= i < |name| ==> k[i] == name[i];
    assert DotAt(k) == |name| && k[..|name|] == name && k[|name| + 1..] == key;
  }

  /** Settings under one name change the children of that child. */
  lemma {:induction false} SetAllUnder(kids: seq<Tree>, name: string, s: seq<Setting>)
    requires '.' !in name && s != []
    ensures var g := Group(kids, name);
            SetAll(kids, Under(name, s)) == Put(kids, FindKid(kids, name), g.(kids := SetAll(g.kids, s)))
    decreases |s|
  {
    hide FindKid, SetKey;
    var n := |s| - 1;
    var g := Group(kids, name);
    assert Under(name, s)[..n] == Under(name, s[..n]);
    if n == 0 {
      assert s[..n] == [] && Under(name, s[..n]) == [];
      DottedSets(kids, name, s[n].key, s[n].value);
    } else {
      SetAllUnder(kids, name, s[..n]);
      var t := g.(kids := SetAll(g.kids, s[..n]));
      var r := Put(kids, FindKid(kids, name), t);
      DottedSets(r, name, s[n].key, s[n].value);
      GroupKey(kids, name);
      PutTwice(kids, name, t, t.(kids := SetKey(t.kids, s[n].key, s[n].value, true)));
    }
  }

  lemma GroupKey(kids: seq<Tree>, name: string)
    ensures Group(kids, name).key == name
  {
  }

  // ---------- Loading over other children ----------

  lemma HeadSets(t: Tree, z: string, kids: seq<Tree>, lastkey: string, root: bool)
    requires GoodHead(t)
    ensures Load(HeadLine(t) + z, kids, lastkey, root, true) ==
            if t.value.Some? then Load(z, SetKey(kids, t.key, t.value.value, true), lastkey, root, true)
            else Load(z, kids, t.key, root, true)
  {
    hide SetKey;
    var s := t.key + " " + if t.value.Some? then t.value.value else "";
    assert HeadLine(t) == s + "\n";
    LineReadBack(s, z);
    if t.value.Some? {
      PairReadBack(t.key, t.value.value);
    } else {
      assert s == t.key + " ";
      NameReadBack(t.key);
    }
  }

  lemma {:induction false} OpenSets(z: string, kids: seq<Tree>, lastkey: string, root: bool)
    requires lastkey != ""
    ensures var g := Group(kids, lastkey);
            Load("{\n" + z, kids, lastkey, root, true) ==
            match Load(z, g.kids, "", false, true)
            case Done(sub, r2) => Load(r2, Put(kids, FindKid(kids, lastkey), g.(kids := sub)), "", root, true)
            case other => other
  {
    assert "{\n" + z == "{" + "\n" + z;
    LineReadBack("{", z);
    BraceReadBack();
  }

  lemma CloseSets(z: string, kids: seq<Tree>, lastkey: string)
    ensures Load("}\n" + z, kids, lastkey, false, true) == Done(kids, z)
  {
    assert "}\n" + z == "}" + "\n" + z;
    LineReadBack("}", z);
    BraceReadBack();
  }

  /** The last key without a value, behind some items */
  function LastAfter(ts: seq<Tree>, lastkey: string): string {
    if ts == [] then lastkey
    else if ts[|ts| - 1].value.Some? then LastAfter(ts[..|ts| - 1], lastkey) else ""
  }

  lemma {:induction false} ValuesThere(ts: seq<Tree>)
    requires AllProper(ts) && ts != []
    ensures AllSettings(ts) != []
    decreases ts
  {
    var t := ts[|ts| - 1];
    if t.kids != [] {
      ValuesThere(t.kids);
    }
  }

  lemma {:induction false} ItemSets(t: Tree, z: string, kids: seq<Tree>, lastkey: string, root: bool)
    requires Proper(t) && Sayable(t)
    ensures Load(ItemTo(t, z), kids, lastkey, root, true) ==
            Load(z, SetAll(kids, Settings(t)), if t.value.Some? then lastkey else "", root, true)
    decreases t, 1
  {
    hide Load, HeadLine, ItemsTo, SetKey, AllSettings, Put, FindKid;
    if t.kids == [] {
      HeadSets(t, z, kids, lastkey, root);
      OneSetting(kids, Setting(t.key, t.value.value));
      LeafSettings(t);
    } else {
      var inner := ItemsTo(t.kids, "}\n" + z);
      HeadSets(t, "{\n" + inner, kids, lastkey, root);
      OpenSets(inner, kids, t.key, root);
      var g := Group(kids, t.key);
      ItemsSet(t.kids, "}\n" + z, g.kids, "", false);
      CloseSets(z, SetAll(g.kids, AllSettings(t.kids)), LastAfter(t.kids, ""));
      ValuesThere(t.kids);
      assert '.' !in t.key;
      SetAllUnder(kids, t.key, AllSettings(t.kids));
      assert Settings(t) == Under(t.key, AllSettings(t.kids));
    }
  }

  lemma LeafSettings(t: Tree)
    requires t.value.Some? && t.kids == []
    ensures Settings(t) == [Setting(t.key, t.value.value)]
  {
  }

  lemma OneSetting(kids: seq<Tree>, s: Setting)
    ensures SetAll(kids, [s]) == SetKey(kids, s.key, s.value, true)
  {
    assert [s][..0] == [];
  }

  lemma {:induction false} ItemsSet(ts: seq<Tree>, z: string, kids: seq<Tree>, lastkey: string, root: bool)
    requires AllProper(ts) && AllSayable(ts)
    ensures Load(ItemsTo(ts, z), kids, lastkey, root, true) ==
            Load(z, SetAll(kids, AllSettings(ts)), LastAfter(ts, lastkey), root, true)
    decreases ts, 0
  {
    hide Load, Sayable, Proper, ItemTo, Settings;
    if ts != [] {
      var n := |ts| - 1;
      ItemsSet(ts[..n], ItemTo(ts[n], z), kids, lastkey, root);
      ItemSets(ts[n], z, SetAll(kids, AllSettings(ts[..n])), LastAfter(ts[..n], lastkey), root);
      SetAllJoins(kids, AllSettings(ts[..n]), Settings(ts[n]));
    }
  }

  /** A saved tree loaded over other children, values being overwritten, does what setting each of its values
      under its dotted key does. */
  lemma LoadingOverSets(ts: seq<Tree>, kids: seq<Tree>)
    requires AllProper(ts) && AllSayable(ts)
    ensures Load(Items(ts), kids, "", true, true) == Done(SetAll(kids, AllSettings(ts)), "")
  {
    hide Items, ItemsTo, SetAll, AllSettings;
    ItemsToIs(ts, "");
    assert Items(ts) + "" == Items(ts);
    ItemsSet(ts, "", kids, "", true);
  }
}
