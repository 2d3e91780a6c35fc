/**
 Saving a configuration and loading it back: what exactly comes back, and when that is the tree saved.
 */
module ConfigCodec {
  import opened ConfigText
  import opened Wrappers

  // ---------- Trees whose keys and values can be said in a line ----------

  predicate GoodKey(k: string) {
    && k != "" && k[0] != '{' && k[0] != '}' && k != "include" && k != "-include"
    && forall i :: 0 <= i < |k| ==> !IsBlank(k[i]) && !IsNl(k[i]) && k[i] !in {'.', '#', '\0'}
  }

  predicate GoodValue(v: string) {
    && v != "" && !IsBlank(v[0]) && !IsBlank(v[|v| - 1]) && !HasVariable(v)
    && forall i :: 0 <= i < |v| ==> !IsNl(v[i]) && v[i] !in {'#', '\0'}
  }

  predicate GoodHead(t: Tree) {
    GoodKey(t.key) && (t.value.Some? ==> GoodValue(t.value.value)) && |HeadLine(t)| < 1024
  }

  predicate Sayable(t: Tree) { GoodHead(t) && AllSayable(t.kids) }

  predicate AllSayable(ts: seq<Tree>) {
    ts == [] || (Sayable(ts[|ts| - 1]) && AllSayable(ts[..|ts| - 1]))
  }

  /** Either a value or children, everywhere in the tree. */
  predicate Proper(t: Tree) { (t.value.Some? <==> t.kids == []) && AllProper(t.kids) }

  predicate AllProper(ts: seq<Tree>) {
    ts == [] || (Proper(ts[|ts| - 1]) && AllProper(ts[..|ts| - 1]))
  }

  // ---------- What comes back ----------

  /** What a node saved comes back as, `lastkey` being the last key without a value before it, and the
      one after it: a leaf without a value is only such a key, and children go under that key. */
  function ReloadItem(t: Tree, lastkey: string): Option<(seq<Tree>, string)>
    decreases t, 1
  {
    var head := if t.value.Some? then [Tree(t.key, t.value, [])] else [];
    var last := if t.value.Some? then lastkey else t.key;
    if t.kids == [] then Some((head, last))
    else if last == "" then None
    else
      match Reload(t.kids, "")
      case None => None
      case Some(sub) => Some((head + [Tree(last, None, sub.0)], ""))
  }

  function Reload(ts: seq<Tree>, lastkey: string): Option<(seq<Tree>, string)>
    decreases ts, 0
  {
    if ts == [] then Some(([], lastkey))
    else
      match Reload(ts[..|ts| - 1], lastkey)
      case None => None
      case Some(a) =>
        match ReloadItem(ts[|ts| - 1], a.1)
        case None => None
        case Some(b) => Some((a.0 + b.0, b.1))
  }

  /** A load goes on at `z` with what has come back, or has failed. */
  function GoesOn(back: Option<(seq<Tree>, string)>, z: string, kids: seq<Tree>, root: bool): Outcome {
    match back
    case None => Fail
    case Some(b) => Load(z, kids + b.0, b.1, root, false)
  }

  // ---------- Texts in front of a text ----------

  function ItemTo(t: Tree, z: string): string
    decreases t, 1
  {
    HeadLine(t) + if t.kids == [] then z else "{\n" + ItemsTo(t.kids, "}\n" + z)
  }

  function ItemsTo(ts: seq<Tree>, z: string): string
    decreases ts, 0
  {
    if ts == [] then z else ItemsTo(ts[..|ts| - 1], ItemTo(ts[|ts| - 1], z))
  }

  lemma {:induction false} ItemToIs(t: Tree, z: string)
    ensures ItemTo(t, z) == Item(t) + z
    decreases t, 1
  {
    if t.kids != [] {
      ItemsToIs(t.kids, "}\n" + z);
      assert HeadLine(t) + ("{\n" + (Items(t.kids) + ("}\n" + z))) == HeadLine(t) + ("{\n" + Items(t.kids) + "}\n") + z;
    } else {
      assert HeadLine(t) + "" == HeadLine(t);
    }
  }

  lemma {:induction false} ItemsToIs(ts: seq<Tree>, z: string)
    ensures ItemsTo(ts, z) == Items(ts) + z
    decreases ts, 0
  {
    if ts != [] {
      var n := |ts| - 1;
      ItemToIs(ts[n], z);
      ItemsToIs(ts[..n], ItemTo(ts[n], z));
      assert Items(ts[..n]) + (Item(ts[n]) + z) == Items(ts[..n]) + Item(ts[n]) + z;
    }
  }

  // ---------- Lines are read back ----------

  predicate OneLine(s: string) { forall i :: 0 <= i < |s| ==> !IsNl(s[i]) && s[i] != '\0' }

  lemma {:induction false} ChunkIsLine(s: string, z: string, n: nat)
    requires OneLine(s) && |s| < n
    ensures Chunk(s + "\n" + z, n) == |s| + 1
    decreases |s|
  {
    var r := s + "\n" + z;
    if s != "" {
      assert r[1..] == s[1..] + "\n" + z;
      ChunkIsLine(s[1..], z, n - 1);
    }
  }

  lemma {:induction false} NoNul(s: string)
    requires forall i :: 0 <= i < |s| ==> s[i] != '\0'
    ensures ToNul(s) == s
  {
    if s != "" {
      NoNul(s[1..]);
    }
  }

  lemma LineReadBack(s: string, z: string)
    requires OneLine(s) && |s| + 1 < BUFSZ
    ensures GetLine(s + "\n" + z) == (Some(s), z)
  {
    var r := s + "\n" + z;
    ChunkIsLine(s, z, BUFSZ - 1);
    assert r[..|s| + 1] == s + "\n" && r[|s| + 1..] == z;
    NoNul(s + "\n");
    assert (s + "\n")[..|s|] == s;
  }

  lemma {:induction false} LineLength(s: string, z: string)
    requires OneLine(s)
    ensures GetLine(s + "\n" + z).0.Some? && |GetLine(s + "\n" + z).0.value| <= |s|
    ensures |s| + 1 >= BUFSZ ==> |GetLine(s + "\n" + z).0.value| < |s|
    decreases |s|
  {
    var r, n := s + "\n" + z, BUFSZ - 1;
    if |s| + 1 < BUFSZ {
      LineReadBack(s, z);
    } else {
      BufferFull(s, z);
      assert r[n..] == s[n..] + "\n" + z;
      LineLength(s[n..], z);
    }
  }

  lemma BufferFull(s: string, z: string)
    requires OneLine(s) && |s| + 1 >= BUFSZ
    ensures var r, n := s + "\n" + z, BUFSZ - 1;
            Chunk(r, n) == n && ToNul(r[..n]) == s[..n]
  {
    FullChunk(s, "\n" + z, BUFSZ - 1);
    assert s + ("\n" + z) == s + "\n" + z;
    assert (s + "\n" + z)[..BUFSZ - 1] == s[..BUFSZ - 1];
    NoNul(s[..BUFSZ - 1]);
  }

  lemma {:induction false} FullChunk(s: string, z: string, n: nat)
    requires OneLine(s) && n <= |s|
    ensures Chunk(s + z, n) == n
    decreases n
  {
    if n > 0 {
      assert (s + z)[1..] == s[1..] + z;
      FullChunk(s[1..], z, n - 1);
    }
  }

  /** A line is read back exactly when it fits the buffer, newline and NUL included: of a longer one a
      character is lost every time the buffer is full. */
  lemma LineReadBackIffFits(s: string, z: string)
    requires OneLine(s)
    ensures GetLine(s + "\n" + z) == (Some(s), z) <==> |s| + 1 < 1024
  {
    LineLength(s, z);
    if |s| + 1 < BUFSZ {
      LineReadBack(s, z);
    }
  }

  /** Where a buffer ends: behind the first newline if it holds one. */
  lemma {:induction false} ChunkEnds(r: string, n: nat)
    ensures var k := Chunk(r, n); if k > 0 && r[k - 1] == '\n' then '\n' in r else '\n' !in r[..k]
    decreases n
  {
    if r != "" && n > 0 && r[0] != '\n' {
      ChunkEnds(r[1..], n - 1);
      var k := Chunk(r[1..], n - 1);
      assert k > 0 ==> r[1..][k - 1] == r[k];
      assert r[..k + 1] == [r[0]] + r[1..][..k];
      assert r == [r[0]] + r[1..];
    }
  }

  /** In a text without NUL and carriage return there is a line to read exactly when there is a newline:
      what follows the last one is passed over. */
  lemma {:induction false} LineIffNewline(r: string)
    requires '\0' !in r && '\r' !in r
    ensures GetLine(r).0.Some? <==> '\n' in r
    ensures '\n' !in r ==> GetLine(r) == (None, "")
    decreases |r|
  {
    if r != "" {
      var n := Chunk(r, BUFSZ - 1);
      ChunkEnds(r, BUFSZ - 1);
      NoNul(r[..n]);
      assert r == r[..n] + r[n..] && r[..n][n - 1] == r[n - 1];
      LineIffNewline(r[n..]);
    }
  }

  /** A last line that no newline ends is not read. */
  lemma LastLineIsLost(r: string, kids: seq<Tree>, lastkey: string, root: bool, over: bool)
    requires OneLine(r)
    ensures Load(r, kids, lastkey, root, over) == Done(kids, "")
  {
    LineIffNewline(r);
  }

  lemma TrimNothing(s: string)
    requires s != "" ==> !IsBlank(s[0]) && !IsBlank(s[|s| - 1])
    ensures Trim(s) == s && TrimLeft(s) == s
  {
  }

  lemma KeyLenIs(k: string, rest: string)
    requires forall i :: 0 <= i < |k| ==> !IsBlank(k[i])
    requires rest == "" || IsBlank(rest[0])
    ensures KeyLen(k + rest) == |k|
  {
    var n := KeyLen(k + rest);
    assert forall i :: 0 <= i < |k| ==> (k + rest)[i] == k[i];
    assert rest != "" ==> (k + rest)[|k|] == rest[0];
  }

  lemma LineStays(s: string)
    requires s != "" && !IsBlank(s[0]) && !IsBlank(s[|s| - 1]) && !IsNl(s[|s| - 1])
    ensures TrimLeft(DropNls(Trim(s))) == s
  {
    TrimNothing(s);
    assert DropNls(s) == s;
  }

  lemma {:induction false} NoComment(done: string, s: string)
    requires '#' !in s
    ensures Uncomment(done, s) == done + s
    decreases |s|
  {
    if s == "" {
      assert done + s == done;
    } else {
      NoComment(done + [s[0]], s[1..]);
      assert done + [s[0]] + s[1..] == done + s;
    }
  }

  lemma PlainLine(s: string)
    requires '#' !in s
    ensures Uncomment("", s) == s
  {
    NoComment("", s);
    assert "" + s == s;
  }

  /** A line of key and value */
  lemma PairReadBack(k: string, v: string)
    requires GoodKey(k) && GoodValue(v) && |k| + 1 + |v| < LINESZ
    ensures ReadLine(k + " " + v) == Pair(k, v)
  {
    hide HasVariable, Trim, KeyLen, TrimLeft, DropNls;
    var s := k + " " + v;
    assert s[0] == k[0] && s[|s| - 1] == v[|v| - 1];
    LineStays(s);
    assert s == k + (" " + v);
    KeyLenIs(k, " " + v);
    assert s[..|k|] == k && s[|k|..] == " " + v;
    TrimAfterBlank(v);
    assert '#' !in k && '#' !in v;
    PlainLine(s);
  }

  lemma TrimAfterBlank(v: string)
    requires v != "" && !IsBlank(v[0]) && !IsBlank(v[|v| - 1])
    ensures Trim(" " + v) == v
  {
    var s := " " + v;
    assert s[|s| - 1] == v[|v| - 1] && s[1..] == v;
    assert TrimRight(s) == s;
    assert TrimLeft(v) == v;
  }

  /** A line of a key alone, with the blank written after it */
  lemma NameReadBack(k: string)
    requires GoodKey(k) && |k| + 1 < LINESZ
    ensures ReadLine(k + " ") == Name(k)
  {
    var s := k + " ";
    assert s[..|s| - 1] == k;
    TrimNothing(k);
    assert TrimRight(s) == TrimRight(k) == k;
    assert DropNls(k) == k && TrimLeft(k) == k;
    assert k + "" == k;
    KeyLenIs(k, "");
    assert k[..|k|] == k && k[|k|..] == "";
    PlainLine(s);
  }

  lemma BraceReadBack()
    ensures ReadLine("{") == Open && ReadLine("}") == Close
  {
    PlainLine("{");
    PlainLine("}");
    TrimNothing("{");
    TrimNothing("}");
    assert DropNls("{") == "{" && DropNls("}") == "}";
    assert "{"[1..] == "" && "}"[1..] == "";
  }

  // ---------- Items are read back ----------

  lemma NoDots(key: string)
    requires forall i :: 0 <= i < |key| ==> key[i] != '.'
    ensures DotAt(key) == |key|
  {
    var d := DotAt(key);
  }

  lemma HeadReadBack(t: Tree, z: string, kids: seq<Tree>, lastkey: string, root: bool)
    requires GoodHead(t)
    ensures Load(HeadLine(t) + z, kids, lastkey, root, false) ==
            if t.value.Some? then Load(z, kids + [Tree(t.key, t.value, [])], lastkey, root, false)
            else Load(z, kids, t.key, root, false)
  {
    var s := t.key + " " + if t.value.Some? then t.value.value else "";
    assert HeadLine(t) == s + "\n";
    LineReadBack(s, z);
    if t.value.Some? {
      PairReadBack(t.key, t.value.value);
      NoDots(t.key);
      TrimNothing(t.value.value);
    } else {
      assert s == t.key + " ";
      NameReadBack(t.key);
    }
  }

  lemma {:induction false} OpenReadBack(z: string, kids: seq<Tree>, lastkey: string, root: bool)
    ensures Load("{\n" + z, kids, lastkey, root, false) ==
            if lastkey == "" then Fail
            else match Load(z, [], "", false, false)
                 case Done(sub, r2) => Load(r2, kids + [Tree(lastkey, None, sub)], "", root, false)
                 case other => other
  {
    assert "{\n" + z == "{" + "\n" + z;
    LineReadBack("{", z);
    BraceReadBack();
  }

  lemma CloseReadBack(z: string, kids: seq<Tree>, lastkey: string)
    ensures Load("}\n" + z, kids, lastkey, false, false) == Done(kids, z)
  {
    assert "}\n" + z == "}" + "\n" + z;
    LineReadBack("}", z);
    BraceReadBack();
  }

  lemma {:induction false} ItemReadBack(t: Tree, z: string, kids: seq<Tree>, lastkey: string, root: bool)
    requires Sayable(t)
    ensures Load(ItemTo(t, z), kids, lastkey, root, false) == GoesOn(ReloadItem(t, lastkey), z, kids, root)
    decreases t, 1
  {
    hide Load, GoodHead, HeadLine, ItemsTo, Reload;
    var after := if t.kids == [] then z else "{\n" + ItemsTo(t.kids, "}\n" + z);
    HeadReadBack(t, after, kids, lastkey, root);
    var head := if t.value.Some? then [Tree(t.key, t.value, [])] else [];
    var last := if t.value.Some? then lastkey else t.key;
    assert kids + [] == kids;
    assert Load(ItemTo(t, z), kids, lastkey, root, false) == Load(after, kids + head, last, root, false);
    if t.kids != [] {
      OpenReadBack(ItemsTo(t.kids, "}\n" + z), kids + head, last, root);
      ItemsReadBack(t.kids, "}\n" + z, [], "", false);
      GroupReadBack(Reload(t.kids, ""), z);
      assert forall x: Tree :: kids + head + [x] == kids + (head + [x]);
    }
  }

  lemma {:induction false} GroupReadBack(back: Option<(seq<Tree>, string)>, z: string)
    ensures GoesOn(back, "}\n" + z, [], false) == if back.None? then Fail else Done(back.value.0, z)
  {
    if back.Some? {
      assert [] + back.value.0 == back.value.0;
      CloseReadBack(z, back.value.0, back.value.1);
    }
  }

  lemma {:induction false} ItemsReadBack(ts: seq<Tree>, z: string, kids: seq<Tree>, lastkey: string, root: bool)
    requires AllSayable(ts)
    ensures Load(ItemsTo(ts, z), kids, lastkey, root, false) == GoesOn(Reload(ts, lastkey), z, kids, root)
    decreases ts, 0
  {
    hide Load, Sayable, ItemTo, ReloadItem;
    if ts == [] {
      assert kids + [] == kids;
    } else {
      var n := |ts| - 1;
      ItemsReadBack(ts[..n], ItemTo(ts[n], z), kids, lastkey, root);
      var back := Reload(ts[..n], lastkey);
      if back.Some? {
        ItemReadBack(ts[n], z, kids + back.value.0, back.value.1, root);
        if ReloadItem(ts[n], back.value.1).Some? {
          var b := ReloadItem(ts[n], back.value.1).value;
          assert kids + back.value.0 + b.0 == kids + (back.value.0 + b.0);
        }
      }
    }
  }

  /** What a load makes of a saved tree */
  function SaveAndLoad(ts: seq<Tree>): Outcome { Load(Items(ts), [], "", true, false) }

  /** Every tree of good keys and values comes back as Reload says, whatever its shape. */
  lemma {:induction false} ComesBackAs(ts: seq<Tree>)
    requires AllSayable(ts)
    ensures SaveAndLoad(ts) == match Reload(ts, "")
                               case None => Fail
                               case Some(b) => Done(b.0, "")
  {
    hide Items, ItemsTo, Reload;
    ItemsToIs(ts, "");
    assert Items(ts) + "" == Items(ts);
    ItemsReadBack(ts, "", [], "", true);
    if Reload(ts, "").Some? {
      var b := Reload(ts, "").value;
      assert [] + b.0 == b.0;
      assert Load("", b.0, b.1, true, false) == Done(b.0, "");
    }
  }

  // ---------- When the tree comes back unchanged ----------

  lemma {:induction false} ProperComesBack(t: Tree, lastkey: string)
    requires Proper(t) && Sayable(t)
    ensures ReloadItem(t, lastkey).Some? && ReloadItem(t, lastkey).value.0 == [t]
    decreases t, 1
  {
    if t.kids != [] {
      AllProperComeBack(t.kids, "");
    }
  }

  lemma {:induction false} AllProperComeBack(ts: seq<Tree>, lastkey: string)
    requires AllProper(ts) && AllSayable(ts)
    ensures Reload(ts, lastkey).Some? && Reload(ts, lastkey).value.0 == ts
    decreases ts, 0
  {
    hide Sayable, ReloadItem, Proper;
    if ts != [] {
      var n := |ts| - 1;
      AllProperComeBack(ts[..n], lastkey);
      ProperComesBack(ts[n], Reload(ts[..n], lastkey).value.1);
      assert ts[..n] + [ts[n]] == ts;
    }
  }

  /** No node has both a value and children. */
  predicate NeverBoth(t: Tree) { (t.value.None? || t.kids == []) && NoneBoth(t.kids) }

  predicate NoneBoth(ts: seq<Tree>) {
    ts == [] || (NeverBoth(ts[|ts| - 1]) && NoneBoth(ts[..|ts| - 1]))
  }

  lemma {:induction false} NoneBothAppend(a: seq<Tree>, b: seq<Tree>)
    requires NoneBoth(a) && NoneBoth(b)
    ensures NoneBoth(a + b)
    decreases |b|
  {
    if b == [] {
      assert a + b == a;
    } else {
      NoneBothAppend(a, b[..|b| - 1]);
      assert (a + b)[..|a + b| - 1] == a + b[..|b| - 1];
    }
  }

  lemma OneHasNoneBoth(g: Tree)
    requires NeverBoth(g)
    ensures NoneBoth([g])
  {
    assert [g][..0] == [];
  }

  lemma {:induction false} ReloadItemHasNoneBoth(t: Tree, lastkey: string)
    requires ReloadItem(t, lastkey).Some?
    ensures NoneBoth(ReloadItem(t, lastkey).value.0)
    decreases t, 1
  {
    var head := if t.value.Some? then [Tree(t.key, t.value, [])] else [];
    OneHasNoneBoth(Tree(t.key, t.value, []));
    if t.kids != [] {
      var last := if t.value.Some? then lastkey else t.key;
      ReloadHasNoneBoth(t.kids, "");
      var g := Tree(last, None, Reload(t.kids, "").value.0);
      OneHasNoneBoth(g);
      NoneBothAppend(head, [g]);
    }
  }

  lemma {:induction false} ReloadHasNoneBoth(ts: seq<Tree>, lastkey: string)
    requires Reload(ts, lastkey).Some?
    ensures NoneBoth(Reload(ts, lastkey).value.0)
    decreases ts, 0
  {
    if ts != [] {
      var n := |ts| - 1;
      ReloadHasNoneBoth(ts[..n], lastkey);
      ReloadItemHasNoneBoth(ts[n], Reload(ts[..n], lastkey).value.1);
      NoneBothAppend(Reload(ts[..n], lastkey).value.0, ReloadItem(ts[n], Reload(ts[..n], lastkey).value.1).value.0);
    }
  }

  function Count(t: Tree): nat { 1 + CountAll(t.kids) }

  function CountAll(ts: seq<Tree>): nat {
    if ts == [] then 0 else CountAll(ts[..|ts| - 1]) + Count(ts[|ts| - 1])
  }

  /** Without nodes that have both, the leaves without a value are lost and nothing else is. */
  lemma {:induction false} EmptyLeavesAreLost(t: Tree, lastkey: string)
    requires NeverBoth(t) && Sayable(t)
    ensures ReloadItem(t, lastkey).Some? && |ReloadItem(t, lastkey).value.0| <= 1
    ensures var r := ReloadItem(t, lastkey).value.0;
            && CountAll(r) <= Count(t) && (CountAll(r) == Count(t) ==> Proper(t))
    decreases t, 1
  {
    if t.kids != [] {
      AllEmptyLeavesAreLost(t.kids, "");
      CountOne(Tree(t.key, None, Reload(t.kids, "").value.0));
    } else {
      CountOne(Tree(t.key, t.value, []));
    }
  }

  lemma CountOne(g: Tree)
    ensures [] + [g] == [g] && CountAll([g]) == Count(g)
  {
    assert [g][..0] == [];
  }

  lemma {:induction false} CountAppend(a: seq<Tree>, b: seq<Tree>)
    requires |b| <= 1
    ensures CountAll(a + b) == CountAll(a) + CountAll(b)
  {
    if b == [] {
      assert a + b == a;
    } else {
      assert (a + b)[..|a|] == a && b[..0] == [];
    }
  }

  lemma {:induction false} AllEmptyLeavesAreLost(ts: seq<Tree>, lastkey: string)
    requires NoneBoth(ts) && AllSayable(ts)
    ensures Reload(ts, lastkey).Some?
    ensures var r := Reload(ts, lastkey).value.0;
            CountAll(r) <= CountAll(ts) && (CountAll(r) == CountAll(ts) ==> AllProper(ts))
    decreases ts, 0
  {
    if ts != [] {
      var n := |ts| - 1;
      AllEmptyLeavesAreLost(ts[..n], lastkey);
      var a := Reload(ts[..n], lastkey).value;
      EmptyLeavesAreLost(ts[n], a.1);
      CountAppend(a.0, ReloadItem(ts[n], a.1).value.0);
    }
  }

  /** A tree of good keys and values comes back as it was exactly when every node has either a value or
      children, and not both. */
  lemma RoundTrip(ts: seq<Tree>)
    requires AllSayable(ts)
    ensures SaveAndLoad(ts) == Done(ts, "") <==> AllProper(ts)
  {
    ComesBackAs(ts);
    if AllProper(ts) {
      AllProperComeBack(ts, "");
    } else if SaveAndLoad(ts) == Done(ts, "") {
      ReloadHasNoneBoth(ts, "");
      AllEmptyLeavesAreLost(ts, "");
    }
  }

  /** Two such trees are never saved as the same text. */
  lemma SavingIsInjective(ts: seq<Tree>, us: seq<Tree>)
    requires AllSayable(ts) && AllProper(ts) && AllSayable(us) && AllProper(us) && Items(ts) == Items(us)
    ensures ts == us
  {
    RoundTrip(ts);
    RoundTrip(us);
  }
}
