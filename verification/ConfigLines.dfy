/**
 What the lines of a configuration text say to srcs/toolbox/config.c, comments included, and which of them
 end a load.
 */
module ConfigLines {
  import opened ConfigCodec
  import opened ConfigLaws
  import opened ConfigText
  import opened Wrappers

  // ---------- Comments ----------

  /** What stands before a "#" is kept, and the rest dropped, unless a backslash comes before it. */
  lemma {:induction false} CommentDropped(t: string, rest: string)
    requires '#' !in t && (t == "" || t[|t| - 1] != '\\')
    ensures Uncomment("", t + "#" + rest) == t
  {
    KeptSoFar("", t, "#" + rest);
    assert t + ("#" + rest) == t + "#" + rest && "" + t == t;
  }

  lemma {:induction false} KeptSoFar(done: string, t: string, rest: string)
    requires '#' !in t
    ensures Uncomment(done, t + rest) == Uncomment(done + t, rest)
    decreases |t|
  {
    if t == "" {
      assert t + rest == rest && done + t == done;
    } else {
      assert (t + rest)[1..] == t[1..] + rest && done + [t[0]] + t[1..] == done + t;
      KeptSoFar(done + [t[0]], t[1..], rest);
    }
  }

  /** Every "#" with a backslash before it */
  function Escaped(s: string): string {
    if s == "" then "" else (if s[0] == '#' then "\\#" else [s[0]]) + Escaped(s[1..])
  }

  /** What is escaped like that comes out as it was. */
  lemma {:induction false} EscapesUndone(done: string, s: string)
    ensures Uncomment(done, Escaped(s)) == done + s
    decreases |s|
  {
    if s == "" {
      assert done + s == done;
    } else {
      var z := Escaped(s[1..]);
      assert done + [s[0]] + s[1..] == done + s;
      EscapesUndone(done + [s[0]], s[1..]);
      if s[0] == '#' {
        var r := "\\#" + z;
        assert r[1..] == "#" + z && ("#" + z)[1..] == z;
        assert (done + "\\")[..|done|] == done;
        assert Uncomment(done, r) == Uncomment(done + "\\", "#" + z) == Uncomment(done + "#", z);
      } else {
        assert ([s[0]] + z)[1..] == z;
      }
    }
  }

  // ---------- Lines ----------

  /** Nothing in the line is taken for a comment, a brace, an include directive or a variable. */
  predicate PlainWords(k: string, v: string) {
    && k != "" && k[0] !in {'{', '}'} && k != "include" && k != "-include" && !HasVariable(v)
    && (forall i :: 0 <= i < |k| ==> k[i] !in {' ', '\t', '#'}) && '#' !in v && k[|k| - 1] !in {'\n', '\r'}
    && (v != "" ==> v[0] !in {' ', '\t'} && v[|v| - 1] !in {' ', '\t', '\n', '\r'})
  }

  predicate Newlines(n: string) { forall i :: 0 <= i < |n| ==> n[i] in {'\n', '\r'} }

  lemma {:induction false} NewlinesDropped(m: string, n: string)
    requires Newlines(n) && (m == "" || m[|m| - 1] !in {'\n', '\r'})
    ensures DropNls(m + n) == m
    decreases |n|
  {
    if n == "" {
      assert m + n == m;
    } else {
      var s := m + n;
      assert s[|s| - 1] == n[|n| - 1] && s[..|s| - 1] == m + n[..|n| - 1];
      NewlinesDropped(m, n[..|n| - 1]);
    }
  }

  /** What is left of a line once comment, blanks and newlines are gone, and how it is taken apart */
  lemma LineParts(a: string, k: string, b: string, v: string, n: string, c: string)
    requires Blanks(a) && Blanks(b) && Newlines(n) && Blanks(c) && b != "" && k != "" && v != ""
    requires (forall i :: 0 <= i < |k| ==> k[i] !in {' ', '\t', '#'}) && '#' !in v
    requires v[0] !in {' ', '\t'} && v[|v| - 1] !in {' ', '\t', '\n', '\r'}
    ensures var m := k + b + v;
            && TrimLeft(DropNls(Trim(Uncomment("", a + (m + n) + c)))) == m
            && m[0] == k[0] && KeyLen(m) == |k| && m[..|k|] == k && Trim(m[|k|..]) == v
  {
    hide Trim, KeyLen, DropNls;
    var m := k + b + v;
    PlainLine(a + (m + n) + c);
    Ends(m, n);
    BlanksDropped(a, m + n, c);
    assert m[0] == k[0] && m[|m| - 1] == v[|v| - 1];
    NewlinesDropped(m, n);
    assert TrimLeft(m) == m;
    Behind(k, b + v);
    Behind(b, v);
    assert m == k + (b + v);
    KeyLenIs(k, b + v);
    BlanksDropped(b, v, "");
  }

  lemma Behind(a: string, b: string)
    ensures (a + b)[..|a|] == a && (a + b)[|a|..] == b && a + b + "" == a + b
  {
  }

  /** A key and a value with any blanks around and between them, and newlines or carriage returns at the end */
  lemma PairIsRead(a: string, k: string, b: string, v: string, n: string, c: string)
    requires Blanks(a) && Blanks(b) && Newlines(n) && Blanks(c) && b != "" && PlainWords(k, v) && v != ""
    requires |a| + |k| + |b| + |v| + |n| + |c| < 2048
    ensures ReadLine(a + (k + b + v + n) + c) == Pair(k, v)
  {
    LineParts(a, k, b, v, n, c);
    hide HasVariable, Trim, KeyLen, DropNls, TrimLeft, Uncomment, Blanks, Newlines;
  }

  lemma Ends(m: string, n: string)
    requires m != "" && Newlines(n)
    ensures (m + n)[0] == m[0] && (m + n)[|m + n| - 1] == if n == "" then m[|m| - 1] else n[|n| - 1]
    ensures n != "" ==> n[|n| - 1] in {'\n', '\r'}
  {
  }

  /** A line of blanks, or of blanks and a comment, says nothing and is passed over. */
  lemma EmptyLine(a: string, rest: string, z: string, kids: seq<Tree>, lastkey: string, root: bool, over: bool)
    requires Blanks(a) && OneLine(rest) && |a| + |rest| < 1000
    ensures ReadLine(a) == ReadLine(a + "#" + rest) == Empty
    ensures Load(a + "\n" + z, kids, lastkey, root, over) == Load(z, kids, lastkey, root, over)
    ensures Load(a + "#" + rest + "\n" + z, kids, lastkey, root, over) == Load(z, kids, lastkey, root, over)
  {
    PlainLine(a);
    CommentDropped(a, rest);
    assert a + "" + "" == a;
    BlanksDropped(a, "", "");
    LineReadBack(a, z);
    LineReadBack(a + "#" + rest, z);
    hide Trim, Uncomment;
  }

  /** A key alone */
  lemma NameIsRead(a: string, k: string, c: string)
    requires Blanks(a) && Blanks(c) && PlainWords(k, "") && |a| + |k| + |c| < 2048
    ensures ReadLine(a + k + c) == Name(k)
  {
    hide HasVariable, Trim, KeyLen;
    PlainLine(a + k + c);
    BlanksDropped(a, k, c);
    assert DropNls(k) == k && TrimLeft(k) == k && k + "" == k;
    KeyLenIs(k, "");
    assert k[..|k|] == k && k[|k|..] == "";
    BlanksDropped("", "", "");
    assert "" + "" + "" == "";
  }

  /** A brace may have blanks around it and nothing else. */
  lemma BraceIsRead(a: string, brace: char, rest: string)
    requires Blanks(a) && brace in {'{', '}'} && '#' !in rest && |a| + 1 + |rest| < 2048
    requires '\n' !in rest && '\r' !in rest
    ensures ReadLine(a + [brace] + rest) ==
            if !Blanks(rest) then Bad else if brace == '{' then Open else Close
  {
    hide Trim;
    var c := TrimRightIs(rest);
    var r := TrimRight(rest);
    var m := [brace] + r;
    assert a + [brace] + rest == a + m + c;
    PlainLine(a + m + c);
    assert r != "" ==> r[|r| - 1] == m[|m| - 1];
    BlanksDropped(a, m, c);
    assert m[1..] == r && forall i :: 0 <= i < |r| ==> r[i] == rest[i];
    assert DropNls(m) == m && TrimLeft(m) == m;
    assert Blanks(rest) ==> r == "" by {
      assert r != "" ==> rest[|r| - 1] == r[|r| - 1];
    }
    assert r == "" ==> Blanks(rest);
    assert AllBlank(r) ==> r == "";
  }

  /** A line that does not fit the buffer for comments is refused. */
  lemma LongLineIsBad(line: string)
    requires |line| >= 2048
    ensures ReadLine(line) == Bad
  {
  }

  /** Include directives and variables are told from other lines. */
  lemma DirectiveIsSeen(a: string, k: string, b: string, v: string, c: string)
    requires Blanks(a) && Blanks(b) && Blanks(c) && b != "" && v != "" && '#' !in v
    requires v[0] !in {' ', '\t'} && v[|v| - 1] !in {' ', '\t', '\n', '\r'}
    requires k in {"include", "-include"} || (PlainWords(k, "") && exists x, y :: v == x + "${" + y)
    requires |a| + |k| + |b| + |v| + |c| < 2048
    ensures ReadLine(a + (k + b + v) + c) == Unmodelled
  {
    if x, y :| v == x + "${" + y {
      VariableThere(v, x, y);
    }
    hide PlainWords, Blanks, ReadLine;
    DirectiveLine(a, k, b, v, c);
  }

  lemma VariableThere(v: string, x: string, y: string)
    requires v == x + "${" + y
    ensures HasVariable(v)
  {
    assert v[|x|] == '$' && v[|x| + 1] == '{';
  }

  lemma DirectiveLine(a: string, k: string, b: string, v: string, c: string)
    requires Blanks(a) && Blanks(b) && Blanks(c) && b != "" && v != "" && '#' !in v
    requires v[0] !in {' ', '\t'} && v[|v| - 1] !in {' ', '\t', '\n', '\r'}
    requires k in {"include", "-include"} || (PlainWords(k, "") && HasVariable(v))
    requires |a| + |k| + |b| + |v| + |c| < 2048
    ensures ReadLine(a + (k + b + v) + c) == Unmodelled
  {
    hide HasVariable, Trim, KeyLen, DropNls, TrimLeft, Uncomment, Blanks, ReadLine;
    KeyIsWord(k);
    LineParts(a, k, b, v, "", c);
    Behind(k + b, v);
    WhenUnmodelled(a + (k + b + v) + c, k + b + v, |k|);
  }

  lemma KeyIsWord(k: string)
    requires k in {"include", "-include"} || PlainWords(k, "")
    ensures k != "" && k[0] !in {'{', '}'} && forall i :: 0 <= i < |k| ==> k[i] !in {' ', '\t', '#'}
  {
  }

  lemma WhenUnmodelled(line: string, m: string, n: nat)
    requires |line| < 2048 && TrimLeft(DropNls(Trim(Uncomment("", line)))) == m
    requires m != "" && m[0] !in {'{', '}'} && KeyLen(m) == n <= |m|
    requires m[..n] in {"include", "-include"} || HasVariable(Trim(m[n..]))
    ensures ReadLine(line) == Unmodelled
  {
    hide HasVariable, Trim, KeyLen, DropNls, TrimLeft, Uncomment;
  }

  // ---------- What ends a load ----------

  /** A line that is refused fails the load, as do a brace that closes nothing and one that opens a group
      without a name; a NUL ends the text. */
  lemma EndsOfLoads(line: string, z: string, kids: seq<Tree>, lastkey: string, root: bool, over: bool)
    requires OneLine(line) && |line| < 1023
    ensures ReadLine(line) == Bad ==> Load(line + "\n" + z, kids, lastkey, root, over) == Fail
    ensures ReadLine(line) == Close && root ==> Load(line + "\n" + z, kids, lastkey, root, over) == Fail
    ensures ReadLine(line) == Open && lastkey == "" ==> Load(line + "\n" + z, kids, lastkey, root, over) == Fail
    ensures Load("\0" + z, kids, lastkey, root, over) == Done(kids, "\0" + z)
  {
    hide ReadLine;
    LineReadBack(line, z);
  }

  /** A "#" in a value is written as it is and read as the beginning of a comment. */
  lemma HashIsLost(k: string, v: string, w: string)
    requires GoodKey(k) && GoodValue(v) && v[|v| - 1] != '\\' && |k| + |v| + |w| + 3 < 1023 && OneLine(w)
    ensures var t := Tree(k, Some(v + "#" + w), []);
            Load(HeadLine(t), [], "", true, false) == Done([Tree(k, Some(v), [])], "")
  {
    var t := Tree(k, Some(v + "#" + w), []);
    var line := k + " " + v + "#" + w;
    assert HeadLine(t) == line + "\n" + "";
    HashIsRead(k, v, w);
    LineReadBack(line, "");
    NoDots(k);
    hide ReadLine, HeadLine;
    TrimNothing(v);
    assert [] + [Tree(k, Some(v), [])] == [Tree(k, Some(v), [])];
  }

  lemma HashIsRead(k: string, v: string, w: string)
    requires GoodKey(k) && GoodValue(v) && v[|v| - 1] != '\\' && |k| + |v| + |w| + 3 < 1023
    ensures ReadLine(k + " " + v + "#" + w) == Pair(k, v)
  {
    var m := k + " " + v;
    assert m[|m| - 1] == v[|v| - 1] && '#' !in m;
    CommentDropped(m, w);
    PairReadBack(k, v);
    PlainLine(m);
    hide Trim, ReadTrimmed, Uncomment;
  }
}
