/**
 Configuration texts as srcs/toolbox/config.c writes and reads them: the lines of a text, what each
 means, and the tree they build.
 */
module ConfigText {
  import opened Wrappers

  const BUFSZ: nat := 1024      // of cs_getline
  const LINESZ: nat := 2048     // of u_config_remove_comment

  /** The root has the key "" and no value. */
  datatype Tree = Tree(key: string, value: Option<string>, kids: seq<Tree>)

  // ---------- Writing (u_config_to_str) ----------

  /** The line of a node; include directives are left out, what they included being there already. */
  function HeadLine(t: Tree): string {
    if t.key == "include" then ""
    else t.key + " " + (if t.value.Some? then t.value.value else "") + "\n"
  }

  function Item(t: Tree): string
    decreases t, 1
  {
    HeadLine(t) + if t.kids == [] then "" else "{\n" + Items(t.kids) + "}\n"
  }

  function Items(ts: seq<Tree>): string
    decreases ts, 0
  {
    if ts == [] then "" else Items(ts[..|ts| - 1]) + Item(ts[|ts| - 1])
  }

  // ---------- Lines (cs_getline over u_config_buf_gets) ----------

  predicate IsBlank(c: char) { c == ' ' || c == '\t' }
  predicate IsNl(c: char) { c == '\n' || c == '\r' }

  /** How many characters are copied into a buffer with room for `n`: a newline is the last. */
  function Chunk(r: string, n: nat): (k: nat)
    ensures k <= |r| && k <= n && (r != "" && n > 0 ==> k > 0)
  {
    if r == "" || n == 0 then 0 else if r[0] == '\n' then 1 else 1 + Chunk(r[1..], n - 1)
  }

  /** The part of a buffer that a C string function sees. */
  function ToNul(s: string): (r: string)
    ensures |r| <= |s| && (s != "" && s[0] != '\0' ==> r != "")
  {
    if s == "" || s[0] == '\0' then "" else [s[0]] + ToNul(s[1..])
  }

  predicate IsEof(r: string) { r == "" || r[0] == '\0' }

  /** The next line and the text after it; none when the text ends first.  Of each buffer the last
      character is dropped, whether it is the newline or not. */
  function GetLine(r: string): (l: (Option<string>, string))
    ensures |l.1| <= |r| && (l.0.Some? ==> |l.1| < |r|)
    decreases |r|
  {
    if IsEof(r) then (None, r)
    else
      var n := Chunk(r, BUFSZ - 1);
      var b := ToNul(r[..n]);
      var last := |b| - 1;
      if IsNl(b[last]) then (Some(b[..last]), r[n..])
      else
        var (l, rest) := GetLine(r[n..]);
        (if l.Some? then Some(b[..last] + l.value) else None, rest)
  }

  function TrimLeft(s: string): (r: string)
    ensures |r| <= |s|
  {
    if s != "" && IsBlank(s[0]) then TrimLeft(s[1..]) else s
  }

  function TrimRight(s: string): (r: string)
    ensures |r| <= |s|
  {
    if s != "" && IsBlank(s[|s| - 1]) then TrimRight(s[..|s| - 1]) else s
  }

  function Trim(s: string): string { TrimLeft(TrimRight(s)) }

  function DropNls(s: string): (r: string)
    ensures |r| <= |s|
  {
    if s != "" && IsNl(s[|s| - 1]) then DropNls(s[..|s| - 1]) else s
  }

  predicate AllBlank(s: string) { forall i :: 0 <= i < |s| ==> IsBlank(s[i]) }

  /** The length of the key at the head of a line. */
  function KeyLen(s: string): (k: nat)
    ensures k <= |s| && (k < |s| ==> IsBlank(s[k])) && forall i :: 0 <= i < k ==> !IsBlank(s[i])
  {
    if s == "" || IsBlank(s[0]) then 0 else 1 + KeyLen(s[1..])
  }

  /** A reference to a variable starts somewhere in the value. */
  predicate HasVariable(v: string) { exists i :: 0 <= i < |v| - 1 && v[i] == '$' && v[i + 1] == '{' }

  /** u_config_remove_comment, `done` being what has been kept: a "#" starts a comment, unless a backslash
      comes before it, which goes. */
  function Uncomment(done: string, s: string): (r: string)
    ensures |r| <= |done| + |s|
    decreases |s|
  {
    if s == "" then done
    else if s[0] != '#' then Uncomment(done + [s[0]], s[1..])
    else if done == "" || done[|done| - 1] != '\\' then done
    else Uncomment(done[..|done| - 1] + "#", s[1..])
  }

  /** What a line says.  Include directives and variables are not followed up here. */
  datatype Line = Empty | Open | Close | Bad | Name(key: string) | Pair(key: string, value: string) | Unmodelled

  function ReadLine(line: string): Line {
    if |line| >= LINESZ then Bad else ReadTrimmed(TrimLeft(DropNls(Trim(Uncomment("", line)))))
  }

  function ReadTrimmed(ln: string): Line {
    if ln == "" then Empty
    else if ln[0] == '{' then if AllBlank(ln[1..]) then Open else Bad
    else if ln[0] == '}' then if AllBlank(ln[1..]) then Close else Bad
    else
      var k := KeyLen(ln);
      var value := Trim(ln[k..]);
      if ln[..k] == "include" || ln[..k] == "-include" || HasVariable(value) then Unmodelled
      else if value == "" then Name(ln[..k]) else Pair(ln[..k], value)
  }

  // ---------- Building the tree (u_config_do_load_drv, u_config_do_set_key) ----------

  /** The place of the first child with this key, or the number of children. */
  function FindKid(kids: seq<Tree>, key: string): (i: nat)
    ensures i <= |kids| && (i < |kids| ==> kids[i].key == key)
    ensures forall j :: 0 <= j < i ==> kids[j].key != key
  {
    if kids == [] then 0 else if kids[0].key == key then 0 else 1 + FindKid(kids[1..], key)
  }

  function DotAt(key: string): (i: nat)
    ensures i <= |key| && (i < |key| ==> key[i] == '.') && forall j :: 0 <= j < i ==> key[j] != '.'
  {
    if key == "" || key[0] == '.' then 0 else 1 + DotAt(key[1..])
  }

  /** A value is set under a key of a list of children; a dotted key leads to their children. */
  function SetKey(kids: seq<Tree>, key: string, value: string, over: bool): (r: seq<Tree>)
    decreases |key|
  {
    var d := DotAt(key);
    var i := FindKid(kids, key[..d]);
    if d == |key| then
      if i < |kids| && over then kids[i := kids[i].(value := Some(Trim(value)))]
      else kids + [Tree(key, Some(Trim(value)), [])]
    else if i < |kids| then
      kids[i := kids[i].(kids := SetKey(kids[i].kids, key[d + 1..], value, over))]
    else
      kids + [Tree(key[..d], None, SetKey([], key[d + 1..], value, over))]
  }

  /** The end of a load: the children built and the text left. */
  datatype Outcome = Done(kids: seq<Tree>, rest: string) | Fail | Beyond

  /** The place of the child a group goes to: a new one unless keys are overwritten. */
  function GroupAt(kids: seq<Tree>, key: string, over: bool): (i: nat)
    ensures i <= |kids|
  {
    if over then FindKid(kids, key) else |kids|
  }

  function Put(kids: seq<Tree>, i: nat, t: Tree): seq<Tree>
    requires i <= |kids|
  {
    if i < |kids| then kids[i := t] else kids + [t]
  }

  function Load(r: string, kids: seq<Tree>, lastkey: string, root: bool, over: bool): (o: Outcome)
    ensures o.Done? ==> |o.rest| <= |r|
    decreases |r|
  {
    var (l, r1) := GetLine(r);
    if l.None? then Done(kids, r1)
    else
      match ReadLine(l.value)
      case Empty => Load(r1, kids, lastkey, root, over)
      case Open =>
        if lastkey == "" then Fail
        else
          var i := GroupAt(kids, lastkey, over);
          var child := if i < |kids| then kids[i] else Tree(lastkey, None, []);
          (match Load(r1, child.kids, "", false, over)
           case Done(sub, r2) => Load(r2, Put(kids, i, child.(kids := sub)), "", root, over)
           case other => other)
      case Close => if root then Fail else Done(kids, r1)
      case Name(key) => Load(r1, kids, key, root, over)
      case Pair(key, value) => Load(r1, SetKey(kids, key, value, over), lastkey, root, over)
      case Bad => Fail
      case Unmodelled => Beyond
  }
}
