/**
 What the parts of a pattern of srcs/missing/fnmatch.c stand for, said of its characters: case, plain and
 quoted characters, wildcards and brackets.
 */
module FnmatchLaws {
  import opened FnmatchSpec
  import opened Wrappers

  // ---------- Case ----------

  /** The letters "A" to "Z" become "a" to "z". */
  function Small(c: Byte): Byte { if 65 <= c <= 90 then c + 32 else c }

  function Lower(s: seq<Byte>): (r: seq<Byte>)
    ensures |r| == |s| && forall i :: 0 <= i < |s| ==> r[i] == Small(s[i])
  {
    seq(|s|, i requires 0 <= i < |s| => Small(s[i]))
  }

  lemma LowerPat(p: seq<Byte>, i: nat, fl: Flags)
    requires fl.casefold
    ensures var fl' := fl.(casefold := false);
            && Pat(p, i, fl) == Pat(Lower(p), i, fl') && Text(p, i, fl) == Text(Lower(p), i, fl')
            && BracketChar(p, i, fl) == BracketChar(Lower(p), i, fl')
            && (RangeGoesOn(p, i, fl) <==> RangeGoesOn(Lower(p), i, fl'))
            && (Negates(p, i) <==> Negates(Lower(p), i))
  {
  }

  lemma {:induction false} LowerRanges(p: seq<Byte>, i: nat, fl: Flags)
    requires fl.casefold
    ensures Ranges(p, i, fl) == Ranges(Lower(p), i, fl.(casefold := false))
    decreases |p| - i
  {
    hide Lower, RangeGoesOn, Pat;
    LowerPat(p, i, fl);
    if Pat(p, i, fl) != CLOSE {
      var (lo, i1) := BracketChar(p, i, fl);
      LowerPat(p, i1, fl);
      LowerPat(p, i1 + 1, fl);
      if lo != 0 {
        if RangeGoesOn(p, i1, fl) {
          if BracketChar(p, i1 + 1, fl).0 != 0 {
            LowerRanges(p, BracketChar(p, i1 + 1, fl).1, fl);
          }
        } else {
          LowerRanges(p, i1, fl);
        }
      }
    }
  }

  lemma {:induction false} LowerElems(p: seq<Byte>, i: nat, fl: Flags)
    requires fl.casefold
    ensures Elems(p, i, fl) == Elems(Lower(p), i, fl.(casefold := false))
    decreases |p| - i
  {
    hide Lower, RangeGoesOn, BracketChar, Ranges, Negates, Pat;
    LowerPat(p, i, fl);
    LowerPat(p, i + 1, fl);
    if Pat(p, i, fl) == 0 {
    } else if Pat(p, i, fl) == OPEN {
      LowerPat(p, i + 1, fl);
      LowerRanges(p, i + 1, fl);
      LowerRanges(p, i + 2, fl);
      if BracketAt(p, i + 1, fl).Some? {
        LowerElems(p, BracketAt(p, i + 1, fl).value.next, fl);
      }
    } else if Escapes(Pat(p, i, fl), fl) && Pat(p, i + 1, fl) != 0 {
      LowerElems(p, i + 2, fl);
    } else {
      LowerElems(p, i + 1, fl);
    }
  }

  lemma {:induction false} LowerAccepts(e: seq<Elem>, s: seq<Byte>, j: nat, start: nat, fl: Flags)
    requires fl.casefold
    ensures Accepts(e, s, j, start, fl) <==> Accepts(e, Lower(s), j, start, fl.(casefold := false))
    decreases |e|
  {
    var t, fl' := Lower(s), fl.(casefold := false);
    assert forall l :: 0 <= l < |s| ==> (t[l] == SLASH <==> s[l] == SLASH) && (t[l] == DOT <==> s[l] == DOT);
    if e != [] {
      if e[0].Star? {
        var r := AfterStars(e[1..]);
        assert FlagsAfterStar(r, fl') == FlagsAfterStar(r, fl).(casefold := false);
        forall k: nat
          ensures Spans(s, j, k, fl) == Spans(t, j, k, fl')
          ensures Accepts(r, s, k, start, FlagsAfterStar(r, fl)) == Accepts(r, t, k, start, FlagsAfterStar(r, fl'))
        {
          LowerAccepts(r, s, k, start, FlagsAfterStar(r, fl));
        }
      } else {
        LowerPat(s, j, fl);
        LowerAccepts(e[1..], s, j + 1, start, fl);
      }
    }
  }

  /** Under FNM_CASEFOLD a string is matched exactly when it is without that flag once all letters of the
      pattern and the string are small. */
  lemma CaseIsFolded(p: seq<Byte>, s: seq<Byte>, fl: Flags)
    requires fl.casefold
    ensures Accepts(Elems(p, 0, fl), s, 0, 0, fl) <==>
            Accepts(Elems(Lower(p), 0, fl.(casefold := false)), Lower(s), 0, 0, fl.(casefold := false))
  {
    LowerElems(p, 0, fl);
    LowerAccepts(Elems(p, 0, fl), s, 0, 0, fl);
  }

  /** Patterns and strings that differ in case only are matched alike. */
  lemma CaseDoesNotMatter(p: seq<Byte>, q: seq<Byte>, s: seq<Byte>, t: seq<Byte>, fl: Flags)
    requires fl.casefold && Lower(p) == Lower(q) && Lower(s) == Lower(t)
    ensures Accepts(Elems(p, 0, fl), s, 0, 0, fl) <==> Accepts(Elems(q, 0, fl), t, 0, 0, fl)
  {
    CaseIsFolded(p, s, fl);
    CaseIsFolded(q, t, fl);
  }

  // ---------- Plain and quoted characters ----------

  /** The string as FNM_CASEFOLD, when it is set, lets it be compared */
  function Cased(s: seq<Byte>, fl: Flags): (r: seq<Byte>)
    ensures |r| == |s|
  {
    if fl.casefold then Lower(s) else s
  }

  /** The string is `t` or, under FNM_LEADING_DIR, goes on behind it with a slash. */
  predicate Covers(t: seq<Byte>, s: seq<Byte>, fl: Flags) {
    t <= s && (|t| == |s| || (fl.leadingDir && s[|t|] == 47))
  }

  /** No character is negative. */
  predicate Positive(p: seq<Byte>, fl: Flags) { !fl.signedChar || forall i :: 0 <= i < |p| ==> p[i] < 128 }

  /** The elements are the characters of `t` one by one. */
  predicate Letters(e: seq<Elem>, t: seq<Byte>, fl: Flags) {
    |e| == |t| && forall k :: 0 <= k < |t| ==> e[k].Lit? && e[k].c == Text(t, k, fl)
  }

  predicate Agree(t: seq<Byte>, s: seq<Byte>, j: nat, k: nat, fl: Flags) { Text(t, k, fl) == Text(s, j + k, fl) }

  lemma {:induction false} LettersAccept(e: seq<Elem>, t: seq<Byte>, s: seq<Byte>, j: nat, start: nat, fl: Flags)
    requires Letters(e, t, fl) && j <= |s|
    ensures Accepts(e, s, j, start, fl) <==>
            j + |t| <= |s| && AtEnd(s, j + |t|, fl) && forall k: nat :: k < |t| ==> Agree(t, s, j, k, fl)
    decreases |e|
  {
    if e != [] && j < |s| {
      var u, i := t[1..], j + 1;
      assert forall k: nat :: k < |u| ==> Text(u, k, fl) == Text(t, k + 1, fl);
      LettersAccept(e[1..], u, s, i, start, fl);
      assert Agree(t, s, j, 0, fl) <==> e[0].c == Text(s, j, fl);
      if Accepts(e, s, j, start, fl) {
        forall k: nat | 0 < k < |t| ensures Agree(t, s, j, k, fl) {
          assert Agree(u, s, i, k - 1, fl);
        }
      }
      if forall k: nat :: k < |t| ==> Agree(t, s, j, k, fl) {
        forall k: nat | k < |u| ensures Agree(u, s, i, k, fl) {
          assert Agree(t, s, j, k + 1, fl);
        }
      }
    }
  }

  lemma LettersCover(e: seq<Elem>, t: seq<Byte>, s: seq<Byte>, fl: Flags)
    requires Letters(e, t, fl)
    ensures Accepts(e, s, 0, 0, fl) <==> Covers(Cased(t, fl), Cased(s, fl), fl)
  {
    LettersAccept(e, t, s, 0, 0, fl);
    var a, b := Cased(t, fl), Cased(s, fl);
    assert forall k :: 0 <= k < |t| ==> a[k] == Text(t, k, fl);
    assert forall k :: 0 <= k < |s| ==> b[k] == Text(s, k, fl) && (b[k] == 47 <==> s[k] == 47);
    if |t| <= |s| {
      if a <= b {
        assert forall k: nat :: k < |t| ==> a[k] == b[k] && Agree(t, s, 0, k, fl);
      }
      if forall k: nat :: k < |t| ==> Agree(t, s, 0, k, fl) {
        forall k: nat | k < |t| ensures a[k] == b[..|a|][k] {
          assert Agree(t, s, 0, k, fl) && b[k] == Text(s, k, fl);
        }
        assert a == b[..|a|];
      }
    }
  }

  /** A pattern without wildcards, brackets and escapes matches exactly itself, up to case when that is
      folded, and what goes on behind it with a slash when that is asked for. */
  lemma PlainMatches(p: seq<Byte>, s: seq<Byte>, fl: Flags)
    requires Positive(p, fl)
    requires forall i :: 0 <= i < |p| ==> p[i] !in {42, 63, 91} && (p[i] == 92 ==> fl.noescape)
    ensures Accepts(Elems(p, 0, fl), s, 0, 0, fl) <==> Covers(Cased(p, fl), Cased(s, fl), fl)
  {
    PlainLetters(p, 0, fl);
    assert p[0..] == p;
    LettersCover(Elems(p, 0, fl), p, s, fl);
  }

  lemma {:induction false} PlainLetters(p: seq<Byte>, i: nat, fl: Flags)
    requires Positive(p, fl) && i <= |p|
    requires forall i :: 0 <= i < |p| ==> p[i] !in {42, 63, 91} && (p[i] == 92 ==> fl.noescape)
    ensures Letters(Elems(p, i, fl), p[i..], fl)
    decreases |p| - i
  {
    if i < |p| {
      PlainLetters(p, i + 1, fl);
      assert Elems(p, i, fl) == [Lit(Pat(p, i, fl), false)] + Elems(p, i + 1, fl);
      OneMore(Elems(p, i + 1, fl), p, i, Lit(Pat(p, i, fl), false), fl);
    }
  }

  lemma OneMore(e: seq<Elem>, t: seq<Byte>, i: nat, x: Elem, fl: Flags)
    requires i < |t| && Letters(e, t[i + 1..], fl) && x.Lit? && x.c == Text(t, i, fl)
    ensures Letters([x] + e, t[i..], fl)
  {
    forall k | 0 <= k < |t[i..]| ensures ([x] + e)[k].Lit? && ([x] + e)[k].c == Text(t[i..], k, fl) {
      assert Text(t[i..], k, fl) == Text(t, i + k, fl);
      assert k > 0 ==> ([x] + e)[k] == e[k - 1] && Text(t[i + 1..], k - 1, fl) == Text(t, i + k, fl);
    }
  }

  /** Every character with a backslash before it */
  function Quoted(t: seq<Byte>): (p: seq<Byte>)
    ensures |p| == 2 * |t|
  {
    if t == [] then [] else [92, t[0]] + Quoted(t[1..])
  }

  lemma {:induction false} QuotedAt(t: seq<Byte>, i: nat)
    requires i < |t|
    ensures Quoted(t)[2 * i] == 92 && Quoted(t)[2 * i + 1] == t[i]
    decreases i
  {
    if i > 0 {
      QuotedAt(t[1..], i - 1);
    }
  }

  /** Quoted, every text matches exactly itself in that sense, unless FNM_NOESCAPE is set. */
  lemma QuotedMatches(t: seq<Byte>, s: seq<Byte>, fl: Flags)
    requires Positive(t, fl) && !fl.noescape
    ensures Accepts(Elems(Quoted(t), 0, fl), s, 0, 0, fl) <==> Covers(Cased(t, fl), Cased(s, fl), fl)
  {
    QuotedLetters(t, 0, fl);
    assert t[0..] == t;
    LettersCover(Elems(Quoted(t), 0, fl), t, s, fl);
  }

  lemma {:induction false} QuotedLetters(t: seq<Byte>, i: nat, fl: Flags)
    requires Positive(t, fl) && !fl.noescape && i <= |t|
    ensures Letters(Elems(Quoted(t), 2 * i, fl), t[i..], fl)
    decreases |t| - i
  {
    if i < |t| {
      QuotedLetters(t, i + 1, fl);
      var p := Quoted(t);
      QuotedAt(t, i);
      assert Elems(p, 2 * i, fl) == [Lit(Pat(p, 2 * i + 1, fl), true)] + Elems(p, 2 * (i + 1), fl);
      OneMore(Elems(p, 2 * (i + 1), fl), t, i, Lit(Pat(p, 2 * i + 1, fl), true), fl);
    }
  }

  /** A backslash that ends the pattern stands for itself. */
  lemma LastBackslash(s: seq<Byte>, fl: Flags)
    ensures Accepts(Elems([92], 0, fl), s, 0, 0, fl) <==> Covers([92], s, fl)
  {
    var p: seq<Byte> := [92];
    assert Elems(p, 1, fl) == [] && Elems(p, 0, fl) == [Lit(92, false)];
    LettersCover(Elems(p, 0, fl), p, s, fl);
    if fl.casefold {
      assert Lower(p) == p && (s != [] ==> (Lower(s)[0] == 92 <==> s[0] == 92));
      assert |s| > 1 ==> (Lower(s)[1] == 47 <==> s[1] == 47);
    }
  }

  // ---------- Wildcards ----------

  /** "?" matches one character, but no slash under FNM_PATHNAME and no leading period under FNM_PERIOD. */
  lemma QuestionMatches(s: seq<Byte>, fl: Flags)
    ensures Accepts(Elems([63], 0, fl), s, 0, 0, fl) <==>
            && s != [] && Covers(s[..1], s, fl)
            && !(fl.pathname && s[0] == 47) && !(fl.period && s[0] == 46)
  {
    var p: seq<Byte> := [63];
    assert Elems(p, 1, fl) == [] && Elems(p, 0, fl) == [Any];
    assert Accepts([], s, 1, 0, fl) <==> AtEnd(s, 1, fl);
  }

  /** "*" matches everything, but no slash under FNM_PATHNAME, unless what follows one does not matter, and
      no leading period under FNM_PERIOD. */
  lemma StarMatches(s: seq<Byte>, fl: Flags)
    ensures Accepts(Elems([42], 0, fl), s, 0, 0, fl) <==>
            && !(fl.period && s != [] && s[0] == 46)
            && (fl.pathname && !fl.leadingDir ==> 47 !in s)
  {
    var p: seq<Byte> := [42];
    assert Elems(p, 1, fl) == [] && Elems(p, 0, fl) == [Star];
    var fl' := FlagsAfterStar([], fl);
    assert forall k: nat :: Accepts([], s, k, 0, fl') <==> AtEnd(s, k, fl);
    var n := FirstSlash(s, 0);
    assert Spans(s, 0, n, fl) && (fl.leadingDir ==> Accepts([], s, n, 0, fl'));
    assert Accepts([], s, |s|, 0, fl') && (!fl.pathname || n == |s| ==> Spans(s, 0, |s|, fl));
    assert [Star][1..] == [] && AfterStars([]) == [];
  }

  function FirstSlash(s: seq<Byte>, j: nat): (n: nat)
    requires j <= |s|
    ensures j <= n <= |s| && (n < |s| ==> s[n] == 47) && forall l :: j <= l < n ==> s[l] != 47
    decreases |s| - j
  {
    if j == |s| || s[j] == 47 then j else FirstSlash(s, j + 1)
  }

  // ---------- Brackets ----------

  /** A character in a bracket, as it is or quoted */
  function Spelled(c: Byte, quoted: bool): (p: seq<Byte>)
    ensures |p| == if quoted then 2 else 1
  {
    if quoted then [92, c] else [c]
  }

  function ItemSpelled(r: (Byte, Byte), quoted: bool): (p: seq<Byte>)
    ensures p != []
  {
    Spelled(r.0, quoted) + if r.0 == r.1 then [] else [45] + Spelled(r.1, quoted)
  }

  /** Single characters and ranges, one after another */
  function ItemsSpelled(rs: seq<(Byte, Byte)>, quoted: bool): seq<Byte> {
    if rs == [] then [] else ItemSpelled(rs[0], quoted) + ItemsSpelled(rs[1..], quoted)
  }

  /** Unquoted, no character is the closing bracket or a backslash, and none that comes first a dash. */
  predicate Sayable(rs: seq<(Byte, Byte)>, quoted: bool, fl: Flags) {
    if quoted then !fl.noescape
    else
      forall r :: r in rs ==> r.0 !in {93, 45} && r.1 != 93 && (92 in {r.0, r.1} ==> fl.noescape)
  }

  function CasedOne(c: Byte, fl: Flags): Byte { if fl.casefold then Small(c) else c }

  function Meant(rs: seq<(Byte, Byte)>, fl: Flags): (r: seq<Range>)
    ensures |r| == |rs|
    ensures forall k :: 0 <= k < |rs| ==> r[k] == Range(CasedOne(rs[k].0, fl), CasedOne(rs[k].1, fl))
  {
    seq(|rs|, k requires 0 <= k < |rs| => Range(CasedOne(rs[k].0, fl), CasedOne(rs[k].1, fl)))
  }

  predicate AllPositive(rs: seq<(Byte, Byte)>, fl: Flags) {
    !fl.signedChar || forall r :: r in rs ==> r.0 < 128 && r.1 < 128
  }

  lemma CharRead(p: seq<Byte>, i: nat, c: Byte, quoted: bool, z: seq<Byte>, fl: Flags)
    requires i <= |p| && p[i..] == Spelled(c, quoted) + z && (!fl.signedChar || c < 128)
    requires if quoted then !fl.noescape else c == 92 ==> fl.noescape
    ensures BracketChar(p, i, fl) == (CasedOne(c, fl) as int, i + |Spelled(c, quoted)|)
    ensures i + |Spelled(c, quoted)| <= |p| && p[i + |Spelled(c, quoted)|..] == z
    ensures Pat(p, i, fl) == if quoted then 92 else CasedOne(c, fl)
  {
    assert p[i] == p[i..][0];
    if quoted {
      assert p[i + 1] == p[i..][1];
    }
  }

  lemma ItemRead(p: seq<Byte>, i: nat, r: (Byte, Byte), quoted: bool, z: seq<Byte>, fl: Flags)
    requires i <= |p| && p[i..] == ItemSpelled(r, quoted) + z && AllPositive([r], fl) && Sayable([r], quoted, fl)
    requires z != [] && (z[0] != 45 || z == [45, 93])
    ensures i + |ItemSpelled(r, quoted)| <= |p| && p[i + |ItemSpelled(r, quoted)|..] == z
    ensures Ranges(p, i, fl) ==
            Prepend([Range(CasedOne(r.0, fl), CasedOne(r.1, fl))], Ranges(p, i + |ItemSpelled(r, quoted)|, fl))
  {
    hide *;
    OneSayable(r, quoted, fl);
    ItemUnfold(r, quoted);
    if r.0 == r.1 {
      SingleRead(p, i, r.0, quoted, z, fl);
    } else {
      Regroup(Spelled(r.0, quoted), [45], Spelled(r.1, quoted), z);
      RangeRead(p, i, r.0, r.1, quoted, z, fl);
    }
  }

  lemma OneSayable(r: (Byte, Byte), quoted: bool, fl: Flags)
    requires AllPositive([r], fl) && Sayable([r], quoted, fl)
    ensures !fl.signedChar || (r.0 < 128 && r.1 < 128)
    ensures if quoted then !fl.noescape else r.0 != 93 && r.1 != 93 && (92 in {r.0, r.1} ==> fl.noescape)
  {
    assert r in [r];
  }

  lemma ItemUnfold(r: (Byte, Byte), quoted: bool)
    ensures var a, b := Spelled(r.0, quoted), Spelled(r.1, quoted);
            && (r.0 == r.1 ==> ItemSpelled(r, quoted) == a)
            && (r.0 != r.1 ==> ItemSpelled(r, quoted) == a + ([45] + b) && |ItemSpelled(r, quoted)| == |a| + 1 + |b|)
  {
  }

  lemma Regroup(a: seq<Byte>, b: seq<Byte>, c: seq<Byte>, d: seq<Byte>)
    ensures a + (b + c) + d == a + (b + (c + d)) && a + b + d == a + (b + d)
  {
  }

  lemma Behind(a: seq<Byte>, b: seq<Byte>)
    ensures (a + b)[|a|..] == b && |a + b| == |a| + |b|
  {
  }

  lemma SingleRead(p: seq<Byte>, i: nat, c: Byte, quoted: bool, z: seq<Byte>, fl: Flags)
    requires i <= |p| && p[i..] == Spelled(c, quoted) + z && (!fl.signedChar || c < 128)
    requires z != [] && (z[0] != 45 || z == [45, 93])
    requires if quoted then !fl.noescape else c != 93 && (c == 92 ==> fl.noescape)
    ensures var j := i + |Spelled(c, quoted)|;
            && j <= |p| && p[j..] == z
            && Ranges(p, i, fl) == Prepend([Range(CasedOne(c, fl), CasedOne(c, fl))], Ranges(p, j, fl))
  {
    hide Ranges, Prepend, BracketChar, Spelled;
    CharRead(p, i, c, quoted, z, fl);
    var j := i + |Spelled(c, quoted)|;
    assert p[j] == p[j..][0] == z[0];
    NothingGoesOn(p, j, z, fl);
    RangesUnfold(p, i, fl);
  }

  lemma NothingGoesOn(p: seq<Byte>, i: nat, z: seq<Byte>, fl: Flags)
    requires i <= |p| && p[i..] == z && z != [] && (z[0] != 45 || z == [45, 93])
    ensures !RangeGoesOn(p, i, fl)
  {
    assert p[i] == p[i..][0];
    if z == [45, 93] {
      assert p[i + 1] == p[i..][1];
    }
  }

  lemma RangeRead(p: seq<Byte>, i: nat, lo: Byte, hi: Byte, quoted: bool, z: seq<Byte>, fl: Flags)
    requires i <= |p| && p[i..] == Spelled(lo, quoted) + ([45] + (Spelled(hi, quoted) + z))
    requires !fl.signedChar || (lo < 128 && hi < 128)
    requires if quoted then !fl.noescape else lo != 93 && hi != 93 && (92 in {lo, hi} ==> fl.noescape)
    ensures var j := i + |Spelled(lo, quoted)| + 1 + |Spelled(hi, quoted)|;
            && j <= |p| && p[j..] == z
            && Ranges(p, i, fl) == Prepend([Range(CasedOne(lo, fl), CasedOne(hi, fl))], Ranges(p, j, fl))
  {
    hide Ranges, Prepend, BracketChar, Spelled, RangeGoesOn;
    CharRead(p, i, lo, quoted, [45] + (Spelled(hi, quoted) + z), fl);
    var i1 := i + |Spelled(lo, quoted)|;
    DashDropped(p, i1, Spelled(hi, quoted) + z);
    CharRead(p, i1 + 1, hi, quoted, z, fl);
    GoesOn(p, i1, fl);
    RangesUnfold(p, i, fl);
  }

  lemma DashDropped(p: seq<Byte>, i: nat, z: seq<Byte>)
    requires i <= |p| && p[i..] == [45] + z
    ensures i < |p| && p[i] == 45 && p[i + 1..] == z
  {
    assert p[i] == p[i..][0];
    assert p[i + 1..] == p[i..][1..];
  }

  lemma GoesOn(p: seq<Byte>, i: nat, fl: Flags)
    requires i < |p| && p[i] == 45 && Pat(p, i + 1, fl) != 0 && Pat(p, i + 1, fl) != 93
    ensures RangeGoesOn(p, i, fl)
  {
  }

  lemma RangesUnfold(p: seq<Byte>, i: nat, fl: Flags)
    requires var (lo, i1) := BracketChar(p, i, fl); lo != 0 && Pat(p, i, fl) != 93
    ensures var (lo, i1) := BracketChar(p, i, fl);
            var (hi, i2) := BracketChar(p, i1 + 1, fl);
            && (RangeGoesOn(p, i1, fl) && hi != 0 ==>
                  Ranges(p, i, fl) == Prepend([Range(lo, hi)], Ranges(p, i2, fl)))
            && (!RangeGoesOn(p, i1, fl) ==> Ranges(p, i, fl) == Prepend([Range(lo, lo)], Ranges(p, i1, fl)))
  {
    hide RangeGoesOn, BracketChar;
  }

  lemma ItemsUnfold(rs: seq<(Byte, Byte)>, quoted: bool)
    requires rs != []
    ensures ItemsSpelled(rs, quoted) == ItemSpelled(rs[0], quoted) + ItemsSpelled(rs[1..], quoted)
  {
  }

  lemma Prepended(a: seq<Range>, b: seq<Range>, n: nat)
    ensures Prepend(a, Some(Bracket(b, n))) == Some(Bracket(a + b, n))
  {
  }

  /** The end of a bracket, before which a dash stands for itself */
  function Ending(dash: bool): seq<Byte> { if dash then [45, 93] else [93] }

  function WithDash(rs: seq<(Byte, Byte)>, dash: bool): seq<(Byte, Byte)> { if dash then rs + [(45, 45)] else rs }

  lemma {:induction false} ItemsRead(p: seq<Byte>, i: nat, rs: seq<(Byte, Byte)>, quoted: bool, dash: bool, fl: Flags)
    requires i <= |p| && p[i..] == ItemsSpelled(rs, quoted) + Ending(dash)
    requires AllPositive(rs, fl) && Sayable(rs, quoted, fl)
    ensures Ranges(p, i, fl) == Some(Bracket(Meant(WithDash(rs, dash), fl), |p|))
    decreases |rs|
  {
    hide *;
    if rs == [] {
      NoItems(rs, quoted, dash, fl);
      Closed(p, i, dash, fl);
    } else {
      var r, z := rs[0], ItemsSpelled(rs[1..], quoted) + Ending(dash);
      ItemsUnfold(rs, quoted);
      Regroup(ItemSpelled(r, quoted), ItemsSpelled(rs[1..], quoted), [], Ending(dash));
      TailIsSayable(rs, quoted, dash, fl);
      MeantUnfold(rs, dash, fl);
      ItemRead(p, i, r, quoted, z, fl);
      ItemsRead(p, i + |ItemSpelled(r, quoted)|, rs[1..], quoted, dash, fl);
      Prepended([Range(CasedOne(r.0, fl), CasedOne(r.1, fl))], Meant(WithDash(rs[1..], dash), fl), |p|);
    }
  }

  lemma NoItems(rs: seq<(Byte, Byte)>, quoted: bool, dash: bool, fl: Flags)
    requires rs == []
    ensures ItemsSpelled(rs, quoted) + Ending(dash) == Ending(dash)
    ensures Meant(WithDash(rs, dash), fl) == if dash then [Range(45, 45)] else []
  {
  }

  lemma Closed(p: seq<Byte>, i: nat, dash: bool, fl: Flags)
    requires i <= |p| && p[i..] == Ending(dash)
    ensures Ranges(p, i, fl) == Some(Bracket(if dash then [Range(45, 45)] else [], |p|))
  {
    assert p[i] == p[i..][0];
    if dash {
      assert p[i + 1] == p[i..][1] && Ranges(p, i + 1, fl) == Some(Bracket([], |p|));
      Prepended([Range(45, 45)], [], |p|);
      assert [Range(45, 45)] + [] == [Range(45, 45)];
    }
  }

  lemma TailIsSayable(rs: seq<(Byte, Byte)>, quoted: bool, dash: bool, fl: Flags)
    requires rs != [] && AllPositive(rs, fl) && Sayable(rs, quoted, fl)
    ensures AllPositive([rs[0]], fl) && Sayable([rs[0]], quoted, fl)
    ensures AllPositive(rs[1..], fl) && Sayable(rs[1..], quoted, fl)
    ensures var z := ItemsSpelled(rs[1..], quoted) + Ending(dash); z != [] && (z[0] != 45 || z == [45, 93])
  {
    assert rs[0] in rs && forall x :: x in rs[1..] ==> x in rs;
    if |rs| > 1 {
      assert rs[1] in rs && ItemSpelled(rs[1], quoted)[0] == if quoted then 92 else rs[1].0;
      ItemsUnfold(rs[1..], quoted);
    } else {
      assert ItemsSpelled(rs[1..], quoted) == [] && [] + Ending(dash) == Ending(dash);
    }
  }

  lemma MeantUnfold(rs: seq<(Byte, Byte)>, dash: bool, fl: Flags)
    requires rs != []
    ensures Meant(WithDash(rs, dash), fl) ==
            [Range(CasedOne(rs[0].0, fl), CasedOne(rs[0].1, fl))] + Meant(WithDash(rs[1..], dash), fl)
  {
    hide CasedOne;
    var a, b := WithDash(rs, dash), WithDash(rs[1..], dash);
    assert a[0] == rs[0] && a[1..] == b;
    assert forall k :: 0 < k < |a| ==> a[k] == b[k - 1];
  }

  /** A pattern that is one bracket: "!" or "^" or nothing, some items, and maybe a dash at the end */
  function BracketOf(mark: seq<Byte>, rs: seq<(Byte, Byte)>, quoted: bool, dash: bool): seq<Byte> {
    [91] + mark + ItemsSpelled(rs, quoted) + Ending(dash)
  }

  /** A bracket matches one character, that lies in one of its ranges or, after "!" or "^", in none: up to case
      when that is folded, and no slash under FNM_PATHNAME. */
  lemma BracketMatches(mark: seq<Byte>, rs: seq<(Byte, Byte)>, quoted: bool, dash: bool, s: seq<Byte>, fl: Flags)
    requires AllPositive(rs, fl) && Sayable(rs, quoted, fl) && mark in {[], [33], [94]}
    requires mark == [] && !quoted && rs != [] ==> rs[0].0 !in {33, 94}
    ensures Accepts(Elems(BracketOf(mark, rs, quoted, dash), 0, fl), s, 0, 0, fl) <==>
            && s != [] && Covers(s[..1], s, fl) && !(fl.pathname && s[0] == 47)
            && ((exists r :: r in WithDash(rs, dash) && CasedOne(r.0, fl) <= CasedOne(s[0], fl) <= CasedOne(r.1, fl))
                <==> mark == [])
  {
    hide *;
    BracketElems(mark, rs, quoted, dash, fl);
    OneSetAccepts(mark != [], Meant(WithDash(rs, dash), fl), s, fl);
    if s != [] {
      InMeant(WithDash(rs, dash), s[0], fl);
    }
  }

  lemma OneSetAccepts(negate: bool, ranges: seq<Range>, s: seq<Byte>, fl: Flags)
    ensures Accepts([Set(negate, ranges)], s, 0, 0, fl) <==>
            && s != [] && Covers(s[..1], s, fl) && !(fl.pathname && s[0] == 47)
            && (InRanges(ranges, Fold(s[0], fl)) <==> !negate)
  {
    var e := [Set(negate, ranges)];
    assert e[1..] == [];
    if s != [] {
      assert Accepts([], s, 1, 0, fl) <==> Covers(s[..1], s, fl);
    }
  }

  lemma BracketElems(mark: seq<Byte>, rs: seq<(Byte, Byte)>, quoted: bool, dash: bool, fl: Flags)
    requires AllPositive(rs, fl) && Sayable(rs, quoted, fl) && mark in {[], [33], [94]}
    requires mark == [] && !quoted && rs != [] ==> rs[0].0 !in {33, 94}
    ensures Elems(BracketOf(mark, rs, quoted, dash), 0, fl) == [Set(mark != [], Meant(WithDash(rs, dash), fl))]
  {
    hide AllPositive, Sayable, Ranges, Meant, WithDash, ItemsSpelled;
    var p := BracketOf(mark, rs, quoted, dash);
    var i := 1 + |mark|;
    Regroup([91] + mark, ItemsSpelled(rs, quoted), [], Ending(dash));
    Behind([91] + mark, ItemsSpelled(rs, quoted) + Ending(dash));
    ItemsRead(p, i, rs, quoted, dash, fl);
    FirstInside(mark, rs, quoted, dash);
    assert BracketAt(p, 1, fl) == Some(Bracket(Meant(WithDash(rs, dash), fl), |p|));
    assert Elems(p, |p|, fl) == [];
  }

  lemma FirstInside(mark: seq<Byte>, rs: seq<(Byte, Byte)>, quoted: bool, dash: bool)
    requires mark in {[], [33], [94]} && (mark == [] && !quoted && rs != [] ==> rs[0].0 !in {33, 94})
    ensures Negates(BracketOf(mark, rs, quoted, dash), 1) <==> mark != []
    ensures BracketOf(mark, rs, quoted, dash)[0] == 91
  {
    var p := BracketOf(mark, rs, quoted, dash);
    if mark == [] && rs != [] {
      ItemsUnfold(rs, quoted);
      assert p[1] == ItemSpelled(rs[0], quoted)[0];
    }
  }

  /** An opening bracket that no closing one follows makes a pattern match nothing. */
  lemma UnclosedMatches(q: seq<Byte>, s: seq<Byte>, fl: Flags)
    requires 93 !in q
    ensures !Accepts(Elems([91] + q, 0, fl), s, 0, 0, fl)
  {
    var p := [91] + q;
    assert forall k :: 0 <= k < |p| ==> p[k] != 93;
    NotClosed(p, 1, fl);
    NotClosed(p, 2, fl);
    assert Elems(p, 0, fl) == [Never];
  }

  lemma {:induction false} NotClosed(p: seq<Byte>, i: nat, fl: Flags)
    requires forall k :: 0 <= k < |p| ==> p[k] != 93
    ensures Ranges(p, i, fl) == None
    decreases |p| - i
  {
    assert Pat(p, i, fl) != 93;
    if i < |p| {
      var (lo, i1) := BracketChar(p, i, fl);
      NotClosed(p, i1, fl);
      NotClosed(p, BracketChar(p, i1 + 1, fl).1, fl);
    }
  }

  lemma InMeant(rs: seq<(Byte, Byte)>, c: Byte, fl: Flags)
    ensures InRanges(Meant(rs, fl), Fold(c, fl)) <==>
            exists r :: r in rs && CasedOne(r.0, fl) <= CasedOne(c, fl) <= CasedOne(r.1, fl)
  {
    if x :| x in Meant(rs, fl) && x.lo <= Fold(c, fl) <= x.hi {
      var k :| 0 <= k < |rs| && Meant(rs, fl)[k] == x;
      assert rs[k] in rs;
    }
    if r :| r in rs && CasedOne(r.0, fl) <= CasedOne(c, fl) <= CasedOne(r.1, fl) {
      var k :| 0 <= k < |rs| && rs[k] == r;
      assert Meant(rs, fl)[k] in Meant(rs, fl);
    }
  }
}
