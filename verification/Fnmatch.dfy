/**
 The glob matcher of srcs/missing/fnmatch.c: a pattern and a string read side by side, with a call to
 itself at "*".
 */
module Fnmatch {
  import opened FnmatchSpec
  import opened Wrappers

  const NOMATCH := 1

  // ---------- Brackets ----------

  lemma InRangesAppend(a: seq<Range>, r: Range, c: int)
    ensures InRanges(a + [r], c) <==> InRanges(a, c) || r.lo <= c <= r.hi
  {
    assert r in a + [r];
  }

  lemma PrependAgain(a: seq<Range>, r: Range, b: Option<Bracket>)
    ensures Prepend(a + [r], b) == Prepend(a, Prepend([r], b))
  {
    if b.Some? {
      assert a + [r] + b.value.ranges == a + ([r] + b.value.ranges);
    }
  }

  /** rangematch: the place after the bracket, if it is closed and `test` is in its set. */
  method RangeMatch(p: seq<Byte>, start: nat, test: int, fl: Flags) returns (next: Option<nat>)
    ensures next == match BracketAt(p, start, fl)
                    case None => None
                    case Some(b) => if InSet(Negates(p, start), b.ranges, test) then Some(b.next) else None
  {
    hide Ranges, Prepend, InRanges, RangeGoesOn;
    var negate := Negates(p, start);
    var i := if negate then start + 1 else start;
    var ok := false;
    ghost var seen: seq<Range> := [];
    NothingSeen(Ranges(p, i, fl), test);
    while Pat(p, i, fl) != CLOSE
      invariant BracketAt(p, start, fl) == Prepend(seen, Ranges(p, i, fl))
      invariant ok <==> InRanges(seen, test)
      decreases |p| - i
    {
      var r, i1 := NextRange(p, i, fl);
      if r.None? {
        return None;
      }
      if r.value.lo <= test <= r.value.hi {
        ok := true;
      }
      InRangesAppend(seen, r.value, test);
      PrependAgain(seen, r.value, Ranges(p, i1, fl));
      seen, i := seen + [r.value], i1;
    }
    BracketCloses(p, i, seen, fl);
    next := if ok == negate then None else Some(i + 1);
  }

  lemma BracketCloses(p: seq<Byte>, i: nat, seen: seq<Range>, fl: Flags)
    requires Pat(p, i, fl) == CLOSE
    ensures Prepend(seen, Ranges(p, i, fl)) == Some(Bracket(seen, i + 1))
  {
    assert seen + [] == seen;
  }

  /** One character or range of a bracket; none when the pattern ends in it. */
  method NextRange(p: seq<Byte>, i: nat, fl: Flags) returns (r: Option<Range>, i': nat)
    requires Pat(p, i, fl) != CLOSE
    ensures i' > i && (r.Some? ==> i' <= |p|)
    ensures Ranges(p, i, fl) == if r.None? then None else Prepend([r.value], Ranges(p, i', fl))
    ensures r.None? ==> forall a :: Prepend(a, Ranges(p, i, fl)) == None
  {
    var c, c2;
    c, i' := NextChar(p, i, fl);
    if c == 0 {
      return None, i';
    }
    c2 := c;
    if RangeGoesOn(p, i', fl) {
      c2, i' := NextChar(p, i' + 1, fl);
      if c2 == 0 {
        return None, i';
      }
    }
    r := Some(Range(c, c2));
  }

  lemma NothingSeen(b: Option<Bracket>, c: int)
    ensures Prepend([], b) == b && !InRanges([], c)
  {
    if b.Some? {
      assert [] + b.value.ranges == b.value.ranges;
    }
  }

  /** A character of a bracket, the quoting backslash dropped */
  method NextChar(p: seq<Byte>, i: nat, fl: Flags) returns (c: int, i': nat)
    ensures (c, i') == BracketChar(p, i, fl)
  {
    c, i' := Pat(p, i, fl), i + 1;
    if Escapes(c, fl) {
      c, i' := Pat(p, i', fl), i' + 1;
    }
  }

  // ---------- Stars ----------

  /** FNM_PERIOD does not change how the pattern is read. */
  lemma CharsSame(p: seq<Byte>, i: nat, fl: Flags)
    ensures Pat(p, i, fl.(period := false)) == Pat(p, i, fl)
    ensures BracketChar(p, i, fl.(period := false)) == BracketChar(p, i, fl)
    ensures RangeGoesOn(p, i, fl.(period := false)) == RangeGoesOn(p, i, fl)
  {
  }

  lemma {:induction false} RangesSame(p: seq<Byte>, i: nat, fl: Flags)
    ensures Ranges(p, i, fl.(period := false)) == Ranges(p, i, fl)
    decreases |p| - i
  {
    hide BracketChar, RangeGoesOn, Pat, Prepend;
    CharsSame(p, i, fl);
    if i < |p| {
      var i1 := BracketChar(p, i, fl).1;
      CharsSame(p, i1, fl);
      CharsSame(p, i1 + 1, fl);
      RangesSame(p, i1, fl);
      RangesSame(p, BracketChar(p, i1 + 1, fl).1, fl);
    }
  }

  lemma BracketSame(p: seq<Byte>, i: nat, fl: Flags)
    ensures BracketAt(p, i, fl.(period := false)) == BracketAt(p, i, fl)
  {
    RangesSame(p, i, fl);
    RangesSame(p, i + 1, fl);
  }

  lemma {:induction false} ElemsSame(p: seq<Byte>, i: nat, fl: Flags)
    ensures Elems(p, i, fl.(period := false)) == Elems(p, i, fl)
    decreases |p| - i
  {
    hide Pat, BracketAt, Ranges;
    CharsSame(p, i, fl);
    CharsSame(p, i + 1, fl);
    BracketSame(p, i + 1, fl);
    if i < |p| {
      ElemsSame(p, i + 1, fl);
      ElemsSame(p, i + 2, fl);
      if BracketAt(p, i + 1, fl).Some? {
        BracketNext(p, i + 1, fl);
        ElemsSame(p, BracketAt(p, i + 1, fl).value.next, fl);
      }
    }
  }

  lemma BracketNext(p: seq<Byte>, i: nat, fl: Flags)
    requires BracketAt(p, i, fl).Some?
    ensures i < BracketAt(p, i, fl).value.next <= |p|
  {
  }

  /** What begins with neither "*" nor the end of the pattern takes at least one character. */
  lemma NeedsOne(r: seq<Elem>, s: seq<Byte>, j: nat, start: nat, fl: Flags)
    requires r != [] && !r[0].Star? && j >= |s|
    ensures !Accepts(r, s, j, start, fl)
  {
  }

  /** strchr(string, '/') */
  method FindSlash(s: seq<Byte>, j: nat) returns (k: nat)
    requires j <= |s|
    ensures j <= k <= |s| && (k < |s| ==> s[k] == SLASH)
    ensures forall l :: j <= l < k ==> s[l] != SLASH
  {
    k := j;
    while k < |s| && s[k] != SLASH
      invariant j <= k <= |s| && forall l :: j <= l < k ==> s[l] != SLASH
    {
      k := k + 1;
    }
  }

  /** A star before a slash goes up to the first slash and no further. */
  lemma StarUpToSlash(r: seq<Elem>, s: seq<Byte>, j: nat, k: nat, start: nat, fl: Flags)
    requires fl.pathname && r != [] && r[0] == Lit(SLASH, false)
    requires j <= k <= |s| && (k < |s| ==> s[k] == SLASH) && forall l :: j <= l < k ==> s[l] != SLASH
    ensures (exists m :: Spans(s, j, m, fl) && Accepts(r, s, m, start, fl)) <==> k < |s| && Accepts(r, s, k, start, fl)
  {
    if m: nat :| Spans(s, j, m, fl) && Accepts(r, s, m, start, fl) {
      assert m < |s| && One(r[0], s, m, fl);
      assert s[m] == SLASH;
      assert m == k;
    }
    if k < |s| {
      assert Spans(s, j, k, fl);
    }
  }

  /** A star at the end of the pattern. */
  lemma StarAtEnd(s: seq<Byte>, j: nat, k: nat, start: nat, fl: Flags)
    requires j <= k <= |s| && (k < |s| ==> s[k] == SLASH) && forall l :: j <= l < k ==> s[l] != SLASH
    ensures (exists m :: Spans(s, j, m, fl) && Accepts([], s, m, start, fl)) <==>
            !fl.pathname || fl.leadingDir || k == |s|
  {
    if !fl.pathname {
      assert Spans(s, j, |s|, fl) && Accepts([], s, |s|, start, fl);
    } else if fl.leadingDir || k == |s| {
      assert Spans(s, j, k, fl) && Accepts([], s, k, start, fl);
    }
  }

  /** Past the stars in a row: the place of the first other character. */
  method SkipStars(p: seq<Byte>, i0: nat, fl: Flags) returns (i: nat)
    requires i0 <= |p|
    ensures i0 <= i <= |p| && Pat(p, i, fl) != STAR
    ensures AfterStars(Elems(p, i0, fl)) == Elems(p, i, fl)
  {
    i := i0;
    while Pat(p, i, fl) == STAR
      invariant i0 <= i <= |p|
      invariant AfterStars(Elems(p, i0, fl)) == AfterStars(Elems(p, i, fl))
      decreases |p| - i
    {
      i := i + 1;
      assert Elems(p, i - 1, fl)[1..] == Elems(p, i, fl);
    }
    FirstElem(p, i, fl);
  }

  /** What an element says about the character it was read from. */
  lemma FirstElem(p: seq<Byte>, i: nat, fl: Flags)
    ensures Elems(p, i, fl) == [] <==> Pat(p, i, fl) == 0
    ensures Elems(p, i, fl) != [] ==> (Elems(p, i, fl)[0].Star? <==> Pat(p, i, fl) == STAR)
    ensures Elems(p, i, fl) != [] ==> (Elems(p, i, fl)[0] == Lit(SLASH, false) <==> Pat(p, i, fl) == SLASH)
  {
  }

  /** The general case of "*": the rest of the pattern is tried at every place the star can reach. */
  method TryEach(p: seq<Byte>, i: nat, s: seq<Byte>, j: nat, fl: Flags) returns (rc: int)
    requires 0 < i <= |p| && j <= |s|
    requires Pat(p, i, fl) != 0 && Pat(p, i, fl) != STAR
    ensures rc in {0, NOMATCH}
    ensures rc == 0 <==>
            exists k :: Spans(s, j, k, fl) && Accepts(Elems(p, i, fl), s, k, k, fl.(period := false))
    decreases |p| - i, 3
  {
    var fl' := fl.(period := false);
    ghost var r := Elems(p, i, fl);
    FirstElem(p, i, fl);
    ElemsSame(p, i, fl);
    var k := j;
    while k < |s|
      invariant Spans(s, j, k, fl)
      invariant forall l :: j <= l < k ==> !Accepts(r, s, l, l, fl')
    {
      rc := Match(p, i, s, k, fl');
      if rc == 0 {
        return;
      }
      if s[k] == SLASH && fl.pathname {
        break;
      }
      k := k + 1;
    }
    forall l: nat | Spans(s, j, l, fl) ensures !Accepts(r, s, l, l, fl') {
      if l >= |s| {
        NeedsOne(r, s, l, l, fl');
      }
    }
    rc := NOMATCH;
  }

  /** Without FNM_PERIOD it does not matter where the string starts. */
  lemma {:induction false} StartIsFree(e: seq<Elem>, s: seq<Byte>, j: nat, a: nat, b: nat, fl: Flags)
    requires !fl.period
    ensures Accepts(e, s, j, a, fl) <==> Accepts(e, s, j, b, fl)
    decreases |e|
  {
    if e != [] {
      if e[0].Star? {
        var r := AfterStars(e[1..]);
        forall k: nat
          ensures Accepts(r, s, k, a, FlagsAfterStar(r, fl)) <==> Accepts(r, s, k, b, FlagsAfterStar(r, fl))
        {
          StartIsFree(r, s, k, a, b, FlagsAfterStar(r, fl));
        }
      } else {
        StartIsFree(e[1..], s, j + 1, a, b, fl);
      }
    }
  }

  // ---------- The matcher ----------

  /** The cases of one character: the place in the pattern after the element, when it stands for the
      character at `j`. */
  method MatchOne(p: seq<Byte>, i: nat, s: seq<Byte>, j: nat, start: nat, fl: Flags) returns (next: Option<nat>)
    requires i <= |p| && j <= |s| && Pat(p, i, fl) != 0 && Pat(p, i, fl) != STAR
    ensures next.Some? ==> i < next.value <= |p| && j < |s|
    ensures Accepts(Elems(p, i, fl), s, j, start, fl) <==>
            next.Some? && Accepts(Elems(p, next.value, fl), s, j + 1, start, fl)
  {
    var c := Pat(p, i, fl);
    if c == QUESTION {
      if j == |s| || (s[j] == SLASH && fl.pathname) || Hidden(s, j, start, fl) {
        return None;
      }
      return Some(i + 1);
    } else if c == OPEN {
      if j == |s| || (s[j] == SLASH && fl.pathname) {
        return None;
      }
      next := RangeMatch(p, i + 1, Text(s, j, fl), fl);
    } else {
      next := MatchLit(p, i, s, j, start, fl);
    }
  }

  /** A character that stands for itself, escaped or not: the last cases of the switch. */
  method MatchLit(p: seq<Byte>, i: nat, s: seq<Byte>, j: nat, start: nat, fl: Flags) returns (next: Option<nat>)
    requires i <= |p| && j <= |s| && Pat(p, i, fl) !in {0, STAR, QUESTION, OPEN}
    ensures next.Some? ==> i < next.value <= |p| && j < |s|
    ensures Accepts(Elems(p, i, fl), s, j, start, fl) <==>
            next.Some? && Accepts(Elems(p, next.value, fl), s, j + 1, start, fl)
  {
    hide BracketAt, Hidden;
    var c, i1 := Pat(p, i, fl), i + 1;
    if Escapes(c, fl) {
      c, i1 := Pat(p, i1, fl), i1 + 1;
      if c == 0 {
        c, i1 := BACKSLASH, i1 - 1;
      }
    }
    next := if c == Text(s, j, fl) then Some(i1) else None;
  }

  /** The case of "*": the outcome or, when a slash comes next, the places to go on from. */
  method MatchStar(p: seq<Byte>, i: nat, s: seq<Byte>, j: nat, start: nat, fl: Flags)
    returns (done: bool, rc: int, i': nat, j': nat)
    requires i < |p| && start <= j <= |s| && Pat(p, i, fl) == STAR
    ensures done ==> rc in {0, NOMATCH} && (rc == 0 <==> Accepts(Elems(p, i, fl), s, j, start, fl))
    ensures !done ==>
      && i < i' <= |p| && j <= j' <= |s|
      && (Accepts(Elems(p, i, fl), s, j, start, fl) <==> Accepts(Elems(p, i', fl), s, j', start, fl))
    decreases |p| - i, 1
  {
    j' := j;
    i' := SkipStars(p, i + 1, fl);
    ghost var r := Elems(p, i', fl);
    assert Elems(p, i, fl) == [Star] + Elems(p, i + 1, fl) && Elems(p, i, fl)[1..] == Elems(p, i + 1, fl);
    FirstElem(p, i', fl);
    if Hidden(s, j, start, fl) {
      return true, NOMATCH, i', j';
    }
    var c := Pat(p, i', fl);
    var k := FindSlash(s, j);
    if c == 0 {
      StarAtEnd(s, j, k, start, FlagsAfterStar(r, fl));
      return true, if !fl.pathname || fl.leadingDir || k == |s| then 0 else NOMATCH, i', j';
    } else if c == SLASH && fl.pathname {
      StarUpToSlash(r, s, j, k, start, fl);
      if k == |s| {
        return true, NOMATCH, i', j';
      }
      return false, 0, i', k;
    }
    rc := TryEach(p, i', s, j, fl);
    AnyStart(r, s, j, start, fl);
    return true, rc, i', j';
  }

  lemma AnyStart(r: seq<Elem>, s: seq<Byte>, j: nat, start: nat, fl: Flags)
    ensures (exists k :: Spans(s, j, k, fl) && Accepts(r, s, k, k, fl.(period := false))) <==>
            exists k :: Spans(s, j, k, fl) && Accepts(r, s, k, start, fl.(period := false))
  {
    forall k: nat
      ensures Accepts(r, s, k, k, fl.(period := false)) <==> Accepts(r, s, k, start, fl.(period := false))
    {
      StartIsFree(r, s, k, k, start, fl.(period := false));
    }
  }

  /** fnmatch, from place `from` of the pattern and `start` of the string: 0 when the string matches */
  method Match(p: seq<Byte>, from: nat, s: seq<Byte>, start: nat, fl: Flags) returns (rc: int)
    requires from <= |p| && start <= |s|
    ensures rc in {0, NOMATCH}
    ensures rc == 0 <==> Accepts(Elems(p, from, fl), s, start, start, fl)
    ensures rc == 0 ==> Denotes(Elems(p, from, fl), s, start, fl)
    ensures !fl.period ==> (rc == 0 <==> Denotes(Elems(p, from, fl), s, start, fl))
    decreases |p| - from, 2
  {
    AcceptsTheLanguage(Elems(p, from, fl), s, start, start, fl);
    var i, j := from, start;
    while true
      invariant from <= i <= |p| && start <= j <= |s|
      invariant Accepts(Elems(p, from, fl), s, start, start, fl) <==> Accepts(Elems(p, i, fl), s, j, start, fl)
      decreases |p| - i
    {
      var c := Pat(p, i, fl);
      ghost var e := Elems(p, i, fl);
      if c == 0 {
        return if AtEnd(s, j, fl) then 0 else NOMATCH;
      } else if c == STAR {
        var done;
        done, rc, i, j := MatchStar(p, i, s, j, start, fl);
        if done {
          return;
        }
      } else {
        var next := MatchOne(p, i, s, j, start, fl);
        if next.None? {
          return NOMATCH;
        }
        i, j := next.value, j + 1;
      }
    }
  }
}
