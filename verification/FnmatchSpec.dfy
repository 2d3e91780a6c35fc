/**
 The language of a glob pattern of srcs/missing/fnmatch.c: how the pattern is read, and which strings
 it stands for.
 */
module FnmatchSpec {
  import opened Wrappers

  /** A character of a C string: NUL ends the string and is not one of them. */
  type Byte = x: int | 0 < x < 256 witness 1

  /** The FNM_* flags, and whether `char` is signed on the platform. */
  datatype Flags = Flags(noescape: bool, pathname: bool, period: bool, casefold: bool, leadingDir: bool,
                         signedChar: bool)

  const SLASH: int := 47
  const DOT: int := 46
  const BACKSLASH: int := 92
  const STAR: int := 42
  const QUESTION: int := 63
  const OPEN: int := 91
  const CLOSE: int := 93
  const DASH: int := 45
  const BANG: int := 33
  const CARET: int := 94

  // ---------- Characters ----------

  /** The character at place `i`, 0 from the end of the string on. */
  function At(s: seq<Byte>, i: nat): (c: int)
    ensures 0 <= c < 256 && (c == 0 <==> i >= |s|)
  {
    if i < |s| then s[i] else 0
  }

  /** FOLDCASE, in the C locale */
  function Fold(c: int, fl: Flags): (r: int)
    requires 0 <= c < 256
    ensures 0 <= r < 256 && (r == 0 <==> c == 0) && (c == SLASH <==> r == SLASH)
  {
    if fl.casefold && 65 <= c <= 90 then c + 32 else c
  }

  /** A character of the pattern, held in a `char`. */
  function Held(c: int, fl: Flags): (r: int)
    requires 0 <= c < 256
    ensures -128 <= r < 256 && (r == 0 <==> c == 0)
  {
    if fl.signedChar && c >= 128 then c - 256 else c
  }

  function Pat(p: seq<Byte>, i: nat, fl: Flags): (c: int)
    ensures c == 0 <==> i >= |p|
  {
    Held(Fold(At(p, i), fl), fl)
  }

  function Text(s: seq<Byte>, j: nat, fl: Flags): (c: int)
    ensures 0 <= c < 256 && (c == 0 <==> j >= |s|)
  {
    Fold(At(s, j), fl)
  }

  // ---------- The pattern as a sequence of elements ----------

  datatype Range = Range(lo: int, hi: int)

  /** `Never` stands for a bracket that is not closed: no string matches it. */
  datatype Elem = Any | Star | Lit(c: int, quoted: bool) | Set(negate: bool, ranges: seq<Range>) | Never

  /** What a bracket holds, from place `i` on, and the place after it. */
  datatype Bracket = Bracket(ranges: seq<Range>, next: nat)

  predicate Escapes(c: int, fl: Flags) { c == BACKSLASH && !fl.noescape }

  /** The next character of a bracket, unquoted, and the place after it. */
  function BracketChar(p: seq<Byte>, i: nat, fl: Flags): (r: (int, nat))
    ensures r.1 > i && (r.0 != 0 ==> r.1 <= |p|)
  {
    if Escapes(Pat(p, i, fl), fl) then (Pat(p, i + 1, fl), i + 2) else (Pat(p, i, fl), i + 1)
  }

  /** Does a range start here, "-" being followed by something other than the end of the bracket? */
  predicate RangeGoesOn(p: seq<Byte>, i: nat, fl: Flags) {
    At(p, i) == DASH && Pat(p, i + 1, fl) != 0 && Pat(p, i + 1, fl) != CLOSE
  }

  function Ranges(p: seq<Byte>, i: nat, fl: Flags): (r: Option<Bracket>)
    ensures r.Some? ==> i < r.value.next <= |p|
    decreases |p| - i
  {
    if Pat(p, i, fl) == CLOSE then Some(Bracket([], i + 1))
    else
      var (lo, i1) := BracketChar(p, i, fl);
      if lo == 0 then None
      else if RangeGoesOn(p, i1, fl) then
        var (hi, i2) := BracketChar(p, i1 + 1, fl);
        if hi == 0 then None else Prepend([Range(lo, hi)], Ranges(p, i2, fl))
      else Prepend([Range(lo, lo)], Ranges(p, i1, fl))
  }

  function Prepend(a: seq<Range>, b: Option<Bracket>): Option<Bracket> {
    match b
    case None => None
    case Some(x) => Some(x.(ranges := a + x.ranges))
  }

  predicate Negates(p: seq<Byte>, i: nat) { At(p, i) == BANG || At(p, i) == CARET }

  function BracketAt(p: seq<Byte>, i: nat, fl: Flags): Option<Bracket> {
    Ranges(p, if Negates(p, i) then i + 1 else i, fl)
  }

  /** The elements of the pattern from place `i` on */
  function Elems(p: seq<Byte>, i: nat, fl: Flags): seq<Elem>
    decreases |p| - i
  {
    var c := Pat(p, i, fl);
    if c == 0 then []
    else if c == QUESTION then [Any] + Elems(p, i + 1, fl)
    else if c == STAR then [Star] + Elems(p, i + 1, fl)
    else if c == OPEN then
      match BracketAt(p, i + 1, fl)
      case None => [Never]
      case Some(b) => [Set(Negates(p, i + 1), b.ranges)] + Elems(p, b.next, fl)
    else if Escapes(c, fl) then
      if Pat(p, i + 1, fl) == 0 then [Lit(BACKSLASH, false)]
      else [Lit(Pat(p, i + 1, fl), true)] + Elems(p, i + 2, fl)
    else [Lit(c, false)] + Elems(p, i + 1, fl)
  }

  // ---------- The language ----------

  ghost predicate InRanges(ranges: seq<Range>, c: int) {
    exists r :: r in ranges && r.lo <= c <= r.hi
  }

  ghost predicate InSet(negate: bool, ranges: seq<Range>, c: int) {
    InRanges(ranges, c) != negate
  }

  /** An element that stands for one character stands for the one at place `j`. */
  ghost predicate One(e: Elem, s: seq<Byte>, j: nat, fl: Flags)
    requires j < |s|
  {
    match e
    case Any => !(fl.pathname && s[j] == SLASH)
    case Lit(c, _) => c == Text(s, j, fl)
    case Set(negate, ranges) => !(fl.pathname && s[j] == SLASH) && InSet(negate, ranges, Text(s, j, fl))
    case _ => false
  }

  /** Under FNM_PATHNAME no slash stands between `j` and `k`. */
  ghost predicate Spans(s: seq<Byte>, j: nat, k: nat, fl: Flags) {
    j <= k <= |s| && (fl.pathname ==> forall l :: j <= l < k ==> s[l] != SLASH)
  }

  /** The string ends here or, under FNM_LEADING_DIR, a slash follows. */
  predicate AtEnd(s: seq<Byte>, j: nat, fl: Flags) {
    j >= |s| || (fl.leadingDir && s[j] == SLASH)
  }

  /** The elements stand for the string from place `j` on, "*" for any number of characters. */
  ghost predicate Denotes(e: seq<Elem>, s: seq<Byte>, j: nat, fl: Flags)
    decreases |e|
  {
    if e == [] then AtEnd(s, j, fl)
    else if e[0].Star? then exists k :: Spans(s, j, k, fl) && Denotes(e[1..], s, k, fl)
    else j < |s| && One(e[0], s, j, fl) && Denotes(e[1..], s, j + 1, fl)
  }

  // ---------- The same under FNM_PERIOD ----------

  /** A period that "?" and "*" must not stand for: the first character or, under FNM_PATHNAME, one
      after a slash. */
  predicate Hidden(s: seq<Byte>, j: nat, start: nat, fl: Flags) {
    fl.period && At(s, j) == DOT && (j == start || (fl.pathname && j > 0 && At(s, j - 1) == SLASH))
  }

  function AfterStars(e: seq<Elem>): (r: seq<Elem>)
    ensures |r| <= |e| && (r == [] || !r[0].Star?)
  {
    if e != [] && e[0].Star? then AfterStars(e[1..]) else e
  }

  /** After "*" periods are no longer hidden, unless a slash comes next under FNM_PATHNAME. */
  function FlagsAfterStar(r: seq<Elem>, fl: Flags): Flags {
    if fl.pathname && r != [] && r[0] == Lit(SLASH, false) then fl else fl.(period := false)
  }

  /** What the code accepts: the language, less the strings a hidden period shuts out. */
  ghost predicate Accepts(e: seq<Elem>, s: seq<Byte>, j: nat, start: nat, fl: Flags)
    decreases |e|
  {
    if e == [] then AtEnd(s, j, fl)
    else if e[0].Star? then
      var r := AfterStars(e[1..]);
      !Hidden(s, j, start, fl) && exists k :: Spans(s, j, k, fl) && Accepts(r, s, k, start, FlagsAfterStar(r, fl))
    else
      && j < |s| && One(e[0], s, j, fl) && !(e[0].Any? && Hidden(s, j, start, fl))
      && Accepts(e[1..], s, j + 1, start, fl)
  }

  // ---------- Laws ----------

  /** Several stars in a row stand for what one does. */
  lemma {:induction false} StarsCollapse(e: seq<Elem>, s: seq<Byte>, j: nat, fl: Flags)
    ensures (exists k :: Spans(s, j, k, fl) && Denotes(e, s, k, fl)) <==>
            exists k :: Spans(s, j, k, fl) && Denotes(AfterStars(e), s, k, fl)
    decreases |e|
  {
    if e != [] && e[0].Star? {
      StarsCollapse(e[1..], s, j, fl);
      if k :| Spans(s, j, k, fl) && Denotes(e, s, k, fl) {
        var l :| Spans(s, k, l, fl) && Denotes(e[1..], s, l, fl);
        assert Spans(s, j, l, fl);
      }
      if k :| Spans(s, j, k, fl) && Denotes(e[1..], s, k, fl) {
        assert Spans(s, k, k, fl);
        assert Denotes(e, s, k, fl);
      }
    }
  }

  /** FNM_PERIOD does not change what the other flags make of a string. */
  lemma {:induction false} PeriodIsSeparate(e: seq<Elem>, s: seq<Byte>, j: nat, fl: Flags)
    ensures Denotes(e, s, j, fl) <==> Denotes(e, s, j, fl.(period := false))
    decreases |e|
  {
    if e != [] {
      if e[0].Star? {
        forall k: nat ensures Spans(s, j, k, fl) == Spans(s, j, k, fl.(period := false))
                           && Denotes(e[1..], s, k, fl) == Denotes(e[1..], s, k, fl.(period := false)) {
          PeriodIsSeparate(e[1..], s, k, fl);
        }
      } else {
        PeriodIsSeparate(e[1..], s, j + 1, fl);
      }
    }
  }

  /** Without FNM_PERIOD the code accepts exactly the language; with it, no more than the language. */
  lemma {:induction false} AcceptsTheLanguage(e: seq<Elem>, s: seq<Byte>, j: nat, start: nat, fl: Flags)
    ensures Accepts(e, s, j, start, fl) ==> Denotes(e, s, j, fl)
    ensures !fl.period && Denotes(e, s, j, fl) ==> Accepts(e, s, j, start, fl)
    decreases |e|
  {
    if e != [] {
      if e[0].Star? {
        var r := AfterStars(e[1..]);
        StarsCollapse(e[1..], s, j, fl);
        forall k: nat
          ensures Accepts(r, s, k, start, FlagsAfterStar(r, fl)) ==> Denotes(r, s, k, fl)
          ensures !fl.period && Denotes(r, s, k, fl) ==> Accepts(r, s, k, start, FlagsAfterStar(r, fl))
        {
          AcceptsTheLanguage(r, s, k, start, FlagsAfterStar(r, fl));
          PeriodIsSeparate(r, s, k, fl);
        }
      } else {
        AcceptsTheLanguage(e[1..], s, j + 1, start, fl);
      }
    }
  }

  /** With FNM_PERIOD but not FNM_PATHNAME, the code accepts exactly the strings of the language that
      do not begin with a period where the pattern begins with "?" or "*". */
  lemma PeriodAtTheStart(e: seq<Elem>, s: seq<Byte>, fl: Flags)
    requires fl.period && !fl.pathname
    ensures Accepts(e, s, 0, 0, fl) <==>
            Denotes(e, s, 0, fl) && !(At(s, 0) == DOT && e != [] && (e[0].Any? || e[0].Star?))
  {
    if At(s, 0) != DOT {
      NothingHidden(e, s, 0, 0, fl);
    } else if e != [] && !e[0].Any? && !e[0].Star? {
      NothingHidden(e[1..], s, 1, 0, fl);
    }
  }

  lemma {:induction false} NothingHidden(e: seq<Elem>, s: seq<Byte>, j: nat, start: nat, fl: Flags)
    requires !fl.pathname && (j > start || At(s, start) != DOT) && j >= start
    ensures Accepts(e, s, j, start, fl) <==> Denotes(e, s, j, fl)
    decreases |e|
  {
    if e != [] {
      if e[0].Star? {
        var r := AfterStars(e[1..]);
        StarsCollapse(e[1..], s, j, fl);
        forall k: nat | k >= j
          ensures Accepts(r, s, k, start, FlagsAfterStar(r, fl)) <==> Denotes(r, s, k, fl)
        {
          AcceptsTheLanguage(r, s, k, start, FlagsAfterStar(r, fl));
          PeriodIsSeparate(r, s, k, fl);
        }
      } else {
        NothingHidden(e[1..], s, j + 1, start, fl);
      }
    }
  }

  // ---------- Periods behind slashes ----------

  predicate IsSlash(e: Elem) { e.Lit? && e.c == SLASH }

  predicate Wild(e: seq<Elem>) { e != [] && (e[0].Any? || e[0].Star?) }

  /** The pattern cut behind its slashes: each segment but the last ends with one. */
  function Cut(e: seq<Elem>): (r: seq<seq<Elem>>)
    ensures r != [] && (if e == [] then r == [[]] else r[0] != [] && r[0][0] == e[0])
  {
    if e == [] then [[]]
    else if IsSlash(e[0]) then [[e[0]]] + Cut(e[1..])
    else
      var r := Cut(e[1..]);
      [[e[0]] + r[0]] + r[1..]
  }

  predicate Dotted(part: seq<Byte>) { part != [] && part[0] == DOT }

  /** The string from place `j` on, cut at its slashes */
  function Parts(s: seq<Byte>, j: nat): (r: seq<seq<Byte>>)
    ensures r != [] && (Dotted(r[0]) <==> At(s, j) == DOT)
    decreases |s| - j
  {
    if j >= |s| then [[]]
    else if s[j] == SLASH then [[]] + Parts(s, j + 1)
    else
      var r := Parts(s, j + 1);
      [[s[j]] + r[0]] + r[1..]
  }

  predicate StarIsOver(segment: seq<Elem>) {
    segment != [] && !segment[0].Star? && segment[0] != Lit(SLASH, false)
  }

  /** A star is followed by something other than an unquoted slash: from there on periods are not looked
      after any more. */
  predicate Forgets(segment: seq<Elem>) {
    segment != [] && ((segment[0].Star? && StarIsOver(segment[1..])) || Forgets(segment[1..]))
  }

  /** The period at the beginning of part `m` of the string meets a wildcard. */
  predicate Meets(segs: seq<seq<Elem>>, parts: seq<seq<Byte>>, m: nat) {
    m < |segs| && m < |parts| && Wild(segs[m]) && Dotted(parts[m])
  }

  predicate Forgotten(segs: seq<seq<Elem>>, m: nat) {
    exists l :: 0 <= l < m && l < |segs| && Forgets(segs[l])
  }

  /** From segment `from` on no period meets a wildcard, unless an earlier segment forgets periods. */
  ghost predicate LookedAfter(segs: seq<seq<Elem>>, parts: seq<seq<Byte>>, from: nat) {
    forall m: nat :: from <= m && Meets(segs, parts, m) ==> Forgotten(segs, m)
  }

  /** What is looked after behind the first slash does not depend on what is in front of it, but for
      stars that make periods forgotten. */
  lemma SameBehind(a: seq<seq<Elem>>, b: seq<seq<Elem>>, x: seq<seq<Byte>>, y: seq<seq<Byte>>)
    requires a != [] && b != [] && x != [] && y != []
    requires a[1..] == b[1..] && x[1..] == y[1..] && (Forgets(a[0]) <==> Forgets(b[0]))
    ensures LookedAfter(a, x, 1) <==> LookedAfter(b, y, 1)
  {
    hide Forgets, Wild, Dotted;
    assert |a| == 1 + |a[1..]| == |b| && |x| == 1 + |x[1..]| == |y|;
    assert forall m: nat :: 1 <= m < |a| ==> a[m] == a[1..][m - 1] == b[m];
    assert forall m: nat :: 1 <= m < |x| ==> x[m] == x[1..][m - 1] == y[m];
    assert forall l: nat :: l < |a| ==> (Forgets(a[l]) <==> Forgets(b[l]));
    assert forall m: nat :: m >= 1 ==> (Meets(a, x, m) <==> Meets(b, y, m)) && (Forgotten(a, m) <==> Forgotten(b, m));
  }

  /** Behind a slash the next segment begins. */
  lemma BehindSlash(e: seq<Elem>, s: seq<Byte>, j: nat)
    requires e != [] && IsSlash(e[0]) && j < |s| && s[j] == SLASH
    ensures LookedAfter(Cut(e), Parts(s, j), 1) <==> LookedAfter(Cut(e[1..]), Parts(s, j + 1), 0)
  {
    NextSegment([e[0]], Cut(e[1..]), [], Parts(s, j + 1));
  }

  lemma NextSegment(seg: seq<Elem>, segs: seq<seq<Elem>>, part: seq<Byte>, parts: seq<seq<Byte>>)
    requires !Forgets(seg)
    ensures LookedAfter([seg] + segs, [part] + parts, 1) <==> LookedAfter(segs, parts, 0)
  {
    hide Forgets, Wild, Dotted;
    var a, x := [seg] + segs, [part] + parts;
    forall m: nat ensures Forgotten(a, m + 1) <==> Forgotten(segs, m) {
      if l: nat :| l < m && l < |segs| && Forgets(segs[l]) {
        assert a[l + 1] == segs[l];
      }
    }
    assert forall m: nat :: Meets(a, x, m + 1) <==> Meets(segs, parts, m);
    forall m: nat | 1 <= m && LookedAfter(segs, parts, 0) && Meets(a, x, m) ensures Forgotten(a, m) {
      assert Meets(segs, parts, m - 1) && Forgotten(segs, m - 1) && Forgotten(a, m - 1 + 1);
    }
  }

  /** What a run of stars leaves of its segment, and whether it makes periods forgotten */
  lemma {:induction false} StarsCut(e: seq<Elem>)
    requires e != [] && e[0].Star?
    ensures var r := AfterStars(e);
            && Cut(e)[1..] == Cut(r)[1..]
            && (r == [] ==> |Cut(e)| == 1)
            && (r != [] ==> (Forgets(Cut(e)[0]) <==> r[0] != Lit(SLASH, false) || Forgets(Cut(r)[0])))
    decreases |e|
  {
    var segs := Cut(e[1..]);
    assert Cut(e)[0] == [e[0]] + segs[0] && Cut(e)[0][1..] == segs[0] && Cut(e)[1..] == segs[1..];
    if e[1..] != [] && e[1].Star? {
      StarsCut(e[1..]);
    } else {
      assert AfterStars(e) == e[1..];
    }
  }

  /** No slash stands between `j` and `k`. */
  lemma {:induction false} SpanParts(s: seq<Byte>, j: nat, k: nat, fl: Flags)
    requires fl.pathname && Spans(s, j, k, fl)
    ensures Parts(s, j)[1..] == Parts(s, k)[1..]
    decreases k - j
  {
    if j < k {
      SpanParts(s, j + 1, k, fl);
    }
  }

  /** A star makes periods forgotten, unless a slash or the end of the pattern comes next. */
  lemma StarLooks(e: seq<Elem>, s: seq<Byte>, j: nat, k: nat, fl: Flags)
    requires fl.pathname && e != [] && e[0].Star? && Spans(s, j, k, fl)
    ensures var r := AfterStars(e);
            if r != [] && r[0] == Lit(SLASH, false)
            then LookedAfter(Cut(e), Parts(s, j), 1) <==> LookedAfter(Cut(r), Parts(s, k), 1)
            else LookedAfter(Cut(e), Parts(s, j), 1)
  {
    var r := AfterStars(e);
    StarsCut(e);
    SpanParts(s, j, k, fl);
    if r != [] && r[0] == Lit(SLASH, false) {
      assert Cut(r)[0] == [r[0]];
      SameBehind(Cut(e), Cut(r), Parts(s, j), Parts(s, k));
    } else if r != [] {
      assert Forgets(Cut(e)[0]);
      assert forall m: nat :: m >= 1 ==> Forgotten(Cut(e), m);
    }
  }

  /** What FNM_PERIOD with FNM_PATHNAME accepts from place `j` on */
  lemma {:induction false} AcceptsFrom(e: seq<Elem>, s: seq<Byte>, j: nat, fl: Flags)
    requires fl.period && fl.pathname
    ensures Accepts(e, s, j, 0, fl) <==>
            && Denotes(e, s, j, fl) && !(Wild(e) && Hidden(s, j, 0, fl))
            && LookedAfter(Cut(e), Parts(s, j), 1)
    decreases |e|
  {
    hide LookedAfter, Forgets;
    if e == [] {
      NothingBehind(e, s, j);
    } else if e[0].Star? {
      AcceptsStar(e, s, j, fl);
    } else if j < |s| && One(e[0], s, j, fl) {
      AcceptsFrom(e[1..], s, j + 1, fl);
      if IsSlash(e[0]) {
        BehindSlash(e, s, j);
        FirstSegment(e[1..], s, j + 1);
      } else {
        assert Cut(e)[0] == [e[0]] + Cut(e[1..])[0] && Cut(e)[0][1..] == Cut(e[1..])[0];
        PassOne(e, s, j);
      }
    }
  }

  lemma NothingBehind(e: seq<Elem>, s: seq<Byte>, j: nat)
    requires e == []
    ensures LookedAfter(Cut(e), Parts(s, j), 1)
  {
  }

  lemma FirstSegment(e: seq<Elem>, s: seq<Byte>, j: nat)
    ensures LookedAfter(Cut(e), Parts(s, j), 0) <==>
            !(Wild(e) && At(s, j) == DOT) && LookedAfter(Cut(e), Parts(s, j), 1)
  {
    hide Forgets;
    assert Meets(Cut(e), Parts(s, j), 0) <==> Wild(e) && At(s, j) == DOT;
    assert !Forgotten(Cut(e), 0);
  }

  lemma PassOne(e: seq<Elem>, s: seq<Byte>, j: nat)
    requires e != [] && !e[0].Star? && !IsSlash(e[0]) && j < |s| && s[j] != SLASH
    ensures LookedAfter(Cut(e), Parts(s, j), 1) <==> LookedAfter(Cut(e[1..]), Parts(s, j + 1), 1)
  {
    assert Cut(e)[0] == [e[0]] + Cut(e[1..])[0] && Cut(e)[0][1..] == Cut(e[1..])[0];
    SameBehind(Cut(e), Cut(e[1..]), Parts(s, j), Parts(s, j + 1));
  }

  lemma {:induction false} AcceptsStar(e: seq<Elem>, s: seq<Byte>, j: nat, fl: Flags)
    requires fl.period && fl.pathname && e != [] && e[0].Star?
    ensures Accepts(e, s, j, 0, fl) <==>
            Denotes(e, s, j, fl) && !Hidden(s, j, 0, fl) && LookedAfter(Cut(e), Parts(s, j), 1)
    decreases |e|, 0
  {
    hide LookedAfter, Cut, Parts;
    var r := AfterStars(e[1..]);
    StarsCollapse(e[1..], s, j, fl);
    forall k: nat | Spans(s, j, k, fl)
      ensures Accepts(r, s, k, 0, FlagsAfterStar(r, fl)) <==>
              Denotes(r, s, k, fl) && LookedAfter(Cut(e), Parts(s, j), 1)
    {
      StarLooks(e, s, j, k, fl);
      if r != [] && r[0] == Lit(SLASH, false) {
        AcceptsFrom(r, s, k, fl);
      } else {
        AcceptsTheLanguage(r, s, k, 0, FlagsAfterStar(r, fl));
        PeriodIsSeparate(r, s, k, fl);
      }
    }
  }

  /** With FNM_PERIOD and FNM_PATHNAME the code accepts exactly the strings of the language in which a
      period at the beginning or behind a slash meets a wildcard at the beginning of its segment of the
      pattern only where an earlier segment has a star not followed by a slash. */
  lemma PeriodsBehindSlashes(e: seq<Elem>, s: seq<Byte>, fl: Flags)
    requires fl.period && fl.pathname
    ensures Accepts(e, s, 0, 0, fl) <==> Denotes(e, s, 0, fl) && LookedAfter(Cut(e), Parts(s, 0), 0)
  {
    hide LookedAfter;
    AcceptsFrom(e, s, 0, fl);
    FirstSegment(e, s, 0);
  }

  // ---------- When periods are protected ----------

  predicate Bracketed(e: seq<Elem>) { e != [] && e[0].Set? }

  /** The elements begin with a bracket that stands for a period, too. */
  ghost predicate TakesPeriod(e: seq<Elem>) { Bracketed(e) && InSet(e[0].negate, e[0].ranges, DOT) }

  /** No period at the beginning or behind a slash stands where the pattern has a wildcard or a bracket. */
  ghost predicate Protected(e: seq<Elem>, s: seq<Byte>) {
    var segs, parts := Cut(e), Parts(s, 0);
    forall m: nat :: m < |segs| && m < |parts| && Dotted(parts[m]) ==> !Wild(segs[m]) && !Bracketed(segs[m])
  }

  /** No segment that begins with a wildcard comes after one that forgets periods, and none begins with a
      bracket that stands for a period. */
  ghost predicate Protects(e: seq<Elem>) {
    forall m: nat :: m < |Cut(e)| ==> !LetsIn(Cut(e), m)
  }

  ghost predicate LetsIn(segs: seq<seq<Elem>>, m: nat)
    requires m < |segs|
  {
    (Wild(segs[m]) && Forgotten(segs, m)) || TakesPeriod(segs[m])
  }

  /** A period at the beginning of part `m` is what the first element of segment `m` stands for. */
  lemma {:induction false} BracketMeets(e: seq<Elem>, s: seq<Byte>, j: nat, m: nat, fl: Flags)
    requires fl.pathname && Denotes(e, s, j, fl)
    requires m < |Cut(e)| && m < |Parts(s, j)| && Dotted(Parts(s, j)[m]) && Bracketed(Cut(e)[m])
    ensures TakesPeriod(Cut(e)[m])
    decreases |e|
  {
    hide Dotted, TakesPeriod;
    if m == 0 {
      FirstBracket(e, s, j, fl);
    } else if e[0].Star? {
      var k: nat :| Spans(s, j, k, fl) && Denotes(e[1..], s, k, fl);
      SpanParts(s, j, k, fl);
      SameTail(Parts(s, j), Parts(s, k));
      BracketMeets(e[1..], s, k, m, fl);
    } else {
      BracketMeets(e[1..], s, j + 1, if IsSlash(e[0]) then m - 1 else m, fl);
    }
  }

  lemma FirstBracket(e: seq<Elem>, s: seq<Byte>, j: nat, fl: Flags)
    requires Denotes(e, s, j, fl) && Dotted(Parts(s, j)[0]) && Bracketed(Cut(e)[0])
    ensures TakesPeriod(Cut(e)[0])
  {
    assert Cut(e)[0][0] == e[0] && Text(s, j, fl) == DOT;
  }

  lemma {:induction false} SuffixDenotes(e: seq<Elem>, s: seq<Byte>, i: nat, t: seq<Byte>, j: nat, fl: Flags)
    requires i <= |s| && j <= |t| && s[i..] == t[j..] && Denotes(e, s, i, fl)
    ensures Denotes(e, t, j, fl)
    decreases |e|
  {
    assert |s| - i == |t| - j;
    assert forall x :: i <= x < |s| ==> s[x] == s[i..][x - i] == t[x - i + j];
    if e != [] {
      if e[0].Star? {
        var k: nat :| Spans(s, i, k, fl) && Denotes(e[1..], s, k, fl);
        assert s[k..] == s[i..][k - i..] == t[k - i + j..];
        SuffixDenotes(e[1..], s, k, t, k - i + j, fl);
        assert forall l :: j <= l < k - i + j ==> t[l] == s[l - j + i];
        assert Spans(t, j, k - i + j, fl);
      } else {
        assert s[i + 1..] == s[i..][1..] == t[j + 1..];
        SuffixDenotes(e[1..], s, i + 1, t, j + 1, fl);
      }
    }
  }

  lemma {:induction false} SuffixParts(s: seq<Byte>, i: nat, t: seq<Byte>, j: nat)
    requires i <= |s| && j <= |t| && s[i..] == t[j..]
    ensures Parts(s, i) == Parts(t, j)
    decreases |s| - i
  {
    assert |s| - i == |t| - j;
    if i < |s| {
      assert s[i] == s[i..][0] == t[j];
      assert s[i + 1..] == s[i..][1..] == t[j + 1..];
      SuffixParts(s, i + 1, t, j + 1);
    }
  }

  /** The parts of `t` begin with periods where those of `s` do, and part `m` does, too. */
  ghost predicate DottedAt(s: seq<Byte>, t: seq<Byte>, j: nat, m: nat) {
    var x, y := Parts(s, j), Parts(t, j);
    && |x| == |y| && m < |y| && Dotted(y[m])
    && forall l :: 0 <= l < |y| && l != m ==> (Dotted(x[l]) <==> Dotted(y[l]))
  }

  /** A string of the language stays one when the wildcard or bracket at the place where it looks gets a
      period: for "?" and a bracket in place of its character, for "*" in front. */
  lemma PutOne(e: seq<Elem>, s: seq<Byte>, j: nat, fl: Flags) returns (t: seq<Byte>)
    requires j <= |s| && Denotes(e, s, j, fl) && e != [] && (e[0].Any? || TakesPeriod(e))
    ensures j <= |t| && t[..j] == s[..j] && Denotes(e, t, j, fl) && At(t, j) == DOT
    ensures fl.pathname ==> DottedAt(s, t, j, 0)
  {
    t := s[..j] + [DOT] + s[j + 1..];
    assert t[j + 1..] == s[j + 1..];
    SuffixDenotes(e[1..], s, j + 1, t, j + 1, fl);
    SuffixParts(s, j + 1, t, j + 1);
    assert fl.pathname ==> Parts(t, j)[1..] == Parts(s, j)[1..];
    hide Dotted, Denotes, Parts, TakesPeriod;
    if fl.pathname {
      SameTail(Parts(s, j), Parts(t, j));
    }
  }

  lemma PutStar(e: seq<Elem>, s: seq<Byte>, j: nat, fl: Flags) returns (t: seq<Byte>)
    requires fl.pathname && j <= |s| && Denotes(e, s, j, fl) && e != [] && e[0].Star?
    ensures j <= |t| && t[..j] == s[..j] && Denotes(e, t, j, fl) && DottedAt(s, t, j, 0)
  {
    t := s[..j] + [DOT] + s[j..];
    hide Dotted, Denotes, Parts;
    StarAbsorbs(e, s, j, t, fl);
    OneInFront(s, j, t);
    SameTail(Parts(s, j), Parts(t, j));
  }

  lemma StarAbsorbs(e: seq<Elem>, s: seq<Byte>, j: nat, t: seq<Byte>, fl: Flags)
    requires j <= |s| && Denotes(e, s, j, fl) && e != [] && e[0].Star? && t == s[..j] + [DOT] + s[j..]
    ensures Denotes(e, t, j, fl)
  {
    var k: nat :| Spans(s, j, k, fl) && Denotes(e[1..], s, k, fl);
    assert s[k..] == t[k + 1..];
    SuffixDenotes(e[1..], s, k, t, k + 1, fl);
    assert forall l :: j < l < k + 1 ==> t[l] == s[l - 1];
    assert Spans(t, j, k + 1, fl);
  }

  lemma OneInFront(s: seq<Byte>, j: nat, t: seq<Byte>)
    requires j <= |s| && t == s[..j] + [DOT] + s[j..]
    ensures Parts(t, j)[1..] == Parts(s, j)[1..] && Dotted(Parts(t, j)[0])
  {
    assert t[j + 1..] == s[j..];
    SuffixParts(s, j, t, j + 1);
  }

  lemma SameTail(x: seq<seq<Byte>>, y: seq<seq<Byte>>)
    requires x != [] && y != [] && x[1..] == y[1..]
    ensures |x| == |y| && forall l :: 1 <= l < |y| ==> x[l] == y[l]
  {
    assert |x| == 1 + |x[1..]| && |y| == 1 + |y[1..]|;
    assert forall l :: 1 <= l < |y| ==> x[l] == x[1..][l - 1] && y[l] == y[1..][l - 1];
  }

  /** The same for the wildcard or bracket at the beginning of segment `m` */
  lemma {:induction false} PutPeriod(e: seq<Elem>, s: seq<Byte>, j: nat, m: nat, fl: Flags) returns (t: seq<Byte>)
    requires fl.pathname && j <= |s| && Denotes(e, s, j, fl) && m < |Cut(e)|
    requires Wild(Cut(e)[m]) || TakesPeriod(Cut(e)[m])
    ensures j <= |t| && t[..j] == s[..j] && Denotes(e, t, j, fl) && DottedAt(s, t, j, m)
    decreases |e|
  {
    hide Dotted, Wild, TakesPeriod, DottedAt, Parts;
    if m == 0 {
      t := PutFirst(e, s, j, fl);
    } else if e[0].Star? {
      var k: nat :| Spans(s, j, k, fl) && Denotes(e[1..], s, k, fl);
      t := PutPeriod(e[1..], s, k, m, fl);
      StarBefore(s, t, j, k, m, fl);
    } else {
      t := PutPeriod(e[1..], s, j + 1, if IsSlash(e[0]) then m - 1 else m, fl);
      assert t[..j] == t[..j + 1][..j] == s[..j] && t[j] == t[..j + 1][j] == s[j];
      OneBefore(s, t, j, m);
    }
  }

  lemma PutFirst(e: seq<Elem>, s: seq<Byte>, j: nat, fl: Flags) returns (t: seq<Byte>)
    requires fl.pathname && j <= |s| && Denotes(e, s, j, fl) && (Wild(Cut(e)[0]) || TakesPeriod(Cut(e)[0]))
    ensures j <= |t| && t[..j] == s[..j] && Denotes(e, t, j, fl) && DottedAt(s, t, j, 0)
  {
    if e[0].Star? {
      t := PutStar(e, s, j, fl);
    } else {
      t := PutOne(e, s, j, fl);
    }
  }

  lemma StarBefore(s: seq<Byte>, t: seq<Byte>, j: nat, k: nat, m: nat, fl: Flags)
    requires fl.pathname && Spans(s, j, k, fl) && k <= |t| && t[..k] == s[..k] && m > 0
    requires DottedAt(s, t, k, m)
    ensures t[..j] == s[..j] && Spans(t, j, k, fl) && DottedAt(s, t, j, m)
  {
    hide Dotted, Parts;
    assert t[..j] == t[..k][..j] == s[..j];
    assert forall l :: j <= l < k ==> t[l] == t[..k][l] == s[l];
    SpanParts(s, j, k, fl);
    SpanParts(t, j, k, fl);
    SameTail(Parts(s, j), Parts(s, k));
    SameTail(Parts(t, j), Parts(t, k));
  }

  lemma OneBefore(s: seq<Byte>, t: seq<Byte>, j: nat, m: nat)
    requires j < |s| && j < |t| && s[j] == t[j] && m > 0
    requires DottedAt(s, t, j + 1, if s[j] == SLASH then m - 1 else m)
    ensures DottedAt(s, t, j, m)
  {
    hide Dotted;
    var x, y := Parts(s, j), Parts(t, j);
    if s[j] == SLASH {
      assert x == [[]] + Parts(s, j + 1) && y == [[]] + Parts(t, j + 1);
    } else {
      SameTail(x, [[]] + Parts(s, j + 1)[1..]);
      SameTail(y, [[]] + Parts(t, j + 1)[1..]);
    }
  }

  /** What is accepted is protected, when the pattern lets no period in. */
  lemma ProtectsAll(e: seq<Elem>, s: seq<Byte>, fl: Flags)
    requires fl.period && fl.pathname && Protects(e) && Accepts(e, s, 0, 0, fl)
    ensures Protected(e, s)
  {
    hide Accepts, Cut, Parts, Wild, Dotted, Bracketed, Forgotten, Denotes, TakesPeriod;
    PeriodsBehindSlashes(e, s, fl);
    var segs, parts := Cut(e), Parts(s, 0);
    forall m: nat | m < |segs| && m < |parts| && Dotted(parts[m]) ensures !Wild(segs[m]) && !Bracketed(segs[m]) {
      assert !LetsIn(segs, m);
      assert Meets(segs, parts, m) ==> Forgotten(segs, m);
      if Bracketed(segs[m]) {
        BracketMeets(e, s, 0, m, fl);
      }
    }
  }

  /** A string accepted becomes one in which segment `m` lets a period in. */
  lemma LetIn(e: seq<Elem>, s: seq<Byte>, m: nat, fl: Flags) returns (t: seq<Byte>)
    requires fl.period && fl.pathname && Accepts(e, s, 0, 0, fl) && m < |Cut(e)| && LetsIn(Cut(e), m)
    ensures Accepts(e, t, 0, 0, fl) && !Protected(e, t)
  {
    TakersAreBrackets(Cut(e)[m]);
    hide Accepts, Cut, Parts, Wild, Dotted, Bracketed, Forgotten, Denotes, TakesPeriod;
    PeriodsBehindSlashes(e, s, fl);
    t := PutPeriod(e, s, 0, m, fl);
    forall l: nat | Meets(Cut(e), Parts(t, 0), l) ensures Forgotten(Cut(e), l) {
      assert l != m ==> Meets(Cut(e), Parts(s, 0), l);
    }
    PeriodsBehindSlashes(e, t, fl);
  }

  lemma TakersAreBrackets(seg: seq<Elem>)
    ensures TakesPeriod(seg) ==> Bracketed(seg) && !Wild(seg)
  {
  }

  /** The periods that FNM_PERIOD with FNM_PATHNAME is documented to protect, at the beginning and behind
      slashes, are protected in all strings exactly by the patterns in which no segment that begins with a
      wildcard comes after one with a star not followed by a slash, and no segment begins with a bracket
      that stands for a period; patterns that accept nothing apart. */
  lemma ProtectsIff(e: seq<Elem>, fl: Flags)
    requires fl.period && fl.pathname
    ensures (forall s :: Accepts(e, s, 0, 0, fl) ==> Protected(e, s)) <==>
            Protects(e) || forall s :: !Accepts(e, s, 0, 0, fl)
  {
    hide Accepts, Protected;
    if Protects(e) {
      forall s | Accepts(e, s, 0, 0, fl) ensures Protected(e, s) {
        ProtectsAll(e, s, fl);
      }
    } else if s :| Accepts(e, s, 0, 0, fl) {
      var m: nat :| m < |Cut(e)| && LetsIn(Cut(e), m);
      var t := LetIn(e, s, m, fl);
    }
  }

  /** Without FNM_PATHNAME only the first character is protected, and it is exactly by the patterns that do
      not begin with a bracket that stands for a period. */
  lemma ProtectsStartIff(e: seq<Elem>, fl: Flags)
    requires fl.period && !fl.pathname
    ensures (forall s :: Accepts(e, s, 0, 0, fl) && At(s, 0) == DOT ==> !Wild(e) && !Bracketed(e)) <==>
            !TakesPeriod(e) || forall s :: !Accepts(e, s, 0, 0, fl)
  {
    hide Accepts, InSet;
    forall s | Accepts(e, s, 0, 0, fl) ensures Denotes(e, s, 0, fl) && !(At(s, 0) == DOT && Wild(e)) {
      PeriodAtTheStart(e, s, fl);
    }
    if s :| Accepts(e, s, 0, 0, fl) && TakesPeriod(e) {
      var t := PutOne(e, s, 0, fl);
      PeriodAtTheStart(e, t, fl);
    }
    forall s | Accepts(e, s, 0, 0, fl) && At(s, 0) == DOT && Bracketed(e) ensures TakesPeriod(e) {
      assert Text(s, 0, fl) == DOT;
    }
  }

  /** "[!a]" accepts ".", whatever the other flags, as it does behind a slash. */
  lemma BracketTakesPeriod(fl: Flags)
    requires fl.period
    ensures Accepts(Elems([OPEN, BANG, 97, CLOSE], 0, fl), [DOT], 0, 0, fl)
    ensures !Protected(Elems([OPEN, BANG, 97, CLOSE], 0, fl), [DOT])
  {
    var p: seq<Byte>, s: seq<Byte> := [OPEN, BANG, 97, CLOSE], [DOT];
    assert Ranges(p, 3, fl) == Some(Bracket([], 4));
    assert [Range(97, 97)] + [] == [Range(97, 97)];
    assert Ranges(p, 2, fl) == Some(Bracket([Range(97, 97)], 4));
    assert BracketAt(p, 1, fl) == Some(Bracket([Range(97, 97)], 4)) && Elems(p, 4, fl) == [];
    var e := Elems(p, 0, fl);
    assert e == [Set(true, [Range(97, 97)])];
    assert e[1..] == [] && !InRanges([Range(97, 97)], DOT);
    assert Accepts(e[1..], s, 1, 0, fl);
    assert Cut(e)[0][0] == e[0] && Dotted(Parts(s, 0)[0]);
  }

  /** "*a/?" does not: it accepts "a/.", which "a/?" does not. */
  lemma PeriodForgottenAfterStar(fl: Flags)
    requires fl.period && fl.pathname
    ensures Accepts(Elems([STAR, 97, SLASH, QUESTION], 0, fl), [97, SLASH, DOT], 0, 0, fl)
    ensures !Protected(Elems([STAR, 97, SLASH, QUESTION], 0, fl), [97, SLASH, DOT])
    ensures !Accepts(Elems([97, SLASH, QUESTION], 0, fl), [97, SLASH, DOT], 0, 0, fl)
  {
    var p: seq<Byte>, q: seq<Byte> := [STAR, 97, SLASH, QUESTION], [97, SLASH, QUESTION];
    var s: seq<Byte> := [97, SLASH, DOT];
    var r := [Lit(97, false), Lit(SLASH, false), Any];
    assert Elems(q, 3, fl) == [] && Elems(q, 2, fl) == [Any] && Elems(q, 1, fl) == [Lit(SLASH, false), Any];
    assert Elems(q, 0, fl) == r;
    assert Elems(p, 4, fl) == [] && Elems(p, 3, fl) == [Any] && Elems(p, 2, fl) == [Lit(SLASH, false), Any];
    assert Elems(p, 1, fl) == r && Elems(p, 0, fl) == [Star] + r;
    SlashQuestion(s, fl);
    PeriodsBehindSlashes(r, s, fl);
    PeriodsBehindSlashes([Star] + r, s, fl);
  }

  /** The elements of "a/?" and "*a/?" against "a/." */
  lemma SlashQuestion(s: seq<Byte>, fl: Flags)
    requires s == [97, SLASH, DOT]
    ensures var r := [Lit(97, false), Lit(SLASH, false), Any];
            && Denotes([Star] + r, s, 0, fl) && Meets(Cut([Star] + r), Parts(s, 0), 1)
            && !LookedAfter(Cut(r), Parts(s, 0), 0) && LookedAfter(Cut([Star] + r), Parts(s, 0), 0)
  {
    var r := [Lit(97, false), Lit(SLASH, false), Any];
    assert r[1..] == [Lit(SLASH, false), Any] && r[1..][1..] == [Any] && r[1..][1..][1..] == [];
    assert Denotes([Any], s, 2, fl) && Denotes(r[1..], s, 1, fl);
    assert Spans(s, 0, 0, fl) && Denotes(r, s, 0, fl) && ([Star] + r)[1..] == r;
    assert Parts(s, 1)[1] == Parts(s, 2)[0] && Parts(s, 0)[1] == Parts(s, 1)[1..][0];
    hide Denotes, Forgets, Cut, Parts;
    CutSlashQuestion();
    assert Meets(Cut(r), Parts(s, 0), 1) && !Forgotten(Cut(r), 1);
    assert forall m: nat :: m >= 1 ==> Forgotten(Cut([Star] + r), m);
  }

  lemma PrependCut(x: Elem, e: seq<Elem>)
    ensures Cut([x] + e) == if IsSlash(x) then [[x]] + Cut(e) else [[x] + Cut(e)[0]] + Cut(e)[1..]
  {
    assert ([x] + e)[1..] == e;
  }

  lemma CutSlashQuestion()
    ensures Cut([Lit(97, false), Lit(SLASH, false), Any]) == [[Lit(97, false), Lit(SLASH, false)], [Any]]
    ensures Cut([Star] + [Lit(97, false), Lit(SLASH, false), Any]) == [[Star, Lit(97, false), Lit(SLASH, false)], [Any]]
    ensures !Forgets([Lit(97, false), Lit(SLASH, false)]) && Forgets([Star, Lit(97, false), Lit(SLASH, false)])
  {
    var a, slash := Lit(97, false), Lit(SLASH, false);
    var none: seq<Elem> := [];
    PrependCut(Any, none);
    assert Cut(none) == [none] && [none][1..] == [] && [Any] + none == [Any];
    assert Cut([Any]) == [[Any]];
    PrependCut(slash, [Any]);
    assert [slash] + [Any] == [slash, Any] && Cut([slash, Any]) == [[slash], [Any]];
    PrependCut(a, [slash, Any]);
    assert [a] + [slash, Any] == [a, slash, Any] && [a] + [slash] == [a, slash] && [[slash], [Any]][1..] == [[Any]];
    assert Cut([a, slash, Any]) == [[a, slash], [Any]];
    PrependCut(Star, [a, slash, Any]);
    assert [Star] + [a, slash] == [Star, a, slash] && [[a, slash], [Any]][1..] == [[Any]];
    assert [a, slash][1..] == [slash] && [slash][1..] == [] && [Star, a, slash][1..] == [a, slash];
    assert !Forgets([slash]) && !Forgets([a, slash]) && StarIsOver([a, slash]);
    assert Forgets([Star, a, slash]);
  }

  // ---------- Brackets that are not closed ----------

  /** A pattern that ends inside a bracket matches nothing. */
  lemma {:induction false} UnclosedMatchesNothing(e: seq<Elem>, s: seq<Byte>, j: nat, fl: Flags)
    requires Never in e
    ensures !Denotes(e, s, j, fl)
    decreases |e|
  {
    if e[0] != Never {
      forall k: nat ensures !Denotes(e[1..], s, k, fl) {
        UnclosedMatchesNothing(e[1..], s, k, fl);
      }
    }
  }

  // ---------- Characters above 127 ----------

  /** A character above 127 held in a signed `char` is negative, and as an element of its own it shuts out
      every string. */
  lemma {:induction false} NegativeMatchesNothing(e: seq<Elem>, s: seq<Byte>, j: nat, fl: Flags)
    requires exists x :: x in e && x.Lit? && x.c < 0
    ensures !Denotes(e, s, j, fl)
    decreases |e|
  {
    var x :| x in e && x.Lit? && x.c < 0;
    if e[0] != x {
      assert x in e[1..];
      forall k: nat ensures !Denotes(e[1..], s, k, fl) {
        NegativeMatchesNothing(e[1..], s, k, fl);
      }
    }
  }

  /** As the lower end of a range it lets in every character up to the upper end, and as the upper end
      none. */
  lemma NegativeEnds(lo: int, hi: int, c: int)
    requires 0 <= c
    ensures lo < 0 ==> (InRanges([Range(lo, hi)], c) <==> c <= hi)
    ensures hi < 0 ==> !InRanges([Range(lo, hi)], c)
  {
    assert Range(lo, hi) in [Range(lo, hi)];
  }

  /** A bracket with the range from the character 128 to "z" matches "a" where `char` is signed, and does
      not where it is unsigned. */
  lemma NegativeRange(fl: Flags)
    ensures Denotes(Elems([OPEN, 128, DASH, 122, CLOSE], 0, fl), [97], 0, fl) <==> fl.signedChar
  {
    var p: seq<Byte>, s: seq<Byte> := [OPEN, 128, DASH, 122, CLOSE], [97];
    var lo := Held(128, fl);
    assert RangeGoesOn(p, 2, fl) && BracketChar(p, 1, fl) == (lo, 2) && BracketChar(p, 3, fl) == (122, 4);
    assert Ranges(p, 4, fl) == Some(Bracket([], 5));
    assert [Range(lo, 122)] + [] == [Range(lo, 122)];
    assert Ranges(p, 1, fl) == Some(Bracket([Range(lo, 122)], 5));
    assert BracketAt(p, 1, fl) == Some(Bracket([Range(lo, 122)], 5)) && Elems(p, 5, fl) == [];
    var e := Elems(p, 0, fl);
    assert e == [Set(false, [Range(lo, 122)])];
    assert e[1..] == [] && Denotes(e[1..], s, 1, fl);
    NegativeEnds(lo, 122, 97);
    assert Range(lo, 122) in [Range(lo, 122)];
  }

  /** A pattern without any special character */
  predicate Plain(p: seq<Byte>, fl: Flags) {
    forall i :: 0 <= i < |p| ==> p[i] !in {STAR, QUESTION, OPEN} && (p[i] == BACKSLASH ==> fl.noescape)
  }

  lemma {:induction false} PlainDenotes(p: seq<Byte>, i: nat, s: seq<Byte>, j: nat, fl: Flags)
    requires Plain(p, fl) && i <= |p| && j <= |s|
    ensures Denotes(Elems(p, i, fl), s, j, fl) <==>
            && |s| - j >= |p| - i && AtEnd(s, j + |p| - i, fl)
            && forall k :: i <= k < |p| ==> Pat(p, k, fl) == Text(s, j + k - i, fl)
    decreases |p| - i
  {
    if i < |p| {
      assert Elems(p, i, fl) == [Lit(Pat(p, i, fl), false)] + Elems(p, i + 1, fl);
      if j < |s| {
        PlainDenotes(p, i + 1, s, j + 1, fl);
      }
    }
  }

  /** A plain pattern matches itself exactly when `char` is unsigned or it has no character above 127:
      held in a signed `char`, such a character is negative and equals none of the string. */
  lemma PlainMatchesItself(p: seq<Byte>, fl: Flags)
    requires Plain(p, fl)
    ensures Denotes(Elems(p, 0, fl), p, 0, fl) <==> !fl.signedChar || forall k :: 0 <= k < |p| ==> p[k] < 128
  {
    PlainDenotes(p, 0, p, 0, fl);
    assert forall k: nat :: k < |p| ==> (Pat(p, k, fl) == Text(p, k, fl) <==> !fl.signedChar || p[k] < 128);
    if k: nat :| k < |p| && fl.signedChar && p[k] >= 128 {
      assert Pat(p, k, fl) != Text(p, 0 + k - 0, fl);
    }
  }
}
