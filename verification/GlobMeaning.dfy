/** What the regular expression that a glob is translated into accepts (scar-c/cmd/scar/rx.c). */
module GlobMeaning {
  import opened Bytes
  import opened Glob

  // ---------------------------------------------------------------- the expression means the glob

  predicate EveryByte(rx: Rx, s: bytes) {
    forall b | b in s :: OneByte(rx, b)
  }

  /** A repeated single-byte item matches exactly the strings of such bytes. */
  lemma {:induction false} StarOfOne(rx: Rx, s: bytes)
    requires rx.Byte? || rx.AnyByte? || rx.NotByte?
    ensures Matches(Star(rx), s) <==> EveryByte(rx, s)
    decreases |s|
  {
    hide OneByte;
    if s != [] {
      assert s == [s[0]] + s[1..];
      StarOfOne(rx, s[1..]);
      assert s[..1] == [s[0]];
      if Matches(Star(rx), s) {
        var k :| 0 < k <= |s| && Matches(rx, s[..k]) && Matches(Star(rx), s[k..]);
        assert k == 1;
      }
    }
  }

  lemma AnyMatches(s: bytes)
    ensures Matches(ANY, s) <==> LINE_FEED !in s
  {
    StarOfOne(AnyByte, s);
  }

  lemma NoSlashesMatches(s: bytes)
    ensures Matches(NO_SLASHES, s) <==> InSegment(s)
  {
    StarOfOne(NotByte(SLASH), s);
  }

  lemma CatByte(b: byte, r: Rx, s: bytes)
    ensures Matches(Cat(Byte(b), r), s) <==> s != [] && s[0] == b && Matches(r, s[1..])
  {
    if s != [] && s[0] == b && Matches(r, s[1..]) {
      assert s[..1] == [b];
    }
  }

  lemma CatEmpty(l: Rx, s: bytes)
    ensures Matches(Cat(l, Empty), s) <==> Matches(l, s)
  {
    assert s[..|s|] == s;
  }

  /** A match of the glob in front of a match of the tail. */
  predicate GlobThen(p: bytes, tail: Rx, path: bytes, k: nat)
    requires k <= |path|
  {
    GlobMatch(InLine, p, path[..k]) && Matches(tail, path[k..])
  }

  predicate Front(p: bytes, tail: Rx, path: bytes) {
    exists k | 0 <= k <= |path| :: GlobThen(p, tail, path, k)
  }

  /** What one token of a glob stands for. */
  predicate TokenMatches(reach: Reach, p: bytes, q: bytes)
    requires p != []
  {
    if p[0] != STAR then q == [p[0]]
    else if |p| > 1 && p[1] == STAR then Spans(reach, q)
    else InSegment(q)
  }

  /** A glob matches token by token. */
  lemma GlobStep(reach: Reach, p: bytes, path: bytes)
    requires p != []
    ensures GlobMatch(reach, p, path) <==>
            exists j | 0 <= j <= |path| ::
              TokenMatches(reach, p, path[..j]) && GlobMatch(reach, p[TokenLength(p)..], path[j..])
  {
    if p[0] != STAR {
      if GlobMatch(reach, p, path) {
        assert TokenMatches(reach, p, path[..1]);
      }
      if j :| 0 <= j <= |path| && TokenMatches(reach, p, path[..j]) && GlobMatch(reach, p[1..], path[j..]) {
        assert path[..j] == [p[0]];
        assert j == 1 && path[0] == path[..1][0];
      }
    }
  }

  lemma TokenRxMatches(p: bytes, q: bytes)
    requires p != []
    ensures Matches(TokenRx(p), q) <==> TokenMatches(InLine, p, q)
  {
    if p[0] == STAR {
      AnyMatches(q);
      NoSlashesMatches(q);
    }
  }

  lemma SplitTwice(s: bytes, j: nat, k: nat)
    requires j <= k <= |s|
    ensures s[..k][..j] == s[..j] && s[..k][j..] == s[j..][..k - j] && s[j..][k - j..] == s[k..]
  {
  }

  /** The expression of a pattern in front of any tail matches where the glob matches in front of the tail. */
  lemma {:induction false} PatternMeans(p: bytes, tail: Rx, path: bytes)
    ensures Matches(PatternRx(p, tail), path) <==> Front(p, tail, path)
    decreases |p|
  {
    hide Matches, GlobMatch, TokenMatches, TokenRx, TokenLength;
    if p == [] {
      NothingMeans(tail, path);
    } else {
      if Matches(PatternRx(p, tail), path) {
        PatternSound(p, tail, path);
      }
      if Front(p, tail, path) {
        PatternComplete(p, tail, path);
      }
    }
  }

  lemma NothingMeans(tail: Rx, path: bytes)
    ensures Matches(tail, path) <==> Front([], tail, path)
  {
    hide Matches;
    assert path[0..] == path;
    assert path[..0] == [];
    if Matches(tail, path) {
      assert GlobThen([], tail, path, 0);
    }
  }

  lemma CatSplit(l: Rx, r: Rx, s: bytes)
    ensures Matches(Cat(l, r), s) <==> exists k | 0 <= k <= |s| :: Matches(l, s[..k]) && Matches(r, s[k..])
  {
  }

  lemma PatternSound(p: bytes, tail: Rx, path: bytes)
    requires p != []
    requires Matches(PatternRx(p, tail), path)
    ensures Front(p, tail, path)
    decreases |p|, 0
  {
    hide Matches, GlobMatch, TokenMatches, TokenRx, TokenLength;
    var rest := p[TokenLength(p)..];
    CatSplit(TokenRx(p), PatternRx(rest, tail), path);
    var j :| 0 <= j <= |path| && Matches(TokenRx(p), path[..j]) && Matches(PatternRx(rest, tail), path[j..]);
    TokenRxMatches(p, path[..j]);
    PatternMeans(rest, tail, path[j..]);
    var n :| 0 <= n <= |path[j..]| && GlobThen(rest, tail, path[j..], n);
    SplitTwice(path, j, j + n);
    GlobStep(InLine, p, path[..j + n]);
    assert GlobThen(p, tail, path, j + n);
  }

  lemma PatternComplete(p: bytes, tail: Rx, path: bytes)
    requires p != []
    requires Front(p, tail, path)
    ensures Matches(PatternRx(p, tail), path)
    decreases |p|, 0
  {
    hide Matches, GlobMatch, TokenMatches, TokenRx, TokenLength;
    var rest := p[TokenLength(p)..];
    var k :| 0 <= k <= |path| && GlobThen(p, tail, path, k);
    GlobStep(InLine, p, path[..k]);
    var j :| 0 <= j <= k && TokenMatches(InLine, p, path[..k][..j]) && GlobMatch(InLine, rest, path[..k][j..]);
    SplitTwice(path, j, k);
    TokenRxMatches(p, path[..j]);
    assert GlobThen(rest, tail, path[j..], k - j);
    PatternMeans(rest, tail, path[j..]);
    CatSplit(TokenRx(p), PatternRx(rest, tail), path);
  }

  // ---------------------------------------------------------------- the suffixes

  lemma CatAssociates(a: Rx, b: Rx, c: Rx, s: bytes)
    ensures Matches(Cat(a, Cat(b, c)), s) <==> Matches(Cat(Cat(a, b), c), s)
  {
    hide Matches;
    CatSplit(a, Cat(b, c), s);
    CatSplit(Cat(a, b), c, s);
    if Matches(Cat(a, Cat(b, c)), s) {
      var j :| 0 <= j <= |s| && Matches(a, s[..j]) && Matches(Cat(b, c), s[j..]);
      CatSplit(b, c, s[j..]);
      var n :| 0 <= n <= |s[j..]| && Matches(b, s[j..][..n]) && Matches(c, s[j..][n..]);
      SplitTwice(s, j, j + n);
      CatSplit(a, b, s[..j + n]);
    }
    if Matches(Cat(Cat(a, b), c), s) {
      var k :| 0 <= k <= |s| && Matches(Cat(a, b), s[..k]) && Matches(c, s[k..]);
      CatSplit(a, b, s[..k]);
      var j :| 0 <= j <= k && Matches(a, s[..k][..j]) && Matches(b, s[..k][j..]);
      SplitTwice(s, j, k);
      CatSplit(b, c, s[j..]);
    }
  }

  lemma MaybeSlashMatches(q: bytes)
    ensures Matches(MAYBE_SLASH, q) <==> q == [] || q == [SLASH]
  {
  }

  lemma ComponentMatches(q: bytes)
    ensures Matches(Cat(NO_SLASHES, MAYBE_SLASH), q) <==> Component(q)
  {
    hide Matches;
    CatSplit(NO_SLASHES, MAYBE_SLASH, q);
    forall k | 0 <= k <= |q|
      ensures Matches(NO_SLASHES, q[..k]) <==> InSegment(q[..k])
      ensures Matches(MAYBE_SLASH, q[k..]) <==> q[k..] == [] || q[k..] == [SLASH]
    {
      NoSlashesMatches(q[..k]);
      MaybeSlashMatches(q[k..]);
    }
    assert q[..|q|] == q && q[|q|..] == [];
    if EndsWithSlash(q) {
      assert q[|q| - 1..] == [SLASH];
    }
    if k :| 0 <= k <= |q| && InSegment(q[..k]) && (q[k..] == [] || q[k..] == [SLASH]) {
      if q[k..] == [SLASH] {
        assert k == |q| - 1 && q[k] == q[k..][0];
      }
    }
  }

  lemma SlashGroupMatches(r: Rx, q: bytes)
    ensures Matches(Optional(Cat(Byte(SLASH), Cat(r, Empty))), q) <==>
            q == [] || (q[0] == SLASH && Matches(r, q[1..]))
  {
    CatByte(SLASH, Cat(r, Empty), q);
    if q != [] {
      CatEmpty(r, q[1..]);
    }
  }

  lemma DirEntryMatches(q: bytes)
    ensures Matches(Cat(Optional(Cat(Byte(SLASH), Cat(NO_SLASHES, Empty))), MAYBE_SLASH), q) <==> DirEntry(false, q)
  {
    hide Matches, Component;
    var group := Optional(Cat(Byte(SLASH), Cat(NO_SLASHES, Empty)));
    CatSplit(group, MAYBE_SLASH, q);
    if q == [] {
      SlashGroupMatches(NO_SLASHES, q[..0]);
      MaybeSlashMatches(q[0..]);
    } else {
      var t := q[1..];
      ComponentMatches(t);
      CatSplit(NO_SLASHES, MAYBE_SLASH, t);
      if DirEntry(false, q) {
        var k :| 0 <= k <= |t| && Matches(NO_SLASHES, t[..k]) && Matches(MAYBE_SLASH, t[k..]);
        assert q[..k + 1] == [SLASH] + t[..k] && q[k + 1..] == t[k..] && q[..k + 1][1..] == t[..k];
        SlashGroupMatches(NO_SLASHES, q[..k + 1]);
      }
      if k :| 0 <= k <= |q| && Matches(group, q[..k]) && Matches(MAYBE_SLASH, q[k..]) {
        SlashGroupMatches(NO_SLASHES, q[..k]);
        MaybeSlashMatches(q[k..]);
        if k == 0 {
          assert q[0..] == q;
          SlashAlone();
          assert t == [];
        } else {
          assert t[..k - 1] == q[..k][1..] && t[k - 1..] == q[k..];
        }
      }
    }
  }

  lemma SlashAlone()
    ensures Component([])
  {
  }

  lemma ChildrenMatches(p: bytes, opts: Options, q: bytes)
    ensures Matches(ChildrenRx(p, opts), q) <==> AllPart(InLine, p, opts, q)
  {
    hide Matches;
    if !opts.allChildren {
      EmptyMatches(q);
    } else if EndsWithSlash(p) && !opts.dirEntries {
      CatEmpty(ANY, q);
      AnyMatches(q);
    } else {
      CatEmpty(Optional(Cat(Byte(SLASH), Cat(ANY, Empty))), q);
      SlashGroupMatches(ANY, q);
      if q != [] {
        AnyMatches(q[1..]);
      }
    }
  }

  lemma EmptyMatches(q: bytes)
    ensures Matches(Empty, q) <==> q == []
  {
  }

  lemma SuffixMeans(p: bytes, opts: Options, q: bytes)
    ensures Matches(DirRx(p, opts, ChildrenRx(p, opts)), q) <==> Continues(InLine, p, opts, q)
  {
    hide Matches, ChildrenRx, AllPart, DirEntry, Component;
    var tail := ChildrenRx(p, opts);
    forall j | 0 <= j <= |q|
      ensures Matches(tail, q[j..]) <==> AllPart(InLine, p, opts, q[j..])
    {
      ChildrenMatches(p, opts, q[j..]);
    }
    if !opts.dirEntries {
      assert q[0..] == q && q[..0] == [];
    } else if EndsWithSlash(p) {
      CatAssociates(NO_SLASHES, MAYBE_SLASH, tail, q);
      CatSplit(Cat(NO_SLASHES, MAYBE_SLASH), tail, q);
      forall j | 0 <= j <= |q|
        ensures Matches(Cat(NO_SLASHES, MAYBE_SLASH), q[..j]) <==> DirPart(p, opts, q[..j])
      {
        ComponentMatches(q[..j]);
        AfterSlash(q[..j]);
      }
    } else {
      var group := Optional(Cat(Byte(SLASH), Cat(NO_SLASHES, Empty)));
      CatAssociates(group, MAYBE_SLASH, tail, q);
      CatSplit(Cat(group, MAYBE_SLASH), tail, q);
      forall j | 0 <= j <= |q|
        ensures Matches(Cat(group, MAYBE_SLASH), q[..j]) <==> DirPart(p, opts, q[..j])
      {
        DirEntryMatches(q[..j]);
      }
    }
  }

  lemma AfterSlash(q: bytes)
    ensures DirEntry(true, q) <==> Component(q)
  {
  }

  /** What the translation means, for every pattern, options and path: the emitted text is a well-formed
      expression and, matched as a whole, it accepts exactly what the glob with its options selects when `**`
      stays within a line. */
  lemma TranslationExact(p: bytes, opts: Options, path: bytes)
    ensures RxAccepts(RxText(p, opts), path) <==> Selects(InLine, p, opts, path)
  {
    hide Matches, GlobMatch, DirRx, ChildrenRx, PatternRx, RxText, ParseRx, Continues;
    var tail := DirRx(p, opts, ChildrenRx(p, opts));
    TextParses(p, opts);
    PatternMeans(p, tail, path);
    forall k | 0 <= k <= |path|
      ensures Matches(tail, path[k..]) <==> Continues(InLine, p, opts, path[k..])
    {
      SuffixMeans(p, opts, path[k..]);
    }
    if Front(p, tail, path) {
      var k :| 0 <= k <= |path| && GlobThen(p, tail, path, k);
      assert GlobMatch(InLine, p, path[..k]) && Continues(InLine, p, opts, path[k..]);
    }
    if Selects(InLine, p, opts, path) {
      var k :| 0 <= k <= |path| && GlobMatch(InLine, p, path[..k]) && Continues(InLine, p, opts, path[k..]);
      assert GlobThen(p, tail, path, k);
    }
  }

  // ---------------------------------------------------------------- where the expression and the glob agree

  /** Two adjacent stars. */
  predicate Crosses(p: bytes) {
    exists i | 0 <= i < |p| - 1 :: p[i] == STAR && p[i + 1] == STAR
  }

  /** Whether a pattern with options has any use for reaching across lines. */
  predicate Reaches(p: bytes, opts: Options) {
    Crosses(p) || opts.allChildren
  }

  predicate Agrees(p: bytes, opts: Options, path: bytes) {
    RxAccepts(RxText(p, opts), path) <==> Selects(Anywhere, p, opts, path)
  }

  lemma CrossesStep(p: bytes)
    requires p != []
    ensures Crosses(p) <==> TokenLength(p) == 2 || Crosses(p[TokenLength(p)..])
  {
    var rest := p[TokenLength(p)..];
    if TokenLength(p) == 2 {
      assert p[0] == STAR && p[0 + 1] == STAR;
    } else {
      if i :| 0 <= i < |p| - 1 && p[i] == STAR && p[i + 1] == STAR {
        assert rest[i - 1] == STAR && rest[i - 1 + 1] == STAR;
      }
      if i :| 0 <= i < |rest| - 1 && rest[i] == STAR && rest[i + 1] == STAR {
        assert p[i + 1] == STAR && p[i + 1 + 1] == STAR;
      }
    }
  }

  /** Staying within a line selects no more, and no less where there is no line feed or nothing to cross. */
  lemma {:induction false} ReachOfGlob(p: bytes, path: bytes)
    ensures GlobMatch(InLine, p, path) ==> GlobMatch(Anywhere, p, path)
    ensures LINE_FEED !in path || !Crosses(p) ==> (GlobMatch(InLine, p, path) <==> GlobMatch(Anywhere, p, path))
    decreases |p|
  {
    hide GlobMatch, TokenMatches, Crosses;
    if p == [] {
      NothingReaches(path);
    } else {
      GlobStep(InLine, p, path);
      GlobStep(Anywhere, p, path);
      CrossesStep(p);
      forall j | 0 <= j <= |path|
        ensures TokenMatches(InLine, p, path[..j]) ==> TokenMatches(Anywhere, p, path[..j])
        ensures LINE_FEED !in path || TokenLength(p) == 1 ==>
                  (TokenMatches(InLine, p, path[..j]) <==> TokenMatches(Anywhere, p, path[..j]))
        ensures var rest := p[TokenLength(p)..];
                && (GlobMatch(InLine, rest, path[j..]) ==> GlobMatch(Anywhere, rest, path[j..]))
                && (LINE_FEED !in path || !Crosses(rest) ==>
                      (GlobMatch(InLine, rest, path[j..]) <==> GlobMatch(Anywhere, rest, path[j..])))
      {
        ReachOfToken(p, path[..j]);
        ReachOfGlob(p[TokenLength(p)..], path[j..]);
      }
    }
  }

  lemma NothingReaches(path: bytes)
    ensures GlobMatch(InLine, [], path) <==> GlobMatch(Anywhere, [], path)
  {
  }

  lemma ReachOfToken(p: bytes, q: bytes)
    requires p != []
    ensures TokenMatches(InLine, p, q) ==> TokenMatches(Anywhere, p, q)
    ensures LINE_FEED !in q || TokenLength(p) == 1 ==> (TokenMatches(InLine, p, q) <==> TokenMatches(Anywhere, p, q))
  {
  }

  lemma ReachOfSuffix(p: bytes, opts: Options, q: bytes)
    ensures Continues(InLine, p, opts, q) ==> Continues(Anywhere, p, opts, q)
    ensures LINE_FEED !in q || !opts.allChildren ==>
              (Continues(InLine, p, opts, q) <==> Continues(Anywhere, p, opts, q))
  {
    hide DirPart;
    forall j | 0 <= j <= |q|
      ensures AllPart(InLine, p, opts, q[j..]) ==> AllPart(Anywhere, p, opts, q[j..])
      ensures LINE_FEED !in q || !opts.allChildren ==>
                (AllPart(InLine, p, opts, q[j..]) <==> AllPart(Anywhere, p, opts, q[j..]))
    {
    }
  }

  lemma ReachOfSelection(p: bytes, opts: Options, path: bytes)
    ensures Selects(InLine, p, opts, path) ==> Selects(Anywhere, p, opts, path)
    ensures LINE_FEED !in path || !Reaches(p, opts) ==>
              (Selects(InLine, p, opts, path) <==> Selects(Anywhere, p, opts, path))
  {
    hide GlobMatch, Continues, Crosses;
    forall k | 0 <= k <= |path|
      ensures GlobMatch(InLine, p, path[..k]) ==> GlobMatch(Anywhere, p, path[..k])
      ensures Continues(InLine, p, opts, path[k..]) ==> Continues(Anywhere, p, opts, path[k..])
      ensures LINE_FEED !in path || !Reaches(p, opts) ==>
                && (GlobMatch(InLine, p, path[..k]) <==> GlobMatch(Anywhere, p, path[..k]))
                && (Continues(InLine, p, opts, path[k..]) <==> Continues(Anywhere, p, opts, path[k..]))
    {
      ReachOfGlob(p, path[..k]);
      ReachOfSuffix(p, opts, path[k..]);
    }
  }

  /** The translation preserves meaning. Whatever the expression accepts, the glob selects; and for every
      pattern, options and path, the two agree if the path has no line feed, or if the pattern has no `**` and
      not everything below it is wanted. */
  lemma TranslationPreservesMeaning(p: bytes, opts: Options, path: bytes)
    ensures RxAccepts(RxText(p, opts), path) ==> Selects(Anywhere, p, opts, path)
    ensures LINE_FEED !in path || !Reaches(p, opts) ==> Agrees(p, opts, path)
  {
    hide RxAccepts, RxText, Selects, Reaches;
    TranslationExact(p, opts, path);
    ReachOfSelection(p, opts, path);
  }

  // ---------------------------------------------------------------- where they do not

  /** How often a line feed is followed by a slash. */
  function Pairs(s: bytes): nat {
    if |s| < 2 then 0 else (if s[0] == LINE_FEED && s[1] == SLASH then 1 else 0) + Pairs(s[1..])
  }

  lemma {:induction false} PairsOfBoth(a: bytes, b: bytes)
    ensures Pairs(a) + Pairs(b) <= Pairs(a + b) <= Pairs(a) + Pairs(b) + 1
    decreases |a|
  {
    if a == [] {
      assert a + b == b;
    } else {
      assert (a + b)[1..] == a[1..] + b;
      PairsOfBoth(a[1..], b);
      if |a| == 1 {
        assert a[1..] + b == b;
      }
    }
  }

  lemma {:induction false} NoPairs(s: bytes)
    requires LINE_FEED !in s || SLASH !in s
    ensures Pairs(s) == 0
  {
    if |s| >= 2 {
      assert s[0] in s && s[1] in s;
      NoPairs(s[1..]);
    }
  }

  /** Only single bytes are repeated: bytes of a line, or of a segment. */
  predicate Flat(rx: Rx) {
    match rx
    case Cat(l, r) => Flat(l) && Flat(r)
    case Star(body) => body == AnyByte || body == NotByte(SLASH)
    case Optional(body) => Flat(body)
    case _ => true
  }

  /** How often two parts of an expression meet. */
  function Seams(rx: Rx): nat {
    match rx
    case Cat(l, r) => Seams(l) + Seams(r) + 1
    case Optional(body) => Seams(body)
    case _ => 0
  }

  /** Where a line feed is followed by a slash, two parts of the expression meet. */
  lemma {:induction false} FewPairs(rx: Rx, s: bytes)
    requires Flat(rx) && Matches(rx, s)
    ensures Pairs(s) <= Seams(rx)
  {
    hide Pairs, Matches;
    match rx
    case Cat(l, r) =>
      CatSplit(l, r, s);
      var k :| 0 <= k <= |s| && Matches(l, s[..k]) && Matches(r, s[k..]);
      FewPairs(l, s[..k]);
      FewPairs(r, s[k..]);
      assert s == s[..k] + s[k..];
      PairsOfBoth(s[..k], s[k..]);
    case Star(body) =>
      AnyMatches(s);
      NoSlashesMatches(s);
      NoPairs(s);
    case Optional(body) =>
      OptionalIs(body, s);
      if s == [] {
        NoPairs(s);
      } else {
        FewPairs(body, s);
      }
    case _ =>
      AtMostOne(rx, s);
      ShortPairs(s);
  }

  lemma OptionalIs(body: Rx, s: bytes)
    requires Matches(Optional(body), s)
    ensures s == [] || Matches(body, s)
  {
  }

  lemma AtMostOne(rx: Rx, s: bytes)
    requires Matches(rx, s) && !rx.Cat? && !rx.Star? && !rx.Optional?
    ensures |s| <= 1
  {
  }

  lemma ShortPairs(s: bytes)
    requires |s| <= 1
    ensures Pairs(s) == 0
  {
  }

  lemma {:induction false} PatternIsFlat(p: bytes, tail: Rx)
    requires Flat(tail)
    ensures Flat(PatternRx(p, tail))
    decreases |p|
  {
    if p != [] {
      PatternIsFlat(p[TokenLength(p)..], tail);
    }
  }

  lemma WholeIsFlat(p: bytes, opts: Options)
    ensures Flat(WholeRx(p, opts))
  {
    PatternIsFlat(p, DirRx(p, opts, ChildrenRx(p, opts)));
  }

  /** A path on which line feeds and slashes alternate. */
  function Stairs(n: nat): (s: bytes)
    ensures n > 0 ==> s != [] && s[0] == LINE_FEED
  {
    if n == 0 then [] else [LINE_FEED, SLASH] + Stairs(n - 1)
  }

  lemma {:induction false} StairsPairs(n: nat)
    ensures Pairs(Stairs(n)) == n
  {
    if n > 0 {
      var s := Stairs(n);
      var more := Stairs(n - 1);
      StairsPairs(n - 1);
      assert s[1..] == [SLASH] + more;
      assert ([SLASH] + more)[1..] == more;
    }
  }

  /** A path that a pattern matches, with `x` for each `**`. */
  function Instance(p: bytes, x: bytes): bytes {
    if p == [] then [] else TokenInstance(p, x) + Instance(p[TokenLength(p)..], x)
  }

  function TokenInstance(p: bytes, x: bytes): bytes
    requires p != []
  {
    if p[0] != STAR then [p[0]] else if TokenLength(p) == 2 then x else []
  }

  lemma {:induction false} InstanceMatches(p: bytes, x: bytes)
    ensures GlobMatch(Anywhere, p, Instance(p, x))
    decreases |p|
  {
    hide GlobMatch;
    if p == [] {
      EmptyGlob();
    } else {
      var t, rest := TokenInstance(p, x), p[TokenLength(p)..];
      var path := Instance(p, x);
      InstanceMatches(rest, x);
      assert path[..|t|] == t && path[|t|..] == Instance(rest, x);
      assert TokenMatches(Anywhere, p, path[..|t|]);
      GlobStep(Anywhere, p, path);
    }
  }

  lemma EmptyGlob()
    ensures GlobMatch(Anywhere, [], [])
  {
  }

  lemma {:induction false} InstancePairs(p: bytes, x: bytes)
    requires Crosses(p)
    ensures Pairs(Instance(p, x)) >= Pairs(x)
    decreases |p|
  {
    hide Pairs, Crosses;
    if p == [] {
      NothingCrosses();
    } else {
      CrossesStep(p);
      var rest := p[TokenLength(p)..];
      PairsOfBoth(TokenInstance(p, x), Instance(rest, x));
      if TokenLength(p) != 2 {
        InstancePairs(rest, x);
      }
    }
  }

  lemma NothingCrosses()
    ensures !Crosses([])
  {
  }

  /** A selected path that the expression refuses. */
  lemma Refused(p: bytes, opts: Options) returns (path: bytes)
    requires Reaches(p, opts)
    ensures Selects(Anywhere, p, opts, path) && !RxAccepts(RxText(p, opts), path)
  {
    hide Crosses, Pairs, Matches, RxText, ParseRx, GlobMatch, Continues, Seams, Flat, WholeRx;
    var rx := WholeRx(p, opts);
    var x := Stairs(Seams(rx) + 1);
    StairsPairs(Seams(rx) + 1);
    TextParses(p, opts);
    WholeIsFlat(p, opts);
    var k;
    if Crosses(p) {
      path, k := Instance(p, x), |Instance(p, x)|;
      InstanceMatches(p, x);
      InstancePairs(p, x);
      assert path[..k] == path && path[k..] == [];
      NothingContinues(p, opts);
    } else {
      var front := Instance(p, []);
      path, k := front + ([SLASH] + x), |front|;
      InstanceMatches(p, []);
      PairsOfBoth(front, [SLASH] + x);
      PairsOfBoth([SLASH], x);
      assert path[..k] == front && path[k..] == [SLASH] + x;
      AnythingContinues(p, opts, x);
    }
    if Matches(rx, path) {
      FewPairs(rx, path);
    }
  }

  lemma NothingContinues(p: bytes, opts: Options)
    ensures Continues(Anywhere, p, opts, [])
  {
    var q: bytes := [];
    assert q[..0] == [] && q[0..] == [];
    assert DirPart(p, opts, q[..0]) && AllPart(Anywhere, p, opts, q[0..]);
  }

  lemma AnythingContinues(p: bytes, opts: Options, x: bytes)
    requires opts.allChildren
    ensures Continues(Anywhere, p, opts, [SLASH] + x)
  {
    var q := [SLASH] + x;
    assert q[..0] == [] && q[0..] == q;
    assert DirPart(p, opts, q[..0]) && AllPart(Anywhere, p, opts, q[0..]);
  }

  /** Exactly the patterns without `**`, when not everything below them is wanted, agree with their globs on
      every path. */
  lemma PatternsExactly(p: bytes, opts: Options)
    ensures (forall path :: Agrees(p, opts, path)) <==> !Reaches(p, opts)
  {
    hide RxAccepts, RxText, Selects, Reaches;
    if Reaches(p, opts) {
      var path := Refused(p, opts);
      assert !Agrees(p, opts, path);
    } else {
      forall path
        ensures Agrees(p, opts, path)
      {
        TranslationPreservesMeaning(p, opts, path);
      }
    }
  }

  /** Exactly the paths without a line feed are treated by every pattern as its glob says. */
  lemma PathsExactly(path: bytes)
    ensures (forall p, opts :: Agrees(p, opts, path)) <==> LINE_FEED !in path
  {
    hide RxAccepts, RxText, Selects, Reaches;
    if LINE_FEED !in path {
      forall p, opts
        ensures Agrees(p, opts, path)
      {
        TranslationPreservesMeaning(p, opts, path);
      }
    } else {
      CrossingFails(path);
      assert !Agrees([STAR, STAR], Options(false, false), path);
    }
  }

  lemma CrossingFails(path: bytes)
    requires LINE_FEED in path
    ensures !RxAccepts(RxText([STAR, STAR], Options(false, false)), path)
    ensures Selects(Anywhere, [STAR, STAR], Options(false, false), path)
  {
    hide Matches, RxText, ParseRx, GlobMatch, Continues;
    var p, opts := [STAR, STAR], Options(false, false);
    TextParses(p, opts);
    WholeCrossing();
    CatEmpty(ANY, path);
    AnyMatches(path);
    assert path[..|path|] == path && path[|path|..] == [];
    assert Instance(p, path) == path by {
      assert TokenLength(p) == 2 && p[2..] == [];
      assert Instance([], path) == [];
    }
    InstanceMatches(p, path);
    NothingContinues(p, opts);
  }

  lemma WholeCrossing()
    ensures WholeRx([STAR, STAR], Options(false, false)) == Cat(ANY, Empty)
  {
    var p := [STAR, STAR];
    assert TokenLength(p) == 2 && p[2..] == [];
    assert PatternRx([], Empty) == Empty;
    assert PatternRx(p, Empty) == Cat(TokenRx(p), PatternRx(p[2..], Empty));
  }
}
