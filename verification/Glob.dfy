/** The translation of a glob into a regular expression (scar-c/cmd/scar/rx.c). */
module Glob {
  import opened Bytes
  import opened CStream

  const BACKSLASH: byte := 92
  const STAR: byte := 42
  const CARET: byte := 94
  const QUESTION: byte := 63
  const OPEN_CLASS: byte := 91
  const CLOSE_CLASS: byte := 93
  const OPEN_GROUP: byte := 40
  const CLOSE_GROUP: byte := 41
  const DOLLAR: byte := 36
  const OPEN_BRACE: byte := 123
  const CLOSE_BRACE: byte := 125
  const BAR: byte := 124

  // ---------------------------------------------------------------- what a glob means

  predicate InSegment(s: bytes) {
    SLASH !in s
  }

  /** How far `**` reaches: across anything, as a glob says, or only within a line, as `.*` does. */
  datatype Reach = Anywhere | InLine

  predicate Spans(reach: Reach, s: bytes) {
    reach.InLine? ==> LINE_FEED !in s
  }

  /** `**` stands for anything it reaches across, `*` for anything within a segment, every other byte for itself. */
  predicate GlobMatch(reach: Reach, p: bytes, path: bytes) {
    if p == [] then path == []
    else if p[0] == STAR && |p| > 1 && p[1] == STAR then
      exists k | 0 <= k <= |path| :: Spans(reach, path[..k]) && GlobMatch(reach, p[2..], path[k..])
    else if p[0] == STAR then
      exists k | 0 <= k <= |path| :: InSegment(path[..k]) && GlobMatch(reach, p[1..], path[k..])
    else path != [] && path[0] == p[0] && GlobMatch(reach, p[1..], path[1..])
  }

  datatype Options = Options(dirEntries: bool, allChildren: bool)

  predicate EndsWithSlash(p: bytes) {
    p != [] && p[|p| - 1] == SLASH
  }

  /** One path component, and possibly a slash behind it. */
  predicate Component(q: bytes) {
    InSegment(q) || (EndsWithSlash(q) && InSegment(q[..|q| - 1]))
  }

  /** What may follow a matched directory when its entries are wanted: nothing but a slash, or an entry. */
  predicate DirEntry(afterSlash: bool, q: bytes) {
    if afterSlash then Component(q)
    else q == [] || (q[0] == SLASH && Component(q[1..]))
  }

  /** What may follow a matched path when everything below it is wanted. */
  predicate Below(reach: Reach, afterSlash: bool, q: bytes) {
    if afterSlash then Spans(reach, q)
    else q == [] || (q[0] == SLASH && Spans(reach, q[1..]))
  }

  predicate DirPart(p: bytes, opts: Options, q: bytes) {
    if opts.dirEntries then DirEntry(EndsWithSlash(p), q) else q == []
  }

  predicate AllPart(reach: Reach, p: bytes, opts: Options, q: bytes) {
    if opts.allChildren then Below(reach, EndsWithSlash(p) && !opts.dirEntries, q) else q == []
  }

  /** The remainder of a path behind the part that the glob matched. */
  predicate Continues(reach: Reach, p: bytes, opts: Options, q: bytes) {
    exists j | 0 <= j <= |q| :: DirPart(p, opts, q[..j]) && AllPart(reach, p, opts, q[j..])
  }

  /** What a glob with options selects. */
  predicate Selects(reach: Reach, p: bytes, opts: Options, path: bytes) {
    exists k | 0 <= k <= |path| :: GlobMatch(reach, p, path[..k]) && Continues(reach, p, opts, path[k..])
  }

  // ---------------------------------------------------------------- what a regular expression means

  /** The fragment of PCRE that the translation emits. */
  datatype Rx =
    | Empty
    | Byte(b: byte)
    | AnyByte
    | NotByte(b: byte)
    | Cat(l: Rx, r: Rx)
    | Star(body: Rx)
    | Optional(body: Rx)

  predicate OneByte(rx: Rx, b: byte) {
    match rx
    case Byte(c) => b == c
    case AnyByte => b != LINE_FEED
    case NotByte(c) => b != c
    case _ => false
  }

  /** Matching anchored at both ends. */
  predicate Matches(rx: Rx, s: bytes)
    decreases rx, |s|
  {
    match rx
    case Empty => s == []
    case Cat(l, r) => exists k | 0 <= k <= |s| :: Matches(l, s[..k]) && Matches(r, s[k..])
    case Star(body) =>
      s == [] || exists k | 0 < k <= |s| :: Matches(body, s[..k]) && Matches(rx, s[k..])
    case Optional(body) => s == [] || Matches(body, s)
    case _ => |s| == 1 && OneByte(rx, s[0])
  }

  /** A character that has a meaning of its own outside a class. */
  predicate IsMeta(b: byte) {
    b in {BACKSLASH, DOT, CARET, DOLLAR, OPEN_CLASS, CLOSE_CLASS, OPEN_GROUP, CLOSE_GROUP, OPEN_BRACE,
          CLOSE_BRACE, PLUS, QUESTION, STAR, BAR}
  }

  predicate IsAlphanumeric(b: byte) {
    48 <= b <= 57 || 65 <= b <= 90 || 97 <= b <= 122
  }

  /** A class with one excluded byte, which may be escaped. */
  function ParseClass(s: bytes): (r: Option<(Rx, bytes)>)
    ensures r.Some? ==> |r.value.1| < |s|
  {
    if |s| >= 4 && s[1] == CARET && s[2] == BACKSLASH && !IsAlphanumeric(s[3]) then
      if |s| >= 5 && s[4] == CLOSE_CLASS then Some((NotByte(s[3]), s[5..])) else None
    else if |s| >= 4 && s[1] == CARET && !IsMeta(s[2]) && s[3] == CLOSE_CLASS then Some((NotByte(s[2]), s[4..]))
    else None
  }

  /** A repeated item; lazy and possessive repetitions are not part of the fragment. */
  function ParseRepeat(rx: Rx, s: bytes): (r: Option<(Rx, bytes)>)
    ensures r.Some? ==> |r.value.1| <= |s|
  {
    if s == [] then Some((rx, s))
    else if s[0] == STAR || s[0] == QUESTION then
      if |s| > 1 && s[1] in {STAR, PLUS, QUESTION, OPEN_BRACE} then None
      else Some((if s[0] == STAR then Star(rx) else Optional(rx), s[1..]))
    else if s[0] == PLUS || s[0] == OPEN_BRACE then None
    else Some((rx, s))
  }

  /** One atom. */
  function ParseAtom(s: bytes): (r: Option<(Rx, bytes)>)
    requires s != [] && s[0] != CLOSE_GROUP
    ensures r.Some? ==> |r.value.1| < |s|
    decreases |s|, 0
  {
    if s[0] == BACKSLASH then
      if |s| > 1 && !IsAlphanumeric(s[1]) then Some((Byte(s[1]), s[2..])) else None
    else if s[0] == DOT then Some((AnyByte, s[1..]))
    else if s[0] == OPEN_CLASS then ParseClass(s)
    else if s[0] == OPEN_GROUP then
      match ParseItems(s[1..])
      case None => None
      case Some((inner, rest)) =>
        if rest != [] && rest[0] == CLOSE_GROUP then Some((inner, rest[1..])) else None
    else if IsMeta(s[0]) then None
    else Some((Byte(s[0]), s[1..]))
  }

  /** A sequence of repeated atoms, up to a closing parenthesis or the end. */
  function ParseItems(s: bytes): (r: Option<(Rx, bytes)>)
    ensures r.Some? ==> |r.value.1| <= |s|
    decreases |s|, 1
  {
    if s == [] || s[0] == CLOSE_GROUP then Some((Empty, s))
    else match ParseAtom(s)
      case None => None
      case Some((atom, more)) =>
        match ParseRepeat(atom, more)
        case None => None
        case Some((item, rest)) =>
          match ParseItems(rest)
          case None => None
          case Some((items, end)) => Some((Cat(item, items), end))
  }

  /** A whole regular expression. */
  function ParseRx(s: bytes): Option<Rx> {
    match ParseItems(s)
    case None => None
    case Some((rx, rest)) => if rest == [] then Some(rx) else None
  }

  predicate RxAccepts(s: bytes, path: bytes) {
    var rx := ParseRx(s);
    rx.Some? && Matches(rx.value, path)
  }

  // ---------------------------------------------------------------- the translation

  /** The characters that the translation escapes. */
  predicate Escaped(b: byte) {
    IsMeta(b) && b != STAR
  }

  const ANYTHING: bytes := [DOT, STAR]
  const SEGMENT: bytes := [OPEN_CLASS, CARET, SLASH, CLOSE_CLASS, STAR]

  /** How many bytes of the pattern one step translates. */
  function TokenLength(p: bytes): (n: nat)
    requires p != []
    ensures 0 < n <= |p|
  {
    if p[0] == STAR && |p| > 1 && p[1] == STAR then 2 else 1
  }

  function TokenText(p: bytes): bytes
    requires p != []
  {
    if Escaped(p[0]) then [BACKSLASH, p[0]]
    else if p[0] == STAR && |p| > 1 && p[1] == STAR then ANYTHING
    else if p[0] == STAR then SEGMENT
    else [p[0]]
  }

  function PatternText(p: bytes): bytes {
    if p == [] then [] else TokenText(p) + PatternText(p[TokenLength(p)..])
  }

  // [^\/]*/?   (/[^\/]*)?/?   .*   (/.*)?
  const SEGMENT_ITEM: bytes := [OPEN_CLASS, CARET, BACKSLASH, SLASH, CLOSE_CLASS, STAR]
  const ENTRY_AFTER_SLASH: bytes := SEGMENT_ITEM + [SLASH, QUESTION]
  const ENTRY: bytes := [OPEN_GROUP, SLASH] + (SEGMENT_ITEM + ([CLOSE_GROUP, QUESTION] + [SLASH, QUESTION]))
  const CHILDREN: bytes := [OPEN_GROUP, SLASH, DOT, STAR, CLOSE_GROUP, QUESTION]

  function DirText(p: bytes, opts: Options): bytes {
    if !opts.dirEntries then [] else if EndsWithSlash(p) then ENTRY_AFTER_SLASH else ENTRY
  }

  function ChildrenText(p: bytes, opts: Options): bytes {
    if !opts.allChildren then []
    else if EndsWithSlash(p) && !opts.dirEntries then ANYTHING
    else CHILDREN
  }

  /** The whole regular expression. The code does not produce it for an empty pattern with an option set. */
  function RxText(p: bytes, opts: Options): bytes {
    PatternText(p) + (DirText(p, opts) + ChildrenText(p, opts))
  }

  lemma {:induction false} LastByte(p: bytes)
    requires p != []
    ensures PatternText(p) != []
    ensures EndsWithSlash(PatternText(p)) <==> EndsWithSlash(p)
  {
    hide EndsWithSlash, TokenText;
    var n := TokenLength(p);
    var more := p[n..];
    if more == [] {
      assert PatternText(p) == TokenText(p) + [] == TokenText(p);
      assert p[..n] == p;
      TokenEnd(p);
    } else {
      LastByte(more);
      assert p[..n] + more == p;
      EndOfBoth(p[..n], more);
      EndOfBoth(TokenText(p), PatternText(more));
    }
  }

  lemma TokenEnd(p: bytes)
    requires p != [] && TokenLength(p) == |p|
    ensures TokenText(p) != [] && (EndsWithSlash(TokenText(p)) <==> EndsWithSlash(p))
  {
  }

  lemma EndOfBoth(a: bytes, b: bytes)
    requires b != []
    ensures EndsWithSlash(a + b) <==> EndsWithSlash(b)
  {
  }

  /** One turn of the loop in `build_rx_string`. */
  method TranslateOne(mw: MemWriter, pattern: bytes, at: nat) returns (ptr: nat)
    requires mw.Valid() && at < |pattern|
    modifies mw, mw.buf
    ensures mw.Valid() && (mw.buf == old(mw.buf) || fresh(mw.buf))
    ensures mw.Contents() == old(mw.Contents()) + TokenText(pattern[at..])
    ensures ptr == at + TokenLength(pattern[at..])
  {
    hide MemWriter.Contents;
    ptr := at;
    var ch := pattern[ptr];
    ptr := ptr + 1;
    assert ptr < |pattern| ==> pattern[at..][1] == pattern[ptr];
    if ch in {BACKSLASH, DOT, CARET, DOLLAR, OPEN_CLASS, CLOSE_CLASS, OPEN_GROUP, CLOSE_GROUP, OPEN_BRACE, CLOSE_BRACE,
              PLUS, QUESTION, BAR}
    {
      mw.Put(BACKSLASH);
      mw.Put(ch);
    } else if ch == STAR && ptr < |pattern| && pattern[ptr] == STAR {
      mw.Write(ANYTHING);
      ptr := ptr + 1;
    } else if ch == STAR {
      mw.Write(SEGMENT);
    } else {
      mw.Put(ch);
    }
  }

  /** `build_rx_string`. For an empty pattern with an option set the code reads through a null pointer, and nothing
      is known of the result. */
  method BuildRxString(pattern: bytes, opts: Options) returns (rx: bytes)
    ensures pattern != [] || opts == Options(false, false) ==> rx == RxText(pattern, opts)
  {
    hide PatternText, TokenText;
    var mw := new MemWriter();
    var ptr: nat := 0;
    NothingText();
    while ptr < |pattern|
      invariant ptr <= |pattern|
      invariant mw.Valid() && fresh(mw) && fresh(mw.buf)
      invariant mw.Contents() + PatternText(pattern[ptr..]) == PatternText(pattern)
    {
      ghost var rest := pattern[ptr..];
      TokenStep(rest);
      ptr := TranslateOne(mw, pattern, ptr);
      assert pattern[ptr..] == rest[TokenLength(rest)..];
    }
    assert pattern[ptr..] == [];
    NothingText();
    assert mw.Contents() + [] == mw.Contents();
    if pattern != [] {
      LastByte(pattern);
    }
    if pattern == [] && (opts.dirEntries || opts.allChildren) {
      rx := *;
      return;
    }
    AppendSuffixes(mw, pattern, opts);
    rx := mw.buf[..mw.len];
  }

  /** The two option suffixes; the code looks at the last byte it has written. */
  method AppendSuffixes(mw: MemWriter, ghost pattern: bytes, opts: Options)
    requires mw.Valid() && mw.Contents() == PatternText(pattern)
    requires pattern != [] || opts == Options(false, false)
    requires EndsWithSlash(PatternText(pattern)) <==> EndsWithSlash(pattern)
    requires PatternText(pattern) == [] ==> pattern == []
    modifies mw, mw.buf
    ensures mw.Valid() && mw.Contents() == RxText(pattern, opts)
  {
    hide PatternText;
    if opts.dirEntries {
      assert mw.Contents()[mw.len - 1] == mw.buf[mw.len - 1];
      if mw.buf[mw.len - 1] == SLASH {
        mw.Write(ENTRY_AFTER_SLASH);
      } else {
        mw.Write(ENTRY);
      }
    }
    ghost var soFar := PatternText(pattern) + DirText(pattern, opts);
    assert mw.Contents() == soFar;
    if opts.allChildren {
      assert soFar[|soFar| - 1] == mw.buf[mw.len - 1];
      if mw.buf[mw.len - 1] == SLASH {
        mw.Write(ANYTHING);
      } else {
        mw.Write(CHILDREN);
      }
    }
    assert mw.Contents() == soFar + ChildrenText(pattern, opts);
    assert soFar + ChildrenText(pattern, opts) == RxText(pattern, opts);
  }

  lemma NothingText()
    ensures PatternText([]) == []
  {
  }

  lemma TokenStep(p: bytes)
    requires p != []
    ensures PatternText(p) == TokenText(p) + PatternText(p[TokenLength(p)..])
    ensures TokenText(p) ==
            if Escaped(p[0]) then [BACKSLASH, p[0]]
            else if p[0] == STAR && |p| > 1 && p[1] == STAR then ANYTHING
            else if p[0] == STAR then SEGMENT
            else [p[0]]
  {
  }

  // ---------------------------------------------------------------- the text, character by character

  /** What each character is translated to, alone. */
  lemma CharacterText(ch: byte)
    ensures PatternText([ch]) ==
            if ch in Ascii("\\.^$[](){}+?|") then Ascii("\\") + [ch]
            else if ch == '*' as byte then Ascii("[^/]*")
            else [ch]
    ensures PatternText(Ascii("**")) == Ascii(".*")
  {
    MetaCharacters(ch);
    assert [ch][1..] == [] && Ascii("**")[2..] == [];
  }

  lemma MetaCharacters(ch: byte)
    ensures ch in Ascii("\\.^$[](){}+?|") <==> Escaped(ch)
  {
    assert Ascii("\\.^$[](){}+?|") == [BACKSLASH, DOT, CARET, DOLLAR, OPEN_CLASS, CLOSE_CLASS, OPEN_GROUP,
                                        CLOSE_GROUP, OPEN_BRACE, CLOSE_BRACE, PLUS, QUESTION, BAR];
  }

  /** A pattern is translated piece by piece, unless two stars are cut apart. */
  lemma {:induction false} PiecesText(p: bytes, q: bytes)
    requires p == [] || q == [] || p[|p| - 1] != '*' as byte || q[0] != '*' as byte
    ensures PatternText(p + q) == PatternText(p) + PatternText(q)
  {
    hide TokenText;
    if p == [] {
      assert p + q == q;
    } else {
      var n := TokenLength(p);
      assert (p + q)[n..] == p[n..] + q;
      assert n < |p| ==> p[n..][|p| - n - 1] == p[|p| - 1];
      PiecesText(p[n..], q);
      SameToken(p, q);
    }
  }

  lemma SameToken(p: bytes, q: bytes)
    requires p != [] && (q == [] || p[|p| - 1] != STAR || q[0] != STAR)
    ensures TokenLength(p + q) == TokenLength(p) && TokenText(p + q) == TokenText(p)
  {
  }

  /** What the options append. */
  lemma OptionText(p: bytes, opts: Options)
    ensures var slash := p != [] && p[|p| - 1] == '/' as byte;
            RxText(p, opts) == PatternText(p) +
              ((if !opts.dirEntries then [] else if slash then Ascii("[^\\/]*/?") else Ascii("(/[^\\/]*)?/?")) +
               (if !opts.allChildren then [] else if slash && !opts.dirEntries then Ascii(".*") else Ascii("(/.*)?")))
  {
    hide PatternText, DirText, ChildrenText, Ascii;
    DirOptionText(p, opts);
    ChildrenOptionText(p, opts);
  }

  lemma DirOptionText(p: bytes, opts: Options)
    ensures var slash := p != [] && p[|p| - 1] == '/' as byte;
            DirText(p, opts) ==
            if !opts.dirEntries then [] else if slash then Ascii("[^\\/]*/?") else Ascii("(/[^\\/]*)?/?")
  {
    OptionTexts();
  }

  lemma ChildrenOptionText(p: bytes, opts: Options)
    ensures var slash := p != [] && p[|p| - 1] == '/' as byte;
            ChildrenText(p, opts) ==
            if !opts.allChildren then [] else if slash && !opts.dirEntries then Ascii(".*") else Ascii("(/.*)?")
  {
    OptionTexts();
  }

  lemma OptionTexts()
    ensures ENTRY_AFTER_SLASH == Ascii("[^\\/]*/?") && ENTRY == Ascii("(/[^\\/]*)?/?")
    ensures ANYTHING == Ascii(".*") && CHILDREN == Ascii("(/.*)?")
  {
  }

  // ---------------------------------------------------------------- the text parses

  /** What cannot be taken for a repetition of the item before it. */
  predicate Fresh(s: bytes) {
    s == [] || s[0] !in {STAR, PLUS, QUESTION, OPEN_BRACE}
  }

  function TokenRx(p: bytes): Rx
    requires p != []
  {
    if p[0] != STAR then Byte(p[0])
    else if |p| > 1 && p[1] == STAR then Star(AnyByte)
    else Star(NotByte(SLASH))
  }

  /** The regular expression of a pattern, followed by `tail`. */
  function PatternRx(p: bytes, tail: Rx): Rx {
    if p == [] then tail else Cat(TokenRx(p), PatternRx(p[TokenLength(p)..], tail))
  }

  lemma TokenFresh(p: bytes, t: bytes)
    requires Fresh(t)
    ensures Fresh(PatternText(p) + t)
  {
  }

  /** One item in front of text that is fresh. */
  lemma ItemsOfToken(p: bytes, t: bytes)
    requires p != [] && Fresh(t) && ParseItems(t).Some?
    ensures var more := ParseItems(t).value;
            ParseItems(TokenText(p) + t) == Some((Cat(TokenRx(p), more.0), more.1))
  {
    hide ParseItems;
    var s := TokenText(p) + t;
    ItemsStep(s);
    if Escaped(p[0]) {
      assert s[2..] == t;
    } else if p[0] == STAR && |p| > 1 && p[1] == STAR {
      assert s[1..] == [STAR] + t;
      assert ([STAR] + t)[1..] == t;
    } else if p[0] == STAR {
      assert s[4..] == [STAR] + t;
      assert ([STAR] + t)[1..] == t;
    } else {
      assert s[1..] == t;
    }
  }

  /** How a sequence starts. */
  lemma ItemsStep(s: bytes)
    requires s != [] && s[0] != CLOSE_GROUP
    ensures ParseItems(s) ==
            match ParseAtom(s)
            case None => None
            case Some((atom, more)) =>
              match ParseRepeat(atom, more)
              case None => None
              case Some((item, rest)) =>
                match ParseItems(rest)
                case None => None
                case Some((items, end)) => Some((Cat(item, items), end))
  {
  }

  lemma {:induction false} PatternParses(p: bytes, t: bytes)
    requires Fresh(t) && ParseItems(t).Some?
    ensures var more := ParseItems(t).value;
            ParseItems(PatternText(p) + t) == Some((PatternRx(p, more.0), more.1))
    decreases |p|
  {
    hide ParseItems, TokenText;
    if p == [] {
      assert PatternText(p) + t == t;
    } else {
      var rest := p[TokenLength(p)..];
      PatternParses(rest, t);
      TokenFresh(rest, t);
      ItemsOfToken(p, PatternText(rest) + t);
      assert PatternText(p) + t == TokenText(p) + (PatternText(rest) + t);
    }
  }

  const NO_SLASHES := Star(NotByte(SLASH))
  const MAYBE_SLASH := Optional(Byte(SLASH))
  const ANY := Star(AnyByte)

  function DirRx(p: bytes, opts: Options, tail: Rx): Rx {
    if !opts.dirEntries then tail
    else if EndsWithSlash(p) then Cat(NO_SLASHES, Cat(MAYBE_SLASH, tail))
    else Cat(Optional(Cat(Byte(SLASH), Cat(NO_SLASHES, Empty))), Cat(MAYBE_SLASH, tail))
  }

  function ChildrenRx(p: bytes, opts: Options): Rx {
    if !opts.allChildren then Empty
    else if EndsWithSlash(p) && !opts.dirEntries then Cat(ANY, Empty)
    else Cat(Optional(Cat(Byte(SLASH), Cat(ANY, Empty))), Empty)
  }

  lemma ItemsEnd(s: bytes)
    requires s == [] || s[0] == CLOSE_GROUP
    ensures ParseItems(s) == Some((Empty, s))
  {
  }

  /** A group that holds a slash and one repeated item, made optional. */
  lemma ParsesSlashGroup(item: bytes, rx: Rx, t: bytes)
    requires Fresh(t) && ParseItems(t).Some?
    requires ParseItems(item + ([CLOSE_GROUP, QUESTION] + t)) == Some((Cat(rx, Empty), [CLOSE_GROUP, QUESTION] + t))
    requires item != [] && Fresh(item)
    ensures var more := ParseItems(t).value;
            ParseItems([OPEN_GROUP, SLASH] + (item + ([CLOSE_GROUP, QUESTION] + t))) ==
            Some((Cat(Optional(Cat(Byte(SLASH), Cat(rx, Empty))), more.0), more.1))
  {
    hide ParseItems;
    hide ParseAtom, ParseRepeat, Fresh;
    var closing := [CLOSE_GROUP, QUESTION] + t;
    var inner := item + closing;
    FreshFront(item, closing);
    SlashThen(inner, Cat(rx, Empty), closing);
    GroupMaybe([SLASH] + inner, Cat(Byte(SLASH), Cat(rx, Empty)), t);
    assert [OPEN_GROUP, SLASH] + inner == [OPEN_GROUP] + ([SLASH] + inner);
  }

  lemma FreshFront(item: bytes, t: bytes)
    requires item != [] && Fresh(item)
    ensures item + t != [] && Fresh(item + t)
  {
  }

  lemma SlashThen(inner: bytes, items: Rx, rest: bytes)
    requires inner != [] && Fresh(inner) && ParseItems(inner) == Some((items, rest))
    ensures ParseItems([SLASH] + inner) == Some((Cat(Byte(SLASH), items), rest))
  {
    hide ParseItems;
    ItemsStep([SLASH] + inner);
    assert ([SLASH] + inner)[1..] == inner;
  }

  lemma GroupMaybe(inner: bytes, items: Rx, t: bytes)
    requires ParseItems(inner) == Some((items, [CLOSE_GROUP, QUESTION] + t))
    requires Fresh(t) && ParseItems(t).Some?
    ensures var more := ParseItems(t).value;
            ParseItems([OPEN_GROUP] + inner) == Some((Cat(Optional(items), more.0), more.1))
  {
    hide ParseItems;
    var s := [OPEN_GROUP] + inner;
    var after := [QUESTION] + t;
    assert s[1..] == inner;
    assert ([CLOSE_GROUP, QUESTION] + t)[1..] == after;
    ItemsStep(s);
    assert after[1..] == t;
  }

  /** The items `[^\/]*` and `.*` in front of other text. */
  lemma ParsesStars(t: bytes)
    requires Fresh(t) && ParseItems(t).Some?
    ensures var more := ParseItems(t).value;
            && ParseItems(SEGMENT_ITEM + t) ==
               Some((Cat(NO_SLASHES, more.0), more.1))
            && ParseItems(ANYTHING + t) == Some((Cat(ANY, more.0), more.1))
  {
    hide ParseItems;
    var segment := SEGMENT_ITEM + t;
    assert segment[5..] == [STAR] + t;
    assert ([STAR] + t)[1..] == t;
    ItemsStep(segment);
    var dots := ANYTHING + t;
    assert dots[1..] == [STAR] + t;
    ItemsStep(dots);
  }

  lemma ParsesMaybeSlash(t: bytes)
    requires Fresh(t) && ParseItems(t).Some?
    ensures var more := ParseItems(t).value;
            ParseItems([SLASH, QUESTION] + t) == Some((Cat(MAYBE_SLASH, more.0), more.1))
  {
    hide ParseItems;
    var s := [SLASH, QUESTION] + t;
    assert s[1..] == [QUESTION] + t;
    assert ([QUESTION] + t)[1..] == t;
    ItemsStep(s);
  }

  lemma ChildrenParses(p: bytes, opts: Options)
    ensures Fresh(ChildrenText(p, opts))
    ensures ParseItems(ChildrenText(p, opts)) == Some((ChildrenRx(p, opts), []))
  {
    hide ParseItems;
    ItemsEnd([]);
    ParsesStars([]);
    assert ANYTHING + [] == ANYTHING;
    var closing := [CLOSE_GROUP, QUESTION] + [];
    ItemsEnd(closing);
    ParsesStars(closing);
    ParsesSlashGroup(ANYTHING, ANY, []);
    assert CHILDREN == [OPEN_GROUP, SLASH] + (ANYTHING + closing);
  }

  lemma DirParses(p: bytes, opts: Options, t: bytes)
    requires Fresh(t) && ParseItems(t).Some?
    ensures Fresh(DirText(p, opts) + t)
    ensures var more := ParseItems(t).value;
            ParseItems(DirText(p, opts) + t) == Some((DirRx(p, opts, more.0), more.1))
  {
    hide ParseItems, Fresh;
    if !opts.dirEntries {
      assert DirText(p, opts) + t == t;
    } else if EndsWithSlash(p) {
      EntryAfterSlashParses(t);
    } else {
      EntryParses(t);
    }
  }

  lemma Regrouped(a: bytes, b: bytes, c: bytes, d: bytes, t: bytes)
    ensures a + (b + (c + d)) + t == a + (b + (c + (d + t)))
    ensures b + d + t == b + (d + t)
  {
  }

  lemma SlashFresh(t: bytes)
    ensures Fresh([SLASH, QUESTION] + t)
  {
  }

  lemma ClosingEnds(t: bytes)
    ensures var closing := [CLOSE_GROUP, QUESTION] + t;
            Fresh(closing) && ParseItems(closing) == Some((Empty, closing))
  {
    ItemsEnd([CLOSE_GROUP, QUESTION] + t);
  }

  lemma SegmentFresh(t: bytes)
    ensures Fresh(SEGMENT_ITEM) && Fresh(SEGMENT_ITEM + t) && Fresh([OPEN_GROUP, SLASH] + t)
  {
  }

  lemma EntryAfterSlashParses(t: bytes)
    requires Fresh(t) && ParseItems(t).Some?
    ensures Fresh(ENTRY_AFTER_SLASH + t)
    ensures var more := ParseItems(t).value;
            ParseItems(ENTRY_AFTER_SLASH + t) == Some((Cat(NO_SLASHES, Cat(MAYBE_SLASH, more.0)), more.1))
  {
    hide ParseItems, ParseAtom, ParseRepeat, Fresh;
    ParsesMaybeSlash(t);
    SlashFresh(t);
    ParsesStars([SLASH, QUESTION] + t);
    Regrouped([], SEGMENT_ITEM, [], [SLASH, QUESTION], t);
    SegmentFresh([SLASH, QUESTION] + t);
  }

  lemma EntryParses(t: bytes)
    requires Fresh(t) && ParseItems(t).Some?
    ensures Fresh(ENTRY + t)
    ensures var more := ParseItems(t).value;
            ParseItems(ENTRY + t) ==
            Some((Cat(Optional(Cat(Byte(SLASH), Cat(NO_SLASHES, Empty))), Cat(MAYBE_SLASH, more.0)), more.1))
  {
    hide ParseItems, ParseAtom, ParseRepeat, Fresh;
    var slash := [SLASH, QUESTION] + t;
    var closing := [CLOSE_GROUP, QUESTION] + slash;
    ParsesMaybeSlash(t);
    SlashFresh(t);
    ClosingEnds(slash);
    ParsesStars(closing);
    SegmentFresh(SEGMENT_ITEM + closing);
    ParsesSlashGroup(SEGMENT_ITEM, NO_SLASHES, slash);
    Regrouped([OPEN_GROUP, SLASH], SEGMENT_ITEM, [CLOSE_GROUP, QUESTION], [SLASH, QUESTION], t);
  }

  function WholeRx(p: bytes, opts: Options): Rx {
    PatternRx(p, DirRx(p, opts, ChildrenRx(p, opts)))
  }

  /** The emitted text is a well-formed expression, whatever the pattern: nothing in it leaks into the
      syntax. */
  lemma TextParses(p: bytes, opts: Options)
    ensures ParseRx(RxText(p, opts)) == Some(WholeRx(p, opts))
  {
    hide ParseItems, PatternText, DirText, ChildrenText, DirRx, ChildrenRx, PatternRx;
    ChildrenParses(p, opts);
    DirParses(p, opts, ChildrenText(p, opts));
    PatternParses(p, DirText(p, opts) + ChildrenText(p, opts));
  }
}
