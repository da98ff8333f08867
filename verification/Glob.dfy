/** Cutting a sequence into consecutive pieces, one per token. */
module Pieces {
  ghost function Flat<A>(pieces: seq<seq<A>>): seq<A> {
    if pieces == [] then [] else pieces[0] + Flat(pieces[1..])
  }

  /** s can be cut so that every piece is one its token allows. */
  ghost predicate Covers<T, A(!new)>(ts: seq<T>, s: seq<A>, allows: (T, seq<A>) -> bool) {
    exists pieces: seq<seq<A>> :: IsCut(ts, s, allows, pieces)
  }

  ghost predicate IsCut<T, A(!new)>(ts: seq<T>, s: seq<A>, allows: (T, seq<A>) -> bool, pieces: seq<seq<A>>) {
    |pieces| == |ts| && Flat(pieces) == s && forall i :: 0 <= i < |ts| ==> allows(ts[i], pieces[i])
  }

  lemma CoversNone<T, A(!new)>(s: seq<A>, allows: (T, seq<A>) -> bool)
    ensures Covers([], s, allows) <==> s == []
  {
    if s == [] {
      assert IsCut([], s, allows, []);
    }
  }

  /** The first piece, and a cut of the rest. */
  lemma CoversFirst<T, A(!new)>(ts: seq<T>, s: seq<A>, allows: (T, seq<A>) -> bool)
    requires ts != []
    ensures Covers(ts, s, allows) <==>
            exists k: nat :: k <= |s| && allows(ts[0], s[..k]) && Covers(ts[1..], s[k..], allows)
  {
    if pieces :| IsCut(ts, s, allows, pieces) {
      var k := |pieces[0]|;
      assert s[..k] == pieces[0] && s[k..] == Flat(pieces[1..]);
      assert IsCut(ts[1..], s[k..], allows, pieces[1..]);
    }
    if k: nat :| k <= |s| && allows(ts[0], s[..k]) && Covers(ts[1..], s[k..], allows) {
      CoversAdd(ts, s, allows, k);
    }
  }

  lemma CoversAdd<T, A(!new)>(ts: seq<T>, s: seq<A>, allows: (T, seq<A>) -> bool, k: nat)
    requires ts != [] && k <= |s| && allows(ts[0], s[..k]) && Covers(ts[1..], s[k..], allows)
    ensures Covers(ts, s, allows)
  {
    var rest :| IsCut(ts[1..], s[k..], allows, rest);
    var pieces := [s[..k]] + rest;
    assert pieces[1..] == rest && s[..k] + s[k..] == s;
    forall i | 0 <= i < |ts|
      ensures allows(ts[i], pieces[i])
    {
      if i > 0 {
        assert allows(ts[1..][i - 1], rest[i - 1]);
      }
    }
    assert IsCut(ts, s, allows, pieces);
  }
}

/** The glob matchers of the S3 file system (httpfs/src/s3fs.cpp): one path segment against a pattern
    with wildcards, and a whole path against a pattern path with "**". */
module Glob {
  import opened Basics
  import opened Pieces

  // ------------------------------------------------------------------ patterns and what they denote

  /** A range of characters in a bracket; a single character is a range of one. */
  datatype Item = Item(lo: char, hi: char)

  datatype Token = Star | Any | Literal(c: char) | OneOf(invert: bool, items: seq<Item>)

  ghost predicate InSome(items: seq<Item>, c: char) {
    exists i :: 0 <= i < |items| && items[i].lo <= c <= items[i].hi
  }

  /** The strings a token stands for. */
  ghost predicate Allows(t: Token, piece: string) {
    match t
    case Star => true
    case Any => |piece| == 1
    case Literal(c) => piece == [c]
    case OneOf(invert, items) => |piece| == 1 && InSome(items, piece[0]) != invert
  }

  datatype Bracket = Bracket(items: seq<Item>, next: nat)

  /** Bracket items from position i up to the closing bracket; it closes only after the first position. */
  function ParseItems(p: string, i: nat, start: nat): (r: Option<Bracket>)
    requires i <= |p|
    ensures r.Some? ==> i < r.value.next <= |p|
    decreases |p| - i
  {
    if i == |p| then None
    else if p[i] == ']' && i > start then Some(Bracket([], i + 1))
    else if i + 1 == |p| then None
    else if p[i + 1] == '-' then
      if i + 2 == |p| then None
      else
        var rest := ParseItems(p, i + 3, start);
        if rest.None? then None else Some(Bracket([Item(p[i], p[i + 2])] + rest.value.items, rest.value.next))
    else
      var rest := ParseItems(p, i + 1, start);
      if rest.None? then None else Some(Bracket([Item(p[i], p[i])] + rest.value.items, rest.value.next))
  }

  datatype First = First(token: Token, next: nat)

  /** The token at position i: one after '[' may start with '!', and '\' quotes the next character. */
  function FirstToken(p: string, i: nat): (r: Option<First>)
    requires i < |p|
    ensures r.Some? ==> i < r.value.next <= |p|
  {
    match p[i]
    case '*' => Some(First(Star, i + 1))
    case '?' => Some(First(Any, i + 1))
    case '\\' => if i + 1 == |p| then None else Some(First(Literal(p[i + 1]), i + 2))
    case '[' =>
      var invert := i + 1 < |p| && p[i + 1] == '!';
      var start := if invert then i + 2 else i + 1;
      var b := ParseItems(p, start, start);
      if b.None? then None else Some(First(OneOf(invert, b.value.items), b.value.next))
    case _ => Some(First(Literal(p[i]), i + 1))
  }

  /** The tokens of a pattern from position i; None if a bracket or a quote is left open. */
  function Tokens(p: string, i: nat): (r: Option<seq<Token>>)
    requires i <= |p|
    decreases |p| - i
  {
    if i == |p| then Some([])
    else
      var t := FirstToken(p, i);
      if t.None? then None
      else
        var rest := Tokens(p, t.value.next);
        if rest.None? then None else Some([t.value.token] + rest.value)
  }

  /** The pattern parses into tokens whose pieces make up the whole string. */
  ghost predicate Denotes(p: string, i: nat, s: string)
    requires i <= |p|
  {
    Tokens(p, i).Some? && Covers(Tokens(p, i).value, s, Allows)
  }

  // ------------------------------------------------------------------ how a match unfolds

  lemma DenotesEnd(p: string, s: string)
    ensures Denotes(p, |p|, s) <==> s == []
  {
    CoversNone(s, Allows);
  }

  lemma DenotesCons(p: string, i: nat, s: string)
    requires i < |p|
    ensures var t := FirstToken(p, i);
            Denotes(p, i, s) <==>
            t.Some? && exists k: nat :: k <= |s| && Allows(t.value.token, s[..k]) && Denotes(p, t.value.next, s[k..])
  {
    var t := FirstToken(p, i);
    if t.Some? && Tokens(p, t.value.next).Some? {
      CoversFirst(Tokens(p, i).value, s, Allows);
    }
  }

  /** A token other than '*' takes exactly one character. */
  lemma OneCharacter(p: string, i: nat, s: string)
    requires i < |p| && p[i] != '*'
    ensures var t := FirstToken(p, i);
            Denotes(p, i, s) <==> t.Some? && s != [] && Allows(t.value.token, s[..1]) && Denotes(p, t.value.next, s[1..])
  {
    hide Tokens, Covers;
    DenotesCons(p, i, s);
  }

  /** '*' takes any prefix. */
  lemma StarTakes(p: string, i: nat, s: string)
    requires i < |p| && p[i] == '*'
    ensures Denotes(p, i, s) <==> exists k: nat :: k <= |s| && Denotes(p, i + 1, s[k..])
  {
    hide Tokens, Covers;
    DenotesCons(p, i, s);
  }

  /** Two stars in a row are one. */
  lemma StarsCollapse(p: string, i: nat, s: string)
    requires i + 1 < |p| && p[i] == '*' && p[i + 1] == '*'
    ensures Denotes(p, i, s) <==> Denotes(p, i + 1, s)
  {
    StarTakes(p, i, s);
    StarTakes(p, i + 1, s);
    if k: nat :| k <= |s| && Denotes(p, i + 1, s[k..]) {
      StarTakes(p, i + 1, s[k..]);
      var j: nat :| j <= |s[k..]| && Denotes(p, i + 2, s[k..][j..]);
      assert s[k..][j..] == s[k + j..];
    }
    if Denotes(p, i + 1, s) {
      assert s[0..] == s;
    }
  }

  /** After '*' only non-empty suffixes need to be tried: a remainder that does not start with '*' never
      matches the empty one. */
  lemma NonEmptySuffixes(p: string, i: nat, s: string)
    requires i + 1 < |p| && p[i] == '*' && p[i + 1] != '*'
    ensures Denotes(p, i, s) <==> exists k: nat :: k < |s| && Denotes(p, i + 1, s[k..])
  {
    hide Denotes;
    StarTakes(p, i, s);
    OneCharacter(p, i + 1, []);
    assert s[|s|..] == [];
  }

  lemma LastStar(p: string, i: nat, s: string)
    requires i + 1 == |p| && p[i] == '*'
    ensures Denotes(p, i, s)
  {
    StarTakes(p, i, s);
    DenotesEnd(p, []);
    assert s[|s|..] == [] && Denotes(p, i + 1, s[|s|..]);
  }

  // ------------------------------------------------------------------ the matcher

  /** The bracket loop: whether a closing bracket follows, where it ends, and whether c passes. */
  method MatchBracket(p: string, at: nat, c: char) returns (closed: bool, found: bool, next: nat)
    requires at <= |p|
    ensures var invert := at < |p| && p[at] == '!';
            var start := if invert then at + 1 else at;
            var b := ParseItems(p, start, start);
            closed == b.Some? && (closed ==> next == b.value.next && found == (InSome(b.value.items, c) != invert))
  {
    next, closed := at, false;
    var invert := false;
    if next < |p| && p[next] == '!' {
      invert := true;
      next := next + 1;
    }
    found := invert;
    var start := next;
    ghost var seen: seq<Item> := [];
    NothingSeen(ParseItems(p, start, start));
    while next < |p|
      invariant start <= next <= |p| && !closed
      invariant found == (InSome(seen, c) != invert)
      invariant ParseItems(p, start, start) == Prefixed(seen, ParseItems(p, next, start))
      decreases |p| - next
    {
      var d := p[next];
      if d == ']' && next > start {
        closed := true;
        next := next + 1;
        break;
      }
      if next + 1 == |p| {
        break;
      }
      var matches: bool;
      ghost var item := Item(d, d);
      ghost var from := next;
      if p[next + 1] == '-' {
        if next + 2 == |p| {
          break;
        }
        var last := p[next + 2];
        matches := d <= c <= last;
        item := Item(d, last);
        next := next + 3;
      } else {
        matches := d == c;
        next := next + 1;
      }
      PrefixedMore(seen, item, ParseItems(p, next, start));
      SomeMore(seen, item, c);
      seen := seen + [item];
      if found == invert && matches {
        found := !invert;
      }
    }
    assert closed ==> seen + [] == seen;
  }

  ghost function Prefixed(seen: seq<Item>, b: Option<Bracket>): Option<Bracket> {
    if b.None? then None else Some(Bracket(seen + b.value.items, b.value.next))
  }

  lemma NothingSeen(b: Option<Bracket>)
    ensures Prefixed([], b) == b
  {
    assert b.Some? ==> [] + b.value.items == b.value.items;
  }

  lemma PrefixedMore(seen: seq<Item>, item: Item, b: Option<Bracket>)
    ensures Prefixed(seen, Prefixed([item], b)) == Prefixed(seen + [item], b)
  {
    if b.Some? {
      assert seen + ([item] + b.value.items) == (seen + [item]) + b.value.items;
    }
  }

  lemma SomeMore(seen: seq<Item>, item: Item, c: char)
    ensures InSome(seen + [item], c) <==> InSome(seen, c) || item.lo <= c <= item.hi
  {
    if i :| 0 <= i < |seen| && seen[i].lo <= c <= seen[i].hi {
      assert (seen + [item])[i] == seen[i];
    }
    if item.lo <= c <= item.hi {
      assert (seen + [item])[|seen|] == item;
    }
  }

  /** Backtracking match of a string against a pattern: true exactly if the pattern denotes the string. */
  method Likes(s: string, p: string) returns (r: bool)
    ensures r <==> Denotes(p, 0, s)
    decreases |p|, 0
  {
    hide Denotes, FirstToken, ParseItems;
    var sidx, pidx := 0, 0;
    assert s[0..] == s;
    while sidx < |s| && pidx < |p|
      invariant sidx <= |s| && pidx <= |p|
      invariant Denotes(p, 0, s) <==> Denotes(p, pidx, s[sidx..])
      decreases |p| - pidx
    {
      var rest := s[sidx..];
      assert rest[..1] == [s[sidx]] && rest[1..] == s[sidx + 1..];
      if p[pidx] == '*' {
        pidx := SkipStars(p, pidx, rest);
        if pidx + 1 == |p| {
          LastStar(p, pidx, rest);
          return true;
        }
        r := TrySuffixes(p, pidx, rest);
        return r;
      }
      OneCharacter(p, pidx, rest);
      TokenAt(p, pidx);
      if p[pidx] == '[' {
        var closed, found, next := MatchBracket(p, pidx + 1, s[sidx]);
        if !closed || !found {
          return false;
        }
        pidx := next;
      } else if p[pidx] == '\\' {
        if pidx + 1 == |p| || s[sidx] != p[pidx + 1] {
          return false;
        }
        pidx := pidx + 2;
      } else {
        if p[pidx] != '?' && s[sidx] != p[pidx] {
          return false;
        }
        pidx := pidx + 1;
      }
      sidx := sidx + 1;
    }
    r := OnlyStarsLeft(p, pidx, s[sidx..]);
  }

  /** What FirstToken says about a token that is not a star. */
  lemma TokenAt(p: string, i: nat)
    requires i < |p| && p[i] != '*'
    ensures var t := FirstToken(p, i);
            if p[i] == '[' then
              var invert := i + 1 < |p| && p[i + 1] == '!';
              var start := if invert then i + 2 else i + 1;
              var b := ParseItems(p, start, start);
              t == if b.None? then None else Some(First(OneOf(invert, b.value.items), b.value.next))
            else if p[i] == '\\' then t == if i + 1 == |p| then None else Some(First(Literal(p[i + 1]), i + 2))
            else t == Some(First(if p[i] == '?' then Any else Literal(p[i]), i + 1))
  {
  }

  /** Moves to the last star of a row of stars. */
  method SkipStars(p: string, at: nat, ghost s: string) returns (last: nat)
    requires at < |p| && p[at] == '*'
    ensures at <= last < |p| && p[last] == '*' && (last + 1 < |p| ==> p[last + 1] != '*')
    ensures Denotes(p, at, s) <==> Denotes(p, last, s)
  {
    hide Denotes;
    last := at;
    while last + 1 < |p| && p[last + 1] == '*'
      invariant at <= last < |p| && p[last] == '*'
      invariant Denotes(p, at, s) <==> Denotes(p, last, s)
    {
      StarsCollapse(p, last, s);
      last := last + 1;
    }
  }

  method TrySuffixes(p: string, star: nat, s: string) returns (r: bool)
    requires star + 1 < |p| && p[star] == '*' && p[star + 1] != '*'
    ensures r <==> Denotes(p, star, s)
    decreases |p| - 1 - star, 1
  {
    hide Denotes;
    NonEmptySuffixes(p, star, s);
    for k := 0 to |s|
      invariant forall j: nat :: j < k ==> !Denotes(p, star + 1, s[j..])
    {
      ShiftPattern(p, star + 1, s[k..]);
      var m := Likes(s[k..], p[star + 1..]);
      if m {
        return true;
      }
    }
    return false;
  }

  method OnlyStarsLeft(p: string, at: nat, s: string) returns (r: bool)
    requires at <= |p| && (s == [] || at == |p|)
    ensures r <==> Denotes(p, at, s)
  {
    hide Denotes;
    var pidx := at;
    DenotesEnd(p, s);
    while pidx < |p| && p[pidx] == '*'
      invariant at <= pidx <= |p|
      invariant Denotes(p, at, s) <==> Denotes(p, pidx, s)
    {
      StarTakes(p, pidx, s);
      assert s[0..] == s;
      pidx := pidx + 1;
    }
    if pidx < |p| {
      OneCharacter(p, pidx, s);
    }
    r := pidx == |p| && s == [];
  }

  // ------------------------------------------------------------------ a suffix of a pattern is a pattern

  lemma {:induction false} ShiftItems(p: string, i: nat, j: nat, start: nat)
    requires i <= j <= |p| && i <= start
    ensures ParseItems(p[i..], j - i, start - i) ==
            match ParseItems(p, j, start) case None => None case Some(b) => Some(Bracket(b.items, b.next - i))
    decreases |p| - j
  {
    var q := p[i..];
    if j < |p| {
      assert q[j - i] == p[j];
      if !(p[j] == ']' && j > start) && j + 1 < |p| {
        assert q[j + 1 - i] == p[j + 1];
        if p[j + 1] != '-' {
          ShiftItems(p, i, j + 1, start);
        } else if j + 2 < |p| {
          assert q[j + 2 - i] == p[j + 2];
          ShiftItems(p, i, j + 3, start);
        }
      }
    }
  }

  lemma ShiftFirst(p: string, i: nat, j: nat)
    requires i <= j < |p|
    ensures FirstToken(p[i..], j - i) ==
            match FirstToken(p, j) case None => None case Some(t) => Some(First(t.token, t.next - i))
  {
    hide ParseItems;
    var q := p[i..];
    assert q[j - i] == p[j];
    assert j + 1 < |p| ==> q[j + 1 - i] == p[j + 1];
    if p[j] == '[' {
      var start := if j + 1 < |p| && p[j + 1] == '!' then j + 2 else j + 1;
      ShiftItems(p, i, start, start);
    }
  }

  lemma {:induction false} ShiftTokens(p: string, i: nat, j: nat)
    requires i <= j <= |p|
    ensures Tokens(p[i..], j - i) == Tokens(p, j)
    decreases |p| - j
  {
    hide FirstToken;
    if j < |p| {
      ShiftFirst(p, i, j);
      var t := FirstToken(p, j);
      if t.Some? {
        ShiftTokens(p, i, t.value.next);
      }
    }
  }

  lemma ShiftPattern(p: string, i: nat, s: string)
    requires i <= |p|
    ensures Denotes(p[i..], 0, s) <==> Denotes(p, i, s)
  {
    ShiftTokens(p, i, i);
  }

  // ------------------------------------------------------------------ quoting

  /** Every character preceded by a backslash. */
  function Quoted(t: string): (p: string)
    ensures |p| == 2 * |t|
    ensures forall i :: 0 <= i < |t| ==> p[2 * i] == '\\' && p[2 * i + 1] == t[i]
  {
    if t == [] then [] else Quoted(t[..|t| - 1]) + ['\\', t[|t| - 1]]
  }

  /** A quoted string matches itself and nothing else. */
  lemma {:induction false} QuotedMatchesItself(t: string, k: nat, s: string)
    requires k <= |t|
    ensures Denotes(Quoted(t), 2 * k, s) <==> s == t[k..]
    decreases |t| - k
  {
    hide Tokens, Covers, Quoted, Denotes;
    var p := Quoted(t);
    if k == |t| {
      DenotesEnd(p, s);
    } else {
      OneCharacter(p, 2 * k, s);
      assert FirstToken(p, 2 * k) == Some(First(Literal(t[k]), 2 * k + 2));
      if s != [] {
        QuotedMatchesItself(t, k + 1, s[1..]);
        assert s == s[..1] + s[1..] && t[k..] == [t[k]] + t[k + 1..];
      }
    }
  }

  // ------------------------------------------------------------------ paths

  /** One segment, any number of segments, or at least one. */
  datatype Step = One(pattern: string) | AnyNumber | AtLeastOne

  /** "**" stands for any number of segments, at the end of the pattern for at least one. */
  function StepAt(pattern: seq<string>, i: nat): Step
    requires i < |pattern|
  {
    if pattern[i] != "**" then One(pattern[i]) else if i + 1 < |pattern| then AnyNumber else AtLeastOne
  }

  function StepsFrom(pattern: seq<string>, i: nat): (r: seq<Step>)
    requires i <= |pattern|
    ensures |r| == |pattern| - i
    ensures forall j :: 0 <= j < |r| ==> r[j] == StepAt(pattern, i + j)
  {
    seq(|pattern| - i, j requires 0 <= j < |pattern| - i => StepAt(pattern, i + j))
  }

  ghost predicate AllowsSegments(t: Step, piece: seq<string>) {
    match t
    case One(p) => |piece| == 1 && Denotes(p, 0, piece[0])
    case AnyNumber => true
    case AtLeastOne => piece != []
  }

  ghost predicate DenotesPath(pattern: seq<string>, i: nat, key: seq<string>)
    requires i <= |pattern|
  {
    Covers(StepsFrom(pattern, i), key, AllowsSegments)
  }

  lemma PathCons(pattern: seq<string>, i: nat, key: seq<string>)
    requires i < |pattern|
    ensures DenotesPath(pattern, i, key) <==>
            exists k: nat :: k <= |key| && AllowsSegments(StepAt(pattern, i), key[..k]) && DenotesPath(pattern, i + 1, key[k..])
  {
    var ts := StepsFrom(pattern, i);
    assert ts[1..] == StepsFrom(pattern, i + 1);
    CoversFirst(ts, key, AllowsSegments);
  }

  lemma PathEnd(pattern: seq<string>, key: seq<string>)
    ensures DenotesPath(pattern, |pattern|, key) <==> key == []
  {
    assert StepsFrom(pattern, |pattern|) == [];
    CoversNone(key, AllowsSegments);
  }

  /** A non-empty rest of a pattern path takes at least one segment. */
  lemma {:induction false} RestNeedsSegment(pattern: seq<string>, i: nat)
    requires i < |pattern|
    ensures !DenotesPath(pattern, i, [])
    decreases |pattern| - i
  {
    hide Denotes, DenotesPath;
    var none: seq<string> := [];
    PathCons(pattern, i, none);
    if i + 1 < |pattern| {
      RestNeedsSegment(pattern, i + 1);
    }
    assert none[..0] == [] && none[0..] == [];
  }

  /** Matches a split path against a split pattern. */
  method Match(key: seq<string>, pattern: seq<string>) returns (r: bool)
    ensures r <==> DenotesPath(pattern, 0, key)
    decreases |pattern|, 0
  {
    hide Denotes, DenotesPath;
    var k, i := 0, 0;
    assert key[0..] == key;
    while k < |key| && i < |pattern|
      invariant k <= |key| && i <= |pattern|
      invariant DenotesPath(pattern, 0, key) <==> DenotesPath(pattern, i, key[k..])
    {
      if pattern[i] == "**" {
        if i + 1 == |pattern| {
          LastTakesAll(pattern, i, key[k..]);
          return true;
        }
        r := TryRests(pattern, i, key[k..]);
        return r;
      }
      var m := Likes(key[k], pattern[i]);
      OneSegment(pattern, i, key[k..]);
      assert key[k..][1..] == key[k + 1..];
      if !m {
        return false;
      }
      k, i := k + 1, i + 1;
    }
    if i == |pattern| {
      PathEnd(pattern, key[k..]);
    } else {
      assert key[k..] == [];
      RestNeedsSegment(pattern, i);
    }
    r := k == |key| && i == |pattern|;
  }

  lemma LastTakesAll(pattern: seq<string>, i: nat, key: seq<string>)
    requires i + 1 == |pattern| && pattern[i] == "**" && key != []
    ensures DenotesPath(pattern, i, key)
  {
    hide DenotesPath;
    PathCons(pattern, i, key);
    PathEnd(pattern, []);
    assert key[..|key|] == key && key[|key|..] == [];
  }

  lemma OneSegment(pattern: seq<string>, i: nat, key: seq<string>)
    requires i < |pattern| && pattern[i] != "**" && key != []
    ensures DenotesPath(pattern, i, key) <==> Denotes(pattern[i], 0, key[0]) && DenotesPath(pattern, i + 1, key[1..])
  {
    hide DenotesPath, Denotes;
    PathCons(pattern, i, key);
    assert key[..1] == [key[0]];
  }

  /** "**" before more pattern: the rest is tried on every non-empty suffix. */
  method TryRests(pattern: seq<string>, i: nat, key: seq<string>) returns (r: bool)
    requires i + 1 < |pattern| && pattern[i] == "**"
    ensures r <==> DenotesPath(pattern, i, key)
    decreases |pattern| - 1 - i, 1
  {
    hide Denotes, DenotesPath;
    PathCons(pattern, i, key);
    RestNeedsSegment(pattern, i + 1);
    assert key[|key|..] == [];
    for k := 0 to |key|
      invariant forall j: nat :: j < k ==> !DenotesPath(pattern, i + 1, key[j..])
    {
      ShiftPath(pattern, i + 1, key[k..]);
      var m := Match(key[k..], pattern[i + 1..]);
      if m {
        return true;
      }
    }
    return false;
  }

  lemma ShiftPath(pattern: seq<string>, i: nat, key: seq<string>)
    requires i <= |pattern|
    ensures DenotesPath(pattern[i..], 0, key) <==> DenotesPath(pattern, i, key)
  {
    assert StepsFrom(pattern[i..], 0) == StepsFrom(pattern, i);
  }
}
