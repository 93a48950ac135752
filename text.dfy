/**
 * The JavaScript string operations the card scanner uses: `includes`,
 * `toLowerCase`, `trim`, `split` and the white-space collapse
 * `replace(/\s+/g, ' ')`, on strings as sequences of characters.
 */
module Text {
  import opened Seqs

  /**
   * JavaScript's white space and line terminators: exactly the characters
   * `trim` removes and the regular-expression class `\s` matches.
   */
  predicate IsSpace(c: char) {
    || '\t' <= c <= '\r'
    || c == ' ' || c == '\U{00A0}' || c == '\U{1680}' || '\U{2000}' <= c <= '\U{200A}'
    || c == '\U{2028}' || c == '\U{2029}' || c == '\U{202F}' || c == '\U{205F}'
    || c == '\U{3000}' || c == '\U{FEFF}'
  }

  ghost predicate AllSpace(s: string) {
    forall i :: 0 <= i < |s| ==> IsSpace(s[i])
  }

  /** Neither end of `r` is white space: what `trim` leaves. */
  ghost predicate Trimmed(r: string) {
    r == [] || (!IsSpace(r[0]) && !IsSpace(r[|r| - 1]))
  }

  /** `s` is `r` with (possibly no) white space on each side. */
  ghost predicate Padded(s: string, r: string) {
    exists i :: 0 <= i && i + |r| <= |s| && s[i..i + |r|] == r && AllSpace(s[..i]) && AllSpace(s[i + |r|..])
  }

  // ---------------------------------------------------------------- includes

  /** `t` occurs in `s` at index `i`. */
  ghost predicate OccursAt(s: string, t: string, i: int) {
    0 <= i && i + |t| <= |s| && s[i..i + |t|] == t
  }

  /** `s.includes(t)`. */
  function Contains(s: string, t: string): bool
  {
    if |t| <= |s| && s[..|t|] == t then true
    else if s == [] then false
    else Contains(s[1..], t)
  }

  /** `Contains` holds exactly when `t` occurs somewhere in `s`. */
  lemma {:induction false} ContainsSpec(s: string, t: string)
    ensures Contains(s, t) <==> exists i :: OccursAt(s, t, i)
  {
    if |t| <= |s| && s[..|t|] == t {
      assert OccursAt(s, t, 0);
    } else if s != [] {
      ContainsSpec(s[1..], t);
      if Contains(s[1..], t) {
        var i :| OccursAt(s[1..], t, i);
        assert s[i + 1..i + 1 + |t|] == s[1..][i..i + |t|];
        assert OccursAt(s, t, i + 1);
      }
      if i :| OccursAt(s, t, i) {
        assert i != 0;
        assert s[1..][i - 1..i - 1 + |t|] == s[i..i + |t|];
        assert OccursAt(s[1..], t, i - 1);
      }
    }
  }

  // ------------------------------------------------------------- toLowerCase

  function LowerChar(c: char): char {
    if 'A' <= c <= 'Z' then (c as int + 32) as char else c
  }

  /** `s.toLowerCase()`, on the ASCII letters. */
  function Lower(s: string): (r: string)
    ensures |r| == |s|
  {
    Map(s, LowerChar)
  }

  /** Lower-casing twice is lower-casing once. */
  lemma LowerIdempotent(s: string)
    ensures Lower(Lower(s)) == Lower(s)
  {
    forall k | 0 <= k < |s| ensures Lower(Lower(s))[k] == Lower(s)[k] {
      assert LowerChar(LowerChar(s[k])) == LowerChar(s[k]);
    }
  }

  /** An occurrence survives lower-casing both strings: the search is case-insensitive. */
  lemma ContainsLower(s: string, t: string)
    requires Contains(s, t)
    ensures Contains(Lower(s), Lower(t))
  {
    ContainsSpec(s, t);
    var i :| OccursAt(s, t, i);
    assert Lower(s)[i..i + |t|] == Lower(t) by {
      forall k | 0 <= k < |t| ensures Lower(s)[i..i + |t|][k] == Lower(t)[k] {
        assert s[i + k] == t[k];
      }
    }
    assert OccursAt(Lower(s), Lower(t), i);
    ContainsSpec(Lower(s), Lower(t));
  }

  // -------------------------------------------------------------------- trim

  /** Drops the leading white space. */
  function TrimStart(s: string): (r: string)
    ensures |r| <= |s| && r == s[|s| - |r|..] && AllSpace(s[..|s| - |r|])
    ensures r == [] || !IsSpace(r[0])
  {
    if s != [] && IsSpace(s[0]) then
      var r := TrimStart(s[1..]);
      SpaceRunCons(s, r);
      r
    else
      assert s[..0] == [];
      s
  }

  /** A space in front of a run of white space makes a longer run. */
  lemma SpaceRunCons(s: string, r: string)
    requires s != [] && IsSpace(s[0]) && |r| < |s|
    requires r == s[1..][|s| - 1 - |r|..] && AllSpace(s[1..][..|s| - 1 - |r|])
    ensures r == s[|s| - |r|..] && AllSpace(s[..|s| - |r|])
  {
    var w, w' := s[..|s| - |r|], s[1..][..|s| - 1 - |r|];
    forall i | 0 <= i < |w| ensures IsSpace(w[i]) {
      if i > 0 {
        assert w[i] == w'[i - 1];
      }
    }
  }

  /** Drops the trailing white space. */
  function TrimEnd(s: string): (r: string)
    ensures |r| <= |s| && r == s[..|r|] && AllSpace(s[|r|..])
    ensures r == [] || !IsSpace(r[|r| - 1])
  {
    if s != [] && IsSpace(s[|s| - 1]) then
      var r := TrimEnd(s[..|s| - 1]);
      SpaceRunSnoc(s, |r|);
      r
    else s
  }

  /** A space after a run of white space makes a longer run. */
  lemma SpaceRunSnoc(s: string, k: nat)
    requires s != [] && IsSpace(s[|s| - 1]) && k < |s| && AllSpace(s[..|s| - 1][k..])
    ensures AllSpace(s[k..]) && s[..|s| - 1][..k] == s[..k]
  {
    forall i | 0 <= i < |s| - 1 - k ensures IsSpace(s[k..][i]) {
      assert s[k..][i] == s[..|s| - 1][k..][i];
    }
  }

  /** `s.trim()`: `s` without white space at either end. */
  function Trim(s: string): (r: string)
    ensures Trimmed(r)
    ensures Padded(s, r)
  {
    var m := TrimStart(s);
    var r := TrimEnd(m);
    TrimShape(s, m, r);
    r
  }

  /** What the two halves of `trim` leave is trimmed, and padded within the original. */
  lemma TrimShape(s: string, m: string, r: string)
    requires |m| <= |s| && m == s[|s| - |m|..] && AllSpace(s[..|s| - |m|])
    requires |r| <= |m| && r == m[..|r|] && AllSpace(m[|r|..])
    requires m == [] || !IsSpace(m[0])
    requires r == [] || !IsSpace(r[|r| - 1])
    ensures Trimmed(r) && Padded(s, r)
  {
    var i := |s| - |m|;
    assert r == [] || r[0] == m[0];
    assert s[i..i + |r|] == r;
    assert s[i + |r|..] == m[|r|..];
  }

  /** Leading white space in front of a string that starts otherwise is exactly what `TrimStart` drops. */
  lemma {:induction false} TrimStartSkips(pre: string, x: string)
    requires AllSpace(pre) && (x == [] || !IsSpace(x[0]))
    ensures TrimStart(pre + x) == x
  {
    if pre != [] {
      assert (pre + x)[1..] == pre[1..] + x;
      TrimStartSkips(pre[1..], x);
    } else {
      assert pre + x == x;
    }
  }

  /** Trailing white space after a string that ends otherwise is exactly what `TrimEnd` drops. */
  lemma {:induction false} TrimEndSkips(x: string, post: string)
    requires AllSpace(post) && (x == [] || !IsSpace(x[|x| - 1]))
    ensures TrimEnd(x + post) == x
  {
    if post != [] {
      var n := |post| - 1;
      assert (x + post)[..|x + post| - 1] == x + post[..n];
      TrimEndSkips(x, post[..n]);
    } else {
      assert x + post == x;
    }
  }

  /**
   * `trim` is determined by what it promises: the one string without white
   * space at its ends that `s` holds between two runs of white space.
   */
  lemma TrimUnique(pre: string, r: string, post: string)
    requires AllSpace(pre) && AllSpace(post) && Trimmed(r)
    ensures Trim(pre + r + post) == r
  {
    if r == [] {
      assert pre + r + post == pre + post;
      TrimStartSkips(pre + post, []);
      assert pre + post + [] == pre + post;
    } else {
      assert pre + r + post == pre + (r + post);
      TrimStartSkips(pre, r + post);
      TrimEndSkips(r, post);
    }
  }

  /** A string without white space at its ends is left as it is by `trim`. */
  lemma TrimOfTrimmed(r: string)
    requires Trimmed(r)
    ensures Trim(r) == r
  {
    assert TrimStart(r) == r;
    assert TrimEnd(r) == r;
  }

  /** Trimming twice is trimming once. */
  lemma TrimIdempotent(s: string)
    ensures Trim(Trim(s)) == Trim(s)
  {
    TrimOfTrimmed(Trim(s));
  }

  // ------------------------------------------------------------------- split

  /** `parts.join(sep)`. */
  function Join(parts: seq<string>, sep: char): string
  {
    if |parts| == 0 then ""
    else if |parts| == 1 then parts[0]
    else parts[0] + [sep] + Join(parts[1..], sep)
  }

  /**
   * `s.split(sep)` for a one-character separator: the pieces between the
   * separators, never fewer than one; joining them back gives `s`.
   */
  function Split(s: string, sep: char): (parts: seq<string>)
    ensures |parts| >= 1
    ensures forall p :: p in parts ==> sep !in p
    ensures Join(parts, sep) == s
  {
    if s == [] then [""]
    else
      var rest := Split(s[1..], sep);
      if s[0] == sep then
        assert Join([""] + rest, sep) == "" + [sep] + Join(rest, sep);
        [""] + rest
      else
        var parts := [[s[0]] + rest[0]] + rest[1..];
        assert parts[1..] == rest[1..];
        assert Join(parts, sep) == [s[0]] + Join(rest, sep);
        parts
  }

  /** A string without the separator splits into itself alone. */
  lemma {:induction false} SplitNoSeparator(s: string, sep: char)
    requires sep !in s
    ensures Split(s, sep) == [s]
  {
    if s != [] {
      SplitNoSeparator(s[1..], sep);
      assert [s[0]] + s[1..] == s;
    }
  }

  /** A first piece followed by the separator splits off as the first part. */
  lemma {:induction false} SplitFirst(p: string, sep: char, rest: string)
    requires sep !in p
    ensures Split(p + [sep] + rest, sep) == [p] + Split(rest, sep)
  {
    var s := p + [sep] + rest;
    if p == [] {
      assert s[0] == sep && s[1..] == rest;
    } else {
      assert s[0] == p[0] && s[1..] == p[1..] + [sep] + rest;
      SplitFirst(p[1..], sep, rest);
      assert [p[0]] + p[1..] == p;
    }
  }

  /**
   * `split` is determined by what it promises: the only list of
   * separator-free pieces that joins back to `s`.
   */
  lemma {:induction false} SplitUnique(s: string, sep: char, parts: seq<string>)
    requires |parts| >= 1
    requires forall p :: p in parts ==> sep !in p
    requires Join(parts, sep) == s
    ensures Split(s, sep) == parts
    decreases |parts|
  {
    if |parts| == 1 {
      SplitNoSeparator(s, sep);
    } else {
      assert parts[0] in parts;
      forall p | p in parts[1..] ensures sep !in p {
        assert p in parts;
      }
      SplitUnique(Join(parts[1..], sep), sep, parts[1..]);
      SplitFirst(parts[0], sep, Join(parts[1..], sep));
      assert parts == [parts[0]] + parts[1..];
    }
  }

  // ----------------------------------------------------- replace(/\s+/g, ' ')

  /** Every white-space character is a plain space, and no two are adjacent. */
  ghost predicate SingleSpaced(r: string) {
    && (forall i :: 0 <= i < |r| && IsSpace(r[i]) ==> r[i] == ' ')
    && (forall i, j :: 0 <= i && j == i + 1 && j < |r| ==> !(IsSpace(r[i]) && IsSpace(r[j])))
  }

  predicate IsVisible(c: char) {
    !IsSpace(c)
  }

  /** The characters of `s` that are not white space, in order. */
  function Visible(s: string): string {
    Filter(s, IsVisible)
  }

  /** `s.replace(/\s+/g, ' ')`: each maximal run of white space becomes one space. */
  function CollapseSpaces(s: string): (r: string)
    ensures (r == []) == (s == [])
    ensures |s| > 0 ==> (IsSpace(s[0]) ==> r[0] == ' ') && (!IsSpace(s[0]) ==> r[0] == s[0])
    ensures SingleSpaced(r)
    decreases |s|
  {
    if s == [] then []
    else if IsSpace(s[0]) then
      var rest := CollapseSpaces(TrimStart(s[1..]));
      ConsSingleSpaced(' ', rest);
      [' '] + rest
    else
      var rest := CollapseSpaces(s[1..]);
      ConsSingleSpaced(s[0], rest);
      [s[0]] + rest
  }

  /** A character put in front of single-spaced text keeps it single-spaced, unless two spaces meet. */
  lemma ConsSingleSpaced(c: char, r: string)
    requires SingleSpaced(r)
    requires IsSpace(c) ==> c == ' ' && (r == [] || !IsSpace(r[0]))
    ensures SingleSpaced([c] + r)
  {
    var x := [c] + r;
    forall i | 0 <= i < |x| && IsSpace(x[i]) ensures x[i] == ' ' {
      if i > 0 {
        assert x[i] == r[i - 1];
      }
    }
    forall i, j | 0 <= i && j == i + 1 && j < |x| ensures !(IsSpace(x[i]) && IsSpace(x[j])) {
      assert x[j] == r[i];
      if i > 0 {
        assert x[i] == r[i - 1];
      }
    }
  }

  /**
   * Where the spaces go: a run of white space between two stretches that do
   * not border it with white space becomes exactly one space, and each side
   * collapses on its own.
   */
  lemma {:induction false} CollapseRun(a: string, w: string, b: string)
    requires a == [] || !IsSpace(a[|a| - 1])
    requires w != [] && AllSpace(w)
    requires b == [] || !IsSpace(b[0])
    ensures CollapseSpaces(a + w + b) == CollapseSpaces(a) + [' '] + CollapseSpaces(b)
    decreases |a|
  {
    var y := w + b;
    Regroup(a, w, b);
    var cb := CollapseSpaces(b);
    if a == [] {
      assert a + y == y;
      CollapseRunFirst(w, b);
      assert CollapseSpaces(a) == [];
      assert [] + [' '] + cb == [' '] + cb;
    } else {
      var h, t := CollapseStep(a, y);
      CollapseRun(t, w, b);
      Regroup(t, w, b);
      ConsRegroup(h, CollapseSpaces(t), [' '], cb);
    }
  }

  /**
   * One step of the collapse on text that ends visible: its first character
   * or first run becomes `h`, and the rest `t` also ends visible; what
   * follows the text does not change the step.
   */
  lemma CollapseStep(a: string, y: string) returns (h: char, t: string)
    requires a != [] && !IsSpace(a[|a| - 1])
    ensures |t| < |a| && (t == [] || !IsSpace(t[|t| - 1]))
    ensures CollapseSpaces(a + y) == [h] + CollapseSpaces(t + y)
    ensures CollapseSpaces(a) == [h] + CollapseSpaces(t)
  {
    if IsSpace(a[0]) {
      t := LeadingRunLeaves(a);
      h := ' ';
      CollapseRunAfterSpace(a, t, y);
    } else {
      t := a[1..];
      h := a[0];
      if t != [] {
        assert t[|t| - 1] == a[|a| - 1];
      }
      CollapseRunAfterVisible(a, y);
    }
  }

  /** Text that starts with white space and ends visible keeps something after its first run. */
  lemma LeadingRunLeaves(a: string) returns (t: string)
    requires a != [] && IsSpace(a[0]) && !IsSpace(a[|a| - 1])
    ensures t == TrimStart(a[1..]) && t != [] && !IsSpace(t[|t| - 1]) && |t| < |a|
  {
    t := TrimStart(a[1..]);
    assert a[1..][|a| - 2] == a[|a| - 1];
    assert a[1..][..|a| - 1] == a[1..];
    assert t[|t| - 1] == a[|a| - 1];
  }

  /** A run of white space in front of text that starts visible becomes one space. */
  lemma CollapseRunFirst(w: string, b: string)
    requires w != [] && AllSpace(w)
    requires b == [] || !IsSpace(b[0])
    ensures CollapseSpaces(w + b) == [' '] + CollapseSpaces(b)
  {
    assert (w + b)[0] == w[0];
    assert (w + b)[1..] == w[1..] + b;
    TrimStartSkips(w[1..], b);
  }

  /** Text starting with white space: its first run and what follows the run collapse apart. */
  lemma CollapseRunAfterSpace(a: string, t: string, y: string)
    requires a != [] && IsSpace(a[0]) && t == TrimStart(a[1..]) && t != []
    ensures CollapseSpaces(a + y) == [' '] + CollapseSpaces(t + y)
    ensures CollapseSpaces(a) == [' '] + CollapseSpaces(t)
  {
    var u := (a + y)[1..];
    assert (a + y)[0] == a[0];
    assert u == a[1..] + y;
    TrimStartAppend(a[1..], y);
    CollapseSpaceHead(a + y, t + y);
    CollapseSpaceHead(a, t);
  }

  /** Text starting with white space collapses to one space and the collapse of what follows the run. */
  lemma CollapseSpaceHead(s: string, t: string)
    requires s != [] && IsSpace(s[0]) && t == TrimStart(s[1..])
    ensures CollapseSpaces(s) == [' '] + CollapseSpaces(t)
  {
  }

  /** Text starting with a visible character keeps it in front of its collapsed rest. */
  lemma CollapseRunAfterVisible(a: string, y: string)
    requires a != [] && !IsSpace(a[0])
    ensures CollapseSpaces(a + y) == [a[0]] + CollapseSpaces(a[1..] + y)
    ensures CollapseSpaces(a) == [a[0]] + CollapseSpaces(a[1..])
  {
    assert (a + y)[0] == a[0];
    assert (a + y)[1..] == a[1..] + y;
  }

  /** What `TrimStart` leaves of a string with something visible is unchanged by what follows. */
  lemma {:induction false} TrimStartAppend(x: string, y: string)
    requires TrimStart(x) != []
    ensures TrimStart(x + y) == TrimStart(x) + y
    decreases |x|
  {
    assert (x + y)[0] == x[0];
    if IsSpace(x[0]) {
      assert (x + y)[1..] == x[1..] + y;
      TrimStartAppend(x[1..], y);
    }
  }

  /** The collapsed text ends in a space exactly when the text ends in white space, else in its last character. */
  lemma {:induction false} CollapseLast(s: string)
    requires s != []
    ensures CollapseSpaces(s) != []
    ensures var r := CollapseSpaces(s); r[|r| - 1] == if IsSpace(s[|s| - 1]) then ' ' else s[|s| - 1]
    decreases |s|
  {
    if IsSpace(s[0]) {
      var t := TrimStart(s[1..]);
      if t != [] {
        assert t[|t| - 1] == s[|s| - 1];
        CollapseLast(t);
      } else if |s| > 1 {
        assert s[|s| - 1] == s[1..][..|s| - 1][|s| - 2];
      }
    } else if |s| > 1 {
      assert s[1..][|s| - 2] == s[|s| - 1];
      CollapseLast(s[1..]);
    }
  }

  /** Text without white space is left as it is. */
  lemma {:induction false} CollapseNoSpace(s: string)
    requires forall i :: 0 <= i < |s| ==> !IsSpace(s[i])
    ensures CollapseSpaces(s) == s
    decreases |s|
  {
    if s != [] {
      assert !IsSpace(s[0]);
      forall i | 0 <= i < |s| - 1 ensures !IsSpace(s[1..][i]) {
        assert s[1..][i] == s[i + 1];
      }
      CollapseNoSpace(s[1..]);
    }
  }

  /** Collapsing text without white space at its ends leaves none there either. */
  lemma CollapseTrimmed(a: string)
    requires a != [] && Trimmed(a)
    ensures CollapseSpaces(a) != [] && Trimmed(CollapseSpaces(a))
  {
    CollapseLast(a);
  }

  /** Runs of white space around text become at most one space on each side. */
  lemma CollapseAround(pre: string, m: string, post: string)
    requires AllSpace(pre) && AllSpace(post) && m != [] && Trimmed(m)
    ensures CollapseSpaces(pre + m + post)
         == (if pre == [] then [] else [' ']) + CollapseSpaces(m) + (if post == [] then [] else [' '])
  {
    var lead: string := if pre == [] then [] else [' '];
    var trail: string := if post == [] then [] else [' '];
    var mp := m + post;
    CollapseTrailing(m, post);
    CollapseLeading(pre, mp);
    Regroup(pre, m, post);
    Regroup(lead, CollapseSpaces(m), trail);
  }

  /** A run of white space after text that ends visible becomes one space. */
  lemma CollapseTrailing(m: string, post: string)
    requires AllSpace(post) && m != [] && !IsSpace(m[|m| - 1])
    ensures CollapseSpaces(m + post) == CollapseSpaces(m) + (if post == [] then [] else [' '])
  {
    if post == [] {
      assert m + post == m;
      assert CollapseSpaces(m) + [] == CollapseSpaces(m);
    } else {
      CollapseRun(m, post, []);
      assert m + post + [] == m + post;
      assert CollapseSpaces([]) == [];
      assert CollapseSpaces(m) + [' '] + [] == CollapseSpaces(m) + [' '];
    }
  }

  /** A run of white space before text that starts visible becomes one space. */
  lemma CollapseLeading(pre: string, x: string)
    requires AllSpace(pre) && x != [] && !IsSpace(x[0])
    ensures CollapseSpaces(pre + x) == (if pre == [] then [] else [' ']) + CollapseSpaces(x)
  {
    if pre == [] {
      assert pre + x == x;
      assert [] + CollapseSpaces(x) == CollapseSpaces(x);
    } else {
      CollapseRunFirst(pre, x);
    }
  }

  /** Collapsing white space keeps every other character, in order. */
  lemma {:induction false} CollapseKeepsVisible(s: string)
    ensures Visible(CollapseSpaces(s)) == Visible(s)
    decreases |s|, 1
  {
    if s != [] {
      if IsSpace(s[0]) {
        CollapseSpaceRun(s);
      } else {
        CollapseVisibleChar(s);
      }
    }
  }

  /** A leading run of white space becomes one space, which is not visible either. */
  lemma {:induction false} CollapseSpaceRun(s: string)
    requires s != [] && IsSpace(s[0])
    ensures Visible(CollapseSpaces(s)) == Visible(s)
    decreases |s|, 0
  {
    var t := TrimStart(s[1..]);
    VisibleSkipsRun(s, t);
    var c := CollapseSpaces(t);
    CollapseKeepsVisible(t);
    assert CollapseSpaces(s) == [' '] + c;
    FilterAppend([' '], c, IsVisible);
    FilterDropsOne(' ', IsVisible);
    assert Visible(CollapseSpaces(s)) == [] + Visible(c);
  }

  /** A leading run of white space holds nothing visible. */
  lemma VisibleSkipsRun(s: string, t: string)
    requires s != [] && IsSpace(s[0]) && |t| < |s|
    requires t == s[1..][|s| - 1 - |t|..] && AllSpace(s[1..][..|s| - 1 - |t|])
    ensures Visible(s) == Visible(t)
  {
    var w := s[..|s| - |t|];
    SpaceRunCons(s, t);
    TwoParts(s, |w|);
    assert s == w + t;
    FilterAppend(w, t, IsVisible);
    SpacesInvisible(w);
    assert Visible(s) == [] + Visible(t);
  }

  /** A leading visible character is kept as it is. */
  lemma {:induction false} CollapseVisibleChar(s: string)
    requires s != [] && !IsSpace(s[0])
    ensures Visible(CollapseSpaces(s)) == Visible(s)
    decreases |s|, 0
  {
    assert CollapseSpaces(s) == [s[0]] + CollapseSpaces(s[1..]);
    CollapseKeepsVisible(s[1..]);
    assert s == [s[0]] + s[1..];
    FilterAppend([s[0]], s[1..], IsVisible);
    FilterAppend([s[0]], CollapseSpaces(s[1..]), IsVisible);
  }

  /** White space has nothing visible in it. */
  lemma {:induction false} SpacesInvisible(s: string)
    requires AllSpace(s)
    ensures Visible(s) == []
  {
    if s != [] {
      SpacesInvisible(s[1..]);
    }
  }

  /** Infixes of single-spaced text are single-spaced. */
  lemma InfixSingleSpaced(x: string, i: nat, n: nat)
    requires SingleSpaced(x) && i + n <= |x|
    ensures SingleSpaced(x[i..i + n])
  {
    var r := x[i..i + n];
    forall k, l | 0 <= k && l == k + 1 && l < |r| ensures !(IsSpace(r[k]) && IsSpace(r[l])) {
      assert r[k] == x[i + k] && r[l] == x[i + l];
    }
  }

  /** The white space on each side of what `trim` leaves. */
  lemma PaddedParts(x: string, r: string) returns (pre: string, post: string)
    requires Padded(x, r)
    ensures x == pre + r + post && AllSpace(pre) && AllSpace(post)
  {
    var i :| 0 <= i && i + |r| <= |x| && x[i..i + |r|] == r && AllSpace(x[..i]) && AllSpace(x[i + |r|..]);
    pre, post := x[..i], x[i + |r|..];
    ThreeParts(x, i, i + |r|);
  }

  /** White space cut from the ends of single-spaced text leaves it single-spaced. */
  lemma PaddedSingleSpaced(x: string, r: string)
    requires SingleSpaced(x) && Padded(x, r)
    ensures SingleSpaced(r)
  {
    var pre, post := PaddedParts(x, r);
    assert x[|pre|..|pre| + |r|] == r;
    InfixSingleSpaced(x, |pre|, |r|);
  }

  /** A character missing from a string is missing from what `trim` leaves of it. */
  lemma PaddedOmits(s: string, r: string, ch: char)
    requires Padded(s, r) && ch !in s
    ensures ch !in r
  {
    var pre, post := PaddedParts(s, r);
    forall k | 0 <= k < |r| ensures r[k] != ch {
      assert r[k] == s[|pre| + k];
    }
  }

  /** White space cut from the ends of a string removes nothing visible. */
  lemma PaddedVisible(x: string, r: string)
    requires Padded(x, r)
    ensures Visible(r) == Visible(x)
  {
    var pre, post := PaddedParts(x, r);
    FilterAppend(pre + r, post, IsVisible);
    FilterAppend(pre, r, IsVisible);
    SpacesInvisible(pre);
    SpacesInvisible(post);
    assert Visible(x) == [] + Visible(r) + [];
  }
}
