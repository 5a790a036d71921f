/**
 * The fixed regular expression of the base-href patcher,
 *
 *     /<base\s+href="\/"\s*\/?>/i
 *
 * as a deterministic automaton. A word matches when it is, in order:
 * `<base` (letters in any ASCII case), one or more whitespace characters,
 * `href="/"` (letters in any ASCII case), zero or more whitespace
 * characters, an optional `/`, and `>`.
 *
 * `Shape` states that reading declaratively, `IsMatch` is acceptance by the
 * automaton, and `MatchIffShape` proves the two agree. `LeadingMatch` is the
 * matcher run at one position of a text; since the automaton accepts no
 * proper extension of an accepted word, a match starting at a given
 * position has exactly one length, which is the length a backtracking
 * engine with greedy `\s+` and `\s*` reports.
 */
module Pattern {

  datatype Option<T> = None | Some(value: T)

  /** ECMAScript `\s`: the WhiteSpace and LineTerminator code points. */
  predicate IsSpace(c: char) {
    || c == '\t' || c == '\n' || c == '\U{000B}' || c == '\U{000C}' || c == '\r'
    || c == ' ' || c == '\U{00A0}' || c == '\U{1680}'
    || ('\U{2000}' <= c <= '\U{200A}')
    || c == '\U{2028}' || c == '\U{2029}' || c == '\U{202F}' || c == '\U{205F}'
    || c == '\U{3000}' || c == '\U{FEFF}'
  }

  predicate AllSpace(w: seq<char>) {
    forall k :: 0 <= k < |w| ==> IsSpace(w[k])
  }

  /**
   * `c` matches the pattern character `k` under the `i` flag without the
   * `u` flag: an ASCII lower-case letter also matches its upper-case form,
   * every other character only itself, and nothing outside ASCII is folded
   * onto an ASCII letter.
   */
  predicate CiChar(c: char, k: char) {
    c == k || ('a' <= k <= 'z' && c as int == k as int - 32)
  }

  /** `w` matches the lower-case literal `kw` case-insensitively. */
  predicate CiEq(w: seq<char>, kw: seq<char>) {
    |w| == |kw| && forall n :: 0 <= n < |w| ==> CiChar(w[n], kw[n])
  }

  /** The two literal parts of the pattern, with the escaped `\/` written as `/`. */
  const Base: seq<char> := "<base"
  const Href: seq<char> := "href=\"/\""

  /**
   * States of the automaton:
   *   0 .. 4   the first `q` characters of `<base` read
   *   5        `<base` read; `\s+` needs its first character
   *   6        inside `\s+`
   *   7 .. 13  the first `q - 6` characters of `href="/"` read
   *   14       `href="/"` read; inside `\s*`
   *   15       the optional `/` read
   *   Accept   the closing `>` read
   *   Dead     the word cannot be extended to a match
   */
  const Accept: nat := 16
  const Dead: nat := 17

  /** The fewest characters that lead from state `q` to `Accept`. */
  function Dist(q: nat): nat {
    if q < 5 then 15 - q
    else if q == 5 then 10
    else if q == 6 then 9
    else if q <= 14 then 15 - q
    else if q == 15 then 1
    else 0
  }

  /** One transition of the automaton. */
  function Step(q: nat, c: char): (r: nat)
    ensures 1 <= r <= Dead
    ensures q >= Accept ==> r == Dead
    ensures r == Accept ==> c == '>'
    ensures q >= 1 && c == '<' ==> r == Dead
    ensures r != Dead ==> Dist(q) <= Dist(r) + 1
  {
    if q < 5 then (if CiChar(c, Base[q]) then q + 1 else Dead)
    else if q == 5 then (if IsSpace(c) then 6 else Dead)
    else if q == 6 then (if IsSpace(c) then 6 else if CiChar(c, 'h') then 7 else Dead)
    else if q < 14 then (if CiChar(c, Href[q - 6]) then q + 1 else Dead)
    else if q == 14 then (if IsSpace(c) then 14 else if c == '/' then 15 else if c == '>' then Accept else Dead)
    else if q == 15 then (if c == '>' then Accept else Dead)
    else Dead
  }

  /** The state reached from `q` by reading `w`. */
  function Run(q: nat, w: seq<char>): nat
    decreases |w|
  {
    if |w| == 0 then q else Run(Step(q, w[0]), w[1..])
  }

  /** `w` is, as a whole, a match of the pattern. */
  predicate IsMatch(w: seq<char>) {
    Run(0, w) == Accept
  }

  /**
   * The declarative reading of the pattern: `w` is a whole match whose
   * `\s+` run has length `k1` and whose `\s*` run has length `k2`; the word
   * is one character longer when it carries the optional `/`.
   */
  ghost predicate Shape(w: seq<char>, k1: nat, k2: nat) {
    && k1 >= 1
    && 14 + k1 + k2 <= |w| <= 15 + k1 + k2
    && CiEq(w[..5], Base)
    && AllSpace(w[5..5 + k1])
    && CiEq(w[5 + k1..13 + k1], Href)
    && AllSpace(w[13 + k1..13 + k1 + k2])
    && (|w| == 15 + k1 + k2 ==> w[13 + k1 + k2] == '/')
    && w[|w| - 1] == '>'
  }

  lemma {:induction false} RunAppend(q: nat, a: seq<char>, b: seq<char>)
    ensures Run(q, a + b) == Run(Run(q, a), b)
    decreases |a|
  {
    if a == [] {
      assert a + b == b;
    } else {
      assert (a + b)[0] == a[0];
      assert (a + b)[1..] == a[1..] + b;
      RunAppend(Step(q, a[0]), a[1..], b);
    }
  }

  /** No word leads out of `Dead`. */
  lemma {:induction false} RunDead(w: seq<char>)
    ensures Run(Dead, w) == Dead
    decreases |w|
  {
    if w != [] {
      RunDead(w[1..]);
    }
  }

  /** No proper extension of a match is a match. */
  lemma RunAcceptEnds(w: seq<char>)
    ensures Run(Accept, w) == Accept <==> w == []
  {
    if w != [] {
      RunDead(w[1..]);
    }
  }

  lemma RunSplitAt(q: nat, w: seq<char>, a: nat, b: nat)
    requires a <= b <= |w|
    ensures Run(q, w[a..]) == Run(Run(q, w[a..b]), w[b..])
  {
    assert w[a..] == w[a..b] + w[b..];
    RunAppend(q, w[a..b], w[b..]);
  }

  lemma RunStepAt(q: nat, w: seq<char>, a: nat)
    requires a < |w|
    ensures Run(q, w[a..]) == Run(Step(q, w[a]), w[a + 1..])
  {
    assert w[a..][1..] == w[a + 1..];
  }

  /** A word that leads to `Accept` is at least as long as the distance. */
  lemma {:induction false} RunMinLength(q: nat, w: seq<char>)
    requires Run(q, w) == Accept
    ensures |w| >= Dist(q)
    decreases |w|
  {
    if w != [] {
      RunDead(w[1..]);
      RunMinLength(Step(q, w[0]), w[1..]);
    }
  }

  /** After the first character, a word that leads to `Accept` holds no `<`. */
  lemma {:induction false} RunNoLt(q: nat, w: seq<char>)
    requires q >= 1 && Run(q, w) == Accept
    ensures forall k :: 0 <= k < |w| ==> w[k] != '<'
    decreases |w|
  {
    if w != [] {
      RunDead(w[1..]);
      RunNoLt(Step(q, w[0]), w[1..]);
      assert forall k :: 1 <= k < |w| ==> w[k] == w[1..][k - 1];
    }
  }

  /** A word that leads to `Accept` from another state ends with `>`. */
  lemma {:induction false} RunEndsWithGt(q: nat, w: seq<char>)
    requires q != Accept && Run(q, w) == Accept
    ensures |w| >= 1 && w[|w| - 1] == '>'
    decreases |w|
  {
    if |w| == 1 {
      assert w[1..] == [];
    } else {
      RunAcceptEnds(w[1..]);
      RunEndsWithGt(Step(q, w[0]), w[1..]);
      assert w[|w| - 1] == w[1..][|w| - 2];
    }
  }

  lemma CiEqCons(w: seq<char>, kw: seq<char>)
    requires |w| >= 1 && |kw| >= 1
    ensures CiEq(w, kw) <==> CiChar(w[0], kw[0]) && CiEq(w[1..], kw[1..])
  {
    if CiChar(w[0], kw[0]) && CiEq(w[1..], kw[1..]) {
      forall n | 1 <= n < |w|
        ensures CiChar(w[n], kw[n])
      {
        assert w[1..][n - 1] == w[n];
      }
    }
  }

  /** Reading the rest of `<base` from state `q <= 5`. */
  lemma {:induction false} RunBase(q: nat, u: seq<char>)
    requires q <= 5 && |u| == 5 - q
    ensures Run(q, u) == if CiEq(u, Base[q..]) then 5 else Dead
    decreases |u|
  {
    if u != [] {
      assert Base[q..][0] == Base[q] && Base[q..][1..] == Base[q + 1..];
      CiEqCons(u, Base[q..]);
      if CiChar(u[0], Base[q]) {
        RunBase(q + 1, u[1..]);
      } else {
        RunDead(u[1..]);
      }
    }
  }

  /** Reading the rest of `href="/"` from state `7 <= q <= 14`. */
  lemma {:induction false} RunHref(q: nat, u: seq<char>)
    requires 7 <= q <= 14 && |u| == 14 - q
    ensures Run(q, u) == if CiEq(u, Href[q - 6..]) then 14 else Dead
    decreases |u|
  {
    if u != [] {
      assert Href[q - 6..][0] == Href[q - 6] && Href[q - 6..][1..] == Href[q - 5..];
      CiEqCons(u, Href[q - 6..]);
      if CiChar(u[0], Href[q - 6]) {
        RunHref(q + 1, u[1..]);
      } else {
        RunDead(u[1..]);
      }
    }
  }

  /** Whitespace keeps the automaton inside `\s+` or `\s*`. */
  lemma {:induction false} RunSpaces(q: nat, u: seq<char>)
    requires q == 6 || q == 14
    requires AllSpace(u)
    ensures Run(q, u) == q
    decreases |u|
  {
    if u != [] {
      assert AllSpace(u[1..]) by {
        assert forall k :: 0 <= k < |u| - 1 ==> u[1..][k] == u[k + 1];
      }
      RunSpaces(q, u[1..]);
    }
  }

  /** `<base` and a first whitespace lead from the start state into `\s+`. */
  lemma ShapeHead(w: seq<char>)
    requires |w| >= 6 && CiEq(w[..5], Base) && IsSpace(w[5])
    ensures Run(0, w) == Run(6, w[6..])
  {
    assert w[0..] == w && w[0..5] == w[..5] && Base[0..] == Base;
    RunSplitAt(0, w, 0, 5);
    RunBase(0, w[0..5]);
    RunStepAt(5, w, 5);
  }

  /** A whitespace run from `a` to `e` leaves the automaton inside `\s+` or `\s*`. */
  lemma SpacesAt(w: seq<char>, q: nat, a: nat, e: nat)
    requires q == 6 || q == 14
    requires a <= e <= |w| && AllSpace(w[a..e])
    ensures Run(q, w[a..]) == Run(q, w[e..])
  {
    RunSplitAt(q, w, a, e);
    RunSpaces(q, w[a..e]);
  }

  /** After `\s+`, a non-whitespace character must begin `href="/"`. */
  lemma HrefAt(w: seq<char>, e: nat)
    requires e + 8 <= |w| && !IsSpace(w[e])
    ensures Run(6, w[e..]) == if CiEq(w[e..e + 8], Href) then Run(14, w[e + 8..]) else Dead
  {
    CiEqCons(w[e..e + 8], Href);
    assert w[e..e + 8][1..] == w[e + 1..e + 8] && Href[1..] == Href[7 - 6..];
    RunStepAt(6, w, e);
    if CiChar(w[e], 'h') {
      RunSplitAt(7, w, e + 1, e + 8);
      RunHref(7, w[e + 1..e + 8]);
      RunDead(w[e + 8..]);
    } else {
      RunDead(w[e + 1..]);
    }
  }

  /** Whitespace from `c` to `b` and then `>` or `/>` at the end lead from `\s*` to `Accept`. */
  lemma ShapeTail(w: seq<char>, c: nat, b: nat)
    requires c <= b < |w| && AllSpace(w[c..b])
    requires (|w| == b + 1 && w[b] == '>') || (|w| == b + 2 && w[b] == '/' && w[b + 1] == '>')
    ensures Run(14, w[c..]) == Accept
  {
    SpacesAt(w, 14, c, b);
    RunStepAt(14, w, b);
    if |w| == b + 2 {
      RunStepAt(15, w, b + 1);
    }
    assert w[|w|..] == [];
  }

  /** Every word of the declarative shape is accepted. */
  lemma ShapeIsMatch(w: seq<char>, k1: nat, k2: nat)
    requires Shape(w, k1, k2)
    ensures IsMatch(w)
  {
    var e := 5 + k1;
    var b := 13 + k1 + k2;
    assert IsSpace(w[5..e][0]);
    ShapeHead(w);
    assert AllSpace(w[6..e]) by {
      assert forall k :: 0 <= k < e - 6 ==> w[6..e][k] == w[5..e][k + 1];
    }
    SpacesAt(w, 6, 6, e);
    assert CiChar(w[5 + k1..13 + k1][0], 'h');
    HrefAt(w, e);
    ShapeTail(w, e + 8, b);
  }

  /** The part of a match up to its `\s+` run: `<base` and a first whitespace. */
  lemma MatchHead(w: seq<char>)
    requires IsMatch(w)
    ensures |w| >= 15 && CiEq(w[..5], Base) && IsSpace(w[5])
    ensures Run(6, w[6..]) == Accept
  {
    RunMinLength(0, w);
    assert w[0..] == w && w[0..5] == w[..5] && Base[0..] == Base;
    RunSplitAt(0, w, 0, 5);
    RunDead(w[5..]);
    RunBase(0, w[0..5]);
    RunStepAt(5, w, 5);
    RunDead(w[6..]);
  }

  /** From inside `\s+` at `a`: the whitespace run ends at `e` and `href="/"` follows. */
  lemma MatchMiddle(w: seq<char>, a: nat) returns (e: nat)
    requires a <= |w| && Run(6, w[a..]) == Accept
    ensures a <= e && e + 9 <= |w| && AllSpace(w[a..e])
    ensures CiEq(w[e..e + 8], Href) && Run(14, w[e + 8..]) == Accept
  {
    e := SpaceEnd(w, a);
    SpacesAt(w, 6, a, e);
    RunMinLength(6, w[e..]);
    HrefAt(w, e);
  }

  /** From inside `\s*` at `c`: the whitespace run ends at `b`, then `>` or `/>` ends the word. */
  lemma MatchTail(w: seq<char>, c: nat) returns (b: nat)
    requires c <= |w| && Run(14, w[c..]) == Accept
    ensures c <= b <= |w| && AllSpace(w[c..b])
    ensures |w| == b + 1 || (|w| == b + 2 && w[b] == '/')
    ensures w[|w| - 1] == '>'
  {
    b := SpaceEnd(w, c);
    SpacesAt(w, 14, c, b);
    RunMinLength(14, w[b..]);
    RunStepAt(14, w, b);
    RunDead(w[b + 1..]);
    if w[b] == '>' {
      RunAcceptEnds(w[b + 1..]);
    } else {
      RunMinLength(15, w[b + 1..]);
      RunStepAt(15, w, b + 1);
      RunDead(w[b + 2..]);
      RunAcceptEnds(w[b + 2..]);
    }
  }

  /** Every accepted word has the declarative shape. */
  lemma MatchIsShape(w: seq<char>)
    requires IsMatch(w)
    ensures exists k1: nat, k2: nat :: Shape(w, k1, k2)
  {
    MatchHead(w);
    var e := MatchMiddle(w, 6);
    var b := MatchTail(w, e + 8);
    assert AllSpace(w[5..e]) by {
      assert forall k :: 1 <= k < e - 5 ==> w[5..e][k] == w[6..e][k - 1];
    }
    assert Shape(w, e - 5, b - e - 8);
  }

  /** The automaton accepts exactly the words of the declarative shape. */
  lemma MatchIffShape(w: seq<char>)
    ensures IsMatch(w) <==> exists k1: nat, k2: nat :: Shape(w, k1, k2)
  {
    if IsMatch(w) {
      MatchIsShape(w);
    }
    forall k1: nat, k2: nat | Shape(w, k1, k2)
      ensures IsMatch(w)
    {
      ShapeIsMatch(w, k1, k2);
    }
  }

  /** The end of the longest run of whitespace in `t` that starts at `j`. */
  function SpaceEnd(t: seq<char>, j: nat): (p: nat)
    requires j <= |t|
    ensures j <= p <= |t|
    ensures AllSpace(t[j..p])
    ensures p < |t| ==> !IsSpace(t[p])
    decreases |t| - j
  {
    if j < |t| && IsSpace(t[j]) then SpaceEnd(t, j + 1) else j
  }

  /** A whitespace run followed by a non-whitespace character ends there. */
  lemma {:induction false} SpaceEndExact(t: seq<char>, j: nat, p: nat)
    requires j <= p <= |t|
    requires AllSpace(t[j..p])
    requires p < |t| ==> !IsSpace(t[p])
    ensures SpaceEnd(t, j) == p
    decreases p - j
  {
    if j < p {
      assert t[j..p][0] == t[j];
      SpaceEndExact(t, j + 1, p);
    }
  }

  /**
   * The automaton run over `t` from position `n` in state `q`, stopping at
   * the first `Accept`: the end of the match, or None once no match is
   * possible.
   */
  function Scan(t: seq<char>, q: nat, n: nat): (r: Option<nat>)
    requires n <= |t|
    ensures r.Some? ==> n <= r.value <= |t| && Run(q, t[n..r.value]) == Accept
    decreases |t| - n
  {
    if q == Accept then Some(n)
    else if q == Dead || n == |t| then None
    else
      var r := Scan(t, Step(q, t[n]), n + 1);
      assert r.Some? ==> t[n..r.value][0] == t[n] && t[n..r.value][1..] == t[n + 1..r.value];
      r
  }

  lemma {:induction false} ScanComplete(t: seq<char>, q: nat, n: nat, l: nat)
    requires n <= l <= |t| && Run(q, t[n..l]) == Accept
    ensures Scan(t, q, n) == Some(l)
    decreases l - n
  {
    if q == Accept {
      RunAcceptEnds(t[n..l]);
    } else {
      RunDead(t[n..l]);
      RunMinLength(q, t[n..l]);
      assert t[n..l][0] == t[n] && t[n..l][1..] == t[n + 1..l];
      ScanComplete(t, Step(q, t[n]), n + 1, l);
    }
  }

  /** The matcher at the start of `t`: the length of the match there, if any. */
  function LeadingMatch(t: seq<char>): (r: Option<nat>)
    ensures r.Some? ==> r.value <= |t| && IsMatch(t[..r.value])
  {
    var r := Scan(t, 0, 0);
    assert r.Some? ==> t[0..r.value] == t[..r.value];
    r
  }

  /** Every match at the start of `t` is the one the matcher reports. */
  lemma LeadingMatchComplete(t: seq<char>, l: nat)
    requires l <= |t| && IsMatch(t[..l])
    ensures LeadingMatch(t) == Some(l)
  {
    assert t[0..l] == t[..l];
    ScanComplete(t, 0, 0, l);
  }

  /** A prefix matches exactly when the matcher reports its length. */
  lemma LeadingMatchIff(t: seq<char>, l: nat)
    requires l <= |t|
    ensures IsMatch(t[..l]) <==> LeadingMatch(t) == Some(l)
  {
    if IsMatch(t[..l]) {
      LeadingMatchComplete(t, l);
    }
  }

  /**
   * A match is at least 15 characters long (the shortest is `<base href="/">`),
   * starts with `<`, ends with `>`, and holds no other `<`.
   */
  lemma MatchShape(w: seq<char>)
    ensures IsMatch(w) ==> 15 <= |w| && w[0] == '<' && w[|w| - 1] == '>'
    ensures IsMatch(w) ==> forall k :: 0 < k < |w| ==> w[k] != '<'
  {
    if IsMatch(w) {
      RunMinLength(0, w);
      RunEndsWithGt(0, w);
      RunDead(w[1..]);
      RunNoLt(Step(0, w[0]), w[1..]);
      assert forall k :: 0 < k < |w| ==> w[k] == w[1..][k - 1];
    }
  }

  lemma PrefixSlice(t: seq<char>, l: nat, a: nat, b: nat)
    requires a <= b <= l <= |t|
    ensures t[..l][a..b] == t[a..b]
  {
  }

  /** A match at the start of `t` fixes where its `\s+` run ends in `t`. */
  lemma LeadingShape(t: seq<char>, l: nat, k1: nat, k2: nat)
    requires l <= |t| && Shape(t[..l], k1, k2)
    ensures SpaceEnd(t, 5) == 5 + k1 && CiEq(t[5 + k1..13 + k1], Href)
  {
    PrefixSlice(t, l, 5, 5 + k1);
    PrefixSlice(t, l, 5 + k1, 13 + k1);
    assert CiChar(t[5 + k1..13 + k1][0], 'h');
    SpaceEndExact(t, 5, 5 + k1);
  }

  /** The letters of `href` may be in any case, but the value must be `"/"` exactly. */
  lemma HrefValue(h: seq<char>, v: seq<char>)
    requires CiEq(h, Href) && |v| == 3 && h[4..] == "=" + v
    ensures v == "\"/\""
  {
    assert CiChar(h[5], Href[5]) && CiChar(h[6], Href[6]) && CiChar(h[7], Href[7]);
    assert v[0] == h[4..][1] && v[1] == h[4..][2] && v[2] == h[4..][3];
  }

  lemma TagParts(t: seq<char>, kb: seq<char>, ws: seq<char>, kh: seq<char>, v: seq<char>)
    requires |kb| == 5 && |kh| == 4 && |v| == 3
    requires |t| >= 13 + |ws| && t[..13 + |ws|] == kb + ws + kh + "=" + v
    ensures t[5..5 + |ws|] == ws && t[5 + |ws|] == kh[0]
    ensures t[5 + |ws|..13 + |ws|][4..] == "=" + v
  {
    var a := 5 + |ws|;
    assert t[5..a] == t[..13 + |ws|][5..a];
    assert t[a..a + 8] == t[..13 + |ws|][a..a + 8];
  }

  /**
   * The matcher finds nothing at the start of a tag that has the keywords
   * and the whitespace of a match but whose three characters after `=`
   * are not `"/"` — for instance `href="./"`, `href='/'` or `href="/x"`.
   */
  lemma WrongValueNotMatched(t: seq<char>, kb: seq<char>, ws: seq<char>, kh: seq<char>, v: seq<char>)
    requires CiEq(kb, Base) && CiEq(kh, "href")
    requires |ws| >= 1 && AllSpace(ws)
    requires |v| == 3
    requires |t| >= 13 + |ws| && t[..13 + |ws|] == kb + ws + kh + "=" + v
    ensures v != "\"/\"" ==> LeadingMatch(t) == None
  {
    if LeadingMatch(t).Some? {
      var l := LeadingMatch(t).value;
      MatchIsShape(t[..l]);
      var k1: nat, k2: nat :| Shape(t[..l], k1, k2);
      LeadingShape(t, l, k1, k2);
      var a := 5 + |ws|;
      TagParts(t, kb, ws, kh, v);
      SpaceEndExact(t, 5, a);
      HrefValue(t[a..a + 8], v);
    }
  }

  /**
   * Every spelling the pattern admits matches: any ASCII case of the two
   * keywords, any non-empty whitespace before `href`, any whitespace
   * before the end, with or without the self-closing slash.
   */
  lemma TagMatches(kb: seq<char>, ws1: seq<char>, kh: seq<char>, ws2: seq<char>, slash: seq<char>)
    requires CiEq(kb, Base) && CiEq(kh, "href")
    requires |ws1| >= 1 && AllSpace(ws1) && AllSpace(ws2)
    requires slash == "" || slash == "/"
    ensures IsMatch(kb + ws1 + kh + "=\"/\"" + ws2 + slash + ">")
  {
    var h := kh + "=\"/\"";
    assert CiEq(h, Href) by {
      assert forall n :: 4 <= n < 8 ==> h[n] == Href[n];
    }
    var w := kb + ws1 + h + ws2 + slash + ">";
    assert w == kb + ws1 + kh + "=\"/\"" + ws2 + slash + ">";
    var k1, k2 := |ws1|, |ws2|;
    assert w[..5] == kb;
    assert w[5..5 + k1] == ws1;
    assert w[5 + k1..13 + k1] == h;
    assert w[13 + k1..13 + k1 + k2] == ws2;
    ShapeIsMatch(w, k1, k2);
  }
}
