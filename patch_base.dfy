/**
 * The build-time base-href rewrite: `html.replace(pattern, '<base href="./">')`
 * with the pattern of module Pattern. The regular expression has no `g`
 * flag, so only the leftmost match is replaced; when there is none the text
 * is returned unchanged. The HTML text is a sequence of characters; reading
 * and writing the file are not part of the model.
 */
module PatchBase {
  import opened Pattern

  /** A match of the pattern: where it starts in the text and how long it is. */
  datatype Found = Found(start: nat, len: nat)

  /** The pattern matches the `l` characters of `s` that start at `i`. */
  ghost predicate MatchAt(s: seq<char>, i: nat, l: nat) {
    i + l <= |s| && IsMatch(s[i..i + l])
  }

  ghost predicate HasMatch(s: seq<char>) {
    exists i: nat, l: nat :: MatchAt(s, i, l)
  }

  /** The match at `i` is the one a search from the start of `s` finds first. */
  ghost predicate Leftmost(s: seq<char>, i: nat, l: nat) {
    MatchAt(s, i, l) && forall j: nat, m: nat :: j < i ==> !MatchAt(s, j, m)
  }

  ghost predicate AtMostOneMatch(s: seq<char>) {
    forall i: nat, l: nat, j: nat, m: nat :: MatchAt(s, i, l) && MatchAt(s, j, m) ==> i == j
  }

  /** The replacement string; it holds no `$`, so `replace` inserts it literally. */
  const Replacement: seq<char> := "<base href=\"./\">"

  /** The matches starting at `i` are exactly the one the greedy matcher reports. */
  lemma MatchAtLeading(s: seq<char>, i: nat)
    requires i <= |s|
    ensures forall l: nat :: MatchAt(s, i, l) <==> LeadingMatch(s[i..]) == Some(l)
  {
    forall l: nat
      ensures MatchAt(s, i, l) <==> LeadingMatch(s[i..]) == Some(l)
    {
      if l <= |s| - i {
        assert s[i..][..l] == s[i..i + l];
        LeadingMatchIff(s[i..], l);
      }
    }
  }

  /** A match starting at a given position has exactly one length. */
  lemma MatchAtUnique(s: seq<char>, i: nat, l1: nat, l2: nat)
    requires MatchAt(s, i, l1) && MatchAt(s, i, l2)
    ensures l1 == l2
  {
    MatchAtLeading(s, i);
  }

  /** A match is at least 15 characters long and starts with `<`. */
  lemma MatchAtShape(s: seq<char>, i: nat, l: nat)
    requires MatchAt(s, i, l)
    ensures 15 <= l && i + l <= |s| && s[i] == '<'
  {
    MatchShape(s[i..i + l]);
  }

  /** No match covers a `<` other than its first character. */
  lemma NoMatchAcrossLt(s: seq<char>, j: nat, m: nat, p: nat)
    requires j < p < j + m && p < |s| && s[p] == '<'
    ensures !MatchAt(s, j, m)
  {
    if j + m <= |s| {
      MatchShape(s[j..j + m]);
      assert s[j..j + m][p - j] == '<';
    }
  }

  /** No match starts at a character other than `<`. */
  lemma NotLtNoMatch(s: seq<char>, j: nat, m: nat)
    requires j < |s| && s[j] != '<'
    ensures !MatchAt(s, j, m)
  {
    if j + m <= |s| {
      MatchShape(s[j..j + m]);
    }
  }

  /** Two matches never overlap. */
  lemma NonOverlapping(s: seq<char>, i: nat, l: nat, j: nat, m: nat)
    requires MatchAt(s, i, l) && MatchAt(s, j, m) && i < j
    ensures i + l <= j
  {
    MatchAtShape(s, j, m);
    if j < i + l {
      NoMatchAcrossLt(s, i, l, j);
    }
  }

  /** Whether `s` has a match is decided by the characters of the match alone. */
  lemma MatchAtShift(s: seq<char>, a: nat, j: nat, m: nat)
    requires a <= |s|
    ensures MatchAt(s[a..], j, m) <==> MatchAt(s, a + j, m)
  {
    if a + j + m <= |s| {
      assert s[a..][j..j + m] == s[a + j..a + j + m];
    }
  }

  /** The search of `replace`: the first position from `from` on where the pattern matches. */
  function FindFrom(s: seq<char>, from: nat): (r: Option<Found>)
    requires from <= |s|
    ensures r.Some? ==> from <= r.value.start && MatchAt(s, r.value.start, r.value.len)
    decreases |s| - from
  {
    match LeadingMatch(s[from..])
    case Some(l) =>
      assert s[from..][..l] == s[from..from + l];
      Some(Found(from, l))
    case None => if from == |s| then None else FindFrom(s, from + 1)
  }

  /** The search finds a match, and no later one than any match from `from` on. */
  lemma {:induction false} FindFromFirst(s: seq<char>, from: nat, j: nat, m: nat)
    requires from <= |s|
    ensures from <= j && MatchAt(s, j, m) ==>
      FindFrom(s, from).Some? && FindFrom(s, from).value.start <= j
    decreases |s| - from
  {
    if from <= j && MatchAt(s, j, m) {
      if from == j {
        assert s[j..][..m] == s[j..j + m];
        LeadingMatchComplete(s[j..], m);
      } else if LeadingMatch(s[from..]).None? {
        FindFromFirst(s, from + 1, j, m);
      }
    }
  }

  /** The first match in `s`, if any. */
  function FirstMatch(s: seq<char>): (r: Option<Found>)
    ensures r.Some? ==> MatchAt(s, r.value.start, r.value.len)
  {
    FindFrom(s, 0)
  }

  /** `FirstMatch` finds a match exactly when there is one, and then the leftmost. */
  lemma FirstMatchLeftmost(s: seq<char>)
    ensures FirstMatch(s).None? <==> !HasMatch(s)
    ensures FirstMatch(s).Some? ==> Leftmost(s, FirstMatch(s).value.start, FirstMatch(s).value.len)
  {
    forall j: nat, m: nat
      ensures MatchAt(s, j, m) ==> FirstMatch(s).Some? && FirstMatch(s).value.start <= j
    {
      FindFromFirst(s, 0, j, m);
    }
  }

  /** `html.replace(/<base\s+href="\/"\s*\/?>/i, '<base href="./">')` */
  function Patch(s: seq<char>): (r: seq<char>)
    ensures |r| <= |s| + 1
  {
    match FirstMatch(s)
    case None => s
    case Some(f) =>
      MatchAtShape(s, f.start, f.len);
      s[..f.start] + Replacement + s[f.start + f.len..]
  }

  /** The leftmost match is the one `FirstMatch` finds, with its one length. */
  lemma LeftmostIsFirst(s: seq<char>, i: nat, l: nat)
    requires Leftmost(s, i, l)
    ensures FirstMatch(s) == Some(Found(i, l))
  {
    FirstMatchLeftmost(s);
    var f := FirstMatch(s).value;
    assert f.start == i;
    MatchAtUnique(s, i, l, f.len);
  }

  /**
   * With a match, the leftmost one is replaced by the fixed replacement and
   * everything before and after it is kept.
   */
  lemma PatchReplacesLeftmost(s: seq<char>, i: nat, l: nat)
    requires Leftmost(s, i, l)
    ensures Patch(s) == s[..i] + Replacement + s[i + l..]
    ensures |Patch(s)| == |s| - l + 16
  {
    LeftmostIsFirst(s, i, l);
  }

  /** The text after the replacement starts with the replacement itself. */
  lemma ReplacementNotMatched(t: seq<char>)
    requires |t| >= 16 && t[..16] == Replacement
    ensures forall m: nat :: !MatchAt(t, 0, m)
  {
    WrongValueNotMatched(t, "<base", " ", "href", "\"./");
    MatchAtLeading(t, 0);
    assert t[0..] == t;
  }

  /** No match of the patched text `t` starts before the replacement. */
  lemma NoMatchBefore(s: seq<char>, i: nat, l: nat, t: seq<char>, j: nat, m: nat)
    requires Leftmost(s, i, l) && t == s[..i] + Replacement + s[i + l..]
    requires j < i
    ensures !MatchAt(t, j, m)
  {
    if j + m <= i {
      assert t[..i] == s[..i];
      assert t[j..j + m] == t[..i][j..j + m];
      assert s[j..j + m] == s[..i][j..j + m];
      assert !MatchAt(s, j, m);
    } else {
      NoMatchAcrossLt(t, j, m, i);
    }
  }

  /** No match of the patched text `t` starts inside the replacement. */
  lemma NoMatchInside(s: seq<char>, i: nat, l: nat, t: seq<char>, j: nat, m: nat)
    requires MatchAt(s, i, l) && t == s[..i] + Replacement + s[i + l..]
    requires i <= j < i + 16
    ensures !MatchAt(t, j, m)
  {
    if j == i {
      assert t[i..][..16] == Replacement;
      MatchAtShift(t, i, 0, m);
      ReplacementNotMatched(t[i..]);
    } else {
      assert t[j] == Replacement[j - i];
      NotLtNoMatch(t, j, m);
    }
  }

  /** The matches of `t` after the replacement are those of the input, moved. */
  lemma MatchesAfter(s: seq<char>, i: nat, l: nat, t: seq<char>, j: nat, m: nat)
    requires MatchAt(s, i, l) && t == s[..i] + Replacement + s[i + l..]
    requires j >= i + 16
    ensures MatchAt(t, j, m) <==> MatchAt(s, j - 16 + l, m)
  {
    if j + m <= |t| {
      assert t[j..j + m] == s[j - 16 + l..j - 16 + l + m];
    }
  }

  /**
   * After one application, the matches are exactly the matches of the
   * input that followed the replaced one, moved by the change in length.
   */
  lemma PatchedMatches(s: seq<char>, i: nat, l: nat, j: nat, m: nat)
    requires Leftmost(s, i, l)
    ensures MatchAt(Patch(s), j, m) <==> j >= i + 16 && MatchAt(s, j - 16 + l, m)
  {
    PatchReplacesLeftmost(s, i, l);
    var t := Patch(s);
    if j < i {
      NoMatchBefore(s, i, l, t, j, m);
    } else if j < i + 16 {
      NoMatchInside(s, i, l, t, j, m);
    } else {
      MatchesAfter(s, i, l, t, j, m);
    }
  }

  /** The replacement text is not itself a match. */
  lemma ReplacementIsNoMatch()
    ensures !IsMatch(Replacement)
  {
    WrongValueNotMatched(Replacement, "<base", " ", "href", "\"./");
    LeadingMatchIff(Replacement, 16);
    assert Replacement[..16] == Replacement;
  }

  lemma MatchIsNotReplacement(w: seq<char>)
    requires IsMatch(w)
    ensures w != Replacement
  {
    ReplacementIsNoMatch();
  }

  /** Replacing a match always changes the text. */
  lemma PatchChanges(s: seq<char>, i: nat, l: nat)
    requires Leftmost(s, i, l)
    ensures Patch(s) != s
  {
    PatchReplacesLeftmost(s, i, l);
    if l == 16 {
      MatchIsNotReplacement(s[i..i + 16]);
      assert Patch(s)[i..i + 16] == Replacement;
    }
  }

  /**
   * A text that starts with a tag whose value is not `"/"` (for instance
   * `<base href="./">`) and has no match after its first character is
   * returned unchanged.
   */
  lemma WrongValueUnchanged(t: seq<char>, kb: seq<char>, ws: seq<char>, kh: seq<char>, v: seq<char>)
    requires CiEq(kb, Base) && CiEq(kh, "href")
    requires |ws| >= 1 && AllSpace(ws)
    requires |v| == 3 && v != "\"/\""
    requires |t| >= 13 + |ws| && t[..13 + |ws|] == kb + ws + kh + "=" + v
    requires !HasMatch(t[1..])
    ensures Patch(t) == t
  {
    WrongValueNotMatched(t, kb, ws, kh, v);
    MatchAtLeading(t, 0);
    assert t[0..] == t;
    forall j: nat, m: nat
      ensures !MatchAt(t, j, m)
    {
      if j >= 1 {
        MatchAtShift(t, 1, j - 1, m);
      }
    }
    PatchFixpoint(t);
  }

  /** Without a match the text is returned unchanged; with one it always changes. */
  lemma PatchFixpoint(s: seq<char>)
    ensures Patch(s) == s <==> !HasMatch(s)
  {
    FirstMatchLeftmost(s);
    if FirstMatch(s).Some? {
      PatchChanges(s, FirstMatch(s).value.start, FirstMatch(s).value.len);
    }
  }

  /** With at most one match, the patched text has none left. */
  lemma SingleMatchPatchedAway(s: seq<char>, i: nat, l: nat)
    requires Leftmost(s, i, l) && AtMostOneMatch(s)
    ensures !HasMatch(Patch(s))
  {
    forall j: nat, m: nat
      ensures !MatchAt(Patch(s), j, m)
    {
      PatchedMatches(s, i, l, j, m);
    }
  }

  /** With a second match, the patched text still has one. */
  lemma SecondMatchSurvives(s: seq<char>, i: nat, l: nat, j: nat, m: nat)
    requires Leftmost(s, i, l) && MatchAt(s, j, m) && j != i
    ensures HasMatch(Patch(s))
  {
    NonOverlapping(s, i, l, j, m);
    var k := j - l + 16;
    PatchedMatches(s, i, l, k, m);
    assert k - 16 + l == j;
    assert MatchAt(Patch(s), k, m);
  }

  /**
   * Applying the patch a second time changes nothing exactly when the input
   * has at most one match.
   */
  lemma PatchIdempotent(s: seq<char>)
    ensures Patch(Patch(s)) == Patch(s) <==> AtMostOneMatch(s)
  {
    FirstMatchLeftmost(s);
    if FirstMatch(s).Some? {
      var i, l := FirstMatch(s).value.start, FirstMatch(s).value.len;
      if AtMostOneMatch(s) {
        SingleMatchPatchedAway(s, i, l);
      } else {
        var i1: nat, l1: nat, j1: nat, m1: nat :| MatchAt(s, i1, l1) && MatchAt(s, j1, m1) && i1 != j1;
        if i1 != i {
          SecondMatchSurvives(s, i, l, i1, l1);
        } else {
          SecondMatchSurvives(s, i, l, j1, m1);
        }
      }
      PatchFixpoint(Patch(s));
    }
  }

  /**
   * The number of matches a search from `from` finds when each search
   * resumes where the previous match ended (what `replace` with the `g`
   * flag would replace).
   */
  function CountFrom(s: seq<char>, from: nat): (n: nat)
    requires from <= |s|
    decreases |s| - from
  {
    match FindFrom(s, from)
    case None => 0
    case Some(f) =>
      MatchAtShape(s, f.start, f.len);
      1 + CountFrom(s, f.start + f.len)
  }

  /** The number of matches in `s`, counted as above from the start. */
  function CountMatches(s: seq<char>): (n: nat)
    ensures n == 0 <==> !HasMatch(s)
  {
    FirstMatchLeftmost(s);
    CountFrom(s, 0)
  }

  /** A match reported by the matcher at `i` is a match of the text at `i`. */
  lemma LeadingMatchAt(s: seq<char>, i: nat)
    requires i <= |s|
    ensures LeadingMatch(s[i..]).Some? ==> MatchAt(s, i, LeadingMatch(s[i..]).value)
  {
    if LeadingMatch(s[i..]).Some? {
      assert s[i..][..LeadingMatch(s[i..]).value] == s[i..i + LeadingMatch(s[i..]).value];
    }
  }

  /** A search passes over positions where no match starts. */
  lemma {:induction false} FindFromSkip(s: seq<char>, from: nat, c: nat)
    requires from <= c <= |s|
    requires forall j: nat, m: nat :: from <= j < c ==> !MatchAt(s, j, m)
    ensures FindFrom(s, from) == FindFrom(s, c)
    decreases c - from
  {
    if from < c {
      LeadingMatchAt(s, from);
      FindFromSkip(s, from + 1, c);
    }
  }

  /** Counting from `from` or from `c` is the same when no match starts between them. */
  lemma CountFromSkip(s: seq<char>, from: nat, c: nat)
    requires from <= c <= |s|
    requires forall j: nat, m: nat :: from <= j < c ==> !MatchAt(s, j, m)
    ensures CountFrom(s, from) == CountFrom(s, c)
  {
    FindFromSkip(s, from, c);
  }

  /** Searches through equal remainders of two texts find the same matches, moved. */
  lemma {:induction false} FindFromShift(s: seq<char>, a: nat, t: seq<char>, b: nat)
    requires a <= |s| && b <= |t| && s[a..] == t[b..]
    ensures FindFrom(s, a).None? <==> FindFrom(t, b).None?
    ensures FindFrom(s, a).Some? ==>
      FindFrom(s, a).value.start - a == FindFrom(t, b).value.start - b &&
      FindFrom(s, a).value.len == FindFrom(t, b).value.len
    decreases |s| - a
  {
    if LeadingMatch(s[a..]).None? && a < |s| {
      assert s[a + 1..] == s[a..][1..] == t[b..][1..] == t[b + 1..];
      FindFromShift(s, a + 1, t, b + 1);
    }
  }

  lemma SameRemainder(s: seq<char>, a: nat, t: seq<char>, b: nat, e: nat, d: nat)
    requires a <= e <= |s| && b <= d <= |t| && s[a..] == t[b..] && e - a == d - b
    ensures s[e..] == t[d..]
  {
    assert s[e..] == s[a..][e - a..];
    assert t[d..] == t[b..][d - b..];
  }

  /** Counts through equal remainders of two texts agree. */
  lemma {:induction false} CountFromShift(s: seq<char>, a: nat, t: seq<char>, b: nat)
    requires a <= |s| && b <= |t| && s[a..] == t[b..]
    ensures CountFrom(s, a) == CountFrom(t, b)
    decreases |s| - a
  {
    FindFromShift(s, a, t, b);
    if FindFrom(s, a).Some? {
      var e := CountFromStep(s, a);
      var d := CountFromStep(t, b);
      SameRemainder(s, a, t, b, e, d);
      CountFromShift(s, e, t, d);
    }
  }

  /** A count that finds a match is one more than the count from the end of that match. */
  lemma CountFromStep(s: seq<char>, a: nat) returns (e: nat)
    requires a <= |s| && FindFrom(s, a).Some?
    ensures e == FindFrom(s, a).value.start + FindFrom(s, a).value.len
    ensures a < e <= |s| && CountFrom(s, a) == 1 + CountFrom(s, e)
  {
    var f := FindFrom(s, a).value;
    MatchAtShape(s, f.start, f.len);
    e := f.start + f.len;
  }

  /** The count with a leftmost match at `i` is one more than the count from its end. */
  lemma CountAtLeftmost(s: seq<char>, i: nat, l: nat)
    requires Leftmost(s, i, l)
    ensures CountMatches(s) == 1 + CountFrom(s, i + l)
  {
    LeftmostIsFirst(s, i, l);
  }

  /** No match of the patched text `t` starts before the end of the replacement. */
  lemma NoMatchUpToReplacement(s: seq<char>, i: nat, l: nat, t: seq<char>)
    requires Leftmost(s, i, l) && t == s[..i] + Replacement + s[i + l..]
    ensures forall j: nat, m: nat :: j < i + 16 ==> !MatchAt(t, j, m)
  {
    forall j: nat, m: nat | j < i + 16
      ensures !MatchAt(t, j, m)
    {
      if j < i {
        NoMatchBefore(s, i, l, t, j, m);
      } else {
        NoMatchInside(s, i, l, t, j, m);
      }
    }
  }

  /** While there is a match, each application removes exactly one. */
  lemma PatchRemovesOneMatch(s: seq<char>)
    requires HasMatch(s)
    ensures CountMatches(Patch(s)) == CountMatches(s) - 1
  {
    FirstMatchLeftmost(s);
    var i, l := FirstMatch(s).value.start, FirstMatch(s).value.len;
    PatchReplacesLeftmost(s, i, l);
    var t := Patch(s);
    NoMatchUpToReplacement(s, i, l, t);
    CountFromSkip(t, 0, i + 16);
    assert t[i + 16..] == s[i + l..];
    CountFromShift(t, i + 16, s, i + l);
    CountAtLeftmost(s, i, l);
  }

  /**
   * A matching tag after a prefix without a match is replaced, and the
   * prefix and everything after the tag are kept.
   */
  lemma PatchTag(p: seq<char>, tag: seq<char>, q: seq<char>)
    requires IsMatch(tag) && !HasMatch(p)
    ensures Patch(p + tag + q) == p + Replacement + q
  {
    var s := p + tag + q;
    var i, l := |p|, |tag|;
    assert s[i..i + l] == tag;
    MatchAtShape(s, i, l);
    forall j: nat, m: nat | j < i
      ensures !MatchAt(s, j, m)
    {
      if j + m <= i {
        assert s[..i] == p;
        assert s[j..j + m] == s[..i][j..j + m];
        assert !MatchAt(p, j, m);
      } else {
        NoMatchAcrossLt(s, j, m, i);
      }
    }
    PatchReplacesLeftmost(s, i, l);
    assert s[..i] == p;
    assert s[i + l..] == q;
  }
}
