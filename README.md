# Base-href patcher

The repository's build step `scripts/patch-base.js` rewrites the root base
URL of the built web page so the page can be loaded from a relative file
path. Its one piece of logic is

    html = html.replace(/<base\s+href="\/"\s*\/?>/i, '<base href="./">');

This project models that line on a text given as a sequence of characters.

- `pattern.dfy`, module `Pattern`, models the regular expression. `Shape` is
  its declarative reading. `Step`/`Run` is a deterministic automaton for the
  same language, and `IsMatch` is acceptance by that automaton. The lemmas
  show the two agree. `LeadingMatch` runs the automaton at the start of a
  text.
- `\s` is the exact ECMAScript set: WhiteSpace plus LineTerminator.
- The `i` flag is used without `u`. So only ASCII letters fold, and no
  non-ASCII character matches an ASCII letter.
- `patch_base.dfy`, module `PatchBase`, models `String.prototype.replace`
  with this non-global regular expression:
  - `FindFrom` is the left-to-right search for a match position.
  - `FirstMatch` is that search from position 0.
  - `Patch` splices the fixed replacement in place of the first match. The
    replacement holds no `$`, so it is inserted literally.
  - `CountMatches` counts what a search that resumes after each match finds.
- A match is at least 15 characters long and holds `<` only at its start.
  Two facts follow. A new match cannot span the inserted text and its
  neighbours. The inserted `<base href="./">` is not itself a match.
- The patcher is meant to be idempotent: a second run should change
  nothing. As written, that holds exactly when the input has at most one
  match (`PatchIdempotent` proves both directions). Without the `g` flag, a
  second matching tag is replaced only on the second run. The model follows
  the code.

## Model

| member | source | states |
|---|---|---|
| `Pattern.MatchIffShape` | scripts/patch-base.js:9 | The automaton accepts a word exactly when the word has the regex's shape: `<base` in any ASCII case, then 1 or more `\s`, then `href="/"` with `href` in any ASCII case, then 0 or more `\s`, then an optional `/`, then `>`. |
| `Pattern.ShapeIsMatch` | scripts/patch-base.js:9 | Every word of the declarative shape, whatever its run lengths, is accepted. |
| `Pattern.MatchIsShape` | scripts/patch-base.js:9 | Every accepted word has the declarative shape, with some lengths for the two whitespace runs. |
| `Pattern.TagMatches` | scripts/patch-base.js:9 | Every spelling the pattern admits matches. This covers any ASCII case of `<base` and `href`, any non-empty whitespace before `href`, any whitespace before the end, and the tag with or without the self-closing `/`. |
| `Pattern.WrongValueNotMatched` | scripts/patch-base.js:9 | A tag that has the keywords and whitespace of a match is not matched at its start when its three characters after `=` are not `"/"`. Examples are `href="./"`, `href='/'` and `href="/x"`. |
| `Pattern.RunAcceptEnds` | scripts/patch-base.js:9 | Once `>` closes a match, no further character extends it. So a match starting at a given position has only one length. |
| `Pattern.MatchShape` | scripts/patch-base.js:9 | A match is at least 15 characters long. It starts with `<`, ends with `>`, and holds no other `<`. |
| `Pattern.LeadingMatch` | scripts/patch-base.js:9 | What the matcher reports at the start of a text is a match of that length. |
| `Pattern.LeadingMatchIff` | scripts/patch-base.js:9 | A prefix of the text matches exactly when the matcher reports that prefix's length. The matcher is both sound and complete. |
| `PatchBase.MatchAtUnique` | scripts/patch-base.js:9 | Two matches that start at the same position have the same length. |
| `PatchBase.NonOverlapping` | scripts/patch-base.js:9 | A later match starts at or after the end of an earlier one. |
| `PatchBase.FindFrom` | scripts/patch-base.js:9 | A position the search reports is at or after `from`, and a match starts there. |
| `PatchBase.FindFromFirst` | scripts/patch-base.js:9 | If a match starts at some position `j >= from`, the search reports a match at a position `<= j`. |
| `PatchBase.FirstMatchLeftmost` | scripts/patch-base.js:9 | The search finds nothing exactly when the text has no match. Otherwise it finds the leftmost match, with that match's length. |
| `PatchBase.Patch` | scripts/patch-base.js:9 | The result is at most one character longer than the input. The shortest match has 15 characters and the replacement has 16. |
| `PatchBase.PatchReplacesLeftmost` | scripts/patch-base.js:8-9 | With a leftmost match at `i` of length `l`, the result is `s[..i] + "<base href=\"./\">" + s[i+l..]`. Its length is `\|s\| - l + 16`, whatever the case, whitespace or slash of the replaced tag. |
| `PatchBase.PatchFixpoint` | scripts/patch-base.js:9 | The result equals the input exactly when the input has no match. |
| `PatchBase.ReplacementIsNoMatch` | scripts/patch-base.js:9 | The replacement `<base href="./">` is not a match of the pattern. |
| `PatchBase.PatchedMatches` | scripts/patch-base.js:9 | The matches of the patched text are exactly the input's matches after the replaced one, shifted by the change in length. No new match appears. |
| `PatchBase.SecondMatchSurvives` | scripts/patch-base.js:9 | Only the first match is replaced. A second match of the input is still a match of the output. |
| `PatchBase.PatchIdempotent` | scripts/patch-base.js:9 | Patching twice gives the same result as patching once exactly when the input has at most one match. |
| `PatchBase.CountMatches` | scripts/patch-base.js:9 | The count of non-overlapping matches is zero exactly when the text has no match. |
| `PatchBase.PatchRemovesOneMatch` | scripts/patch-base.js:9 | While the input has a match, one patch lowers the count of non-overlapping matches by exactly one. |
| `PatchBase.PatchTag` | scripts/patch-base.js:8-9 | A matching tag that follows a match-free prefix `p` is replaced. The prefix `p` and the rest after the tag are kept unchanged. |
| `PatchBase.WrongValueUnchanged` | scripts/patch-base.js:9 | Take a text that starts with a tag whose value is not `"/"`, such as `<base href="./">`, and that has no match after its first character. It is returned unchanged. |

## Left out

- `electron/main.js`, all of it: window creation, file loading, the
  external-link handler and the lifecycle events. It is plumbing over
  Electron and Node APIs that are not part of this model.
- The I/O of the patcher:
  - building the file path (scripts/patch-base.js:5);
  - reading and UTF-8 decoding the file (scripts/patch-base.js:6), including
    the error raised when the file is missing;
  - writing the result back (scripts/patch-base.js:11);
  - the log message (scripts/patch-base.js:12).
  The text is a parameter, and the result is the text that would be written.
- UTF-16: JavaScript strings are UTF-16 code units, while a Dafny `char` is
  a Unicode scalar value.
  - A character outside the Basic Multilingual Plane is one `char` here but
    two code units in JavaScript, so positions and lengths past such a
    character differ.
  - Lone surrogates cannot be represented.
  - No pattern character is a surrogate, so which text matches is the same.
- A general regular-expression engine. The matcher is hand-built for this
  one pattern, and the backtracking of a general engine is not modelled. The
  search result does not depend on it, because a match starting at a given
  position has only one length.
- `\s` follows the current ECMAScript definition. A JavaScript engine built
  on an older Unicode version may differ on the space separators.
