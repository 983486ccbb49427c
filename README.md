# Term highlighter of the meta extension

The meta extension highlights a fixed list of search terms in the active
editor of VS Code. On activation it remembers the active editor. Whenever
another editor becomes active, or the active editor's document changes, it
schedules an update behind a 500 ms debounce timer. When the active editor
changes to none, it only forgets the old one. When the timer fires, the update:

- joins the terms into one case-insensitive, global regular expression
  `t0|t1|...|tn`;
- runs `exec` over the document text until it fails, collecting the range
  of every match;
- replaces the editor's decorations with those ranges.

The model has three modules, one per file:

- `Alternation` (`alternation.dfy`) is the part of ECMAScript regular
  expressions the highlighter relies on, written as functions:
  - `Canonical` is the ignore-case canonicalisation (section 22.2.2.7.3 of
    ECMA-262), restricted to ASCII;
  - `FirstAlt` is the disjunction (section 22.2.2.3 of ECMA-262): the first
    listed term that matches at an offset wins;
  - `Exec` is `RegExpBuiltinExec` (section 22.2.7.2 of ECMA-262) for a
    global expression: the leftmost match at or after `lastIndex`, and
    failure when `lastIndex` is past the end.
- `MatchScan` (`match_scan.dfy`) holds the match loop:
  - `Scan` and `Matches` specify the list of ranges the `exec` loop
    collects;
  - `ScanMatches` is the loop itself, proved to compute `Matches`;
  - `LeftmostCover` describes the same list independently: ordered,
    non-overlapping, each range the first-listed term at its start, and no
    term occurring in the gaps. `Matches` satisfies it and is the only list
    that does.
- `Decoration` (`decoration.dfy`) holds the state:
  - the classes `Document`, `Editor` and `Decorator`;
  - the debounce handle `timeout`;
  - the host's set of scheduled timers, the ghost field `live`;
  - the event handlers.

  The invariant `Decorator.Valid` says that at most one timer is scheduled
  and that it is the one `timeout` names. The handlers preserve it, and
  every update makes the decorations equal to `Matches` of the current text.

Terms are limited to a non-empty list of non-empty ASCII strings without
regular-expression metacharacters. For such terms the ASCII case fold gives exactly the
ECMAScript non-Unicode ignore-case comparison. The reason is that
canonicalisation never maps a character at or above U+0080 to one below it.

## Model

| member | source | states |
|---|---|---|
| Alternation.CanonicalEq | meta-extension/utils/decoration.js:30 | the `i` flag: two characters compare equal exactly when they are the same character or the same ASCII letter in the other case |
| Alternation.FirstAlt | meta-extension/utils/decoration.js:30 | the alternative chosen at an offset is a listed term that matches there |
| Alternation.FirstAltIsFirst | meta-extension/utils/decoration.js:30 | alternation priority: no term listed before the chosen one matches at that offset, and when none is chosen no term matches there |
| Alternation.Exec | meta-extension/utils/decoration.js:34 | `exec` on the global expression reports a non-empty match that lies inside the text and starts at or after `lastIndex` |
| Alternation.ExecLeftmost | meta-extension/utils/decoration.js:34 | `exec` finds the leftmost match: no term occurs between `lastIndex` and the match, and when it fails no term occurs from `lastIndex` to the end |
| Alternation.ExecChosen | meta-extension/utils/decoration.js:34-36 | the reported match is the chosen alternative at its index: `match[0]` is the text slice there, as long as the first-listed matching term |
| MatchScan.ScanMatches | meta-extension/utils/decoration.js:29-42 | the `while (match = exec(...))` loop, with `lastIndex` starting at 0 and each match pushing `[index, index + match[0].length)`, returns exactly `Matches` of the text |
| MatchScan.ScanStep | meta-extension/utils/decoration.js:34-42 | one turn of the loop (push the range, move `lastIndex` to its end) keeps "pushed so far + scan from `lastIndex` = whole scan" |
| MatchScan.ScanDone | meta-extension/utils/decoration.js:34 | when `exec` returns null, what was pushed is the whole list |
| MatchScan.ScanIsLeftmost | meta-extension/utils/decoration.js:30-42 | the scan's list is a leftmost cover: ordered, non-overlapping chosen matches, with no term occurring in any gap |
| MatchScan.LeftmostUnique | meta-extension/utils/decoration.js:30-42 | any leftmost cover of the text equals the scan's list, so the list is determined by the terms and text alone |
| MatchScan.CoverOrdered | meta-extension/utils/decoration.js:34-42 | the ranges of a leftmost cover are non-empty, lie inside the text, and are strictly ordered without overlap |
| MatchScan.MatchesOrdered | meta-extension/utils/decoration.js:34-42 | the decorated ranges are non-empty, inside the document, sorted, and pairwise disjoint |
| MatchScan.MatchesAreTerms | meta-extension/utils/decoration.js:30-42 | each decorated range is an occurrence, up to ASCII case, of a search term, of that term's length, and no earlier-listed term matches at its start |
| MatchScan.MatchesComplete | meta-extension/utils/decoration.js:30-42 | every occurrence of any term starts inside some decorated range |
| MatchScan.FirstTermWins | meta-extension/utils/decoration.js:30-42 | with the terms `NT` then `NTK`, the text `ntk NTK` is decorated at `[0,2)` and `[4,6)`, so the first-listed term wins whatever the case |
| Decoration.Editor.SetDecorations | meta-extension/utils/decoration.js:44 | `setDecorations` replaces the editor's decorations with the given ranges |
| Decoration.Decorator.constructor | meta-extension/utils/decoration.js:14-15 | activation remembers the active editor with no timer pending, and schedules one update exactly when there is an editor (lines 47-49) |
| Decoration.Decorator.Trigger | meta-extension/utils/decoration.js:17-22 | cancels the timer `timeout` names and schedules a fresh one: afterwards exactly one timer is scheduled, and `timeout` holds it |
| Decoration.Decorator.UpdateDecorations | meta-extension/utils/decoration.js:24-45 | with no active editor nothing changes; otherwise the editor's decorations become exactly `Matches` of its document's text |
| Decoration.Decorator.Fire | meta-extension/utils/decoration.js:21 | the scheduled timer firing leaves nothing scheduled, keeps `timeout` as it was (the handle is never reset), and runs the update against the editor active now |
| Decoration.Decorator.OnDidChangeActiveTextEditor | meta-extension/utils/decoration.js:51-56 | the new editor becomes active in every case; an update is rescheduled when it is an editor, and the timers are untouched when it is none |
| Decoration.Decorator.OnDidChangeTextDocument | meta-extension/utils/decoration.js:58-62 | an update is rescheduled exactly when there is an active editor showing the edited document; otherwise nothing changes |

## Left out

- Line and column positions: `positionAt` (lines 35-36) belongs to the editor, so ranges are kept as offsets into the text.
- Offsets count Unicode scalar values (one Dafny `char` each), while `match.index` and `match[0].length` (lines 35-36) count UTF-16 code units. The two agree for text inside the Basic Multilingual Plane; after a character outside it, the source's offsets are larger by one per such character. Lone surrogates, which a JavaScript string may hold, cannot be represented.
- The decoration style (lines 5-12) and the `color` field of each decoration (line 39) do not affect which ranges are decorated.
- Time: the 500 ms delay is not modelled. A timer fires when the host calls `Decorator.Fire` with a scheduled handle, and the handles are natural numbers handed out in order.
- Listener registration and disposal through `context.subscriptions` (lines 56 and 62) are the host's business. The handlers are plain methods, and a change event is represented by its document.
- Decorator.constructor: requires a non-empty list of terms, each non-empty, ASCII and free of metacharacters. With an empty list, `join('|')` gives the empty pattern; with an empty term, one alternative is empty. Either way `exec` matches the empty string without moving `lastIndex`, and the source's loop never ends. A metacharacter would change the expression, and non-ASCII case folding is not modelled.
- MatchScan.ScanMatches: requires only that the list and each term are non-empty; the stricter restriction is stated once, on the decorator.
- `slowProcess.js`, `toolbar.js` and `extension.js` are callers or siblings of the highlighter and are not part of this model.
