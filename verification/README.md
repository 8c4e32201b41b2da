# ceboles: the r-to-l rewrite of `content.js`, in Dafny

`content.js` is a browser content script. It makes every page read as if
`r` were pronounced `l`. Its core has two layers, and both are modelled here.

- **The rewrite.** `s.replace(/rr/gi, 'l').replace(/r(?=\w)/gi, 'l')`
  appears twice: for attribute values at `content.js:41` and for text nodes
  at `content.js:52`. Module `Rewrite` (`rewrite.dfy`) models it.
  - Each call is a global, leftmost, non-overlapping substitution.
    `ReplaceFrom` emits the replacement and resumes after each match.
    `ReplaceAllScan` is the `lastIndex` loop a regular-expression engine
    runs, and it is proved to compute the same string.
  - The regular expressions have no `u` flag. So `r` matches exactly `r` or
    `R`, and `\w` is `[A-Za-z0-9_]`.
  - `Pass1` replaces each case-insensitive `rr` with `l`, `Pass2` replaces
    each `r`/`R` followed by a word character with `l`, and `Transform` is
    the two passes in sequence.
- **The walker `substituirTextoEmTudo`** (`content.js:23-59`). Module
  `Walker` (`walker.dfy`) models it over an abstract document tree, where a
  `Node` is a text node, another non-element node, or an element with a tag,
  an attribute map and children.
  - A missing or non-element root is left alone.
  - The script takes a snapshot: the root and then all its descendant
    elements in document order.
  - Elements whose lower-cased tag is `script`, `style` or `textarea` are
    skipped.
  - Any other element has its `title`, `alt` and `placeholder` attributes
    rewritten (`content.js:3`), then its direct text children.
  - A value is written back only when it changed. Every write is recorded as
    a `Write`, in the order the script performs them.
  - Processing one element touches only that element's attributes and its
    direct text children, never the shape of the tree. So walking the
    snapshot in order is a pre-order structural recursion, and
    `WalkElement`/`WalkChildren` are written that way.
  - `Rewrote` specifies the walk node by node, independently of that
    recursion. `Changes` reads the writes off the trees before and after a
    walk: one write per changed value, in document order. The walk's write
    log is proved equal to it.

Module `Examples` (`examples.dfy`) holds worked cases. They include the
end-to-end case: a `div` with `title="mirror"` holding the paragraph
"A rare bird runs." becomes `title="milor"` and "A lale bild luns.", with
exactly two writes.

The `r` of "very" is followed by the word character `y`, so the expression
at `content.js:41` turns `title="very rare"` into `title="vely lale"`: see
`Examples.VeryRare`.

## Model

| member | source | states |
|---|---|---|
| Rewrite.MatchAt | content.js:41 | a match stays inside the string, consumes at most two characters (two only for `rr`), and starts at an `r`/`R` followed by a word character |
| Rewrite.ReplaceFromLength | content.js:41 | each step of a global replace consumes one or two characters and emits one, so the output is no longer than the input and at least half as long |
| Rewrite.NextMatch | content.js:41 | the search from `lastIndex` returns the leftmost position at or after it where the pattern matches, or the end of the string when there is none |
| Rewrite.ReplaceAll | content.js:41 | a global replace never lengthens a string and at most halves it |
| Rewrite.Pass1 | content.js:41 | the `rr` pass leaves no two consecutive `r`/`R`, even though `rrr` leaves an `r` behind |
| Rewrite.Pass2 | content.js:41 | the `r(?=\w)` pass keeps the length and maps each character on its own: `r`/`R` followed by a word character becomes `l`, everything else is kept, and the lookahead reads the original string |
| Rewrite.Transform | content.js:41 | the rewritten string has no `r`/`R` followed by a word character and no case-insensitive `rr` |
| Rewrite.ScanRound | content.js:41 | one round of the engine's replace loop finds the leftmost match `m` at or after `lastIndex`; on a match it emits `s[lastIndex..m]` plus `l` and resumes right after the match, otherwise it emits the rest of the string; either way the chunk is what the global replace emits up to the resume point |
| Rewrite.ReplaceAllScan | content.js:41 | the engine's `lastIndex` loop computes the same string as the leftmost, non-overlapping definition of a global replace |
| Rewrite.Pass2Settles | content.js:41 | after the second pass no `r`/`R` is followed by a word character |
| Rewrite.Pass2ByPoints | content.js:41 | the second pass is determined character by character: a string of the same length agreeing with it at every position is its result |
| Rewrite.Pass2FixedIff | content.js:41 | the second pass leaves a string unchanged exactly when no `r`/`R` in it is followed by a word character |
| Rewrite.Pass1Shortens | content.js:41 | a string holding a case-insensitive `rr` gets strictly shorter in the first pass |
| Rewrite.Pass1FixedIff | content.js:41 | the first pass leaves a string unchanged exactly when it holds no case-insensitive `rr` |
| Rewrite.Pass1CountR | content.js:41 | the first pass removes exactly two `r`/`R` for every character it removes, one `rr` per `l` |
| Rewrite.ReplaceAllKeepsOthers | content.js:41 | a replace keeps every character other than `r`, `R` and `l` in its order, and never adds an `r`/`R` |
| Rewrite.SettledNoDoubleR | content.js:41 | a string with no `r`/`R` before a word character has no `rr` either, since `r` is itself a word character |
| Rewrite.TransformFixedIff | content.js:41 | the rewrite leaves a string unchanged exactly when no `r`/`R` in it is followed by a word character; this is the test behind writing only changed values |
| Rewrite.TransformIdempotent | content.js:41 | rewriting twice gives the same as rewriting once |
| Rewrite.TransformWithoutR | content.js:41 | a string with no `r`/`R` is returned unchanged |
| Rewrite.TransformLength | content.js:41 | the rewrite never lengthens a string, at most halves it, keeps the first pass's length, and keeps the length exactly when there is no `rr` |
| Rewrite.TransformKeepsOthers | content.js:41 | the rewrite keeps every character other than `r`, `R` and `l` in its order, and never adds an `r`/`R` |
| Rewrite.ReplaceAllSplits | content.js:41 | no match crosses a character that is not a word character, so each pass works separately on either side of one |
| Rewrite.TransformSplits | content.js:41 | the rewrite of words joined by a space or punctuation mark is the rewrite of each word, joined by the same character |
| Walker.ToLower | content.js:34 | lower-casing keeps the length and maps `A`-`Z` to `a`-`z`, leaving every other character as it is |
| Walker.LowerMatches | content.js:34 | a string lower-cases to a lower-case word exactly when it spells that word in any mix of cases |
| Walker.IsSkippedIff | content.js:34-35 | an element is skipped exactly when its tag spells `script`, `style` or `textarea` in any mix of cases |
| Walker.RewriteValue | content.js:40-44 | a value is written back exactly when the rewrite changes it, and what is written is the rewritten value, which a further rewrite would leave alone and which keeps every character other than `r`, `R` and `l` |
| Walker.RewriteAttributes | content.js:38-46 | of the inspected names, exactly those present are rewritten; no attribute is added or removed, the others keep their values, each write names a present inspected attribute whose value changed and carries its rewritten value, there are at most as many writes as inspected names, and nothing is written exactly when nothing changed |
| Walker.RewriteAttributesChanges | content.js:38-46 | with distinct inspected names, the writes are exactly the inspected attributes whose value changed, one each, in the order the names are inspected |
| Walker.RewriteAttributesComplete | content.js:38-46 | every present inspected attribute whose value the rewrite changes is written with its rewritten value |
| Walker.Walk | content.js:23-59 | a missing or non-element root gives no writes; an element root is rewritten as `Rewrote` specifies; there are writes exactly when the tree changed; every written value is settled, and every written attribute is `title`, `alt` or `placeholder`; the writes are exactly the changes between the page before and after, one per changed value, in document order |
| Walker.WalkElement | content.js:30-57 | walking an element keeps it an element with the same tag and the same number of children |
| Walker.WalkChildren | content.js:49-57 | walking the children keeps their number |
| Walker.WalkElementMeetsSpec | content.js:30-57 | walking a subtree of the snapshot yields the tree `Rewrote` specifies: same tags and attribute names, inspected attributes and direct text rewritten unless the element is skipped, and child elements walked even below a skipped one |
| Walker.WalkChildrenMeetsSpec | content.js:49-57 | the children keep their number and order; text children are rewritten exactly when the parent is not skipped, other non-element nodes are kept, and child elements are walked |
| Walker.RewroteUnique | content.js:30-57 | the node-by-node specification determines the walked tree completely |
| Walker.WalkElementWrites | content.js:38-57 | a walk writes exactly when it changes the subtree; each written value is settled and each written attribute is one of the three inspected names |
| Walker.WalkChildrenWrites | content.js:49-57 | the children produce writes exactly when some child changes; writes to direct text children only set node values, and all written values are settled |
| Walker.WalkElementChanges | content.js:30-57 | the writes of walking a subtree are exactly `Changes` between the subtree before and after: each changed inspected attribute and each changed direct text, element by element in document order, and nothing else |
| Walker.WalkChildrenChanges | content.js:49-57 | the writes to direct text children are exactly the texts that changed, in child order, and the nested writes are exactly the changes inside the child elements, child by child |
| Walker.RewroteSettles | content.js:30-57 | a walked subtree is one the specification maps to itself |
| Walker.WalkElementIdempotent | content.js:30-57 | walking an already walked subtree performs no writes and changes nothing |
| Walker.RewroteKeepsSkeleton | content.js:30-57 | the walk keeps the shape: node kinds, tags, attribute names and child order |
| Walker.WalkElementKeepsSkeleton | content.js:30-57 | walking a subtree keeps its shape: node kinds, tags, attribute names and child order |
| Walker.SkippedElementFrame | content.js:32-37 | a `script`, `style` or `textarea` element keeps all its attributes and its non-element children, but its child elements are still walked: the exclusion is not inherited |
| Walker.WalkElementAttributes | content.js:38-46 | attributes other than `title`, `alt` and `placeholder` are never changed, none is created or removed, and the three are rewritten on non-skipped elements |
| Walker.WalkIdempotent | content.js:23-59 | a second walk of the page performs no writes, so the script's own writes cannot make it rewrite again |
| Examples.TrailingRKept | content.js:41 | `car` is unchanged: an `r` at the end of a word is kept |
| Examples.RBeforeWordReplaced | content.js:41 | `card` becomes `cald` |
| Examples.UpperRBeforeWordReplaced | content.js:41 | `Rat` becomes `lat`: the replacement is lower case |
| Examples.DoubleRReplaced | content.js:41 | `rr`, `RR` and `rR` all become `l` |
| Examples.TripleR | content.js:41 | `rrr` becomes `lr`: matches do not overlap |
| Examples.Mirror | content.js:41 | `mirror` becomes `milor`: the `r` left at the end stays |
| Examples.VeryRare | content.js:41 | `very rare` becomes `vely lale` |
| Examples.Sentence | content.js:52 | `A rare bird runs.` becomes `A lale bild luns.` |
| Examples.ScriptSkipped | content.js:34-35 | `SCRIPT` is skipped: the tag is lower-cased before the comparison |
| Examples.StyleSkipped | content.js:34-35 | `Style` is skipped |
| Examples.TitleOnly | content.js:38-46 | for an element with only a `title` that the rewrite changes, the attribute step writes the rewritten title and nothing else |
| Examples.NestedWalk | content.js:30-57 | an element with a changing `title` holding an element with changing text gives the title write, then the text write |
| Examples.WalkDiv | content.js:23-59 | the `div title="mirror"` / "A rare bird runs." page gives `title="milor"`, "A lale bild luns." and exactly those two writes, in that order |
| Examples.SkippedWalk | content.js:30-57 | inside a skipped element a changing text is kept, while a child element's `title` is still rewritten |
| Examples.ScriptWalk | content.js:30-57 | a `script` holding text `rr` and a `b` with `title="mirror"` keeps `rr` and writes only `title="milor"` |

## Left out

- `debounce` with `setTimeout`/`clearTimeout` (`content.js:11-17`, `65-67`) is not modelled: it concerns timing on the event loop, not what a walk computes.
- The `MutationObserver` and its `observe` call (`content.js:72-88`) are not modelled: they are host notifications. `Walker.WalkIdempotent` shows that a walk triggered by the script's own writes writes nothing.
- The polling `setInterval` (`content.js:92-94`), the start-up walk (`content.js:80`) and the console message (`content.js:96`) are not modelled: they are scheduling and I/O. Each walk they start is a `Walk` of the current tree.
- The DOM API calls `getElementsByTagName`, `hasAttribute`, `getAttribute`, `setAttribute`, `childNodes` and `nodeValue` are replaced by the `Node` datatype and the `Write` log.
- Attribute names are taken as already lower-case, as HTML stores them. The case folding `hasAttribute` applies in HTML documents is not modelled.
- Walker.Walk: the root guard is modelled as "missing or not an element". A `Document` root has `getElementsByTagName` but no `tagName`, so the script would throw on it. That case is not modelled; the script only ever passes `document.documentElement`.
- Walker.ToLower: lowers ASCII letters only, where `toLowerCase` follows Unicode. The only non-ASCII characters that lower to ASCII letters are the Kelvin sign and the dotted capital I. Neither can turn a tag into `script`, `style` or `textarea`, so `IsSkipped` agrees with the script.
- Rewrite.TransformKeepsOthers: states the order of the characters other than `r`, `R` and `l`, not that all characters other than `r`/`R` keep their order. The stronger statement, that the input with `r`/`R` removed is a subsequence of the output, is not proved.
- JavaScript strings are sequences of UTF-16 code units, while a Dafny `string` is a sequence of Unicode scalar values. A lone surrogate cannot be represented, and `|s|` is not `.length` for text outside the Basic Multilingual Plane. No result changes, because both patterns and the replacement are ASCII and a surrogate is never `r` or a word character.
- The walk over the snapshot (`content.js:30-32`) is modelled as a pre-order recursion over the tree rather than a loop over a list of elements. This is faithful because a step changes neither the tree's shape nor any other element.
