# JSONCom in Dafny

A model of `Allty\JSONCom`, a PHP utility that decodes JSON text carrying
comments. `decode` rejects an argument that is not a string, strips the
comments with `removeComments` and hands the rest to PHP's `json_decode`.
`removeComments` returns `""` for a non-string and for a PHP-empty string
(`""` and also `"0"`). Otherwise it applies two regular-expression
substitutions in a fixed order:

1. the line pattern `%(#|;|(//)).*%`. A `#`, a `;` or a `//` starts a
   comment that runs up to, but not including, the next newline.
2. the block pattern `%/\*(?:(?!\*/).)*\*/%s`. A `/*` starts a comment
   that runs, across newlines, through the first `*/` that begins at least
   two characters after it. A `/*` with no such `*/` is not a comment.

Each substitution is modelled as the left-to-right scan that PCRE's
replace-all performs. `LinePattern.LinePassFrom(s, i)` and
`BlockPattern.BlockPassFrom(s, i)` give the output of the scan started at
index `i` of `s`. At a match they skip to where the match ends. Otherwise
they keep one character and move on. The lemmas then state each pass in
declarative terms:
- what the leftmost match deletes and where scanning resumes;
- that clean text is copied through unchanged;
- a line-by-line reading of the line pass.

They also prove what the composition guarantees:
- it only deletes characters;
- no `#`, `;` or `//` survives;
- no complete block comment survives;
- the two substitutions together are idempotent;
- the order of the passes matters.

Files:
- `wrappers.dfy`: `Option` and `Result`.
- `subsequences.dfy`: the "only deletes" relation and its lemmas.
- `php.dfy`: PHP values, `gettype()` and `empty()` on strings.
- `line_pattern.dfy`: the first substitution.
- `block_pattern.dfy`: the second substitution.
- `json_com.dfy`: `removeComments`, `decode`, and the properties and
  worked examples that involve both passes.

`json_decode` is a PHP built-in, so `Decode` takes it as a function-valued
parameter `jsonDecode`. Every property of `Decode` holds for every such
function. The model works on characters. Both patterns are plain ASCII and
carry no `u` modifier, so on UTF-8 text this agrees with PHP's byte-wise
matching: no byte of a multi-byte UTF-8 sequence equals `#`, `;`, `/`, `*`
or a newline.

Two consequences of the code are worth stating outright:
- `removeComments` is not idempotent: `"0#c"` yields `"0"`, and a second
  call turns that `"0"` into `""` (`RemoveCommentsNotIdempotent`). That is
  the only way it fails: a second call changes nothing unless the first
  returned `"0"` (`RemoveCommentsIdempotentUnlessZero`). The two
  substitutions on their own are idempotent (`StripCommentsIdempotent`).
- `empty()` is true for `"0"` as well as `""`, so `decode("0")` hands `""`
  to `json_decode` (`DecodeZero`). Comment-free text reaches the decoder
  untouched only when it is not `"0"` (`DecodeCommentFree`).

## Model

| member | source | states |
|---|---|---|
| `Php.GetType` | lib/Allty/JSONCom.php:36-37 | `gettype()` names each PHP type and answers `"string"` exactly for strings, so it agrees with the `is_string` guard |
| `LinePattern.LineEnd` | lib/Allty/JSONCom.php:64 | `.*` started at `i` stops at the first newline at or after `i`, or at the end of the text; every character it passes over is not a newline |
| `LinePattern.LinePass` | lib/Allty/JSONCom.php:64 | the line substitution only deletes characters (its result is a subsequence of its input) and leaves no `#`, no `;` and no two adjacent `/` |
| `LinePattern.LinePassOnlyDeletes` | lib/Allty/JSONCom.php:64 | the scan from any index yields a subsequence of the text from that index |
| `LinePattern.LinePassMarkerFree` | lib/Allty/JSONCom.php:64 | the scan's output holds no marker, including none formed where a deletion joins two characters |
| `LinePattern.LinePassSkipsClean` | lib/Allty/JSONCom.php:64 | a stretch with no marker is copied to the output unchanged |
| `LinePattern.LinePassCutsAtMarker` | lib/Allty/JSONCom.php:64 | at the leftmost marker, the text from the marker up to, not including, the next newline (or to the end) is deleted, and scanning resumes at that newline |
| `LinePattern.LinePassCutsComment` | lib/Allty/JSONCom.php:64 | a comment starting with a marker right after marker-free text is deleted up to, not including, the newline that ends its line; the text before it is kept and the rest is scanned on its own |
| `LinePattern.LinePassKeepsNewline` | lib/Allty/JSONCom.php:64 | a newline is never deleted: the line pass of `a`, a newline and `b` is the line pass of `a`, the newline and the line pass of `b`, so no comment runs past a newline |
| `LinePattern.LinePassBeforeNewline` | lib/Allty/JSONCom.php:64 | scanning the text before a newline gives what scanning that text alone gives |
| `LinePattern.LinePassFromShift` | lib/Allty/JSONCom.php:64 | the scan looks only forward: scanning the tail of a text gives what scanning that tail alone gives |
| `LinePattern.LinePassUnchanged` | lib/Allty/JSONCom.php:64 | text with no `#`, `;` or `//` is a fixed point of the line substitution |
| `LinePattern.LinePassIsLineByLine` | lib/Allty/JSONCom.php:64 | the scan equals a line-by-line reading: each line keeps its text before its first marker, and every newline is kept |
| `BlockPattern.FindCloser` | lib/Allty/JSONCom.php:63 | finds the first `*/` at or after a position, or reports that none exists |
| `BlockPattern.BlockPass` | lib/Allty/JSONCom.php:63 | the block substitution only deletes characters. On text with no `#`, `;` or `//` it adds none and leaves no `/*` followed later by a `*/` |
| `BlockPattern.BlockPassOnlyDeletes` | lib/Allty/JSONCom.php:63 | the scan from any index yields a subsequence of the text from that index |
| `BlockPattern.BlockPassSkipsOpen` | lib/Allty/JSONCom.php:63 | a stretch where no complete block comment starts is copied to the output unchanged |
| `BlockPattern.BlockPassCutsBlock` | lib/Allty/JSONCom.php:63 | at the leftmost `/*`, when a `*/` follows it, everything from `/*` through the first such `*/` is deleted, newlines included, and scanning resumes after it |
| `BlockPattern.BlockPassLeavesUnterminated` | lib/Allty/JSONCom.php:63 | a leftmost `/*` with no `*/` after it is kept, with all the text after it |
| `BlockPattern.BlockPassCutsComment` | lib/Allty/JSONCom.php:63 | a block comment whose body holds no `*/`, after text with no `/*`, is deleted whole, newlines included; the text before it is kept and the text after it is scanned on its own |
| `BlockPattern.FindCloserShift` | lib/Allty/JSONCom.php:63 | the search for `*/` looks only forward: it finds the same closer in a tail as in that tail alone |
| `BlockPattern.BlockPassFromShift` | lib/Allty/JSONCom.php:63 | the scan looks only forward: scanning the tail of a text gives what scanning that tail alone gives |
| `BlockPattern.BlockPassUnchanged` | lib/Allty/JSONCom.php:63 | text with no complete block comment is a fixed point of the block substitution |
| `BlockPattern.BlockPassNoOpener` | lib/Allty/JSONCom.php:63 | text with no `/*` is a fixed point of the block substitution |
| `BlockPattern.BlockPassKeepsLineMarkerFree` | lib/Allty/JSONCom.php:63-64 | deleting block comments from text without `#`, `;` and `//` never creates one of them |
| `BlockPattern.BlockPassComplete` | lib/Allty/JSONCom.php:63-64 | on text without `#`, `;` or `//`, which is what the line pass hands it, a single block substitution leaves no `/*` followed later by a `*/` |
| `JSONCom.StripComments` | lib/Allty/JSONCom.php:63-64 | the two substitutions, line pattern first, only delete characters and leave no line marker and no complete block comment |
| `JSONCom.RemoveComments` | lib/Allty/JSONCom.php:58-65 | `removeComments` returns a subsequence of its string argument, no longer than it, and free of `#`, `;` and `//` |
| `JSONCom.RemoveCommentsGuard` | lib/Allty/JSONCom.php:60-62 | a non-string, `""` and `"0"` all yield `""` |
| `JSONCom.RemoveCommentsUnchanged` | lib/Allty/JSONCom.php:60-64 | a string with no `#`, `;`, `//` or `/*` is returned unchanged, except `"0"`, which yields `""` |
| `JSONCom.StripCommentsIdempotent` | lib/Allty/JSONCom.php:63-64 | applying the two substitutions twice gives the same text as applying them once |
| `JSONCom.RemoveCommentsIdempotentUnlessZero` | lib/Allty/JSONCom.php:60-64 | a second `removeComments` call leaves the first call's result unchanged if and only if that result is not `"0"` |
| `JSONCom.RemoveCommentsNotIdempotent` | lib/Allty/JSONCom.php:60-64 | `"0#c"` yields `"0"`, and `"0"` yields `""` |
| `JSONCom.RemoveCommentsCutsTrailingComment` | lib/Allty/JSONCom.php:60-64 | comment-free text, a line comment, a newline and a comment-free line yield the text, the newline and that line |
| `JSONCom.RemoveCommentsCutsHeaderAndTrailer` | lib/Allty/JSONCom.php:60-64 | a comment line, a newline, comment-free text and a trailing line comment yield the newline and the text |
| `JSONCom.LineCommentInsideBlockPasses` | lib/Allty/JSONCom.php:63-64 | the line pattern turns `/* a // b */ 1` into `/* a `, which the block pattern leaves unchanged |
| `JSONCom.LineCommentInsideBlock` | lib/Allty/JSONCom.php:63-64 | because the line pattern runs first, `/* a // b */ 1` yields `/* a `, an unterminated block that survives |
| `JSONCom.BlockPassRemovesWholeBlock` | lib/Allty/JSONCom.php:63 | the block pattern alone would turn `/* a // b */ 1` into ` 1` |
| `JSONCom.PassOrderMatters` | lib/Allty/JSONCom.php:63-64 | on `/* a // b */ 1` the two substitutions give different results in the two orders: `/* a ` as the code applies them, ` 1` the other way round |
| `JSONCom.ExampleTrailingLineComment` | lib/Allty/JSONCom.php:60-64 | `{"a": 1} // trailing` followed by a newline and `{"b": 2}` yields `{"a": 1} `, the newline and `{"b": 2}` |
| `JSONCom.ExampleMultiLineBlock` | lib/Allty/JSONCom.php:60-64 | a block comment spanning a newline inside `{"a": /* x`, newline, `y */ 1}` is removed whole, leaving `{"a":  1}` |
| `JSONCom.ExampleHeaderAndTrailing` | lib/Allty/JSONCom.php:60-64 | a `#` header line and a trailing `;` comment are both cut, and the header's newline is kept |
| `JSONCom.ExampleOnlyComment` | lib/Allty/JSONCom.php:60-64 | `// just a comment` yields `""` |
| `JSONCom.Decode` | lib/Allty/JSONCom.php:34-49 | `decode` succeeds exactly for string arguments; its error message names the type it was given |
| `JSONCom.DecodeRejectsNonString` | lib/Allty/JSONCom.php:36-38 | a non-string raises the invalid-argument error with the message `Parameter $str must be a string. "<type>" given.`, whatever the JSON decoder is |
| `JSONCom.DecodeHandsStrippedText` | lib/Allty/JSONCom.php:40-44 | a string reaches the JSON decoder as `""` when PHP-empty and otherwise as the two-pass stripped text, with `assoc`, `depth` and `options` passed through; that text is a subsequence of the argument with no `#`, `;`, `//` and no complete block comment |
| `JSONCom.DecodeZero` | lib/Allty/JSONCom.php:40-62 | `decode("0")` hands `""` to the JSON decoder, not `"0"` |
| `JSONCom.DecodeCommentFree` | lib/Allty/JSONCom.php:40-64 | comment-free text other than `"0"` reaches the JSON decoder untouched |
| `JSONCom.DecodeHeaderAndTrailing` | lib/Allty/JSONCom.php:34-44 | with the default `assoc` (false), depth (512) and options (0), the commented document reaches the decoder as its stripped middle line |

## Left out

- `json_decode` (lib/Allty/JSONCom.php:44, 48) is a PHP built-in. It is the
  parameter `jsonDecode` of `Decode`, applied to the stripped text and to
  `assoc`, `depth` and `options`. What it returns, including `NULL` for
  invalid JSON, is not modelled.
- The PHP version check at lib/Allty/JSONCom.php:43-48 is left out. Only
  the four-argument call is modelled. Older PHP versions drop `options`.
- PCRE's backtracking and JIT stack limits are not modelled. On very long
  block comments they can make `preg_replace` fail and return `NULL`.
- The exception class `JSONComInvalidArgumentException`
  (lib/Allty/JSONCom.php:69) and its parent class become the single error
  variant `InvalidArgument(message)`.
- Floating-point PHP values carry no payload (`Php.Float`). Only their type
  name matters here.
- PHP's default argument values become the constants `DefaultAssoc`,
  `DefaultDepth` and `DefaultOptions` instead of optional parameters.
