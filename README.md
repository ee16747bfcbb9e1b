# NotePy syntax highlighting, modelled in Dafny

NotePy is a small tkinter text editor for Python code. Its one piece of
self-contained logic is `CodeEditor.highlight_syntax` with
`CodeEditor.apply_highlighting`. Whenever the buffer is highlighted, every
tag of the text widget is removed from the whole buffer. The buffer is then
scanned three times with `re.finditer`: for the 21 reserved words, for
`"…"`/`'…'` string literals, and for `#` comments. Each match becomes a
`tag_add` of the `keyword`, `string` or `comment` tag over the match's
character offsets.

The project has four modules:

- `Patterns` (`patterns.dfy`) encodes the three fixed regular expressions
  directly, as functions that say whether the pattern matches at one position
  and where that match ends.
  - The keyword pattern `\b(def|class|…|not)\b` is the alternation
    `AlternationAt`. It tries the alternatives in the pattern's order and
    needs a `\b` before the word and after it.
  - The string pattern `("…"|'…')` is `StringAt`. Its lazy `.*?` stops at the
    first own quote or newline, because there is no DOTALL flag.
  - The comment pattern `(#.*?$)` is `CommentAt`. Under MULTILINE, `$` stops it
    at the first newline or at the end of the buffer.
  - Python's `\w` is a parameter `isWord`. The hypothesis `AgreesOnAscii`
    says that on ASCII it is `[A-Za-z0-9_]`, as in Python.
- `FindIter` (`finditer.dfy`) is `re.finditer` for a pattern that never
  matches the empty string.
  - `Scan` computes the matches. It tries each position in turn; after a match
    it resumes at the match's end.
  - `IsFindIter` describes the same result position by position. Each match
    is a real match at the first matching position at or after the previous
    match's end, and no match is left after the last one.
  - The two are proved to agree (`ScanIsFindIter`). `IsFindIter` is proved to
    determine the result (`FindIterUnique`).
- `Highlight` (`highlight.dfy`) holds the three passes `KeywordSpans`,
  `StringSpans` and `CommentSpans`, and what is proved about each.
- `Editor` (`editor.dfy`) holds the widget state, the class `CodeEditor`.
  - `text` is the buffer as `get("1.0", END)` returns it.
  - `tags` maps each tag name the widget knows to the set of offsets it covers.
  - `tag_add`, `tag_remove`, the three `for match in re.finditer` loops and
    the clearing loop over `tag_names()` are methods that update `tags`.

## Model

| member | source | states |
|---|---|---|
| `Patterns.FirstAlternative` | NotePy.py:98 | the index of the first alternative, in the pattern's order, that matches and is followed by `\b`; every earlier one fails; `None` only when every alternative fails |
| `Patterns.AlternationAt` | NotePy.py:98 | a match at p of the alternation of a word list, with `\b` before and after: it lies in the buffer, its text is one of the words, and there is a `\b` at both ends; no match means no `\b` at p or no alternative fits; for lower-case words the match is non-empty |
| `Patterns.OccurrenceIsWord` | NotePy.py:98 | when `\w` agrees with Python on ASCII, every character of a lower-case keyword occurrence is a word character |
| `Patterns.AlternationAtWholeWord` | NotePy.py:98 | at the start of a maximal word that is one of the words, the alternation matches exactly that word; a shorter alternative fails its closing `\b` |
| `Patterns.NoAlternationAtNonWord` | NotePy.py:98 | the alternation never matches at a non-word character or at the end of the buffer |
| `Patterns.KeywordsAreLowerWords` | NotePy.py:98 | the 21 reserved words are non-empty and lower-case ASCII |
| `Patterns.KeywordAt` | NotePy.py:98 | the keyword pattern at p: a match is non-empty, lies in the buffer and has a `\b` on both sides |
| `Patterns.LineStop` | NotePy.py:99-100 | the first position at or after i holding the stop character or a newline, or the buffer's end; nothing before it is either |
| `Patterns.StringAt` | NotePy.py:99 | matches exactly when the quote at p is closed by the same quote later on its line; the match runs to the first such quote, with no own quote and no newline inside |
| `Patterns.CommentAt` | NotePy.py:100 | matches exactly at a `#`; the match contains no newline and ends at a newline or at the end of the buffer |
| `FindIter.Scan` | NotePy.py:103-112 | every match found after `from` starts before it ends and stays inside the buffer |
| `FindIter.ScanIsFindIter` | NotePy.py:103-112 | the scan is `re.finditer`: each match is the leftmost one at or after the previous match's end, nothing matches in the gaps, nothing after the last match |
| `FindIter.FindIterUnique` | NotePy.py:103-112 | only one list of matches meets that description: the scan's |
| `FindIter.ScanOrdered` | NotePy.py:103-112 | matches come out in order and do not overlap: each ends at or before the next one starts |
| `FindIter.ScanFindsUncovered` | NotePy.py:103-112 | a position where the pattern matches that is not strictly inside an earlier match starts a match of its own |
| `FindIter.SpanIsMatch` | NotePy.py:103-112 | every reported match is a match of the pattern at its start |
| `FindIter.SingleMatch` | NotePy.py:103-112 | a buffer with exactly one match where the search looks yields that one match |
| `Highlight.KeywordSpans` | NotePy.py:103-104 | the keyword pass: spans are non-empty, inside the buffer, ordered and disjoint |
| `Highlight.StringSpans` | NotePy.py:107-108 | the string pass: spans are non-empty, inside the buffer, ordered and disjoint |
| `Highlight.CommentSpans` | NotePy.py:111-112 | the comment pass: spans are non-empty, inside the buffer, ordered and disjoint |
| `Highlight.KeywordSpansAreFindIter` | NotePy.py:103 | the keyword spans are `re.finditer` of the keyword pattern over the buffer |
| `Highlight.StringSpansAreFindIter` | NotePy.py:107 | the string spans are `re.finditer` of the string pattern over the buffer |
| `Highlight.CommentSpansAreFindIter` | NotePy.py:111 | the comment spans are `re.finditer` of the comment pattern over the buffer |
| `Highlight.KeywordSpansSound` | NotePy.py:98-104 | every keyword span covers one of the 21 words, with a `\b` on each side |
| `Highlight.KeywordSpansAreWords` | NotePy.py:98-104 | with `\w` as Python has it on ASCII, every keyword span is a maximal run of word characters |
| `Highlight.KeywordAtWholeWord` | NotePy.py:98 | at the start of a whole word that is a keyword, the keyword pattern matches that whole word |
| `Highlight.KeywordSpansComplete` | NotePy.py:98-104 | every whole word that is a keyword gets a keyword span |
| `Highlight.KeywordSpansExact` | NotePy.py:98-104 | a span is a keyword span if and only if it is a whole word and a keyword |
| `Highlight.KeywordNotInsideWord` | NotePy.py:98-104 | a buffer holding a single word that is not a keyword gets no keyword span, even if the word starts or ends with a keyword |
| `Highlight.LettersAreWord` | NotePy.py:98 | lower-case ASCII letters are word characters |
| `Highlight.NotAKeyword` | NotePy.py:98-104 | `input`, `define` and `elifx` are single words that are not keywords, so they get no keyword span |
| `Highlight.KeywordExamples` | NotePy.py:98-104 | `input`, `define` and `elifx` give no keyword span |
| `Highlight.StringSpansShape` | NotePy.py:99-108 | a string span has at least two characters, opens and closes with the same quote, and has no own quote and no newline inside |
| `Highlight.StringSpansComplete` | NotePy.py:99-108 | a quote closed later on its line, and not inside an earlier string span, opens a string span |
| `Highlight.EscapedQuoteEndsString` | NotePy.py:99-108 | `"a\"b"` gives the single span `"a\"`, because backslashes do not escape |
| `Highlight.CommentSpansShape` | NotePy.py:100-112 | a comment span starts at `#`, contains no newline, and ends at a newline or at the end of the buffer |
| `Highlight.CommentCoversEveryHash` | NotePy.py:100-112 | every `#` lies inside some comment span |
| `Highlight.CommentSpansOnePerLine` | NotePy.py:100-112 | consecutive comment spans are separated by a newline, so a second `#` on a line starts no span of its own |
| `Highlight.CommentExample` | NotePy.py:100-112 | `# hi\nx = 1\n` gives the single comment span over `# hi` |
| `Highlight.HashInsideString` | NotePy.py:103-112 | in `'#'` the string pass takes the literal and the comment pass still takes `#'` |
| `Highlight.KeywordInsideComment` | NotePy.py:103-112 | in `#if` the keyword pass still tags `if` |
| `Highlight.CommentOverKeyword` | NotePy.py:103-112 | in `#if` the comment pass tags the whole line |
| `Highlight.KeywordInsideString` | NotePy.py:103-112 | in `'if'` the keyword pass still tags `if` |
| `Highlight.StringOverKeyword` | NotePy.py:103-112 | in `'if'` the string pass tags the whole literal |
| `Editor.RangeMembers` | NotePy.py:104 | the offsets of `"1.0 + first chars"` up to `"1.0 + last chars"` are exactly first, …, last - 1 |
| `Editor.CoveredMembers` | NotePy.py:103-112 | an offset is covered by a list of spans exactly when one of the spans contains it |
| `Editor.CoveredInBuffer` | NotePy.py:103-112 | the spans of a pass cover only offsets inside the buffer |
| `Editor.AddSpansStep` | NotePy.py:103-104 | tagging the first i + 1 spans is tagging the first i spans, then one more `tag_add` |
| `Editor.AddSpansToCleared` | NotePy.py:87-94 | adding in-buffer spans to a tag that covers nothing makes it cover exactly those spans |
| `Editor.HighlightCleared` | NotePy.py:87-94 | highlighting a table whose tags cover nothing leaves each highlighter tag covering exactly its pass's spans, and every other tag covering nothing |
| `Editor.CodeEditor.constructor` | NotePy.py:79-83 | the widget starts with its selection tag and the three highlighter tags, all covering nothing |
| `Editor.CodeEditor.TagAdd` | NotePy.py:104 | `tag_add` adds [first, last) to the tag, cut off at the buffer's end, and creates the tag if it is new; nothing else changes |
| `Editor.CodeEditor.TagRemove` | NotePy.py:88 | `tag_remove(tag, "1.0", END)` makes a known tag cover nothing and keeps it known; nothing else changes |
| `Editor.CodeEditor.TagSpans` | NotePy.py:103-104 | one pass's loop of `tag_add` calls leaves the table as `AddSpans` describes: the tag also covers every span, cut off at the buffer's end |
| `Editor.CodeEditor.ApplyHighlighting` | NotePy.py:96-112 | the three passes in order, each adding its spans to its own tag |
| `Editor.CodeEditor.RemoveAllTags` | NotePy.py:87-88 | after the loop over `tag_names()`, every known tag is still known and covers nothing |
| `Editor.CodeEditor.HighlightSyntax` | NotePy.py:85-94 | afterwards the keyword, string and comment tags cover exactly their passes' spans over the current text; every other tag covers nothing; the set of tag names is unchanged |

## Left out

- The tkinter user interface is not modelled (NotePy.py:6-77): the window, menus, context menu, clipboard events and "About" window. It is UI plumbing with no logic to check.
- `init_tags` is reduced to the tags it creates (NotePy.py:79-83). Tag colours and the toolkit's priority compositing are rendering.
- Text indices are not modelled. `"1.0 + N chars"` is taken as character offset N, and clamping to the end of the buffer is kept. Line/column translation is the toolkit's.
- `open_file` and `save_file` are not modelled (NotePy.py:114-128). They are file dialogs and file I/O.
- The event binding that calls `highlight_syntax` on key release is not modelled. `HighlightSyntax` models one call.
- The Unicode definition of Python's `\w` is abstract. `isWord` is a parameter; the word-boundary results assume only that it agrees with `[A-Za-z0-9_]` on ASCII.
- Python's regex engine is not modelled in general. Only the three fixed patterns are encoded.
- Characters are Dafny `char`s, one per Tk index position. Tk's treatment of characters outside the Basic Multilingual Plane is not modelled.
- The toolkit's trailing newline is not modelled separately. `text` is whatever `get("1.0", END)` returns, trailing newline included, so `content` and `text` in `highlight_syntax` are the same string.
- The project's documentation describes more features than NotePy.py implements. None of these has code, so none is modelled:
  - a line-number gutter, auto-indent, find/replace and running the file;
  - highlighting of numbers, builtins, `self` and triple-quoted strings.
- The documentation also says that string literals may span lines. The code has no DOTALL flag, so the model follows the code: a string literal ends at a newline.
