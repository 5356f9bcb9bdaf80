# archycoder: program extraction and change detection, in Dafny

This project models the core of `coder.py` in archycoder. archycoder is a coding assistant: a chat agent writes a python program into a watched file, and the user may edit that file too. The model has two parts:

- `parse_program` is a pure string routine. It splits an assistant response on the three-back-tick fence and keeps the segments at odd indices, that is, the text between fences. Of those it keeps the segments that begin with `python`. It drops their first six characters and strips surrounding whitespace. It returns `None` when no segment qualifies, fails its `assert` when more than one does, and otherwise returns a one-element list. The annotation says `str`, but the code returns a list, and its caller indexes it with `prog[0]`.
- `ProgramManager` remembers the program it last wrote (`current_program`, initially `''`). `is_program_changed` compares that snapshot with what a text-mode read of the file returns. Universal newlines turn `"\r\n"` and a lone `'\r'` into `'\n'` on the way in. So the manager reports a change when the text it reads differs from what it wrote. That includes a program of its own that holds a carriage return. It misses a user edit that only converts line endings to `"\r\n"`.

Files:

- `PyStr.dfy` (module `PyStr`) models the Python `str` built-ins that `parse_program` relies on: `split(sep)`, `startswith`, `lstrip`/`rstrip`/`strip` and the `isspace` character class. `find` is the helper `split` is defined with, and `sep.join` is there to state that `split` loses nothing. `isspace` covers ASCII whitespace, `\x1c`–`\x1f`, `\x85`, `\xa0`, U+1680, U+2000–U+200A, U+2028, U+2029, U+202F, U+205F and U+3000.
- `PyIO.dfy` (module `PyIO`) models what `f.read()` returns for a file opened with `open(name, 'r')`: the function `ReadBack`, which applies universal-newline translation.
- `Coder.dfy` (module `Coder`) holds `ParseProgram`, the lemmas about where fences fall, and the class `ProgramManager`. The class keeps the characters stored in the file in a field `fileContent` instead of touching a real file, and reads them through `ReadBack`.

`ParseProgram` returns a `Parsed` value with three cases: `NoProgram` (Python's `None`), `Program(blocks)` (the returned list) and `AssertionFailed(found)` (the `AssertionError`, carrying the list its message prints).

Only blocks that begin with `python` count. The prompt at coder.py:88 asks the agent only to put code "within a pair of triple back-ticks". So a block fenced without the tag gives `None` (`UntaggedBlockIgnored`). A back-tick right before the opening fence also gives `None`, because the split then finds the fence one place early (`BacktickBeforeFence`).

## Model

| member | source | states |
|---|---|---|
| `PyStr.Find` | coder.py:27 | `str.find`: the result is -1 exactly when the separator occurs nowhere; otherwise the separator occurs at that index and at no lower index |
| `PyStr.Split` | coder.py:27 | `s.split(sep)` always yields at least one piece; together with the lemmas below, the pieces are the text between the leftmost non-overlapping occurrences of `sep`, and they rejoin to `s` |
| `PyStr.SplitJoin` | coder.py:27 | joining the pieces of `split(sep)` with `sep` gives back the original string |
| `PyStr.SplitPiecesHaveNoSeparator` | coder.py:27 | no piece produced by `split(sep)` contains `sep` |
| `PyStr.SplitWithoutSeparator` | coder.py:27 | a string with no occurrence of the separator splits into the one-element list holding itself |
| `PyStr.SplitAtFirst` | coder.py:27 | when the first occurrence of the separator comes right after `a`, the split is `[a]` followed by the split of the rest |
| `PyStr.StartsWith` | coder.py:34 | `s.startswith(prefix)`: `prefix` is no longer than `s` and equals its first `|prefix|` characters |
| `PyStr.IsSpace` | coder.py:34 | `c.isspace()`, the characters `strip()` removes: ASCII `\t` to `\r`, `\x1c` to `\x1f` and space, `\x85`, `\xa0`, U+1680, U+2000 to U+200A, U+2028, U+2029, U+202F, U+205F and U+3000 |
| `PyStr.LStrip` | coder.py:34 | the result is a suffix of the input, everything removed is whitespace, and the result does not start with whitespace |
| `PyStr.RStrip` | coder.py:34 | the result is a prefix of the input, everything removed is whitespace, and the result does not end with whitespace |
| `PyStr.Strip` | coder.py:34 | the result is a window of the input with only whitespace outside it, and it neither starts nor ends with whitespace |
| `PyStr.StripTrimmed` | coder.py:34 | a string that neither starts nor ends with whitespace is left unchanged by `strip` |
| `PyStr.StripIdempotent` | coder.py:34 | stripping twice gives the same result as stripping once |
| `PyStr.StripPadded` | coder.py:34 | whitespace padding around a trimmed string is exactly what `strip` removes |
| `Coder.OddIndexed` | coder.py:29 | the kept elements are exactly those at odd indices, in their original order, and there are half as many (rounded down) |
| `Coder.CodeBlocks` | coder.py:27-29 | the candidate blocks are the chunks at odd indices of `message.split('```')`, in order, half as many as the chunks (rounded down) |
| `Coder.PythonBody` | coder.py:34 | `block[6:].strip()`: a window of the text after the six-character tag, with only whitespace outside it, which neither starts nor ends with whitespace |
| `Coder.PythonBlocks` | coder.py:34 | the list comprehension yields nothing exactly when no block starts with `python`, and it yields at most one body per block |
| `Coder.PythonBlocksTrimmed` | coder.py:34 | every body the comprehension yields neither starts nor ends with whitespace |
| `Coder.PythonBlocksSingle` | coder.py:34 | when exactly one block starts with `python`, the comprehension yields that block minus its first six characters, stripped, and nothing else |
| `Coder.PythonBlocksMany` | coder.py:34-38 | when two blocks start with `python`, the comprehension yields at least two bodies |
| `Coder.PythonBlocksShape` | coder.py:34-38 | the comprehension yields one body exactly when exactly one block is tagged, and two or more bodies exactly when at least two blocks are tagged |
| `Coder.ParseProgram` | coder.py:25-39 | returns `None` exactly when no candidate block starts with `python` (so also when there are no fences); fails the assertion exactly when two or more do, carrying the full list of python bodies; otherwise returns a one-element list whose element is the sole tagged block minus six characters, stripped, with no leading or trailing whitespace |
| `Coder.NoFenceNoProgram` | coder.py:27-32 | a message without a fence has no candidate block, and `parse_program` returns `None` |
| `Coder.SplitAfterProse` | coder.py:27 | a fence right after fence-free prose that does not end in a back-tick is where the first split happens: the prose is the first chunk |
| `Coder.FinalChunkIsCandidate` | coder.py:27-29 | when the chunk count is even (an odd number of fences), the text after the last fence is the last candidate block |
| `Coder.UnmatchedFinalFence` | coder.py:27-29 | for fence-free prose not ending in a back-tick, a single fence and a fence-free block after it, that block is the only candidate |
| `Coder.SplitOneFencedBlock` | coder.py:27 | for prose and a block that are fence-free and do not end in a back-tick, and a fence-free tail, the message prose, fence, block, fence, tail splits into exactly those three pieces |
| `Coder.OneFencedBlock` | coder.py:27-29 | under the conditions of `SplitOneFencedBlock`, the message has the fenced block as its only candidate |
| `Coder.SoleCandidate` | coder.py:31-39 | a message whose only candidate starts with `python` yields the one-element list of its stripped body |
| `Coder.TaggedBlockOfCode` | coder.py:34 | for trimmed, fence-free `code`, the block `python\n<code>\n` contains no fence, does not end in a back-tick and starts with the tag; its body after six characters, stripped, is `code` itself |
| `Coder.ExtractEmbeddedProgram` | coder.py:25-39 | for fence-free prose not ending in a back-tick, a fence-free tail and trimmed fence-free `code`, the message fenced as the docstring describes (prose, a fence, `python`, a newline, `code`, a newline, a fence, the tail; the shape also built at coder.py:103) gives `[code]` |
| `Coder.UntaggedBlockIgnored` | coder.py:27-36 | a block fenced only with triple back-ticks, as the prompt at coder.py:88 asks, gives `None`: the message with the single block `\nx\n` yields `NoProgram` |
| `Coder.BacktickBeforeFence` | coder.py:27-36 | a back-tick right before the opening fence makes the split find the fence one place early, so the candidate starts with a back-tick and `parse_program` returns `None` |
| `Coder.IsPythonBlock` | coder.py:34 | `block.startswith('python')`: the block's first six characters are `python`, any continuation included |
| `Coder.PythonicBlockCounts` | coder.py:34-39 | a block starting with `pythonic` counts as a python block: the message with the single block `pythonic` yields `["ic"]` |
| `PyIO.ReadBack` | coder.py:58-59 | a text-mode read returns text with no carriage return, no longer than the stored text, and empty exactly when the file is empty |
| `PyIO.ReadBackIdentity` | coder.py:58-59 | a text reads back unchanged exactly when it holds no carriage return |
| `PyIO.ReadBackIdempotent` | coder.py:58-59 | reading back what was read back changes nothing |
| `PyIO.ReadBackCrlf` | coder.py:58-59 | a text without carriage returns, stored with `"\r\n"` line endings, reads back as the text itself |
| `PyIO.ReadBackExamples` | coder.py:58-59 | `"a\r\nb"` and `"a\rb"` both read back as `"a\nb"` |
| `Coder.ProgramManager.constructor` | coder.py:43-54 | opening for append keeps an existing file's content and makes a missing file empty; the snapshot starts as `''`, so the manager reports a change exactly when the file is non-empty |
| `Coder.ProgramManager.Changed` | coder.py:67-69 | the comparison `is_program_changed` returns: the snapshot differs from the text a text-mode read of the file returns |
| `Coder.ProgramManager.GetProgram` | coder.py:56-59 | returns the file's content as a text-mode read sees it, and changes nothing |
| `Coder.ProgramManager.UpdateProgram` | coder.py:61-65 | the file and the snapshot both become the new program; a change is reported afterwards exactly when the program holds a carriage return |
| `Coder.ProgramManager.IsProgramChanged` | coder.py:67-69 | true exactly when the snapshot differs from the text read from the file; changes nothing |
| `Coder.ProgramManager.ExternalEdit` | coder.py:67-69 | an out-of-band rewrite of the file: the file gets the new content and the snapshot is left as it was |
| `Coder.DetectOutOfBandEdit` | coder.py:43-69 | across construction, update and an outside edit: a change is reported at first exactly when the existing file was non-empty, right after the update exactly when the program holds a carriage return, and after the outside edit exactly when the edited file no longer reads back as the written program |
| `Coder.LineEndingEditUnnoticed` | coder.py:58-69 | for texts without carriage returns, an edit that only converts the program's line endings to `"\r\n"` reads back as the program (no change reported), and any other edit is reported exactly when it differs from the program |

## Left out

- Real file I/O in `ProgramManager`: the file is the field `fileContent`. The constructor takes the file's prior content (`None` for a missing file). Out-of-band edits are the method `ExternalEdit`.
- Coder.ProgramManager.ExternalEdit: the file is never deleted after construction; `ExternalEdit` can only rewrite its content. In the source, deleting the watched file makes `open(self.filename, 'r')` in `get_program` raise `FileNotFoundError` (coder.py:58), so `is_program_changed` raises instead of returning (coder.py:69). The model's `GetProgram` and `IsProgramChanged` always return.
- Text encoding is not modelled: the file holds characters, and decoding errors of `f.read()` are out of scope. Writing uses the POSIX line separator, so `open(name, 'w')` stores `'\n'` as is; on Windows it would store `"\r\n"`.
- `ProgramManager.filename` is kept but plays no part: there is no filesystem in the model.
- `main`, `on_chat_message` and `on_terminal_command` (coder.py:73-126) are left out. They handle CLI arguments, the `readl` prompt, the external `archytas` agent (`query`, `add_managed_context`) and `subprocess.run`. All of that is I/O or calls into code that is not part of this model.
- `chat_window.py` and `dual_input.py` are left out: Flask routes, the HTML/JavaScript page and the module-level callback slots are web-UI plumbing.
- PyStr.Split: an empty separator is excluded by its `requires`, because Python raises `ValueError` there. `parse_program` only ever splits on the three-back-tick fence.
- The `assert` at coder.py:38 is removed when Python runs with `-O`. `parse_program` would then return the full list of python bodies even when there are several. The model follows normal execution, where the assertion fails.
- The text of the `AssertionError` message is not modelled. `AssertionFailed` carries the list that the message prints.
- The docstring of `is_program_changed` says "since the last time it was checked". The code compares against the last program *written* by `update_program`, and `is_program_changed` itself records nothing. The model follows the code.
