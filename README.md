# codeql-migrator workflow rewrite, modelled in Dafny

codeql-migrator moves GitHub repositories from version 2 of the CodeQL Action to
version 3. This project models the part of `migrator.py` that decides what changes on
disk. That part has three pieces:

- **the migration table** `CODEQL_UPDATES`: three `uses: github/codeql-action/...@v2`
  keys, each mapped to its `@v3` value. The text rewrite is Python's `str.replace`
  applied once per table entry, in table order.
- **`find_and_update_workflows`**: it looks in `<repo>/.github/workflows`. Each entry
  matching the glob `*.y*ml` is read as UTF-8 text with universal newlines and
  rewritten. An entry is written back only when its text changed. The function reports
  whether any entry was written.
- **`prompt_user`**: it rejects a default answer other than `y`/`n` and then reads
  lines until one is `yes`, `y`, `no` or `n` in any case. An empty line stands for the
  default.

Modules, one per file:

- `TextReplace` (`text_replace.dfy`): `str.replace` as the recursive function
  `ReplaceAll`. It covers leftmost, non-overlapping matches and Python's behaviour for
  an empty pattern. It also proves what happens when the replacement differs from the
  pattern only in a last character the pattern does not contain. Every table entry is
  of that kind: `...@v2` becomes `...@v3`.
- `CodeqlUpdates` (`codeql_updates.dfy`): the table and the fold `Rewrite` over it. The
  source's loop over the table is `RewriteContent`, and it is proved equal to the fold.
  The file holds the lemmas about the rewrite: no v2 key survives, idempotence, the
  rewrite changes a text exactly when it holds a v2 key, and, character by character,
  the output is the input with the closing `2` of every v2 key occurrence turned into
  `3`.
- `Glob` (`glob.dfy`): shell-style `*` matching. It proves that `*.y*ml` accepts
  exactly the names ending in `ml` that hold a `.y` ending before that `ml`. That
  includes `.yml` and `.yaml`, and also names such as `page.yhtml`.
- `TextRead` (`text_read.dfy`): reading in text mode. `\r\n` and a lone `\r` become
  `\n`. So a rewritten file with Windows line endings is stored back with `\n` endings.
  An untouched file keeps its exact bytes.
- `Workflows` (`workflows.dfy`): the workflow directory as the class `WorkflowDir`. It
  holds an existence flag and a map from entry names to stored contents.
  - `UpdateWorkflows` is the scan loop.
  - Its ghost fields `lastReads` and `lastWrites` record which entries the last call
    read and wrote.
  - It is proved against the specification functions `Migrated`, `WorkflowNames` and
    `ChangedNames`.
- `Prompt` (`prompt.dfy`): the answer table and the prompt loop over the sequence of
  lines the user types.

## Model

| member | source | states |
|---|---|---|
| TextReplace.ReplaceAll | migrator.py:107 | `str.replace` keeps the text's length when the pattern and its replacement have the same length |
| TextReplace.ReplaceAllChangesOnlyMatchEnds | migrator.py:107 | replacing a key by its last-character bump changes only characters that close an occurrence of the key, and each becomes the new last character |
| TextReplace.ReplaceAllHitsEveryOccurrence | migrator.py:107 | the left-to-right scan leaves no occurrence alone: inside every occurrence's span the output holds the new last character |
| TextReplace.ReplaceAllOnlyWrites | migrator.py:107 | such a replacement only overwrites characters with the new last character |
| TextReplace.ReplaceAllRemoves | migrator.py:107 | after the replacement the key no longer occurs anywhere |
| TextReplace.ReplaceAllUnchangedIff | migrator.py:107 | the replacement leaves the text unchanged exactly when the key does not occur in it |
| TextReplace.NoNewContains | migrator.py:105-107 | overwriting characters with one a key does not contain cannot create an occurrence of that key |
| TextReplace.OnlyWritesTrans | migrator.py:105-107 | two successive replacements that write the same character compose into one such overwrite, and a change made by the first survives the second |
| CodeqlUpdates.UpdatesBumpTo3 | migrator.py:30-34 | every table value is its key with the closing `2` turned into `3`, and no key contains a `3` |
| CodeqlUpdates.ApplyTable | migrator.py:105-107 | applying a table of equal-length pairs keeps the text's length |
| CodeqlUpdates.Rewrite | migrator.py:105-107 | the rewrite with `CODEQL_UPDATES` keeps the text's length |
| CodeqlUpdates.ApplyTableChangesOnlyKeyEnds | migrator.py:105-107 | applying such a table in order changes only characters that close an occurrence of one of its keys in the input, each into the bump character |
| CodeqlUpdates.ApplyTableRemovesKeys | migrator.py:105-107 | after applying the table no key of the table occurs, including keys replaced by earlier steps |
| CodeqlUpdates.ApplyTableKeepsKeyFree | migrator.py:105-107 | a text holding none of the keys is returned unchanged |
| CodeqlUpdates.ApplyTableChangesKeyed | migrator.py:105-107 | a text holding some key is changed |
| CodeqlUpdates.ApplyTableIdempotent | migrator.py:105-107 | applying the table twice gives the same text as applying it once |
| CodeqlUpdates.RewriteRemovesV2Keys | migrator.py:105-107 | no `init@v2`, `analyze@v2` or `autobuild@v2` key survives the rewrite |
| CodeqlUpdates.RewriteIdempotent | migrator.py:105-107 | rewriting already rewritten content leaves it unchanged |
| CodeqlUpdates.RewriteChangesIff | migrator.py:105-109 | the rewrite changes a text exactly when one of the three v2 keys occurs in it |
| CodeqlUpdates.RewriteChangesOnlyVersionDigits | migrator.py:105-107 | the rewrite keeps the length, and every changed character was a `2` closing a v2 key in the input and is now a `3` |
| CodeqlUpdates.RewriteBumpsEveryV2Key | migrator.py:105-107 | every occurrence of a v2 key in the input has its closing `2` turned into `3` at the same place in the output |
| CodeqlUpdates.RewriteAt | migrator.py:105-107 | the rewrite, character by character: `3` where a v2 key of the input closes, the input character everywhere else |
| CodeqlUpdates.RewriteAddsOnly3 | migrator.py:105-107 | a character other than `3` that is absent from the input is absent from the output |
| CodeqlUpdates.RewriteKeepsNewerVersion | migrator.py:30-34 | `uses: github/codeql-action/init@v4` is left exactly as it is |
| CodeqlUpdates.RewriteUnfolds | migrator.py:106-107 | the rewrite is the three `str.replace` calls in table order: init, analyze, autobuild |
| CodeqlUpdates.RewriteV2Line | migrator.py:30-34 | a line that is exactly one table key is rewritten to exactly its value |
| CodeqlUpdates.RewriteV2Lines | migrator.py:31-33 | `init@v2`, `analyze@v2` and `autobuild@v2` lines become the `init@v3`, `analyze@v3` and `autobuild@v3` lines |
| CodeqlUpdates.RewriteContent | migrator.py:105-107 | the loop over the table computes the rewrite |
| Glob.WorkflowPatternIff | migrator.py:100 | `*.y*ml` matches a name exactly when it ends in `ml` and holds a `.y` that ends before that `ml` |
| Glob.WildMatch | migrator.py:100 | glob matching where a pattern without `*` matches only itself |
| Glob.IsWorkflowFile | migrator.py:100 | the entries the scan picks up are exactly the names of that reference reading |
| Glob.WorkflowFileMatches | migrator.py:100 | `codeql.yml`, `ci.yaml` and `page.yhtml` are scanned |
| Glob.WorkflowFileSkips | migrator.py:100 | `README.md` and `ci.yml.bak` are not scanned |
| TextRead.ReadText | migrator.py:101-102 | reading in text mode never lengthens the text |
| TextRead.ReadTextHasNoCarriageReturn | migrator.py:102 | text read with universal newlines holds no `\r` |
| TextRead.ReadTextIdentityIff | migrator.py:102 | reading returns the stored contents exactly when they hold no `\r` |
| TextRead.ReadTextLineEndings | migrator.py:102 | `\r\n` and a lone `\r` are read as `\n` |
| Workflows.MigratedText | migrator.py:101-107 | the text the migrator would store for a file never grows and holds no `\r` |
| Workflows.NeedsUpdate | migrator.py:100-109 | an entry is written back exactly when it is a matching file whose text, as read, holds a v2 key |
| Workflows.MigratedTextReadsBack | migrator.py:110-111 | what the migrator writes reads back as itself |
| Workflows.MigratedHasNoV2Keys | migrator.py:100-112 | after the migration the directory has the same entries, no matching file holds a v2 key, and every non-matching entry keeps its exact contents |
| Workflows.SecondRunChangesNothing | migrator.py:93-114 | a second migration writes nothing and leaves the directory as it is |
| Workflows.VisitStep | migrator.py:109-112 | visiting one more entry adds its rewritten text when it needs an update and changes nothing otherwise |
| Workflows.WorkflowDir.constructor | migrator.py:95-96 | a directory that does not exist has no entries |
| Workflows.WorkflowDir.VisitFile | migrator.py:101-112 | one loop step reads the entry, and it stores the rewritten text and records a write exactly when the text changed |
| Workflows.WorkflowDir.UpdateWorkflows | migrator.py:93-114 | a missing directory has no entries and gives `false`, no read and no write. Otherwise the listing becomes the migrated listing, exactly the matching entries are read, exactly the entries whose text changes are written, and the result is true exactly when some entry was written |
| Prompt.LowerChar | migrator.py:67 | `str.lower` on one character: an ASCII capital becomes its small letter, anything else is kept |
| Prompt.Lower | migrator.py:73 | lower-casing keeps the length, leaves no ASCII capital and keeps every other character |
| Prompt.ValidDefault | migrator.py:67-68 | the default is accepted exactly when it is `y`, `Y`, `n` or `N` |
| Prompt.Interpret | migrator.py:73-75 | a non-empty line answers true exactly when it lower-cases to `yes` or `y`, and false exactly when it lower-cases to `no` or `n`; an empty line answers with an accepted default |
| Prompt.Hint | migrator.py:70 | the hint capitalises exactly one of the two answers |
| Prompt.Answer | migrator.py:66 | `yes`/`y` mean true, `no`/`n` mean false, and nothing else is an answer |
| Prompt.EmptyLineTakesDefault | migrator.py:70-73 | with an accepted default, an empty line answers with the default, and the hint capitalises that answer |
| Prompt.InterpretIgnoresCase | migrator.py:73 | a line answers the same as its lower-case form |
| Prompt.NonEmptyLineIgnoresDefault | migrator.py:73 | a non-empty line's answer does not depend on the default and is the table entry of its lower-case form |
| Prompt.InterpretExamples | migrator.py:73-75 | `YES` answers true, `No` false, an empty line with default `N` false, and `maybe` is no answer |
| Prompt.PromptUser | migrator.py:64-76 | an invalid default is an error before any line is read. Otherwise the answer comes from the first accepted line, all lines before it were rejected, and running out of input means every line was rejected |

## Left out

- `search_repositories`, `clone_repo`, `create_pull_request`, `parse_arguments` and
  `main`: they are network, `git` and command-line plumbing around the core.
- The `rm -rf` cleanup of each cloned repository and the `GITHUB_TOKEN` check at
  import time: these are environment effects outside the rewrite.
- Everything written to standard output: the prompt message and hint, the
  "Please respond" reminder and the progress prints. `Hint` gives the hint text only.
- Prompt.PromptUser: takes no message parameter, because the message is only printed.
- Encoding errors: file contents are modelled as already decoded text. A file that is
  not valid UTF-8 raises in the source, and that path is not modelled.
- Workflows.WorkflowDir.UpdateWorkflows: models a flat directory of regular files on a
  POSIX system. It leaves out these cases:
  - a subdirectory whose name matches the glob (opening it raises);
  - case-insensitive glob matching on Windows;
  - `\n` becoming `\r\n` on write on Windows;
  - I/O errors.
- Workflows.WorkflowDir.UpdateWorkflows: the glob's visiting order is not modelled. The
  loop visits entries in an arbitrary order, and the result does not depend on it.
- Prompt.Lower: lower-cases ASCII letters only. No other character lower-cases to a
  letter of `yes` or `no`, so every answer is decided as in the source.
