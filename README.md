# selflab setup script, modelled in Dafny

`setup.py` provisions directories, configuration files and database roles for a
set of self-hosted services. Most of it is side effects. This project models the
parts that are deterministic logic:

- **`Text`** (`text.dfy`): the Python string operations the script relies on:
  `strip()`, `startswith`, `split(c, 1)`, `split(c)`, `upper()` and the substring
  test `in`.
- **`EnvFile`** (`env_file.dfy`): `load_env` and `gen_sample_env`.
  - `load_env` reads `KEY=VALUE` lines into a dictionary.
  - `gen_sample_env` writes a copy of the file with every value removed.
  - Both work on the file as a sequence of lines, each still carrying its line
    terminator.
  - `load_env` is the method `LoadEnv`, proved equal to the function `ParseEnv`.
    `gen_sample_env` is the method `GenSampleEnv`, proved equal to the function
    `SampleFile`, which holds `SampleLine(l) + "\n"` for each input line `l`.
- **`Postgres`** (`postgres.dfy`): what `PostgresExecutor.execute` does with a
  query.
  - It splits the query at every `;`, trims each piece and drops empty pieces.
  - It decides autocommit per statement from the upper-cased text.
  - It runs the statements in order and aborts at the first failure.
  - The database is a parameter `run(statement, autocommit)` that says whether
    a call succeeds.
- **`Registry`** (`registry.dfy`): the `service` decorator and the dictionaries
  it fills (`SERVICES`, `DBS`, `CADDY`).
  - Each dictionary is a `ServiceTable` object whose `lists` field the methods
    update in place.
  - A ghost registration history ties `lists` to a replay of every
    registration made so far.
- **`FileStore`** (`file_store.dfy`): `copy` and `create_file`.
  - The file system is a map from path to contents, held in a `FileSystem`
    object.
  - `get_src` and `get_dst` place a file under `templates/` and `data/` of the
    script's directory.

Points where the code's behaviour is easy to misread:

- `load_env` tests for `#` on the raw line, before trimming. An indented line
  such as ` #A=1` is therefore an assignment of key `#A`.
- `gen_sample_env` tests for `#` on the trimmed line. So the sample file copies
  such a line as a comment and drops its key (`EnvFile.IndentedComment`).
  Without such lines, every key of the file is a key of its sample
  (`EnvFile.SampleKeepsKeys`).
- Both guards `elif line:` (setup.py:53) and `0 < len(tokens) <= 2`
  (setup.py:72) always hold for real input. `LoadEnv` keeps the first guard as
  written; `GenSampleEnv` writes every non-comment line.
- Statement splitting ignores quoting: a `;` inside a string literal still
  splits.
- The autocommit test matches a command name anywhere in the statement, in any
  letter case.

## Model

| member | source | states |
|---|---|---|
| `Text.Strip` | setup.py:54 | the result of `strip()` has no whitespace at either end and is no longer than its input |
| `Text.StripBounds` | setup.py:54 | the stripped text is a contiguous piece of the input, with only whitespace before and after it |
| `Text.StripUnique` | setup.py:54 | any middle piece with only whitespace around it and none at its own ends is exactly what `strip()` returns |
| `Text.StripFirst` | setup.py:54 | a string whose first character is not whitespace keeps that character first after `strip()` |
| `Text.StripKeeps` | setup.py:54-56 | trimming removes only whitespace: a `=` or `;` occurs in a string exactly when it occurs in its strip |
| `Text.FindFirst` | setup.py:55 | `None` exactly when the character is absent; otherwise an index holding it with no earlier occurrence |
| `Text.SplitOnce` | setup.py:55 | `split(c, 1)` yields one token exactly when `c` is absent; otherwise `s == before + c + after`, with no `c` in `before` |
| `Text.SplitOnceAt` | setup.py:55 | the split happens at the first `c`: whenever `s == a + c + b` and `a` has no `c`, the tokens are `a` and `b` |
| `Text.SplitOn` | setup.py:173 | `split(';')` gives at least one piece, and no piece contains `;` |
| `Text.SplitOnCount` | setup.py:173 | `split(';')` gives exactly one more piece than there are `;` in the query |
| `Text.SplitOnJoin` | setup.py:173 | joining the pieces with `;` gives back the query |
| `Text.SplitOnAppend` | setup.py:173 | splitting `a + ";" + b` gives the pieces of `a` followed by the pieces of `b` |
| `Text.StartsWith` | setup.py:50 | `startswith('#')` holds exactly when `['#']` is a prefix of the string |
| `Text.Upper` | setup.py:175 | `upper()` keeps the length, maps each character through `UpperChar`, and leaves no lower-case ASCII letter |
| `Text.Contains` | setup.py:175 | the substring test holds exactly when the pattern occurs at some index |
| `EnvFile.ParseLine` | setup.py:50-57 | a line adds nothing exactly when its raw first character is `#` or it has no `=`; otherwise the key has no `=` and both key and value are trimmed |
| `EnvFile.ParseLineSplit` | setup.py:54-57 | an assignment is cut at the first `=` of the trimmed line: key = trimmed text before it, value = trimmed rest, which may contain `=` |
| `EnvFile.LoadEnv` | setup.py:45-58 | the loop over the lines builds exactly the dictionary `ParseEnv(lines)` |
| `EnvFile.ParseEnvKeys` | setup.py:49-57 | a key is in the dictionary exactly when some line assigns it |
| `EnvFile.Step` | setup.py:50-57 | one loop iteration: the key the line assigns gets the line's value, every other key keeps its value, no other key appears, and the dictionary grows by at most one entry |
| `EnvFile.ParseEnv` | setup.py:45-58 | the dictionary `load_env` returns, folding the lines in order; it has at most one entry per line |
| `EnvFile.LastAssignmentWins` | setup.py:57 | the value of a key is the one given by the last line that assigns it |
| `EnvFile.SampleLine` | setup.py:65-73 | a blank or `#` line is written trimmed; any other line is written so that its only `=` is the last character, so no value text is written |
| `EnvFile.SampleLineKey` | setup.py:71-73 | the text before that final `=` is the trimmed line up to its first `=`, or the whole trimmed line when it has no `=` |
| `EnvFile.SampleFile` | setup.py:61-73 | the lines `gen_sample_env` writes: exactly one per input line |
| `EnvFile.SampleFileAt` | setup.py:65-73 | line `i` of the sample file is the sample line of input line `i` followed by a newline |
| `EnvFile.GenSampleEnv` | setup.py:61-73 | the loop writes exactly the sample file `SampleFile(lines)` |
| `EnvFile.ParseLineOf` | setup.py:50-57 | conversely, a line not starting with `#` whose trimmed text is `a + "=" + b`, with no `=` in `a`, assigns the trimmed `b` to the trimmed `a` |
| `EnvFile.SampleAssignment` | setup.py:45-73 | a sample line written for a non-comment line reads back through `load_env` as its key with the empty value |
| `EnvFile.SampleValuesEmpty` | setup.py:45-73 | loading the generated sample file gives a dictionary in which every value is the empty string |
| `EnvFile.SampleKeepsKey` | setup.py:45-73 | a non-comment line that assigns a key produces a sample line that assigns the same key |
| `EnvFile.SampleKeepsKeys` | setup.py:45-73 | without indented `#` lines, every key of the file is a key of its sample |
| `EnvFile.IndentedComment` | setup.py:50-67 | a `#` line indented by whitespace that holds `=` is an assignment to a key starting with `#` for `load_env`, but its sample line is the trimmed line, which `load_env` reads as a comment |
| `Postgres.KeepStatements` | setup.py:173 | keeping the trimmed non-empty pieces yields non-empty, trimmed strings, each the strip of an input piece, and no more of them than pieces |
| `Postgres.KeepStatementsAppend` | setup.py:173 | the filter keeps order: the result for `a + b` is the result for `a` followed by the result for `b` |
| `Postgres.SplitStatements` | setup.py:173 | every statement is non-empty, trimmed and free of `;`, and there are at most (number of `;`) + 1 of them |
| `Postgres.StatementsAppend` | setup.py:173 | statements appear in query order: those of `a + ";" + b` are those of `a` followed by those of `b` |
| `Postgres.SingleStatement` | setup.py:173 | a query without `;` is one statement, its trimmed text, or none when that is empty |
| `Postgres.NeedsAutocommit` | setup.py:175-179 | autocommit exactly when the upper-cased statement contains `CREATE DATABASE`, `DROP DATABASE` or `ALTER SYSTEM` at some position |
| `Postgres.AutocommitIgnoresCase` | setup.py:175 | the autocommit decision is the same for a statement and its upper-cased form |
| `Postgres.CommandInAnyCase` | setup.py:175-179 | a statement containing one of the three commands, written in any letter case, runs with autocommit |
| `Postgres.CreateDatabaseIsAutocommit` | setup.py:175-179 | for instance, a lower-case `create database app` runs with autocommit |
| `Postgres.Plan` | setup.py:174-185 | one call per statement, in order: the statement's text and its autocommit decision |
| `Postgres.FirstFailure` | setup.py:181-188 | `None` exactly when every call succeeds; otherwise the index of a failing call with only successful calls before it |
| `Postgres.FirstFailureAt` | setup.py:181-188 | a failing call preceded only by successful ones is the first failure |
| `Postgres.RunStatements` | setup.py:174-188 | statements run in order with their autocommit flags; on the first failure the run stops after that call and reports its index and text; otherwise every statement is run |
| `Postgres.Execute` | setup.py:169-188 | the calls made for a template are a prefix of the planned calls for its substituted, split query, ending at the first failure |
| `Registry.Registered` | setup.py:37-40 | the wrapper is appended to the end of `d[name]`, created empty if absent, and to the end of `d['all']`; under `'all'` it is appended twice; other keys are unchanged |
| `Registry.ReplayLists` | setup.py:22-40 | after any registrations from `{'all': []}`, a name is a key exactly when something was registered under it, and its list holds those registrations in order; `all` holds every registration |
| `Registry.AllCoversEach` | setup.py:37-40 | every callback registered under a name is in `all` at least as many times |
| `Registry.AllRunsEverything` | setup.py:22-40 | in every reachable dictionary, each list's callbacks are contained, as a multiset, in the `all` list |
| `Registry.ServiceTable.constructor` | setup.py:22-24 | a new dictionary holds only the empty `all` group |
| `Registry.ServiceTable.Register` | setup.py:26-43 | registering updates the dictionary in place to `Registered(old, name, wrapper)` and extends the history |
| `FileStore.DataPath` | setup.py:76-77 | `get_dst`: the root, then `data`, then the file's own components |
| `FileStore.TemplatePath` | setup.py:80-81 | `get_src`: the root, then `templates`, then the file's own components |
| `FileStore.TemplateIsNeverData` | setup.py:76-81 | a template path is never a destination path |
| `FileStore.Copied` | setup.py:84-102 | `copy` never changes an existing file; it changes nothing when the template is missing; otherwise it adds the destination with the template text, substituted when `is_template` is set |
| `FileStore.CopyIdempotent` | setup.py:84-102 | copying a second time changes nothing |
| `FileStore.Created` | setup.py:105-115 | afterwards the destination exists: it holds `data` when that is non-empty, even over an existing file; otherwise its old contents, or empty if it is new; no other file changes |
| `FileStore.CreateIdempotent` | setup.py:105-115 | creating the same file with the same data twice is the same as doing it once |
| `FileStore.FileSystem.Copy` | setup.py:84-102 | updates the store in place to `Copied(old files, ...)` and reports a missing template |
| `FileStore.FileSystem.CreateFile` | setup.py:105-115 | updates the store in place to `Created(old files, ...)` |

## Left out

- `create_password` and `SALT` (setup.py:19, setup.py:124-125): bcrypt is a foreign cryptographic library with a random salt.
- `get_connection`, `_execute` and `PostgresExecutor.__init__` (setup.py:128-167): connecting to the database and running a statement is network I/O. The database is the parameter `run`, which says for each statement and autocommit flag whether the call succeeds. Configuration lookups in `__init__` are not modelled.
- `string.Template.safe_substitute` (setup.py:97-98, setup.py:170-171): a library function, modelled as the uninterpreted parameter `substitute`.
- `CaddyTemplates` and the rendering of its text with `str.format` (setup.py:191-197): library string formatting.
- `mkdir`, `chmod`, `os.chown` and the creation of parent directories (setup.py:101-102, setup.py:108-111, setup.py:118-121): ownership, permission bits and directories belong to the operating system. The model has files only, so it also leaves out the error raised when a destination's directory is missing.
- The wrapper's behaviour (setup.py:29-35): the `print` logging and the `inspect.signature` check that passes the `service` keyword. A wrapper is an opaque value.
- The per-service setup functions (setup.py:199-455): fixed sequences of helper calls with no logic of their own.
- `main` (setup.py:458-488): argument parsing. It runs the callbacks of the selected group in list order.
- Reading and writing the files themselves (`path.open`, the `.env.sample` destination): `LoadEnv` takes the file's lines, and `GenSampleEnv` returns the lines it would write.
- Printed error messages: `copy` reports a missing template through `missing`; `execute` reports the failing statement through `Outcome.Failed` instead of printing and re-raising.
- `Text.Strip`: trims only the ASCII whitespace characters (space, `\t`, `\n`, `\r`, `\v`, `\f`, `\x1c`-`\x1f`). Python's `str.strip()` also removes non-ASCII Unicode whitespace.
- `Text.Upper`: upper-cases ASCII letters only. Python's `str.upper()` also maps non-ASCII letters, some of them to several characters.
- `FileStore.Copied`: file contents are the text as Python reads it in text mode, already decoded and with `\r\n` and `\r` turned into `\n`. A template with other line endings is therefore not copied byte for byte, and the model does not show that.
- `FileStore.DataPath`: paths are sequences of relative components. pathlib's rule that an absolute right-hand operand replaces the left is not modelled, and neither is path normalisation.
