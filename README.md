# FastAPI template generator: requirements manager, menu and environment decision

`create_structure.py` is an interactive script that scaffolds a FastAPI
project, creates a virtual environment and maintains `requirements.txt`. This
project models the parts of it that carry logic, and proves what they promise:

- **Requirements manager** (`manage_requirements`), module `Requirements`.
  - The **loader** turns the text of `requirements.txt` into the entry list.
    Python reads the file in text mode (universal newlines), iterates over its
    lines, strips each one, and keeps those that are not blank and whose raw
    line does not start with `#`.
  - The **session** reads package names, each stripped. `skip` in any letter
    case aborts without writing. An empty line ends the loop. Any other name is
    appended unless already present (exact string equality). It is modelled as
    the method `RunSession` over the stripped lines, whose loop updates the list
    in a local variable, proved against the function `SessionOutcome`;
    `ManageRequirements` loads the file and strips the typed lines first.
  - The **serialiser** joins the entries with `\n` and adds one `\n`.
- **Menu** (`main`), module `Menu`: a two-state loop (`AtMenu`, `Exited`)
  over the stripped choices. `RunMenu` records the operations each choice
  starts, in order, instead of running them; `MainMenu` strips the typed
  lines first.
- **Environment decision** (`create_virtual_environment`), module `Venv`:
  whether the environment is kept, created or the tool failed, and the
  activation command for the platform.
- Module `Text` models Python's `str.strip()`, with the exact whitespace set
  of `str.isspace`. It models `str.lower()` wherever the result is compared
  with an ASCII word: only `A`-`Z` and the KELVIN SIGN (U+212A) lower to an
  ASCII letter. It also models text-mode file reading.

Inputs and outputs are values:
- the file is `Option<string>`: `None` when it does not exist;
- the lines typed at the terminal are a `seq<string>`; the reply to the
  environment's overwrite question is an `Option<string>`, `None` when the
  input has ended;
- the write is `Outcome.Write(text)`;
- running the environment tool is a boolean parameter: did it succeed.

When the input runs out, Python's `input()` raises `EOFError` and nothing
catches it. This is the outcome `EndOfInput` in a session and at the
environment's overwrite question, and a menu that ends in state `AtMenu`.

The code keeps an indented comment such as `  # x` as the entry `# x`,
because it tests the raw line, not the stripped one. The model follows the
code. Once written back, that entry starts with `#` and the next load drops
it (`IndentedCommentKeptThenDropped`, `RewriteOfLoaded`). Entries are unique
only among the names added in a session: duplicate lines already in the file
are kept (the round trip holds for lists with duplicates).

## Model

| member | source | states |
|---|---|---|
| `Text.Trim` | create_structure.py:102 | `strip()` leaves no whitespace at either end of its result |
| `Text.TrimLeftSpec` | create_structure.py:102 | `lstrip` leaves the suffix of the string that starts at its first non-space character; everything before it is whitespace |
| `Text.TrimRightSpec` | create_structure.py:102 | `rstrip` leaves the prefix that ends at the last non-space character; everything after it is whitespace |
| `Text.TrimEmpty` | create_structure.py:102 | a line strips to empty exactly when all its characters are whitespace |
| `Text.TrimChars` | create_structure.py:102 | stripping only removes characters, it never adds one |
| `Text.TrimIdempotent` | create_structure.py:102 | stripping twice is stripping once |
| `Text.TrimOfTrimmed` | create_structure.py:102 | a string with no whitespace at either end is its own strip |
| `Text.TrimTrailingSpace` | create_structure.py:102 | a trailing whitespace character (such as the line's `\n`) does not change the stripped text |
| `Text.Lower` | create_structure.py:117 | lower-casing keeps the length and maps each character through `LowerChar` |
| `Text.SkipWordIsLowerSkip` | create_structure.py:117 | the character-wise skip test holds exactly when `lower()` of the input equals `skip` |
| `Text.SkipSpellings` | create_structure.py:117 | `s.lower() == 'skip'` holds exactly for the four-letter strings spelling `skip` in any mix of cases, with U+212A allowed for the `k` |
| `Text.LowerCharToSkipLetter` | create_structure.py:117 | the characters lowering to `s`, `i` and `p` are that letter in either case; those lowering to `k` are also U+212A |
| `Text.Translate` | create_structure.py:101-102 | reading in text mode leaves no carriage return; the mapping itself (`\r\n` and `\r` become `\n`) is stated by `TranslateCases` |
| `Text.TranslateCases` | create_structure.py:101-102 | text mode turns `\r\n` into `\n`, turns a `\r` not followed by `\n` into `\n`, and keeps every other character |
| `Text.TranslateIdentity` | create_structure.py:101-102 | text without carriage returns reads back unchanged |
| `Text.NewlineIndex` | create_structure.py:102 | the index found is that of the first `\n`, or the end of the text |
| `Text.FileLines` | create_structure.py:102 | every line yielded is non-empty, has no `\n` before its end, and every line but the last ends with `\n` |
| `Text.FileLinesConcat` | create_structure.py:102 | the lines yielded, put back together, are the whole text |
| `Text.FileLinesNoCarriageReturn` | create_structure.py:101-102 | splitting text without carriage returns into lines yields lines without carriage returns |
| `Text.FileLinesOfLine` | create_structure.py:102 | a newline-free text followed by `\n` is read as that single line |
| `Text.FileLinesCons` | create_structure.py:102 | a newline-free line followed by `\n` is yielded as one line, and the rest of the text is split on its own |
| `Requirements.Entries` | create_structure.py:102 | the load comprehension keeps at most one entry per line, each non-empty and already stripped |
| `Requirements.Load` | create_structure.py:100-102 | every loaded entry is non-empty, stripped, and holds no `\n` or `\r` |
| `Requirements.LoadWithoutCarriageReturn` | create_structure.py:101-102 | a file without carriage returns is loaded from its lines as written |
| `Requirements.StrippedLineHasNoBreak` | create_structure.py:102 | a line read from the file holds no `\n` once stripped |
| `Requirements.EntriesStorable` | create_structure.py:102 | every entry loaded from lines read in text mode is non-empty, stripped and free of `\n` and `\r` |
| `Requirements.Serialize` | create_structure.py:136 | the text written always ends with `\n` |
| `Requirements.SerializeHasNoCarriageReturn` | create_structure.py:136 | the text written holds a carriage return only if an entry does |
| `Requirements.EntriesOfWrittenLine` | create_structure.py:102-136 | an entry written as a line is loaded back as itself, unless it starts with `#`, and the following lines load on their own |
| `Requirements.SerializedLinesReload` | create_structure.py:102-136 | the lines of the written text load back as the entries not starting with `#` |
| `Requirements.Unhashed` | create_structure.py:102 | keeping the entries not taken for comments yields only entries of the list that do not start with `#` |
| `Requirements.ReloadSerialized` | create_structure.py:102-136 | loading the written text of storable entries gives the list back, less the entries starting with `#`; order and duplicates are kept |
| `Requirements.RoundTrip` | create_structure.py:102-136 | for entries that are non-empty, stripped, newline-free and not starting with `#`, loading the written text returns exactly the list |
| `Requirements.RewriteOfLoaded` | create_structure.py:102-136 | writing a loaded file back and loading it again drops exactly the loaded entries that start with `#` |
| `Requirements.IndentedCommentKeptThenDropped` | create_structure.py:102 | a comment line indented by whitespace is loaded as an entry without its indentation; once written, the next load drops it |
| `Requirements.FirstStop` | create_structure.py:114-122 | the loop ends at the first input that strips to empty or to `skip`; no earlier input does |
| `Requirements.RunSession` | create_structure.py:114-136 | over the stripped lines, the input loop and the write decision give exactly `SessionOutcome`, whose list is the loaded list extended as `WriteHoldsWholeList` states |
| `Requirements.ManageRequirements` | create_structure.py:93-136 | loading the file when it exists, then running the session on the stripped typed lines, gives `SessionOutcome` of the loaded list |
| `Requirements.StopAt` | create_structure.py:114-122 | after inputs that are neither empty nor `skip`, the loop stops at the next input that is, whatever follows it |
| `Requirements.AddedExtends` | create_structure.py:114-128 | nothing is removed or reordered: the list at the start of the session is a prefix of the list after any inputs |
| `Requirements.AddedMembers` | create_structure.py:124-125 | after the inputs, a string is in the list exactly when it was there before or was entered |
| `Requirements.AddedNoDuplicates` | create_structure.py:124-125 | a list without duplicates stays without duplicates |
| `Requirements.AddedIsFirstOccurrences` | create_structure.py:124-128 | the list grows by exactly the entered strings that were not already listed and not entered before, in the order first entered |
| `Requirements.AddedEmpty` | create_structure.py:124-130 | the list is empty afterwards exactly when it was empty and nothing was entered |
| `Requirements.AddOne` | create_structure.py:124-128 | an absent string is appended at the end; a present one leaves the list unchanged |
| `Requirements.AddedKnown` | create_structure.py:124-128 | entering only strings already listed leaves the list unchanged |
| `Requirements.SkipAborts` | create_structure.py:117-119 | `skip` in any case ends the session with no write, even after names were added |
| `Requirements.EmptyEnds` | create_structure.py:121-136 | an empty input ends the loop, later inputs are not read; nothing is written if the list is empty, otherwise the whole list is |
| `Requirements.NothingToDoExactly` | create_structure.py:121-132 | the session takes the "No packages to add." return (`NothingToDo`) exactly when the loaded list is empty and the first stripped input is empty; skipping and the end of the input are other outcomes |
| `Requirements.WriteHoldsWholeList` | create_structure.py:130-136 | a write serialises the whole final list, which extends the loaded list and is duplicate-free when the loaded list was |
| `Requirements.WrittenFileReloads` | create_structure.py:102-136 | the file a session writes loads back as the session's list, less entries starting with `#`, when no typed line holds a `\n` or `\r` once stripped |
| `Requirements.NewManifestExample` | create_structure.py:114-136 | with no file, entering `fastapi==0.104.1`, `uvicorn` and an empty line writes `fastapi==0.104.1\nuvicorn\n` |
| `Requirements.ReenteredPackagesRewriteSameText` | create_structure.py:102-136 | re-entering only listed packages, then an empty line, rewrites a file this tool wrote with the very same text |
| `Menu.Dispatch` | create_structure.py:173-187 | structure runs for `1` and `3`, requirements for `2` and `3`, the environment for `3` and `4`; no operation runs twice for one choice |
| `Menu.ExitIndex` | create_structure.py:183-185 | the loop ends at the first choice that strips to `5`; no earlier choice does |
| `Menu.RunMenu` | create_structure.py:160-187 | over the stripped choices, the dispatch loop produces `MenuTrace`, ends in `Exited` exactly after a `5` and in `AtMenu` when input runs out, having read up to and including the `5` |
| `Menu.MainMenu` | create_structure.py:160-187 | stripping each typed line and dispatching it gives the trace and final state of the stripped choices, reading every line when none is `5` |
| `Menu.ExitedExactly` | create_structure.py:183-185 | the session ends in `Exited` exactly when some choice is `5` |
| `Menu.ChoiceAppends` | create_structure.py:173-182 | a choice other than `5` appends the operations it names to the trace and stays at the menu |
| `Menu.ExitStops` | create_structure.py:183-185 | `5` moves to `Exited`; the choices after it are not read and start nothing |
| `Menu.FullSetupOrder` | create_structure.py:177-180 | `3` runs the structure step, then the environment, then the requirements manager |
| `Menu.InvalidChoiceRunsNothing` | create_structure.py:186-187 | an unrecognised choice starts nothing and stays at the menu |
| `Menu.TracePrefix` | create_structure.py:160-187 | operations run in the order of the choices: earlier choices' trace is a prefix of the full trace |
| `Venv.ActivationCommand` | create_structure.py:80-83 | the Windows command is chosen exactly when the platform is `win32`, the POSIX one otherwise |
| `Venv.YesSpellings` | create_structure.py:69-70 | the answer is a yes exactly when `strip().lower()` gives `y`, that is when it strips to `y` or `Y` |
| `Venv.Provisioning` | create_structure.py:62-90 | the input ending at the overwrite question (an uncaught `EOFError`) exactly when the environment exists and no reply is read; kept exactly when it exists and the reply is not yes; created exactly when it is absent or the reply is yes and the tool succeeds, with the platform's activation command; failure, with exit status 1, exactly when it is absent or the reply is yes and the tool fails |
| `Venv.DeclineRunsNoTool` | create_structure.py:67-72 | declining the overwrite keeps the environment whatever the tool or platform: the tool is not run |
| `Venv.AbsentIgnoresAnswer` | create_structure.py:67-74 | when no environment exists no question is asked: the reply, or the end of the input, changes nothing and the environment is never just kept |

## Left out

- `create_structure` (create_structure.py:12-59) creates directories and empty files with `mkdir` and `touch`. That is filesystem I/O, so it is not modelled; the menu records it as the `CreateStructure` operation.
- Filesystem access in `manage_requirements`: whether the file exists, reading it and writing it. The file's existence and contents are the parameter `manifest`; the write is the outcome `Write(text)`.
- Text decoding of the file (locale encoding, a byte-order mark, decoding errors) is not modelled: the file is a `string`. On Windows, text mode writes `\n` as `\r\n`; reading translates it back, so the model's written text is the text before that translation.
- Running `python -m venv venv` and `sys.exit(1)` (create_structure.py:76, 88-90) are foreign process calls. The tool's success is the parameter `toolSucceeded`, and exiting is the result `Failed(1)`. The error message text is not modelled.
- All `print` output is left out: the progress lines, the numbered listing of the loaded packages (create_structure.py:104-112), the package count and the "next steps" text (create_structure.py:138-154).
- `Menu.RunMenu`: the operations are recorded, not run. In the script they read from the same standard input as the menu, and `sys.exit(1)` in the environment step ends the whole process. The model gives each component its own input sequence and does not stop the menu on such an exit.
- `Text.Lower` is exact only where its result is compared with an ASCII lower-case word, which is every use the script makes of `lower()`.
- `KeyboardInterrupt` and other signals are not modelled.
