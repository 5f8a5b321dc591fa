# eddy: a Dafny model of its project finder

`eddy` is a small Rust command-line tool. It walks a directory tree looking for
Rust projects, streams every directory that holds a `Cargo.toml` into the `skim`
fuzzy selector, and opens the chosen project's `src/main.rs` and `src/lib.rs`
side by side in `vim`. Around that sit a few pure rules: the option record
`Args`, a colour-scheme table, and a `Display` rendering for verbose output.

This project models those rules as pure Dafny functions over strings and
sequences, and proves what the code promises about them.

- `text.dfy`: a local `Option` type (module `Wrappers`), and Rust's string
  operations the program relies on (module `Text`). These are
  `str::replace`, a left-to-right, non-overlapping replace-all in which an empty
  pattern matches at every character boundary; `join`; and decimal rendering
  of numbers and booleans.
- `walk.dfy` (module `Walk`): the body of the walk loop in `main`. The walker's
  output is an abstract sequence of items. Each item is an entry (a file name
  and an optional parent display string) or an error, which `.flatten()` drops.
  An entry named exactly `Cargo.toml` that has a parent sends that parent,
  with every occurrence of the home string replaced by `~`. `RunWalker` adds
  the sends: the receiver takes the first N of them, and later sends fail and
  are ignored.
- `choice.dfy` (module `Choice`): what `main` does after the selector returns.
  An abort exits with status 0. Otherwise the choice is the query text,
  overwritten by each selected item in turn, and it is spliced into the fixed
  `vim` command template handed to `bash -c`.
- `colors.dfy` (module `ColorSchemes`): the three scheme strings and
  `colorscheme`. The random pick is an injected index.
- `args.dfy` (module `CliArgs`): `Args`, the normalisation in `Args::new`
  (the `vim` expansion and the joining of `--paths`), and `Display for Args`.
  The rendering is paired with a reader that undoes it.

When `dirs::home_dir` finds no home directory, the home string is empty. In
that case `replace("", "~")` puts a `~` before, between and after all the
characters of every candidate. The model keeps this behaviour
(`Text.InterleaveLayout`).

## Model

| member | source | states |
|---|---|---|
| `Text.ReplaceAbsent` | src/main.rs:67 | if the home string is non-empty and does not occur in the directory string, the string is sent unchanged |
| `Text.ReplaceLeading` | src/main.rs:67 | a leading occurrence of the home string becomes `~`, and the rest of the string is then processed on its own |
| `Text.ReplaceSkipsPrefix` | src/main.rs:67 | text that does not contain the pattern's first character is copied unchanged, and the replacement goes on after it |
| `Text.ReplaceCopiesUntil` | src/main.rs:67 | text in which no occurrence of the pattern starts is copied unchanged, and the replacement goes on after it |
| `Text.ReplaceAtFirst` | src/main.rs:67 | every occurrence is replaced, not only a leading one: the first occurrence becomes `~` wherever it stands, the text before it is kept, and the scan goes on after it (so `/home/u/x/home/u` with home `/home/u` becomes `~/x~`) |
| `Text.ReplaceLeavesNone` | src/main.rs:67 | when the home string is non-empty and holds no `~`, no occurrence of it is left anywhere in the string sent |
| `Text.ReplaceRoundTrip` | src/main.rs:67 | the replacement loses no information: for a string without `~`, replacing `~` back by the home string restores it exactly, including when the home string is empty |
| `Text.InterleaveLayout` | src/main.rs:20-23 | with no home directory the pattern is empty: the result has length 2n+1, with `~` at every even index and the original characters, in order, at the odd ones |
| `Walk.Emit` | src/main.rs:63-72 | an item contributes one string exactly when it is an entry named exactly `Cargo.toml` that has a parent; that string is the parent's display string after home substitution, never the file itself |
| `Walk.QualifyingPositions` | src/main.rs:63-64 | the indices of exactly the qualifying items, strictly increasing |
| `Walk.CandidatesArePositions` | src/main.rs:58-74 | there is one candidate per qualifying item, with no deduplication; the k-th candidate is the abbreviated parent of the k-th qualifying item in walk order |
| `Walk.CandidatesAppend` | src/main.rs:58-74 | the walk is processed in order: the candidates of two consecutive stretches are the first stretch's followed by the second's |
| `Walk.NonQualifyingIgnored` | src/main.rs:63-64 | inserting a non-qualifying item (another name, no parent, or a walk error) anywhere leaves the output unchanged |
| `Walk.RunWalker` | src/main.rs:57-77 | the loop attempts a send for every qualifying item whether or not earlier sends failed; the receiver gets exactly the prefix of the attempts it accepted |
| `Choice.ChosenText` | src/main.rs:101-105 | starting from the query and letting each selected item overwrite it yields the query when nothing is selected, and the last selected item otherwise |
| `Choice.ResolveChoice` | src/main.rs:101-105 | the overwrite loop ends with the same choice: the query when nothing is selected, the last selected item otherwise |
| `Choice.FormatLength` | src/main.rs:110-116 | the formatted command keeps all literal text and adds one copy of the choice per `{0}` |
| `Choice.FormatInjective` | src/main.rs:110-116 | a template with at least one `{0}` gives different strings for different choices |
| `Choice.FormatIsSubstitution` | src/main.rs:110-116 | formatting equals replacing each `{0}` in the template's text by the argument; no other character is altered |
| `Choice.EditCommandIsTemplateSubstitution` | src/main.rs:110-116 | the `vim` command is its template with the choice in both `{0}` positions and nothing else changed |
| `Choice.EditTemplateHoles` | src/main.rs:111 | the command template has exactly two `{0}` positions |
| `Choice.EditCommandInjective` | src/main.rs:110-116 | the command determines the choice it was built from |
| `Choice.Finish` | src/main.rs:96-120 | the result is exit status 0 exactly when the selection was aborted, with no command; otherwise it runs the `vim` command for the resolved choice |
| `ColorSchemes.ColorScheme` | src/lib.rs:85-105 | the result is always one of the three table entries, and `random`/`r` gives the entry at the injected index |
| `ColorSchemes.SchemesDistinct` | src/lib.rs:86-96 | the three scheme strings are pairwise different |
| `ColorSchemes.ColorSchemeChoices` | src/lib.rs:99-105 | both directions: CMYK comes exactly from `cmyk`, `c` or a random pick of 0; Outrun exactly from `outrun`, `o` or a random pick of 1; Submariner exactly from `submariner`, `s`, a random pick of 2, or any unlisted name |
| `ColorSchemes.UnknownIsSubmariner` | src/lib.rs:104 | an unlisted colour name gives the same scheme as `submariner` |
| `ColorSchemes.MainColorScheme` | src/main.rs:44-52 | `main` draws from the same three schemes and ignores the colour name; its pick equals `colorscheme` with `random` |
| `CliArgs.ExpandEditor` | src/lib.rs:61-68 | the result is never `vim`; it equals the input exactly when the input is not `vim`; a changed editor becomes `vim --not-a-term -c redraw! -O` |
| `CliArgs.ExpandEditorIdempotent` | src/lib.rs:61-68 | expanding twice gives the same as expanding once |
| `CliArgs.JoinPaths` | src/lib.rs:55-59 | with no `--paths` values the result is the empty string |
| `CliArgs.JoinPathsRoundTrip` | src/lib.rs:55-59 | the values are joined by single spaces in the given order: splitting at spaces recovers them when none contains a space |
| `CliArgs.NewArgs` | src/lib.rs:44-82 | every field is carried over unchanged, except that the editor is expanded and the paths are joined |
| `CliArgs.ParseFieldsRoundTrip` | src/lib.rs:26-39 | a run of `key=value` items, each preceded by one space, reads back to its values when no quoted value contains `"` and no bare value contains a space |
| `CliArgs.DisplayRoundTrip` | src/lib.rs:24-41 | for arguments whose strings contain no `"`, a reader that expects query, source, target, paths, editor, color (quoted), then depth, fullscreen, nopreview, verbose (bare) reads the `ARGS:` line back to the same arguments, with depth in decimal and the flags as `true`/`false` |
| `CliArgs.QuotesNotEscaped` | src/lib.rs:29-34 | quotes are not escaped: two different argument records can render to the same line |
| `Text.SplitJoin` | src/lib.rs:57 | splitting a join at a separator that appears in no part gives the parts back |
| `Text.ParseNatRoundTrip` | src/lib.rs:35 | the decimal rendering of the depth reads back as the same number |
| `Text.ReplaceAll` | src/main.rs:67 | `str::replace`: scanning left to right, each non-overlapping occurrence of the pattern becomes the replacement; what it satisfies is stated by the `Text.Replace*` rows |
| `Text.Interleave` | src/main.rs:67 | the replacement by an empty pattern, which puts `to` at every character boundary; its layout is stated by `Text.InterleaveLayout` |
| `Walk.Abbreviate` | src/main.rs:67 | the string sent for a directory: its display string with the home string replaced by `~` |
| `Walk.Candidates` | src/main.rs:58-74 | everything the walk sends, in walk order; its relation to the qualifying items is stated by `Walk.CandidatesArePositions` |
| `Choice.Format` | src/main.rs:110-116 | `format!` with one positional argument over a template cut at its `{0}` positions; what it satisfies is stated by `Choice.FormatLength`, `Choice.FormatInjective` and `Choice.FormatIsSubstitution` |
| `Choice.EditCommand` | src/main.rs:110-116 | the script handed to `bash -c` for a choice; stated by `Choice.EditCommandIsTemplateSubstitution` and `Choice.EditCommandInjective` |
| `CliArgs.Display` | src/lib.rs:24-41 | the `ARGS:` line with the ten fields in fixed order; stated by `CliArgs.DisplayRoundTrip` and `CliArgs.QuotesNotEscaped` |
| `Text.Join` | src/lib.rs:57 | `join(" ")` over the `--paths` values; stated by `Text.SplitJoin` |
| `Text.NatToString` | src/lib.rs:35 | the depth in decimal: non-empty, digits only, no leading zero; it reads back by `Text.ParseNatRoundTrip` |
| `Text.BoolText` | src/lib.rs:36-38 | a flag as `true` or `false`; it reads back by `Text.ParseBoolRoundTrip` |
| `Text.ParseBoolRoundTrip` | src/lib.rs:36-38 | a rendered flag reads back as the same boolean |

## Left out

- The directory walk (`ignore::WalkBuilder`, its depth bound, ignore rules and symlink handling) is a foreign library. Its output is an abstract item sequence that is assumed to be already depth-bounded.
- Path display (`dir.display()`) is foreign too. The parent's display string is an input of the entry.
- The worker thread and the `skim` channel (src/main.rs:54-77) are left out: their point is concurrency. Only their observable rule is kept: the receiver accepts some prefix of the sends, and failed sends are ignored.
- The code never stops early when the channel is closed, has no deduplication and no target sub-walk, and never exits with status 1. The model follows the code and has none of them.
- The `skim` UI, including `select1`, is an interactive collaborator. Only its result is modelled: the abort flag, the query text and the selected items.
- `Command::new("bash")`, stdio wiring and the `expect` on failure to start are process I/O. The model stops at the script handed to `bash -c`.
- clap's argument extraction (`value_t!`, `is_present`) and `dirs::home_dir` are foreign calls. Their values are inputs.
- CliArgs.NewArgs: it takes the already-extracted values. The errors `Args::new` returns when clap reports a missing or non-numeric argument are not modelled.
- ColorSchemes.ColorScheme: the random pick is an index supplied by the caller, required to be in range. The uniform distribution of `rand::thread_rng` is not modelled.
- `depth` is a `usize` in the source and a `nat` here; its 64-bit bound plays no part in these rules.
- `main.rs` reads `args.path`, and its clap definition defines no SOURCE, TARGET, EDITOR or COLOR, while `Args` in `lib.rs` has `source` and no `path`. The two files come from different versions. Each function is modelled as written, and this wiring is not.
- The `verbose` printing and the `panic!` on argument errors are output and process termination, so they are left out.
