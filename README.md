# minigrep, modelled in Dafny

minigrep is a small command-line search tool. It takes a query and a file
path from the command line. It prints every line of the file that contains
the query. Case is ignored when the `IGNORE_CASE` environment variable is set
to anything but `"0"`, or when `-i` or `--ignore-case` is given.

This project models the library part of the tool, `src/lib.rs`:

- `text.dfy`, module `Text`: the standard-library string operations the filter
  relies on, written out on `seq<char>`. These are `str::contains`, per-character
  lower-casing, `str::trim` and `str::lines`. `str::lines` splits at `\n`, treats
  `\r\n` as one line ending, adds no empty last line after a final line ending,
  and gives no lines for empty text.
- `args.dfy`, module `Args`: `Config` and its resolver. This covers `Config::from`,
  `get_query_and_file_path`, `is_option`, `check_options` and `check_env`. The
  environment is a parameter (`map<string, string>`).
- `grep.dfy`, module `Grep`: `search`, `search_case_insensitive`, `_search2`,
  and the search selection made by `run`. Each search is a loop method.
  `search` and `search_case_insensitive` are proved equal to one pure filter,
  `Matching`, over `Lines(contents)`. `_search2` is proved equal to `Matching`
  with `Trim` applied to each selected line. The lemmas about `Matching` state
  what the filter keeps and in which order.
- `poem.dfy`, module `Poem`: the three unit tests of `src/lib.rs`, proved as
  lemmas about the model.
- `wrappers.dfy`, module `Wrappers`: the `Option` and `Result` datatypes.

Two behaviours of the source are worth stating plainly:

- Argument count. Resolution fails only when fewer than three RAW arguments
  are given, options included (src/lib.rs:16-18). So `prog -i duct` resolves,
  with query `"duct"` and an empty file path (`Args.ResolveCountsOptions`).
- Empty values. A resolved configuration may have an empty query or an empty
  file path: nothing rejects them. Also, an empty positional argument never
  fills the query slot, because the loop uses `query.is_empty()` to mean "not
  yet set" (src/lib.rs:67). The next positional argument takes the slot
  instead (`Args.EmptyArgumentSkipped`).

## Model

| member | source | states |
|---|---|---|
| `Text.ContainsIffOccurs` | src/lib.rs:130 | the substring scan used for `line.contains(query)` succeeds exactly when the query occurs at some offset of the line |
| `Text.ContainsLower` | src/lib.rs:150-154 | with per-character lower-casing, lower-casing both the line and the query keeps every match, so folding can only add matches |
| `Text.Trim` | src/lib.rs:144 | `trim` returns a slice `s[a..b]`; everything cut off on either side is whitespace, and the result neither starts nor ends with whitespace |
| `Text.LinesHaveNoNewline` | src/lib.rs:129 | no line contains `\n`; empty contents, and only empty contents, give no lines |
| `Text.LinesOfTerminated` | src/lib.rs:129 | round trip: lines each ended by `\n` split back into exactly those lines, so the final `\n` adds no empty line |
| `Text.LinesOfCrlfTerminated` | src/lib.rs:129 | round trip for `\r\n` endings: the pair is one line ending, and neither character stays in the line |
| `Text.SingleLine` | src/lib.rs:129 | non-empty text without `\n` is a single line, kept as it is; a lone `\r` is not a line ending |
| `Args.LoneDashIsPositional` | src/lib.rs:78-82 | the length test of `is_option` seen through the pass: a lone `-` takes the query slot like any positional, while `--` is skipped as an option |
| `Args.GetQueryAndFilePath` | src/lib.rs:59-76 | the loop returns the first non-empty positional after `args[0]` as the query and the positional right after it as the file path, with `""` for a missing value |
| `Args.PlainInvocation` | src/lib.rs:59-76 | with a non-empty query and a file path in places 1 and 2, those are the result, whatever tokens follow |
| `Args.OptionsIgnored` | src/lib.rs:63-66 | inserting an option token anywhere after `args[0]` changes neither the query nor the file path |
| `Args.EmptyArgumentSkipped` | src/lib.rs:67-69 | an empty argument in place 1 does not take the query slot; the result is as if it were absent |
| `Args.CheckOptions` | src/lib.rs:85-92 | true exactly when some target equals some `args[j]` with `j >= 1` |
| `Args.From` | src/lib.rs:15-33 | `Config::from` computes `Resolve`: an error for fewer than three raw arguments; otherwise the query, the file path and the ignore-case flag |
| `Args.ResolveFailsIffTooFew` | src/lib.rs:16-18 | resolution fails exactly when there are fewer than three raw arguments, and then with "not enough arguments" |
| `Args.ResolveIgnoreCase` | src/lib.rs:25-26 | case is ignored exactly when `IGNORE_CASE` is set and not `"0"`, or `-i` or `--ignore-case` appears after `args[0]`; either alone is enough |
| `Args.ResolveExamples` | src/lib.rs:15-33 | `prog duct` fails; `prog duct poem.txt` gives ("duct", "poem.txt", false); `-i` or `IGNORE_CASE=1` sets the flag, and `IGNORE_CASE=0` does not |
| `Args.EnvValueExamples` | src/lib.rs:100-105 | only an unset `IGNORE_CASE` or the exact value `"0"` keeps case; the empty value, `"false"` and `"00"` all ignore it, and the variable name is case-sensitive |
| `Args.ResolveCountsOptions` | src/lib.rs:16-22 | `prog -i duct` resolves: the option counts toward the three arguments, and the file path is empty |
| `Grep.MatchingExactly` | src/lib.rs:126-136 | the filter keeps exactly the matching lines, in their original order. The k-th result is the line at the k-th matching position, the positions strictly increase, and a position is included iff its line matches |
| `Grep.MatchingMembers` | src/lib.rs:126-136 | a line is in the result iff it is one of the lines and it matches |
| `Grep.EmptyQueryMatchesAll` | src/lib.rs:129-133 | an empty query returns every line, with or without case folding |
| `Grep.EmptyContentsMatchNothing` | src/lib.rs:129-133 | empty contents give an empty result for any query |
| `Grep.IgnoreCaseWidens` | src/lib.rs:149-160 | with per-character lower-casing, every position and line selected by the case-sensitive search is also selected by the case-insensitive one |
| `Grep.Search` | src/lib.rs:126-136 | the loop returns `Matching(query, Lines(contents), false)`: the lines that contain the query, in order |
| `Grep.SearchCaseInsensitive` | src/lib.rs:149-160 | the loop returns `Matching(query, Lines(contents), true)`: the original-case lines whose lower-cased text contains the lower-cased query, in order |
| `Grep.SearchTrimmed` | src/lib.rs:139-146 | the result has one entry per line matched by the untrimmed test, in order; each entry is that line trimmed |
| `Grep.Run` | src/lib.rs:109-123 | a read error is passed on unchanged; otherwise the printed lines are the case-insensitive search's result when `ignore_case` is set, and the case-sensitive search's result when it is not |
| `Poem.OneResultExample` | src/lib.rs:167-176 | in the three-line poem, "duct" finds only "safe, fast, productive." |
| `Poem.CaseSensitiveExample` | src/lib.rs:178-188 | in the four-line poem, "duct" finds only "safe, fast, productive."; "Duct tape." is excluded by case |
| `Poem.CaseInsensitiveExample` | src/lib.rs:190-203 | "rUsT" with case ignored finds "Rust:" and "Trust me.", in their original case |

## Left out

- `src/main.rs` is not part of this model. It reads the process arguments,
  prints to the terminal and exits with a status code.
- I/O in `run` (src/lib.rs:110, 118-120). Reading the file becomes a parameter
  of `Grep.Run`: either the contents or the error message. Printing becomes the
  returned list of lines.
- The environment lookup `env::var` (src/lib.rs:103) becomes a map parameter.
  A value that is not valid Unicode, which `env::var` reports as an error and
  `check_env` then treats as unset, is not modelled. Variable names are
  matched exactly, as on Linux and macOS; Windows matches them without regard
  to case, so there `ignore_case=1` would also ignore case, while
  `Args.EnvValueExamples` states the flag stays false.
- `check_options_and_get_value` (src/lib.rs:96-98) is left out. Its body is
  `todo!()`, which always panics.
- The commented-out older `from` (src/lib.rs:37-55) is left out. It is not
  compiled.
- Grep.SearchCaseInsensitive: lower-casing is per character and ASCII-only
  (`A`..`Z` to `a`..`z`). Rust's `to_lowercase` applies full Unicode case
  mapping, which depends on context and can change the length of the text.
- Text.ContainsLower, Grep.IgnoreCaseWidens: proved for per-character
  lower-casing only. The program does not have this property: Rust's
  `to_lowercase` turns a word-final `Σ` into `ς`, so for the query `"Σ"` and the
  line `"ΑΣ"`, `search` returns `["ΑΣ"]`, while `search_case_insensitive` tests
  `"ας".contains("σ")` and returns nothing.
- Grep.Search: results are returned as copies (`seq<string>`). In the source
  they are slices that borrow from the contents.
- Args.GetQueryAndFilePath: requires at least one argument. The source slices
  `args[1..]`, which panics on an empty slice; `Config::from` only calls it
  with three or more arguments.
- Args.CheckOptions: requires at least one argument when there are targets.
  The source slices `args[1..]` only inside the loop over the targets.
- Byte length and character length. `is_option` tests the byte length
  (`arg.len() > 1`). The model counts characters. Because `-` is one byte, the
  two tests agree for every string that starts with `-`.
