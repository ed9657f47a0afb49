# ejdict-rs dictionary core, modelled in Dafny

This project models the core of ejdict-rs, an English-Japanese dictionary
library. The model covers:

- a dictionary entry (`Word`): a list of equivalent English headwords and one meaning text;
- the three match modes (`SearchMode`): `Exact` (equality), `Fuzzy` (prefix) and
  `Lower` (the headword lowercased, compared with the pattern as given);
- their text names (`to_string` / `from_str`) and the `InvalidSearchModeName` error;
- first-match lookup (`Dictionary::look`);
- the lazy candidate cursor (`Candidates::next`);
- the raw-line reader `Word::parse_line`.

The library has two nearly identical copies of this code: `crates/core/src/lib.rs`
and the earlier `ejdict_rs_core/src/lib.rs`. The earlier copy calls the cursor
`Candidate` and cannot clone it. One module, `EjdictCore` in `ejdict_core.dfy`,
models both copies.

Files:

- `wrappers.dfy`: `Option` and `Result`.
- `text.dfy` (module `Text`): the parts of Rust's `str` that the core uses.
  These are `starts_with`, an ASCII-only `to_lowercase`, and `split` / `join`
  on one character. It also proves the round trips between `Split` and `Join`.
- `ejdict_core.dfy` (module `EjdictCore`): the model of the core.
  - `Word` and `Dictionary` are datatypes. Their constructors are `Word::new` and `Dictionary::new`.
  - `Filter` is the reference definition of "the matching entries, in storage order".
  - `Candidates` is a class with the entry list, a position `pos`, the pattern, the
    mode, and a ghost record `produced` of what it has yielded so far. Its invariant
    is `produced + Filter(words[pos..]) == Filter(words)`.
- `ejdict.dfy` (module `Ejdict`): the public `look` of `src/lib.rs`. It turns "no entry"
  into `NotFound { en }`. The dictionary is passed in as a parameter instead of
  being read from the process-wide holder.
- `ejdict_tests.dfy` (module `EjdictTests`): the library's unit-test scenarios,
  stated as lemmas. One client method drives a cursor until it is exhausted.

`Lower` lowercases only the headword (`crates/core/src/lib.rs:128-130`); the
pattern is compared as given. The library's own test (`crates/core/src/lib.rs:272`)
expects pattern `"Apple"` not to match headword `"apple"`.
`LowerRejectsUppercasePattern` proves the consequence: a pattern that contains an
ASCII capital letter never matches in `Lower` mode.

Nothing in the code requires an entry to have a headword, or a headword to be
non-empty. `Word::new` accepts any list, and `parse_line` gives an empty headword
when the text before the first tab is empty, starts or ends with a comma, or
contains `,,`. `NoHeadwordsNeverMatch` states
that an entry with no headwords never matches.

## Model

| member | source | states |
|---|---|---|
| `EjdictCore.ModeNamesAreLowercase` | crates/core/src/lib.rs:148-157 | every mode's name is five lowercase ASCII letters, so lowercasing leaves it unchanged |
| `EjdictCore.SearchMode.FromStr` | crates/core/src/lib.rs:159-177 | success gives the mode whose name is the input; failure happens exactly when no mode has that name, and the error carries the input unchanged |
| `EjdictCore.FromStrToString` | ejdict_rs_core/src/lib.rs:107-136 | parsing any mode's name gives that mode back |
| `EjdictCore.ToStringInjective` | crates/core/src/lib.rs:148-157 | distinct modes have distinct names |
| `EjdictCore.Word.ParseLine` | crates/core/src/lib.rs:81-90 | needs a tab (a line without one panics). Result: at least one headword, none containing a comma; joined with commas they are the text before the first tab; the meaning is the text from the first tab to the next tab or the end of the line |
| `EjdictCore.ParseLineRoundTrip` | ejdict_rs_core/src/lib.rs:44-53 | parsing `join(ws, ",") + "\t" + mean` gives `Word(ws, mean)` when `ws` is non-empty, no headword contains a comma or tab, and `mean` has no tab |
| `EjdictCore.ParseLineIgnoresExtraFields` | crates/core/src/lib.rs:82-84 | text after a second tab is dropped: adding a tab and more text to a line that already has a tab does not change the parse |
| `EjdictCore.Word.BaseMatched` | crates/core/src/lib.rs:111-118 | `Some` exactly when some headword satisfies the callback, and then it is the word itself |
| `EjdictCore.Word.ExactMatched` | crates/core/src/lib.rs:120-122 | `Some(self)` exactly when the pattern is one of the headwords |
| `EjdictCore.Word.FuzzyMatched` | crates/core/src/lib.rs:124-126 | `Some(self)` exactly when some headword starts with the pattern |
| `EjdictCore.Word.LowerMatched` | crates/core/src/lib.rs:128-130 | `Some(self)` exactly when some headword, lowercased, equals the unmodified pattern |
| `EjdictCore.Word.Matched` | crates/core/src/lib.rs:102-109 | `Some` exactly when some headword passes the mode's test, and then it is the word itself |
| `EjdictCore.NoHeadwordsNeverMatch` | ejdict_rs_core/src/lib.rs:71-78 | an entry with an empty headword list matches nothing in any mode |
| `EjdictCore.ExactImpliesFuzzy` | ejdict_rs_core/src/lib.rs:80-86 | an exact match is also a prefix match |
| `EjdictCore.EmptyPatternFuzzyMatches` | ejdict_rs_core/src/lib.rs:84-86 | the empty pattern matches in `Fuzzy` mode exactly the entries that have a headword |
| `EjdictCore.LowerRejectsUppercasePattern` | ejdict_rs_core/src/lib.rs:88-90 | a pattern containing an ASCII capital never matches in `Lower` mode |
| `EjdictCore.ExactImpliesLowerForLowercasePattern` | crates/core/src/lib.rs:120-130 | for a pattern without ASCII capitals, an exact match is also a `Lower` match (a consequence of the ASCII fold) |
| `EjdictCore.Filter` | ejdict_rs_core/src/lib.rs:161-177 | the reference sequence of matching entries in storage order; it is never longer than the input |
| `EjdictCore.FilterMembers` | ejdict_rs_core/src/lib.rs:167-177 | an entry is in the filter exactly when it is in the list and matches |
| `EjdictCore.FilterAppend` | crates/core/src/lib.rs:212-222 | filtering a concatenation is the concatenation of the filters: order is kept and nothing is skipped or repeated |
| `EjdictCore.Dictionary.Look` | crates/core/src/lib.rs:46-48 | `None` exactly when no entry matches; otherwise the matching entry with the lowest index |
| `EjdictCore.LookIsFirstCandidate` | ejdict_rs_core/src/lib.rs:15-22 | `look` gives the first entry that `candidates` would yield, and `None` when it would yield nothing |
| `EjdictCore.Dictionary.Candidates` | crates/core/src/lib.rs:51-54 | a fresh cursor over all entries with the given pattern and mode; it has yielded nothing yet, and what remains is the whole filter |
| `EjdictCore.Candidates.constructor` | crates/core/src/lib.rs:197-203 | stores the entries, the pattern and the mode, and starts at position 0 with nothing produced |
| `EjdictCore.Candidates.Next` | crates/core/src/lib.rs:212-222 | yields the next remaining match, or `None` exactly when none remain. The cursor only moves forward: it stops just past the yielded entry, and every entry it skipped fails to match. After `None` the cursor is at the end, so every later call also gives `None`; what has been produced is then the whole filter |
| `EjdictCore.Candidates.Clone` | crates/core/src/lib.rs:182-190 | a fresh cursor in the same state: same entries, pattern, mode, position and history |
| `Ejdict.Look` | src/lib.rs:148-156 | `NotFound` naming the searched word exactly when no entry matches; otherwise the entry `Dictionary.Look` returns, the matching entry with the lowest index |
| `EjdictTests.TestDictionaryLook` | ejdict_rs_core/src/lib.rs:194-202 | on the four test entries, exact `apple` finds the first entry and exact `blue` finds the fourth |
| `EjdictTests.TestCandidatesFilter` | crates/core/src/lib.rs:250-259 | on the test entries, the `Fuzzy` matches for `apple` are entries 1, 2 and 3, in that order |
| `EjdictTests.TestDictionaryCandidates` | crates/core/src/lib.rs:250-259 | a cursor for `apple`/`Fuzzy` over the test entries yields entries 1, 2 and 3, then `None`, and `None` again on a further call |
| `EjdictTests.TestWordParseLine` | ejdict_rs_core/src/lib.rs:214-218 | `"apple\t『リンゴ』;リンゴの木"` parses to the first test entry |
| `EjdictTests.TestWordMatched` | crates/core/src/lib.rs:267-276 | the six match results of the test: `apple`/Exact and `a`/Fuzzy match; `Apple`/Lower, `blue`/Exact, `a`/Exact and `Apple`/Exact do not |
| `EjdictTests.TestSearchModeFromStr` | ejdict_rs_core/src/lib.rs:231-242 | the three names parse to their modes, and `other` fails with that text |
| `Text.StartsWithPointwise` | crates/core/src/lib.rs:125 | `s` starts with `prefix` exactly when `prefix` is no longer than `s` and agrees with it character by character; the empty prefix always holds |
| `Text.ToLowercase` | crates/core/src/lib.rs:129 | keeps the length, lowercases each character on its own, and leaves no ASCII capital |
| `Text.Split` | crates/core/src/lib.rs:82 | `split` on one character always gives at least one piece |
| `Text.SplitFirst` | crates/core/src/lib.rs:82-83 | there are two or more pieces exactly when the separator occurs, and the first piece is the text up to the first separator or the end |
| `Text.SplitPiecesAvoid` | crates/core/src/lib.rs:85-88 | no piece contains the separator |
| `Text.SplitFirstTwo` | crates/core/src/lib.rs:82-84 | when the separator occurs, the first two pieces sit side by side at the start of the string, with one separator between them and a separator or the end after the second |
| `Text.JoinSplit` | ejdict_rs_core/src/lib.rs:46-51 | joining the pieces of a split gives back the original string |
| `Text.SplitJoin` | ejdict_rs_core/src/lib.rs:48-51 | splitting a join of separator-free pieces gives back the pieces |
| `Text.SplitAppend` | ejdict_rs_core/src/lib.rs:45 | splitting `a + sep + b` gives the pieces of `a` followed by the pieces of `b` |

## Left out

- `Text.ToLowercase`: folds only ASCII `A`-`Z`. Rust's `to_lowercase` applies full Unicode case mapping, and that can change a string's length.
- `EjdictCore.Word.ParseLine`: a line without a tab makes the Rust code panic on an out-of-bounds index. The model states this as a precondition instead of modelling the panic.
- Borrowing and ownership: `look` returns a reference into the dictionary, and `candidates` consumes the dictionary. In the model both return values, and the dictionary is an immutable value.
- `Candidates` is generic over its inner iterator. The model fixes the inner iterator to the vector iterator that `Dictionary::candidates` creates, represented as the entry list plus a position.
- The accessors `Word::words`/`Word::mean` and the `From<(Vec<String>, String)>` conversion are the datatype's fields and constructor.
- Serialization (the serde derives), `Debug`/`Ord` derives and the error `Display` messages are not modelled.
- Loading the dictionary is not part of this model. That covers the build script that reads the raw file and writes JSON, the embedded JSON text, its deserialization, and the process-wide lazily initialised holder.
- The `candidates` wrapper in `src/lib.rs` only re-reads the embedded data and then calls `Dictionary::candidates`, so it is not modelled separately.
- `Ejdict.ErrorKind`: the `EnvVar` and `Serde` kinds carry foreign error values; here they carry nothing.
- `ejdict_rs/src/lib.rs` calls `candidates` with one argument, which matches neither copy of the core. It is not part of this model.
- The command-line program (argument parsing, default modes on a bad mode name, `take(number)`, table and JSON output) is not part of this model.
