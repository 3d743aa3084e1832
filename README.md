# irc-rs message-tag front end, modelled in Dafny

This project models the IRCv3 message-tag front end of the irc-rs line parser
(`src/parse.rs`) and the stub message assembler around it (`src/lib.rs`).
Lines are byte sequences (`seq<bv8>`). The model follows what the nom
combinators in the code actually do, not the grammar the code aims at.

- `Nom.dfy` models the nom pieces the parser uses: the `complete` variants of
  `take_while1`, `take_till` and `tag`, plus `opt`, `is_space` and
  `is_alphanumeric`. Every recoverable nom error becomes the single `Err`.
  The sequencing combinators `delimited`, `terminated` and `pair`, and nom's
  `iterator`, are written out inline where `Parse.dfy` uses them:
  `Parse.Shortname`, `Parse.VendorPrefix`, `Parse.TagSegment`,
  `Parse.TagEntry`, `Parse.TagAssignment` and `Parse.Entries`.
- `Parse.dfy` (module `Parse`) models `src/parse.rs`.
  - The byte classes `is_control`, `is_special` with `SPECIAL`, and the
    `lower_digit` / `lower_digit_hyphen` runs.
  - `shortname` and `hostname`, from the shortname/hostname rules of section
    2.3.1 of RFC 2812.
  - The key and value checks.
  - The tag-segment parser `tags`. It is a method, `Parse.Tags`, whose loop
    advances the iterator's cursor one entry at a time. It filters each
    yielded entry and inserts it into a map. `Parse.ParseTags` is the function
    that specifies it.
- `Message.dfy` (module `Irc`) models the `Command`, `Source` and `Message`
  types and `Message::parse` as `Irc.ParseMessage`.

## How the code departs from the IRCv3 tag grammar

The model follows the code, and the lemmas state the following behaviour.

- `shortname` is `delimited(lower_digit, lower_digit_hyphen, lower_digit)`.
  What the middle run leaves is empty or starts outside `[a-z0-9-]`, so the
  closing `lower_digit` never finds a `[a-z0-9]` byte. `shortname` therefore
  fails on every input, and so does `hostname`. The vendor-prefix branch of
  `tag_key_strict` never consumes anything.
- `tag_key_strict` does not require the whole key to match. A key is valid
  exactly when, after at most one leading `+` is dropped, it is non-empty and its
  first byte is in `[a-z0-9-]`. `Foo` is dropped, but `fOO/x` is kept.
- The value of a `key=value` entry runs to the end of the segment, including
  any `;`. The entry parser then finds no `;` and fails. So no entry with a
  value is ever collected.
- The iterator stops at the first entry it cannot parse, and it never skips
  past one. Collection stops at:
  - the first empty entry;
  - the first entry containing `=`;
  - a final entry without its `;`.
  For example, `@id=234AB;rose ...` gives an empty map.
- Every collected value is empty. Tag values are never unescaped.
- `Message::parse` runs only the tag parser. The source is always
  `Some(Source { nick: None, user: None, host: "localhost" })`, the command is
  always `Nick` and the argument list is empty. It never fails.

## Model

| member | source | states |
|---|---|---|
| `Nom.IsSpace` | src/parse.rs:4 | nom's `is_space`: true exactly for space and horizontal tab; `Parse.TagSegment` and `Parse.ParseTagsFraming` use it as the end of the tag segment |
| `Nom.IsAlphanumeric` | src/parse.rs:4 | nom's `is_alphanumeric`: true exactly for ASCII `A-Z`, `a-z` and `0-9`; `Parse.IsLowerDigit` narrows it to `[a-z0-9]` |
| `Nom.TakeWhile1` | src/parse.rs:3 | fails exactly on empty input or when the first byte is outside the class; otherwise splits the input into a non-empty run of class bytes and a remainder that is empty or starts outside the class |
| `Nom.TakeTill` | src/parse.rs:3 | never fails; splits the input into a prefix with no stop byte and a remainder that is empty or starts with a stop byte |
| `Nom.TakeTillStopsAt` | src/parse.rs:3 | on a run of non-stop bytes followed by a stop byte, `take_till` returns exactly that run and leaves the stop byte |
| `Nom.Tag` | src/parse.rs:3 | succeeds exactly when the literal is a prefix of the input, and then consumes just the literal |
| `Nom.Opt` | src/parse.rs:5 | never fails; yields `None` exactly when the inner parser failed, and then consumes nothing; when the inner parser succeeds, yields its output wrapped in `Some` and leaves exactly what it left |
| `Parse.IsControl` | src/parse.rs:20-22 | true exactly for NUL, LF, CR and space; no control byte is alphanumeric or `-` |
| `Parse.IsSpecial` | src/parse.rs:24-26 | some byte of `SPECIAL` equals the given byte; exactly which bytes these are is stated by `Parse.SpecialBytes` |
| `Parse.SpecialBytes` | src/parse.rs:24-26 | `is_special` is true exactly for the nine bytes of `SPECIAL` (both square brackets, backslash, backquote, underscore, caret, both braces and the vertical bar), none of them alphanumeric or a control byte |
| `Parse.IsLowerDigit` | src/parse.rs:43 | "alphanumeric and not upper-case" is exactly `[a-z0-9]` |
| `Parse.LowerDigit` | src/parse.rs:42-44 | fails exactly on empty input or a first byte outside `[a-z0-9]`; on success consumes a non-empty `[a-z0-9]` run and leaves a remainder that is empty or starts outside the class |
| `Parse.LowerDigitHyphen` | src/parse.rs:46-48 | the same for the class `[a-z0-9-]` |
| `Parse.ShortnameNeverSucceeds` | src/parse.rs:68-70 | `shortname` fails on every input |
| `Parse.Shortname` | src/parse.rs:68-70 | `delimited(lower_digit, lower_digit_hyphen, lower_digit)` with the middle run as output; its behaviour on every input is stated by `Parse.ShortnameNeverSucceeds` |
| `Parse.Hostname` | src/parse.rs:13-18 | `shortname` followed by returning the whole input; its behaviour on every input is stated by `Parse.HostnameNeverSucceeds` |
| `Parse.HostnameNeverSucceeds` | src/parse.rs:13-18 | `hostname` fails on every input |
| `Parse.TagKey` | src/parse.rs:50-52 | fails exactly when the input is empty or starts with space, `;` or `=`; otherwise takes the maximal run of other bytes |
| `Parse.VendorPrefixNeverConsumes` | src/parse.rs:56 | the optional vendor prefix of a strict key always yields `None` and leaves the input unchanged |
| `Parse.VendorPrefix` | src/parse.rs:56 | `terminated(hostname, tag("/"))`; `Parse.VendorPrefixNeverConsumes` states that its `opt` never consumes |
| `Parse.TagKeyStrict` | src/parse.rs:54-58 | optional `+`, optional vendor prefix, then `lower_digit_hyphen`; exactly when it succeeds is stated by `Parse.ValidTagKeyIff` |
| `Parse.IsValidTagKey` | src/parse.rs:28-33 | whether `tag_key_strict` succeeds on the key; exactly when it does is stated by `Parse.ValidTagKeyIff` |
| `Parse.ValidTagKeyIff` | src/parse.rs:54-58 | a key is valid exactly when, after dropping at most one leading `+`, it is non-empty and starts with a `[a-z0-9-]` byte |
| `Parse.TagValue` | src/parse.rs:60-62 | fails exactly on empty input or a leading space; otherwise takes a non-empty run with no space that ends at the end of input or at a space |
| `Parse.TagValueStrict` | src/parse.rs:64-66 | fails exactly on empty input or a leading control byte; otherwise takes a non-empty run of non-control bytes that ends at the end of input or at a control byte |
| `Parse.IsValidTagValue` | src/parse.rs:35-40 | a value is valid exactly when it is non-empty and its first byte is not a control byte |
| `Parse.TagSegment` | src/parse.rs:73 | on success the line is `@`, then a segment with no space or tab, then a space, then the returned remainder |
| `Parse.TagSegmentAccepts` | src/parse.rs:73 | conversely, every line `@seg rest` with no space or tab in `seg` yields segment `seg` and remainder `rest` |
| `Parse.TagAssignment` | src/parse.rs:76 | succeeds exactly when the input is `=` followed by a byte other than space; the value is then the non-empty space-free run after the `=`, and what is left is empty or starts with a space, never with `;` |
| `Parse.TagEntry` | src/parse.rs:76 | the entry parser succeeds exactly when the maximal run of key bytes is non-empty and followed by `;`; it then yields that key with no value and leaves what follows the `;` |
| `Parse.ValuedEntryNeverParses` | src/parse.rs:76 | an entry `key=...` is rejected whatever follows the `=` |
| `Parse.UnterminatedEntryNeverParses` | src/parse.rs:76 | a final key without its `;` is rejected |
| `Parse.BareEntryParses` | src/parse.rs:76 | a bare key followed by `;` is always accepted, with no value |
| `Parse.Entries` | src/parse.rs:74-77 | every entry the iterator yields has a non-empty key free of space, `;` and `=`, and no value |
| `Parse.ValuedSegmentHasNoEntries` | src/parse.rs:74-77 | a segment that starts with a `key=value` entry yields no entry at all |
| `Parse.EntriesAreLeadingRun` | src/parse.rs:74-77 | the yielded keys, each followed by `;`, form a prefix of the segment, and the entry parser rejects what follows that prefix |
| `Parse.EntriesOfLeadingRun` | src/parse.rs:74-77 | conversely, a run of `;`-terminated bare keys followed by something the entry parser rejects yields exactly those keys |
| `Parse.KeepEntry` | src/parse.rs:78-85 | keeps an entry exactly when its key is valid and it has no value or a valid one; a kept entry keeps its key, and its value is the entry's value or empty when it has none |
| `Parse.FilterMap` | src/parse.rs:78 | the kept entries in order; its step is stated by `Parse.CollectStep` |
| `Parse.Collect` | src/parse.rs:86 | in-order insertion into a map, a later key replacing an earlier one; its step is stated by `Parse.CollectStep` and its keys and values for valueless entries by `Parse.CollectBareEntries` |
| `Parse.CollectStep` | src/parse.rs:78-86 | each further yielded entry adds its key and value to the map if the filter keeps it, and otherwise leaves the map unchanged |
| `Parse.Tags` | src/parse.rs:72-88 | the iterator loop with its map accumulator returns exactly the result `ParseTags` specifies |
| `Parse.ParseTags` | src/parse.rs:72-88 | the function `Irc.ParseMessage` calls and `Parse.Tags` is proved equal to; its framing is stated by `Parse.ParseTagsFraming` and `Parse.ParseTagsOfLine`, its map by `Parse.ParseTagsMap` |
| `Parse.ParseTagsFraming` | src/parse.rs:73 | `tags` succeeds exactly when the segment parser does, and then the line is `@seg rest` with no space or tab in `seg`, and `rest` is what remains |
| `Parse.ParseTagsOfLine` | src/parse.rs:72-88 | every line `@seg rest` with no space or tab in `seg` is accepted; the result is `rest` and the collected entries of `seg` |
| `Parse.CollectBareEntries` | src/parse.rs:78-86 | for entries without values, the collected map's keys are exactly the valid keys among them, and every value is empty |
| `Parse.ParseTagsMap` | src/parse.rs:78-86 | for any accepted line, the map's keys are exactly the valid keys the iterator yields from the segment, and every value is empty |
| `Parse.TagsMapOfRun` | src/parse.rs:72-88 | for `@` + (`;`-terminated bare keys + a rejected tail) + space + `rest`, the remainder is `rest`, the keys are exactly the valid keys of the run, and every value is empty |
| `Irc.ParseMessage` | src/lib.rs:32-46 | never fails. Tags are `None` exactly when `tags` fails, and then nothing is consumed. Otherwise the map and remainder are those of `tags`. The source is always `localhost` with no nick or user, the command is `Nick`, and the argument list is empty |
| `Irc.UntaggedLine` | src/lib.rs:39-45 | a line not starting with `@` gives the placeholder message with no tags, and all of the line remains |
| `Irc.TaggedLine` | src/lib.rs:39-45 | a line `@seg rest` whose segment is a run of bare keys plus a rejected tail gives tags that are exactly the valid keys of the run, all with empty values, and `rest` remains |
| `Irc.ValuedFirstEntryYieldsNoTags` | src/lib.rs:39 | a line whose segment starts with `key=value`, such as `@id=234AB;rose ...`, gives an empty tag map |

## Left out

- The iterator over `terminated(shortname, tag("."))` and its `finish()` in
  `hostname` are not modelled. That iterator is never advanced, so `finish()`
  returns the input unchanged and has no effect. Its unused `rest` binding is
  left out too.
- nom's error details are not modelled: `VerboseError` contexts and the
  `Incomplete` / `Failure` cases. Only `complete` combinators are used, so every
  failure is a recoverable error, modelled as one `Err`.
- `pair(tag("="), tag_value)` is modelled by its value part only. The `=` it
  also returns is never used.
- `HashMap` hashing and iteration order are not modelled; a Dafny `map` is
  used instead. Insertion order is kept, so a repeated key keeps its last
  value. Every value is empty, so this cannot be observed.
- Borrowed slices and their lifetimes are modelled as `seq` values. `String`
  is modelled as Dafny's `string`.
- The `rfc_defs` module is declared in `src/lib.rs` but its file is not part
  of this model.
- The unused imports inside `Message::parse` have no behaviour and are not
  modelled.
- The `it_works` unit test is not modelled; it checks only `2 + 2 == 4`.
- Source/prefix parsing is not modelled because the code does not have it. Its call is
  commented out in `Message::parse`. The same holds for command parsing,
  parameter parsing, tag-value unescaping, line-length limits and a parse
  error taxonomy.
