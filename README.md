# tix-cli: ticket template parser and wire encodings

Tix is a ticket tracker. Its command-line front end hands every operation to a
prebuilt engine library through a C interface. This project models the two
parts of the front end that hold logic of their own:

- **The ticket template parser** (`parse_ticket_template` in `src/editor.rs`).
  When a ticket is written in an editor, the edited template is read line by
  line:
  - the first `---` line opens the header, where `Title:` and `Priority:` lines
    set the title and the priority;
  - the second `---` line closes the header and opens the body;
  - every later line that is neither a `#` comment nor a `---` line is body
    text.

  The parser never fails. After parsing, `open_editor_for_ticket` aborts when
  the title is empty.
- **The wire encodings of `Priority` and `Status`** (`src/ffi/priority.rs`,
  `src/ffi/status.rs`). Each variant crosses the C boundary as one byte.
  Priority filter lists travel as a C string of those bytes, so a NUL byte
  inside one makes `list` fail with `InvalidArgument`.

Modules, one per component:

- `Wrappers`: `Option` and `Result`.
- `AsciiText`: the `str` operations the parser uses: `starts_with`,
  `strip_prefix`, `trim`, `to_lowercase` and `join`.
- `CBytes`: the `u8` type and `CString::new`.
- `Priorities` and `Statuses`: the two enums and their byte encodings.
- `ListFilters`: the NUL check that `list` applies to its filter arguments.
- `Editor`: the parser and the empty-title check.
- `TemplateProperties`: what the parser promises, proved as lemmas.

`Editor.ParseTicketTemplate` follows the source loop: it keeps the two flags
`inHeader` and `inBody`, overwrites the title and the priority, and appends to
the body. It is proved equal to `Editor.Parse`, which describes the result
without the flags. `Parse` counts the `---` lines before each line, called its
depth. Header lines are at depth 1 and body lines at depth 2 or more. The loop
invariants link the flags to the depth: `inHeader` holds when the depth is odd,
and `inBody` holds when the depth is at least 2.

Besides `a`, `b`, `c` and `z`, `Priority` has a fifth variant,
`Priority::None`, encoded as byte `0` (src/ffi/priority.rs:13-14). The template
parser yields it for unrecognised priority text.

## Model

| member | source | states |
|---|---|---|
| `Priorities.Encode` | src/ffi/priority.rs:3-14 | `None` is sent as byte 0; each other priority is sent as a non-zero lowercase ASCII letter |
| `Priorities.FromByte` | src/ffi/priority.rs:16-25 | decoding is total and never yields `None`; a byte that is not the encoding of its result is not `'a'`, `'b'` or `'c'`, and it decodes to `z` |
| `Priorities.EncodeInjective` | src/ffi/priority.rs:3-14 | the five priority encodings are pairwise distinct |
| `Priorities.RoundTrip` | src/ffi/priority.rs:18-22 | `from(encode(p)) == p` for `a`, `b`, `c` and `z` |
| `Priorities.NoneDoesNotRoundTrip` | src/ffi/priority.rs:14-23 | `None` is encoded as 0, and 0 decodes to `z` |
| `Priorities.DecodeThenEncode` | src/ffi/priority.rs:16-25 | decoding and re-encoding a byte gives it back exactly when it is `'a'`, `'b'`, `'c'` or `'z'` |
| `Priorities.ToBytes` | src/ffi/priority.rs:32-35 | `to_bytes` keeps the length and the order: byte `i` is the encoding of priority `i` |
| `Priorities.ToBytesNulIffNone` | src/ffi/priority.rs:32-35 | `to_bytes(v)` holds a 0 byte exactly when `v` holds `None` |
| `Priorities.ToBytesAppend` | src/ffi/priority.rs:32-35 | `to_bytes` of a concatenation is the concatenation of the `to_bytes` results |
| `Statuses.Encode` | src/ffi/status.rs:3-12 | each status is sent as a lowercase ASCII letter (`b`, `t`, `w`, `d`), never 0 |
| `Statuses.EncodeInjective` | src/ffi/status.rs:3-12 | the four status encodings are pairwise distinct |
| `Statuses.EncodeOptional` | src/ffi/add.rs:27-30 | an optional status is sent as 0 exactly when it is absent, and otherwise as its status byte |
| `Statuses.EncodeOptionalInjective` | src/ffi/add.rs:27-30 | sending 0 for an absent status is unambiguous: distinct optional statuses get distinct bytes |
| `CBytes.FirstNul` | src/ffi/list.rs:50-52 | finds the first 0 byte, or reports that there is none |
| `CBytes.CStringNew` | src/ffi/list.rs:50-52 | `CString::new` accepts exactly the byte strings without a 0 byte and keeps their bytes; otherwise it reports the first 0 byte's position |
| `ListFilters.FilterArgument` | src/ffi/list.rs:50-52 | a filter argument becomes a C string, or `InvalidArgument` when `CString::new` refuses it |
| `ListFilters.PriorityFilterRejectedIffNone` | src/ffi/list.rs:52 | the priority filter makes `list` fail with `InvalidArgument` exactly when it names `Priority::None`; otherwise its bytes are passed on unchanged |
| `ListFilters.StatusFilterAccepted` | src/ffi/list.rs:50 | a byte string made of status encodings is always accepted, so a status filter never makes `list` fail with `InvalidArgument` |
| `AsciiText.StartsWith` | src/editor.rs:47-64 | `starts_with`: the prefix is no longer than the line and equals the line's first characters (used for `---`, `#`, `Title:` and `Priority:`, all case-sensitive) |
| `AsciiText.StripPrefix` | src/editor.rs:63 | `strip_prefix` succeeds exactly when the line starts with the prefix, and then the prefix followed by the rest gives back the line |
| `AsciiText.TrimStartIndex` | src/editor.rs:63 | finds the first non-whitespace position at or after a start index |
| `AsciiText.TrimEndIndex` | src/editor.rs:63 | finds where a range ends once its trailing whitespace is cut off |
| `AsciiText.Trim` | src/editor.rs:63-68 | `trim` yields a slice of its input that neither starts nor ends with whitespace; everything cut off is whitespace; it is empty exactly when the input is all whitespace |
| `AsciiText.ToLowerChar` | src/editor.rs:69 | ASCII lowercasing moves `A`-`Z` to `a`-`z`, leaves every other character alone and keeps whitespace whitespace |
| `AsciiText.ToLower` | src/editor.rs:69 | `to_lowercase` keeps the length and lowercases each character |
| `AsciiText.Join` | src/editor.rs:83 | `join("\n")` of no lines is the empty text, and of one line is that line |
| `AsciiText.JoinSnoc` | src/editor.rs:83 | joining one more part appends the separator and that part, so the parts appear in order with one separator between neighbours |
| `AsciiText.JoinAllWhitespace` | src/editor.rs:83-84 | text joined with a whitespace separator is all whitespace exactly when every part is |
| `Editor.Depth` | src/editor.rs:47-55 | specification function: the number of lines starting with `---`; the loop invariants of `Editor.ParseTicketTemplate` tie `in_header` to an odd depth and `in_body` to a depth of at least 2 |
| `Editor.DepthAppend` | src/editor.rs:47-55 | the depth of a concatenation is the sum of the depths, so the depth never decreases as lines are read and the body, once opened, stays open |
| `Editor.TitleValue` | src/editor.rs:63 | the title a line gives is the trimmed text after `Title:`, and `""` for a line without that prefix (the `unwrap_or("")` path) |
| `Editor.TitleValueMeaning` | src/editor.rs:62-63 | the title from a `Title:` line neither starts nor ends with whitespace, and it is empty exactly when the rest of the line is whitespace |
| `Editor.PriorityFromText` | src/editor.rs:65-76 | whitespace-only priority text gives `Priority::None`; any other priority needs text that trims to one character |
| `Editor.PriorityFromTextMeaning` | src/editor.rs:64-76 | priority text names a priority exactly when, once trimmed, it is the single letter `a`, `b`, `c` or `z` in either case; that priority's wire byte is the letter; any other text, empty included, gives `None` |
| `Editor.PriorityValue` | src/editor.rs:64-76 | the priority a line gives is the one named by the text after `Priority:`, and `Priority::None` for a line without that prefix (the `unwrap_or("")` path) |
| `Editor.TitleOf` | src/editor.rs:40-63 | specification function: the title after a run of lines, set by each header `Title:` line; its meaning is stated by `TemplateProperties.NoTitleLine` and `TemplateProperties.LastTitleLineWins` |
| `Editor.PriorityOf` | src/editor.rs:41-76 | specification function: the priority after a run of lines, set by each header `Priority:` line that is not a `Title:` line; its meaning is stated by `TemplateProperties.NoPriorityLine` and `TemplateProperties.LastPriorityLineWins` |
| `Editor.BodyLinesOf` | src/editor.rs:57-60 | the body lines are at most the given lines, and each is neither a `#` comment nor a `---` line |
| `Editor.KeptLines` | src/editor.rs:57-60 | the kept body lines are at most the given lines and are neither comments nor `---` lines; a single line is kept exactly when it qualifies; when every line qualifies, all of them are kept |
| `Editor.KeptLinesAppend` | src/editor.rs:57-60 | filtering distributes over concatenation, so every qualifying line is kept, every other line is dropped, and the order is preserved |
| `Editor.BodyText` | src/editor.rs:83-88 | the body is absent exactly when every body line is whitespace only; when present it is the lines joined with `"\n"` and its trimmed text is non-empty |
| `Editor.Parse` | src/editor.rs:38-91 | specification function: the title, the body and the priority of a template, described by depth instead of flags; `Editor.ParseTicketTemplate` is proved equal to it and the `TemplateProperties` lemmas state what it yields |
| `Editor.ReadDelimiter` | src/editor.rs:47-55 | reading a `---` line adds one to the depth and changes neither the title, the priority nor the body |
| `Editor.ReadPreambleLine` | src/editor.rs:57-78 | a line before the first `---` changes nothing |
| `Editor.ReadHeaderLine` | src/editor.rs:61-77 | a header line sets the title when it starts with `Title:`, otherwise sets the priority when it starts with `Priority:`, and never touches the body |
| `Editor.ReadBodyLine` | src/editor.rs:57-60 | a line after the header is appended to the body unless it starts with `#`; the title and the priority stay as they are |
| `Editor.ParseTicketTemplate` | src/editor.rs:38-91 | parsing never fails; the flag-driven loop computes exactly `Parse(lines)`: the title, the body and the priority |
| `Editor.OpenEditorForTicket` | src/editor.rs:28-35 | after editing, the result is the parsed ticket when its title is non-empty; an empty title gives the error "Aborting due to empty ticket message"; an accepted ticket never has an empty title |
| `TemplateProperties.NoTitleLine` | src/editor.rs:40-63 | with no `Title:` line in the header, the title is `""` |
| `TemplateProperties.LastTitleLineWins` | src/editor.rs:61-63 | the title is the trimmed remainder of the last header `Title:` line; earlier ones are overwritten |
| `TemplateProperties.NoPriorityLine` | src/editor.rs:41-76 | with no `Priority:` line in the header, the priority is `z` |
| `TemplateProperties.LastPriorityLineWins` | src/editor.rs:64-76 | the priority is the one named by the last header `Priority:` line |
| `TemplateProperties.IgnoredLine` | src/editor.rs:46-78 | inserting a non-`---` line before the first `---` has no effect, and neither does a header line that starts with neither `Title:` nor `Priority:` (both prefix tests are case-sensitive) |
| `TemplateProperties.PreambleIgnored` | src/editor.rs:46-61 | the lines before the first `---` have no effect on the result |
| `TemplateProperties.NoBodyInHeader` | src/editor.rs:57-61 | before the second `---` line there are no body lines |
| `TemplateProperties.AfterHeader` | src/editor.rs:47-60 | after the second `---` line the title and the priority are settled, so `Title:`/`Priority:` lines are body text; each later line that is not a comment or `---` is appended to the body in order |
| `TemplateProperties.BodyIsKeptLines` | src/editor.rs:47-88 | when the header closes with the second `---` line, the body is built from exactly the kept lines after it, and the title and the priority come from the lines before it |
| `TemplateProperties.BodyNeverBlank` | src/editor.rs:83-88 | a present body is never empty or whitespace only; the body is absent exactly when every body line is whitespace only |
| `TemplateProperties.BlankTitleValue` | src/editor.rs:63 | a `Title:` line holding only whitespace gives `""` |
| `TemplateProperties.BlankTitleAborts` | src/editor.rs:30-33 | when the last header `Title:` line holds only whitespace, the parsed title is `""`, so `open_editor_for_ticket` aborts |
| `TemplateProperties.PriorityLetterEitherCase` | src/editor.rs:64-74 | a priority's wire letter, in upper or lower case and padded with whitespace, names that priority |

## Left out

- `build.rs`, `src/main.rs` and the `src/ffi/` wrappers other than the encodings. Those wrappers are `add`, `amend`, `mv`, `show`, `list`, `config`, `init`, `project`, `projects`, `log`, `remote`, `push`, `pull`, `clone`, `undo`, `redo` and `ticket`. They download and link the engine, parse arguments, call the engine, and convert or free C strings. Only the NUL check in `list` and the optional status byte of `add` are modelled.
- The engine library: the ticket store, undo/redo history, projects and push/pull/clone. It is not part of this model, because its code is not part of the repository.
- `Status::from(u8)` and `StatusVecExt::to_bytes` are used but not defined in `src/ffi/status.rs`. No status decoder is modelled. `ListFilters.StatusFilterAccepted` therefore holds for any byte string whose bytes are status encodings.
- The I/O of `open_editor_for_ticket`: the temporary file, the `EDITOR` variable and its exit status, and reading and removing the file. `Editor.OpenEditorForTicket` takes the edited lines as a parameter.
- `str::lines`: the parser takes the content already split into lines. The stripping of a trailing `\r` is therefore not modelled.
- `AsciiText.Trim`: removes ASCII whitespace only. Rust's `trim` also removes the other Unicode `White_Space` characters.
- `AsciiText.ToLower`: folds `A`-`Z` only. Rust's `to_lowercase` applies full Unicode case mapping.
- `to_string_lossy`, clap's value names for the enums, and the content of the embedded template file. The parser is specified for arbitrary input.
- `Editor.OpenEditorForTicket`: its error is the abort message as a string, without the rest of `anyhow`'s error value.
