# STOMP frame serialisation and command vocabularies

This project models the STOMP layer of the `wade` crate in Dafny:

- `StompFrame::serialize` writes a frame in the STOMP 1.2 wire format:
  - the command text and a line feed;
  - one `key:value` line per header, with the key and the value escaped;
  - a blank line, the body verbatim, and a NUL terminator.
- Three command enumerations each have a case-sensitive `FromStr` parser:
  - `Command`, the unified vocabulary;
  - `ClientCommand`, what a client sends;
  - `ServerCommand`, what a server sends.
- `Command` and `ClientCommand` also have a `Display` renderer, which writes the variant name.

Modules, one per source file, plus shared pieces:

| module | file | models |
|---|---|---|
| `Bytes` | `bytes.dfy` | `u8` and the ASCII constants of the frame format |
| `Wrappers` | `wrappers.dfy` | `Option` and `Result` |
| `Seqs` | `seqs.dfy` | generic sequence facts the proofs share |
| `Escaping` | `escape.dfy` | the `write_escaped` table as a pure function, and its inverse |
| `Frame` | `frame.dfy` | `StompFrame`, the byte buffer, and `serialize` as imperative methods proved equal to the pure wire form `Serialized` |
| `Commands` | `command.dfy` | `Command` with `from_str` and `Display` |
| `ClientCommands` | `client.dfy` | `ClientCommand` with `from_str` and `Display` |
| `ServerCommands` | `server.dfy` | `ServerCommand` with `from_str` |
| `Vocabulary` | `vocabulary.dfy` | how the three parsers relate |

How the source maps to Dafny:
- A byte is carried as the character whose code is that byte (`type byte = c: char | c <= 0xFF as char`).
  - The Rust byte literal `b'\n'` is `'\n'`.
  - A byte-string literal is a Dafny string literal.
  - The bytes of ASCII text (`str::as_bytes`) are its characters unchanged.
- `BytesMut` is modelled as the class `Frame.Buffer`, whose `bytes` field is reassigned by `PutU8` and `PutSlice`.
- `write_escaped`, the two per-byte loops, the per-header closure and the header loop each become a method.
  - Each method's `ensures` ties the buffer's new contents to the old contents plus a pure function (`EscapeByte`, `Escape`, `HeaderLine`, `HeaderSection`).
  - `Serialize` returns exactly `Serialized(frame)`.

Escaping is stated as a tokenisation: escaped text is "well escaped" (`Escaping.WellEscaped`).
- Every backslash in it starts one of the four two-byte escape codes.
- Every other byte is unreserved.

The naive claim "every backslash in the output is followed by `r`, `n`, `c` or `\`" is false. Escaping `\a` gives `\\a`: the second backslash, read alone, is followed by `a`. The claim only holds token by token, which is what `WellEscaped` says.

## Model

| member | source | states |
|---|---|---|
| Commands.Render | src/stomp/command.rs:46-50 | `Display` writes the variant name: a non-empty word of upper-case letters |
| Commands.FromStr | src/stomp/command.rs:25-43 | an accepted string is exactly the rendering of the variant returned, never COMMIT; any other string yields the error text `'<s>' is not a valid value command!` |
| Commands.ParseRender | src/stomp/command.rs:26-41 | parsing the rendering of any variant other than COMMIT gives that variant back |
| Commands.CommitNotParsed | src/stomp/command.rs:26-41 | COMMIT renders as `"COMMIT"`, and `from_str` rejects that string with its error text |
| Commands.AcceptedIff | src/stomp/command.rs:26-41 | a string is accepted if and only if it is the rendering of a variant other than COMMIT |
| Commands.FromStrInjective | src/stomp/command.rs:27-40 | two accepted strings that parse to the same variant are equal |
| Commands.RejectsCaseAndPadding | src/stomp/command.rs:26-41 | lower-case, capitalised, space-padded, newline-terminated and empty strings are rejected with the error text |
| Commands.FromStrWithCommit | src/stomp/command.rs:26-41 | corrected parser with a `"COMMIT"` arm: an accepted string renders its result, otherwise the error text; it agrees with `FromStr` on every other string |
| Commands.ParseRenderWithCommit | src/stomp/command.rs:4-20 | with the corrected parser, parsing inverts rendering for all fifteen variants |
| ClientCommands.Render | src/stomp/client.rs:38-42 | `Display` writes the variant name: a non-empty word of upper-case letters |
| ClientCommands.FromStr | src/stomp/client.rs:21-35 | an accepted string is exactly the rendering of the variant returned, never COMMIT; any other string yields `'<s>' is not a valid value for ClientCommand` |
| ClientCommands.ParseRender | src/stomp/client.rs:22-33 | parsing the rendering of any client variant other than COMMIT gives it back |
| ClientCommands.CommitNotParsed | src/stomp/client.rs:22-33 | COMMIT renders as `"COMMIT"`, and `from_str` rejects that string |
| ClientCommands.AcceptedIff | src/stomp/client.rs:22-33 | a string is accepted if and only if it is the rendering of a client variant other than COMMIT |
| ClientCommands.FromStrInjective | src/stomp/client.rs:23-32 | two accepted strings that parse to the same variant are equal |
| ClientCommands.RejectsServerVerbsAndCase | src/stomp/client.rs:22-33 | the four server verbs, and case or padding variants of client verbs, are rejected |
| ClientCommands.FromStrWithCommit | src/stomp/client.rs:22-33 | corrected parser with a `"COMMIT"` arm; it agrees with `FromStr` on every other string |
| ClientCommands.ParseRenderWithCommit | src/stomp/client.rs:4-16 | with the corrected parser, parsing inverts rendering for all eleven variants |
| ServerCommands.FromStr | src/stomp/server.rs:11-19 | an accepted string is the name of the variant returned; any other string yields `'<s>' is not a valid value for ServerCommand` |
| ServerCommands.FromStrBijective | src/stomp/server.rs:12-17 | each variant is produced by its own name and by no other string |
| ServerCommands.RejectsClientVerbsAndCase | src/stomp/server.rs:12-17 | client verbs and case/padding variants of server verbs are rejected |
| Vocabulary.UnionOfDirections | src/stomp/command.rs:26-41 | `Command` accepts exactly the strings `ClientCommand` or `ServerCommand` accepts, and no string is accepted by both |
| Vocabulary.ClientRenderAgrees | src/stomp/client.rs:38-42 | every client command's rendering is also the rendering of a unified `Command` |
| Escaping.EscapeByteTable | src/stomp/frame.rs:12-30 | a reserved byte (CR, LF, `:`, `\`) becomes a backslash and the code that decodes back to it; any other byte is copied alone |
| Escaping.EscapeAppend | src/stomp/frame.rs:36-38 | escaping a concatenation is the concatenation of the escapes, so byte-by-byte writing is escaping the whole text |
| Escaping.EscapeLength | src/stomp/frame.rs:12-30 | the escaped form is one byte longer than the text per reserved byte |
| Escaping.EscapeHasNoSeparators | src/stomp/frame.rs:12-30 | escaped text holds no raw colon, line feed or carriage return |
| Escaping.EscapeIsWellEscaped | src/stomp/frame.rs:12-30 | escaped text is well escaped: each backslash starts one of the four escape codes |
| Escaping.UnescapeEscape | src/stomp/frame.rs:12-30 | unescaping the escaped form gives back the original text |
| Escaping.EscapeUnescape | src/stomp/frame.rs:12-30 | whatever unescaping accepts is the escaped form of its result |
| Escaping.WellEscapedIffUnescapes | src/stomp/frame.rs:12-30 | text is well escaped if and only if unescaping succeeds |
| Escaping.EscapeImage | src/stomp/frame.rs:12-30 | text is the escaped form of something if and only if it is well escaped |
| Escaping.EscapeInjective | src/stomp/frame.rs:12-30 | distinct texts have distinct escaped forms |
| Escaping.EscapePlain | src/stomp/frame.rs:29 | text without reserved bytes is written unchanged |
| Frame.WriteEscaped | src/stomp/frame.rs:11-30 | `write_escaped` appends exactly the escape-table entry of the byte to the buffer |
| Frame.WriteEscapedBytes | src/stomp/frame.rs:36-38 | the per-byte loop appends the escaped form of the whole key or value |
| Frame.WriteHeader | src/stomp/frame.rs:35-44 | the closure appends escaped key, colon, escaped value and line feed |
| Frame.WriteHeaders | src/stomp/frame.rs:35-44 | `for_each` over the headers appends their lines in order |
| Frame.Serialize | src/stomp/frame.rs:32-53 | `serialize` returns exactly the wire form `Serialized(frame)`, which ends in NUL |
| Frame.HeaderSectionSnoc | src/stomp/frame.rs:35-44 | one more header appends exactly its line to the header section |
| Frame.SerializedLayout | src/stomp/frame.rs:32-53 | layout of the wire form: command, LF, header lines, LF, body, NUL, at the stated offsets and length |
| Frame.AbsentBodyIsEmptyBody | src/stomp/frame.rs:45-51 | an absent body and an empty body serialise identically |
| Frame.BareFrame | src/stomp/frame.rs:32-53 | with no headers and no body, the wire form is the command followed by `\n\n\0` |
| Frame.HeaderLineSeparators | src/stomp/frame.rs:35-44 | a header line has exactly one raw colon, right after the escaped key; exactly one line feed, at its end; and no carriage return |
| Frame.HeaderLineUnique | src/stomp/frame.rs:35-44 | a header line followed by anything determines the header and the rest |
| Frame.HeaderSectionUnique | src/stomp/frame.rs:35-47 | the header section ends at the first blank line: the headers, in order and with duplicates, and everything after are determined |
| Frame.SerializedInjective | src/stomp/frame.rs:32-53 | if the command text holds no line feed, the wire form determines the command, every header in order, and the body bytes |
| Frame.ClientCommandText | src/stomp/frame.rs:33 | the command text of a client frame is non-empty and holds no line feed or NUL |
| Frame.ClientFramesInjective | src/stomp/frame.rs:32-53 | two client frames with the same wire form have the same command, headers and body bytes |
| Frame.PlainHeaderLine | src/stomp/frame.rs:35-44 | a header with no reserved bytes is written as plain `key:value\n` |
| Frame.ThreeHeaderSection | src/stomp/frame.rs:35-44 | three headers give their three lines in order |
| Frame.PlainThreeHeaderFrame | src/stomp/frame.rs:32-53 | a body-less frame with three plain headers is the command line, three `key:value` lines, a blank line and NUL |
| Frame.ShouldWriteClient | src/stomp/frame.rs:82-99 | the `should_write_client` test vector: CONNECT with headers foo, accept-version and host and no body serialises to `CONNECT\nfoo:foo\naccept-version:1.2\nhost:example.com\n\n\0` |
| Frame.ShouldWriteClientLines | src/stomp/frame.rs:83-86 | the test's expected bytes are its command line, three header lines, blank line and NUL |

## Left out

- `StompFrame::deserialize` (src/stomp/frame.rs:56-58) is `todo!()` in the source. There is nothing to model, and the `should_parse` test that calls it is out as well.
  - `Escaping.Unescape` is a specification-only inverse of escaping that the source does not have. It only states what escaping preserves.
- `should_write_server` and the module file `src/stomp/mod.rs` are not part of this model. They are a second test vector and module declarations.
- `BytesMut` capacity growth and the final `to_vec` copy are left out. The buffer is a growable sequence, and `Serialize` returns its contents.
- `Display` through `fmt::Formatter` and the derived `Debug` are left out. Rendering is the variant name as a string, which is what `write!(f, "{:?}", self)` yields for these fieldless enums.
- `ServerCommand` has no `Display` in the source. `ServerCommands.Name` is a specification-only identifier used to state what the parser accepts.
- The generic command type `T: Display` is replaced by its rendered bytes: `StompFrame.command` holds the `to_string().as_bytes()` result. For client frames these bytes are `Frame.ClientCommandText`.
- UTF-8 encoding of header and body `String`s is left out. Headers and bodies are byte strings, and command names are ASCII, so `as_bytes` is the identity on them.
- The content-length header mentioned by the source's `todo` comment (src/stomp/frame.rs:46) is not written by the source, so it is not modelled.
- Frame.ShouldWriteClient: the test's header strings enter as parameters that `requires` fixes to the test's literals. The expected bytes are written as the concatenation of the test's lines, not as one literal. Both spell the same bytes as the source.

## Findings

| source | as written | input that shows it | evidently intended | confidence | as-written member | corrected member |
|---|---|---|---|---|---|---|
| src/stomp/command.rs:26-41 | `from_str` has no arm for `"COMMIT"`, though `COMMIT` is a variant (line 9) and `Display` renders it as `"COMMIT"` | `Command::from_str("COMMIT")` returns the error `'COMMIT' is not a valid value command!` | `"COMMIT" => Ok(Command::COMMIT)`, so that parsing inverts rendering for every variant | not executed | Commands.CommitNotParsed | Commands.ParseRenderWithCommit |
| src/stomp/client.rs:22-33 | `from_str` has no arm for `"COMMIT"`, though `COMMIT` is a variant (line 9) and `Display` renders it as `"COMMIT"` | `ClientCommand::from_str("COMMIT")` returns the error `'COMMIT' is not a valid value for ClientCommand` | `"COMMIT" => Ok(ClientCommand::COMMIT)` | not executed | ClientCommands.CommitNotParsed | ClientCommands.ParseRenderWithCommit |

`FromStr` models the parsers as written. The corrected parsers `FromStrWithCommit` are what `Frame.ClientFramesInjective` uses to recover a client command from its text.
