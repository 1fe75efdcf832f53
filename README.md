# rust_html in Dafny

A model of the two halves of rust_html, an HTML templating library for Rust.

- **The `rhtml!` macro's front end** (`rust_html_macros`):
  - `validate_input` accepts the macro's input only when it is empty or one string literal.
  - `parse_rhtml` scans the template once, left to right, with a brace-depth counter and a `skip_next` flag. It splits the template into literal HTML parts and Rust slots. `{{` and `}}` outside a slot are escaped braces.
  - `inner_rust_to_tokens` and `validate_inner_rust` check each slot as it closes.
  - The post-checks of `expand` pop the last part as the tail and check the part/slot count.
  - The message helpers `wrap_rust_compile_error` and `validate_html`.
- **The runtime template engine** (`src`):
  - A `Template` is a raw string, or a template string holding replace targets `{__RHTML_REPLACE_TARGET__i}` with one parameter template per target.
  - `build` replaces each target in index order with the trimmed build of its parameter.
  - The `Render` adapters: `Display` values are HTML-escaped, `Unescaped` text is kept as is, a `Template` renders as itself, and a `TemplateGroup` renders as its members' targets joined by newlines.

Files:

- `text.dfy` (module `Text`): the string operations the Rust code borrows from its standard library, with their own lemmas:
  - `str::replace`, `str::trim`, `join`, `contains`;
  - decimal formatting of `usize`.
- `diagnostics.dfy` (module `Diagnostics`): `rust_html_macros/src/util.rs`, written as pure functions.
  - `syn` and `proc_macro2` are an oracle: the `RustSyntax` datatype answers "does this text tokenize", "is it an identifier", "a literal", "an expression".
  - `litrs`'s literal classification is the shape of an `InputToken`.
- `macro.dfy` (module `Macro`): `parse_rhtml` and `expand` from `rust_html_macros/src/lib.rs`.
  - `ParseRhtml` is the loop, with the source's variables and `skip_next` flag, proved equal to the specification function `Lex`.
  - `Lex` is defined by one scanning step (`Step`) and the run of steps (`Run`).
  - The scan takes the slot check as a parameter of type `SlotCheck`. `Lex` instantiates it with the real check, `Checker`.
  - `Expand` is the method; `Compile` is its specification.
- `runtime.dfy` (module `Runtime`): `src/lib.rs`.
  - `Build` and `RenderGroup` are methods with the source's loops, proved against `Flatten` and `GroupTemplate`.
  - The other adapters are functions.

## Model

| member | source | states |
|---|---|---|
| Diagnostics.ValidateInput | rust_html_macros/src/util.rs:5-25 | Succeeds exactly for no tokens (giving `""`) or a single string literal (giving its value). More than one token gives an error whose text is the fixed prefix followed by the token count in decimal. A non-literal token gives the literal error. |
| Diagnostics.InnerRustToTokens | rust_html_macros/src/util.rs:59-73 | Whitespace-only slot text becomes the empty-string evaluator. Other text succeeds exactly when it tokenizes and gives tokens. The failure message quotes the text. The evaluator keeps the slot's text. |
| Diagnostics.BlankSlotAccepted | rust_html_macros/src/util.rs:59-62 | A blank slot becomes the `""` literal and passes the identifier/literal/expression check, so `{}` is accepted. |
| Diagnostics.ValidateInnerRust | rust_html_macros/src/util.rs:28-48 | Passes exactly when the tokens parse as an identifier, a literal or an expression. On failure the error is the wrapped message with the "not a valid identifer/expression/literal" prefix. |
| Diagnostics.HtmlWindow | rust_html_macros/src/util.rs:82-91 | Empty for empty HTML. Otherwise it is the `min(len-1, 19)` characters that end just before the last character. |
| Diagnostics.RustWindowAsWritten | rust_html_macros/src/util.rs:93-102 | The Rust window as the code computes it: the whole text up to 15 characters; beyond that, the prefix of length `len - 15`. |
| Diagnostics.RustWindowAsWrittenUnbounded | rust_html_macros/src/util.rs:93-102 | The 31-character slot `a; b; c; d; e; f; g; h; i; j; k`, which tokenizes but is no identifier, literal or expression, gets the 16-character window `a; b; c; d; e; f`, more than the 15 the bound names. |
| Diagnostics.RustWindow | rust_html_macros/src/util.rs:93-102 | Corrected window: a prefix of the code of at most 15 characters, and the whole code when it is that short. |
| Diagnostics.RustPartAsWritten | rust_html_macros/src/util.rs:93-109 | The Rust part of the snippet as the code builds it: the whole slot up to 15 characters; beyond that, the prefix of length `len - 15` followed by ` ...`. Never longer than the slot. |
| Diagnostics.WrapMessage | rust_html_macros/src/util.rs:76-115 | The context message as the code builds it, which the slot check reports. It starts with a quote and ends with `}' <-  ` then the prefix. Its length is bounded by the prefix, the 23-character HTML part and the slot's length. With no HTML it is exactly `'` + Rust part + `}' <-  ` + prefix. |
| Diagnostics.WrapMessageUnbounded | rust_html_macros/src/util.rs:93-111 | The message for the rejected 100-character slot `a;` repeated 50 times is more than 50 characters longer than its prefix. |
| Diagnostics.WrapMessageCorrected | rust_html_macros/src/util.rs:76-115 | The message with the corrected Rust window. It is never more than 50 characters longer than its prefix, and it equals the program's message whenever the slot has at most 15 characters. |
| Diagnostics.ReportLines | rust_html_macros/src/util.rs:142-151 | The error lines are the fragment errors in order. The doctype hint comes first exactly when the last error is the missing-body error and the HTML contains `<html>`. |
| Diagnostics.ValidateHtml | rust_html_macros/src/util.rs:133-159 | Passes exactly when the fragment errors or the document errors are empty. Otherwise the error counts the fragment errors only (not the hint) and lists the report lines joined by `,\n`. |
| Macro.CloseSlot | rust_html_macros/src/lib.rs:220-237 | Closing a slot keeps the slot text. A blank slot gives `""`. Other text succeeds exactly when it tokenizes and is an identifier, literal or expression. Text that does not tokenize fails with the tokenization error quoting it. Text that tokenizes but is rejected fails with the wrapped validation message. |
| Macro.CheckerFaithful | rust_html_macros/src/lib.rs:220-237 | Every evaluator the slot check produces is made from that slot's own text. |
| Macro.Step | rust_html_macros/src/lib.rs:162-237 | One loop iteration consumes one or two characters and stays within the input. |
| Macro.StepEscape | rust_html_macros/src/lib.rs:171-177 | Outside a slot, a doubled `{{` or `}}` adds one brace to the literal buffer and consumes both characters (line 185-188 for `}}`). |
| Macro.StepLiteral | rust_html_macros/src/lib.rs:200-206 | Outside a slot, any character other than a brace is appended to the literal buffer. |
| Macro.StepOpen | rust_html_macros/src/lib.rs:171-182 | Outside a slot, a single `{` opens a slot at depth 1 and flushes the literal buffer as a part (the transition at lines 209-217). |
| Macro.StepStray | rust_html_macros/src/lib.rs:183-198 | Outside a slot, a `}` not followed by `}` stops the scan with the unexpected-close error. |
| Macro.StepInside | rust_html_macros/src/lib.rs:178-193 | Inside a slot, any character that keeps the depth positive, nested braces included, is appended to the slot text and updates the depth. |
| Macro.StepClose | rust_html_macros/src/lib.rs:190-237 | The `}` that brings the depth to 0 runs the slot check on the slot text. On success the evaluator is appended and the slot text cleared; otherwise the check's error stops the scan. |
| Macro.ParseRhtml | rust_html_macros/src/lib.rs:152-248 | The loop over the characters, with `skip_next`, the buffers and the final checks, returns exactly `Lex` of the input. |
| Macro.StepKeepsScanned | rust_html_macros/src/lib.rs:162-237 | Every step preserves the scan invariant. Outside a slot, the parts, slots and pending literal spell the input read so far, with as many parts as slots. Inside a slot, one more part than slots and an empty literal buffer. |
| Macro.KeepClose | rust_html_macros/src/lib.rs:220-237 | Closing a slot restores the outside-a-slot invariant with one more well-formed slot. |
| Macro.RunScanned | rust_html_macros/src/lib.rs:162-247 | A successful scan from an invariant state has one more part than slots, only well-formed slots, and unlexes to the whole input. |
| Macro.LexRoundTrip | rust_html_macros/src/lib.rs:162-247 | Lex then unlex: on success there is exactly one more part than slots, every slot is well formed, and writing the parts (braces doubled) between the bracketed slots gives back the input. |
| Macro.ScanUnlexed | rust_html_macros/src/lib.rs:162-237 | Scanning the written-out form of parts and well-formed slots reaches its end with exactly those parts and slots read. |
| Macro.UnlexRoundTrip | rust_html_macros/src/lib.rs:162-247 | Unlex then lex: any parts (one more than slots) and well-formed slots, written out, scan back to exactly themselves. |
| Macro.LexCharacterization | rust_html_macros/src/lib.rs:152-248 | The scan returns given parts and slots if and only if there is one more part than slots, the slots are well formed, and they unlex to the input. |
| Macro.RunIgnoresContext | rust_html_macros/src/lib.rs:200-225 | Two slot checks that agree whenever the context is `""` give the same scan, because the literal buffer is empty inside a slot. |
| Macro.LexContextEmpty | rust_html_macros/src/lib.rs:225 | The `html_context` given to the slot check is always empty: lexing equals lexing with a check that is passed `""`. |
| Macro.StrayCloseFails | rust_html_macros/src/lib.rs:183-198 | After any complete parts and slots, a `}` that is not doubled makes the scan fail with the unexpected-close error. |
| Macro.UnclosedFails | rust_html_macros/src/lib.rs:240-242 | After any complete parts and slots, a `{` whose slot never closes makes the scan fail with the missing-close error. |
| Macro.OpenAtEnd | rust_html_macros/src/lib.rs:240-242 | A slot opened at depth 0 that stays open to the end of the input gives the missing-close error. |
| Macro.BadSlotFails | rust_html_macros/src/lib.rs:220-234 | After any complete parts and slots, a slot that the check rejects makes the scan fail with the check's own error. |
| Macro.NoBracesLiteral | rust_html_macros/src/lib.rs:244-247 | Input without braces, the empty input included, lexes to a single part equal to the input and no slots. |
| Macro.EscapedBrackets | rust_html_tests/src/lib.rs:170-188 | `{{}}` lexes to the literal `{}`, `{{` to `{` and `}}` to `}`. A lone `}` gives the unexpected-close error and a lone `{` the missing-close error. |
| Macro.EscapeBesideSlot | rust_html_tests/src/lib.rs:195-198 | `{{0}}{1}` lexes to the literal `{0}` followed by the slot `1`. |
| Macro.NestedBracketsKept | rust_html_macros/src/lib.rs:178-193 | Inside a slot, braces are not escapes: `{ {1} }` gives the slot text ` {1} ` with the nested braces kept. |
| Macro.PairInverse | rust_html_macros/src/lib.rs:119-132 | Pairing succeeds exactly when there is one more part than slots. Its literals plus the tail are then the parts, and its slots are the slots. |
| Macro.Expand | rust_html_macros/src/lib.rs:97-148 | `expand`'s early returns and post-checks compute `Compile`. |
| Macro.CompileOutcome | rust_html_macros/src/lib.rs:97-132 | Each failing stage's error is the result. Otherwise the `pop` finds a tail and the count check never fires. The pairs and tail are then the lexed parts and slots, and they spell the template text exactly. |
| Runtime.Target | src/lib.rs:104 | A target is `{`, the prefix, the index in decimal, `}`. |
| Runtime.TargetInnerNoBrace | src/lib.rs:104 | Braces occur in a target only at its two ends. |
| Runtime.TargetsDistinct | src/lib.rs:104 | The target of one index never occurs inside the target of another, e.g. target 1 inside target 10. |
| Runtime.TargetNoNewline | src/lib.rs:133-136 | Targets contain no newline, so joining them by `\n` keeps them apart. |
| Runtime.TrimmedTarget | src/lib.rs:104-106 | Trimming a target leaves it unchanged. |
| Runtime.Build | src/lib.rs:95-111 | The loop of replacements (also `String::from`, lines 174-178) computes `Flatten`. A raw string builds to itself. Parameters are substituted trimmed, index by index in increasing order. |
| Runtime.NoParametersUnchanged | src/lib.rs:98-109 | A template string with no parameters builds to itself. |
| Runtime.FlattenSingle | src/lib.rs:102-108 | With one parameter, build replaces every occurrence of target 0 by the parameter's trimmed build. |
| Runtime.LaterTargetCaptured | src/lib.rs:102-108 | Replacements run in order on the growing output: a parameter whose build contains target 1 has that target filled by parameter 1. |
| Runtime.RenderTemplate | src/lib.rs:114-118 | Rendering a template gives the template itself, so it builds to the same text. |
| Runtime.RenderUnescaped | src/lib.rs:120-126 | `Unescaped(s)` renders as a raw string that builds to exactly `s`. |
| Runtime.EncodeChar | src/lib.rs:167 | A special character becomes an `&…;` entity; any other character is kept. |
| Runtime.EncodeSafe | src/lib.rs:167 | The escaped text has no `<`, `>`, `"`, `'` or `/`. Text without special characters is unchanged. |
| Runtime.DecodeEncodedChar | src/lib.rs:167 | Decoding an escaped character followed by any text gives the character back, followed by the decoded text. |
| Runtime.DecodeEncodeSafe | src/lib.rs:167 | Escaping loses nothing: decoding the escaped text gives the original. |
| Runtime.RenderDisplay | src/lib.rs:161-172 | A `Display` value renders as a raw string that builds to its escaped text, from which the text is recovered. |
| Runtime.RenderGroup | src/lib.rs:128-144 | The loop yields targets `0..n-1` joined by `\n`, with the members as parameters in order. |
| Runtime.Render | src/lib.rs:62-64 | Each kind of value renders through its adapter (lines 114-172): template as itself, unescaped text verbatim, display text escaped, group as its targets. |
| Runtime.BuildInternal | src/lib.rs:86-93 | The template string is kept and each parameter is rendered, in order. |
| Runtime.SingleTarget | src/lib.rs:86-111 | A template that is just target 0 builds to its parameter's trimmed build: escaped text for a display value, the text for unescaped, the build for a template. |
| Runtime.GroupFill | src/lib.rs:102-108 | Filling the first `k` targets of a newline-joined target list fills exactly those lines, provided the targets are non-empty, newline-free and do not occur in one another or in any value. |
| Runtime.TargetsReady | src/lib.rs:128-136 | The group's targets `0..n-1` meet those conditions whenever no value contains a target. |
| Runtime.GroupFlatten | src/lib.rs:128-144 | A group whose members' builds contain no target builds to the members' trimmed builds joined by `\n`, in order. |
| Runtime.EmptyGroupEmpty | src/lib.rs:128-144 | An empty group builds to `""`. |
| Text.Replace | src/lib.rs:106 | Replacing a pattern that does not occur leaves the text unchanged. |
| Text.ReplaceWhole | src/lib.rs:106 | Replacing a text that is exactly the pattern gives the replacement. |
| Text.ReplaceAroundChar | src/lib.rs:106 | A replacement never spans a character the pattern does not contain. |
| Text.ReplaceJoin | src/lib.rs:106 | Replacing in lines joined by a separator the pattern lacks replaces in each line. |
| Text.TrimShape | src/lib.rs:106 | `trim` returns a contiguous slice of its input that does not start or end with whitespace, and everything cut off is whitespace. |
| Text.TrimEmptyIff | rust_html_macros/src/util.rs:60 | The trimmed text is empty exactly when every character is whitespace. |
| Text.DecimalRoundTrip | src/lib.rs:104 | The decimal numeral of `n` reads back as `n`. |
| Text.DecimalInjective | src/lib.rs:104 | Distinct numbers have distinct numerals. |

## Left out

- `compile_check_html` (rust_html_macros/src/parse.rs) and `trim_whitespace_per_line` are defined outside the core, and the HTML parser they use is a foreign library. In `Expand` the whole HTML check is the parameter `htmlCheck`.
- `validate_html`'s parser runs are foreign too. `Diagnostics.ValidateHtml` receives the fragment and document error lists as inputs. `expand` does not call it, and neither does the model.
- Rust tokenising and classification by `syn` and `proc_macro2` are the `RustSyntax` oracle; `litrs`'s classification of the input token is the `InputToken` case.
  - A token stream is modelled by the text it was parsed from.
  - `validate_input` receives its tokens already classified as `InputToken`s.
- Token generation is not modelled: the `quote!` output of `expand`, `compile_error` and `string_to_literal`. The model's result is the `Compiled` pairs-plus-tail value, and errors are `Diagnostic` values.
- Diagnostics.WrapMessage: keeps only the context message. It leaves out `syn::Error::combine` with the identifier error and the error span.
- The macro's emitted call `build_internal(parts, tail)` does not match the runtime's `build_internal(template, parameters)`. The two halves are modelled as written and not linked end to end.
- `html_escape::encode_safe` is a foreign library, modelled by its character map: `&`, `<`, `>`, `"`, `'`, `/` become entities. `Decode` is the model's own inverse, used to state that escaping loses nothing.
- `Display` formatting of values is the text `to_string` produces, a parameter of `Renderable.FromDisplay`. Floating-point formatting is out of scope.
- A user's own `Render` implementation is represented by the `Template` it returns (`Renderable.FromTemplate`). `Box<dyn Render>` is the `Renderable` sum.
- `From`/`FromIterator` for `TemplateGroup` only collect a sequence. They are the `TemplateGroup` constructor over a `seq<Template>`, which keeps the order.
- Text is a sequence of Unicode scalar values. The byte offsets that `wrap_rust_compile_error` slices with (util.rs lines 87, 90, 101) are character offsets here. The panic the source hits when such an offset falls inside a multi-byte character is not modelled.
- The scanner's `depth` is a mathematical integer. The source's `i32` cannot overflow on inputs shorter than 2^31 characters.
- `src/integration.rs` (the axum response), the example programs and the test harness are not part of this model. Some test cases are stated as lemmas (`Macro.EscapedBrackets`, `Macro.EscapeBesideSlot`, `Macro.NestedBracketsKept`).

## Findings

| source | as written | input that shows it | evidently intended | confidence | as-written member | corrected member |
|---|---|---|---|---|---|---|
| rust_html_macros/src/util.rs:93-102 | a slot longer than `rust_info_max` (15) is shown as `rust_code[..len - 15]`: it drops its last 15 characters, so the window grows with the slot | the slot `a; b; c; d; e; f; g; h; i; j; k` (31 characters; it tokenizes but is no identifier, literal or expression, so the error is reported) gets the 16-character window `a; b; c; d; e; f`; the slot `a;` repeated 50 times gives a message more than 50 characters longer than its prefix | show at most the first 15 characters, then the `" ..."` marker | medium, not executed | Diagnostics.RustWindowAsWritten, Diagnostics.RustWindowAsWrittenUnbounded, Diagnostics.WrapMessage, Diagnostics.WrapMessageUnbounded | Diagnostics.RustWindow, Diagnostics.WrapMessageCorrected |

The slot check, and so the scan and `expand`, report the message as the code builds it (`Diagnostics.WrapMessage`). The corrected members state the intended bound beside it.
