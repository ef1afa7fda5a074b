# httpie `key=value` token parser, in Dafny

This project models the one piece of self-contained logic in a small Rust
httpie clone: the parser that turns a `post` body argument such as
`name=alice` into a `KvPair { k, v }`. `KvPair::from_str` splits the token
with `str::split("=")`, takes the first segment as the key and the second as
the value, and fails with `Failed to parse <token>` when there is no second
segment; `parse_kv_pair`, the clap value parser, hands that result back
unchanged.

Modules:

- `Wrappers` (`wrappers.dfy`): `Option` and `Result`, for Rust's types of the same names.
- `StrSplit` (`str_split.dfy`): `str::split` on a one-character pattern as a
  sequence of segments (`Split`), its inverse `Join`, and the first-occurrence
  search `Find` with the notion of a *field* (`IsField`: the `c`-free prefix
  running up to the first `c` or the end).
- `KvParse` (`kv_pair.dfy`): the `KvPair` datatype, the `split` iterator as a
  value (`SplitIter`, `Next`), `FromStr`, `ParseKvPair` and the lemmas about them.

Behaviour worth knowing:

- The value is only the second `=`-segment, not everything after the first
  `=`: `"a=b=c"` gives `"b"` and the rest is dropped (`RestDropped`,
  `ExampleSecondEqDrops`).
- An empty key is accepted: `"=x"` gives key `""` (`ExampleEmptyParts`).
- The error is modelled as the message text that `anyhow!` carries (`ParseError`).

Data types: `KvParse.KvPair` is the `KvPair` struct with fields `k` and `v`
(src/main.rs:48-52); `KvParse.SplitIter` is the `Split` iterator that
`s.split("=")` builds (src/main.rs:57), holding the segments not yet taken.

## Model

| member | source | states |
|---|---|---|
| `StrSplit.Split` | src/main.rs:57 | `split("=")` yields one more segment than there are `=` (so always at least one), and no segment contains `=` |
| `StrSplit.JoinSplit` | src/main.rs:57 | joining the segments back with `=` gives exactly the token |
| `StrSplit.SplitJoin` | src/main.rs:57 | splitting undoes joining for any non-empty list of `=`-free segments (with `JoinSplit`, the two are inverses) |
| `StrSplit.SplitNoSep` | src/main.rs:57 | a token without `=` splits into itself alone |
| `StrSplit.SplitCons` | src/main.rs:57 | `w + "=" + t` with `w` free of `=` splits into `w` followed by the segments of `t` |
| `StrSplit.FieldUnique` | src/main.rs:57 | a `=`-free prefix that ends at a `=` or at the end of the string is exactly the part before the first `=` (both directions) |
| `StrSplit.FirstSegment` | src/main.rs:57-62 | the first segment is the part of the token before its first `=` (the whole token if there is none) |
| `StrSplit.SplitAtFirst` | src/main.rs:57-64 | with an `=` present, the segments are the part before the first `=` followed by the segments of the rest |
| `KvParse.SplitEq` | src/main.rs:57 | the iterator `s.split("=")` starts with at least one segment |
| `KvParse.Next` | src/main.rs:62-64 | `next()` yields a segment exactly when one remains, and then removes it from the front; otherwise it yields `None` and leaves the iterator as it was |
| `KvParse.ParseError` | src/main.rs:58 | the error message is `Failed to parse ` followed by the token, character for character |
| `KvParse.FromStr` | src/main.rs:54-67 | parsing fails exactly when the token has no `=`, the error is `"Failed to parse " + s`, and a parsed key and value hold no `=` |
| `KvParse.ParseKvPair` | src/main.rs:73-75 | `parse_kv_pair(s)` returns the same result, success or error, as `KvPair::from_str(s)` |
| `KvParse.KeyStepSucceeds` | src/main.rs:62 | the first `next()` always yields a segment (the part before the first `=`), so the key's `ok_or_else(err)?` never returns the error |
| `KvParse.FromStrFields` | src/main.rs:57-64 | with an `=` present the key is the part before the first `=` and the value the part between it and the next `=` or the end |
| `KvParse.FromStrOkIff` | src/main.rs:56-66 | a pair is the parse of `s` if and only if its key is the `=`-free prefix of `s` ending at an `=` and its value is the `=`-free prefix of what follows, ending at an `=` or the end |
| `KvParse.RoundTrip` | src/main.rs:56-65 | `k + "=" + v` parses to exactly `KvPair(k, v)` if and only if neither `k` nor `v` contains `=`, empty key and empty value included |
| `KvParse.RestDropped` | src/main.rs:64 | everything from a second `=` on is discarded: `k + "=" + v + "=" + rest` parses to `(k, v)` |
| `KvParse.ReassemblePrefix` | src/main.rs:57-65 | on success `k + "=" + v` is a prefix of the token, and equals it exactly when the token holds a single `=` (the multiplicity of `=` in the token's characters is 1) |
| `KvParse.Verbatim` | src/main.rs:62-64 | no trimming or unescaping: the key's characters are the token's first characters, an `=` follows, and the value's characters come right after it |
| `StrSplit.CountIsMultiplicity` | src/main.rs:57 | the occurrence count used for segments equals the multiplicity of the character in the string's multiset |
| `KvParse.ExampleSecondEqDrops` | src/main.rs:57-64 | `"a=b=c"` parses to key `"a"`, value `"b"` |
| `KvParse.ExampleEmptyParts` | src/main.rs:57-64 | `"b="` parses to `("b", "")` and `"=x"` to `("", "x")` |
| `KvParse.ExampleNoEq` | src/main.rs:58-64 | `""` and `"abc"` fail with `Failed to parse ` followed by the token |

## Left out

- `parse_url` (src/main.rs:69-71): a wrapper over the `reqwest`/`url` crate's URL parser, whose grammar is not part of this model.
- The clap derive structures `Opts`, `Subcommands`, `GetOpts`, `PostOpts` (src/main.rs:5-45): declarations for the argument-parsing library, with no logic of their own; that clap calls `parse_kv_pair` once per body token is not modelled.
- `main` (src/main.rs:77-95): the tokio runtime and `println!` output only; no request is sent and no response is rendered in this source, so there is nothing of dispatch, content negotiation or rendering to model.
- The laziness of the `err` closure and of the `split` iterator: the model computes all segments at once, which gives the same results since both are pure.
- `anyhow::Error` is reduced to its message string; its backtrace and `Debug` form are not modelled.
