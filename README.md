# Wake-on-LAN sender: MAC parsing and magic-packet construction

This project models the `wol` module of a small Rust command-line tool that
wakes a machine over the network. The tool reads a MAC address as text,
checks and parses it into six octets, builds the Wake-on-LAN "magic packet"
for it and sends that packet as one UDP datagram to port 9 of a broadcast
address. The magic packet is six `0xFF` bytes (the sync stream) followed by
sixteen copies of the six-byte MAC: 102 bytes in all.

The model has two modules.

- `RustStd` (`rust_std.dfy`) holds the standard-library pieces the parser is
  built from, taken from their documented behaviour. These are ASCII hex
  digits, `str::split`, `u8::from_str_radix(_, 16)` (an
  optional leading `+`, then a digit loop that fails on a non-digit and on
  leaving the `u8` range after any step), and collecting an iterator of
  results into a `Result<Vec<u8>, _>`, where the first failure wins. It also
  holds `ToAsciiLower` (`char::to_ascii_lowercase`), which the parser never
  calls; it is there only to state that the parser ignores case.
- `Wol` (`wol.dfy`) holds the tool's own types and operations. `Mac` is a
  datatype with `New` and `AsBytes`. `ParseError` and `WolError` are
  datatypes with the source's variants. `FromStr` is a function. The regular
  expression `^([0-9A-Fa-f]{2}:){5}([0-9A-Fa-f]{2})$` becomes the explicit
  predicate `MacPattern`: 17 characters, colons at 2, 5, 8, 11 and 14, hex
  digits elsewhere. `BuildPacket` is a method with the source's
  sixteen-iteration loop over a growing buffer. Both of its length checks
  are kept as branches.

`BuildPacket` is specified against the function `MagicPacket`. The byte
layout is proved about that function. `FromStr` is specified by `FromStrSpec`
against `MacPattern` and `MacOfText`, the six pair values in textual order.

## Model

| member | source | states |
|---|---|---|
| `Wol.Mac.New` | src/main.rs:74-76 | no contract of its own; `NewAsBytes` states that it keeps the tuple's order |
| `Wol.Mac.AsBytes` | src/main.rs:78-80 | `as_bytes` always yields exactly six bytes, so the payload-length check in `build_packet` can only see 6 |
| `Wol.NewAsBytes` | src/main.rs:74-80 | `Mac::new` stores the tuple components in order: `as_bytes` of `new((a0..a5))` is `[a0..a5]` |
| `Wol.AsBytesInjective` | src/main.rs:78-80 | `as_bytes` loses nothing: two MACs with the same six bytes are the same MAC |
| `Wol.MacPattern` | src/main.rs:88 | no contract of its own; `MacPatternIsRegex` states that it is the regular expression's language |
| `Wol.ColonSeparatedPairsIsGroups` | src/main.rs:88 | for every repetition count `n`, `n` groups `[0-9A-Fa-f]{2}:` and a final pair are exactly the strings of length `3n + 2` with a colon at every index `i % 3 == 2` and hex digits elsewhere |
| `Wol.MacPatternIsRegex` | src/main.rs:88 | the explicit pattern predicate accepts exactly the regular expression's language, read group by group, and exactly the strings with a colon at every index `i % 3 == 2` and hex digits elsewhere |
| `RustStd.Split` | src/main.rs:92 | `split(':')` always yields at least one segment; `JoinSplit` states what the segments are |
| `RustStd.JoinSplit` | src/main.rs:92 | `split(':')` yields segments free of `:` that join back, with `:` between them, to the input |
| `RustStd.AccumulateHexDigits` | src/main.rs:93 | no contract of its own; the digit loop of `from_str_radix(_, 16)`, which `ParseHexPair` evaluates on two hex digits |
| `RustStd.ParseHexByte` | src/main.rs:93 | no contract of its own; `ParseHexPair` states its result on every two-digit hex segment |
| `RustStd.ParseHexPair` | src/main.rs:93 | `from_str_radix(_, 16)` on two hex digits succeeds with `16 * high + low` |
| `RustStd.CollectHexBytes` | src/main.rs:92-94 | a successful collect has one value per segment; `CollectHexBytesSpec` states which values |
| `RustStd.CollectHexBytesSpec` | src/main.rs:92-94 | collecting the converted segments gives `Some(vals)` exactly when there are as many values as segments and segment `i` converts to `vals[i]` |
| `Wol.SplitGroups` | src/main.rs:92 | a string of the pattern's shape splits into exactly its colon-free pairs |
| `Wol.CollectGroups` | src/main.rs:92-94 | every pair of such a string converts, so collecting yields the pair values in order |
| `Wol.FromStr` | src/main.rs:86-107 | no contract of its own; `FromStrSpec` states its result for every string |
| `Wol.FromStrSpec` | src/main.rs:86-107 | `from_str` returns `Ok(Mac(b0..b5))` with `bi` the value of the i-th hex pair when the string matches the pattern, and exactly `Err(InvalidInput)` otherwise |
| `Wol.DefensiveArmsUnreachable` | src/main.rs:95-103 | `from_str` never returns `InvalidLength` or `FailedConversion`; its only error is `InvalidInput` |
| `Wol.MacPatternIgnoresCase` | src/main.rs:88 | changing the case of letters neither makes nor breaks the pattern, and keeps the denoted MAC |
| `Wol.FromStrIgnoresCase` | src/main.rs:86-107 | two strings equal up to ASCII case give the same `from_str` result, success or error |
| `Wol.FromStrMacText` | src/main.rs:86-107 | every MAC has a text (its colon form, proved lower-case) that matches the pattern and parses back to it |
| `Wol.FromStrRepeatedDigit` | src/main.rs:22-29 | a text repeating one hex digit `c` in every pair position parses to the MAC with every octet `17 * value(c)` |
| `Wol.FromStrAcceptsOnes` | src/main.rs:23-24 | `"ff:ff:ff:ff:ff:ff"` parses to `Mac(255, 255, 255, 255, 255, 255)` |
| `Wol.FromStrAcceptsUpperOnes` | src/main.rs:25-26 | `"FF:FF:FF:FF:FF:FF"` parses to `Mac(255, 255, 255, 255, 255, 255)` |
| `Wol.FromStrAcceptsZeros` | src/main.rs:27-28 | `"00:00:00:00:00:00"` parses to `Mac(0, 0, 0, 0, 0, 0)` |
| `Wol.FromStrRejectsExamples` | src/main.rs:32-40 | `":::::"`, `"ff:ff:ff:ff:ff:fg"` and `"ff:ff:ff:ff:ff:ff:ff"` are each rejected with exactly `InvalidInput` |
| `Wol.BuildPacket` | src/main.rs:110-127 | `build_packet` always returns `Ok`, never `InvalidBufferLength` or `InvalidPacketSize`; the packet is `MagicPacket(mac)`, has 102 bytes and the magic layout; the loop keeps the buffer at `6 + 6k` bytes, equal to the sync stream followed by `k` copies of the MAC |
| `Wol.MagicPacket` | src/main.rs:110-118 | no contract of its own; `BuildPacket` is proved to return it and `MagicPacketLayout` states its layout |
| `Wol.MagicPacketLayout` | src/main.rs:111-118 | a byte sequence is the magic packet for `m` exactly when it has 102 bytes, bytes 0 to 5 are `0xFF`, and byte `j >= 6` is octet `(j - 6) % 6` of `m` |
| `Wol.MagicPacketBlock` | src/main.rs:116-118 | for every `k < 16` and `i < 6`, byte `6 + 6k + i` of the packet is `as_bytes()[i]` |
| `Wol.MagicPacketInjective` | src/main.rs:110-127 | different MACs give different packets |
| `Wol.MagicPacketOfBroadcast` | src/main.rs:47 | the MAC `ff:ff:ff:ff:ff:ff` gives 102 bytes that are all `0xFF` |
| `Wol.BroadcastTextToPacket` | src/main.rs:43-48 | the text `"ff:ff:ff:ff:ff:ff"` parses, and its packet is 102 bytes of `0xFF` |

## Left out

- `send_packet` (src/main.rs:129-136) is not modelled. It binds a UDP socket and sends a datagram, which is network I/O. Its slice `&p[0..102]` needs a payload of at least 102 bytes. Every packet `BuildPacket` returns has exactly 102 bytes.
- `main` (src/main.rs:139-188) is not modelled. It is command-line handling over the `getopts` library, printing and process exit. This includes exiting with status 0 when `--mac` or `--bcast` is missing.
- The regular-expression engine and `Regex::new(...).unwrap()` are not modelled. Only the language the pattern accepts is modelled, as `MacPattern`.
- IPv4 address parsing (src/main.rs:173) is a standard-library call that lies outside this module.
- The `Debug` formatting of errors and the `Box<Error>` wrapping are not modelled.
- `RustStd.ParseHexByte`: the library's error kinds (empty, invalid digit, overflow) all become `None`. `from_str` maps every conversion error to the same `FailedConversion`, so nothing that the module can observe is lost.
- Strings are sequences of Unicode scalar values, not UTF-8 bytes. Every character the pattern accepts is ASCII, so lengths and indices agree with the source for every accepted string.
- Calling `build_packet` twice gives identical packets. This is not stated as a separate lemma. `BuildPacket`'s postcondition fixes its result as a function of the MAC, so two calls cannot differ.
