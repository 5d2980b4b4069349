# elf2mem `dump_section` in Dafny

elf2mem pulls the `.text` and `.data` sections out of an ELF file and writes
each one as a Verilog `.mem` image. A hardware simulator or an FPGA
memory-initialisation tool can load that text. This project models the one
function that does the conversion, `dump_section` in `src/main.rs`, and
proves properties of that model.

`dump_section` gets a section's name, load address, file offset and size,
plus the bytes of the whole file. It writes:

1. a comment line `// section "<name>"`, with the name rendered as Rust's
   `{:?}` renders a string;
2. an address directive `@<hex>`, holding the load address divided by the
   word width (truncating), in lowercase hex with no leading zeros;
3. the section bytes `data[offset .. offset + size]`. With `flip` set, each
   consecutive 4-byte chunk is reversed first, and so is a short final
   chunk. Each byte is written as two lowercase hex digits, followed by a
   space unless `packed` is set. A line break follows every `width`-th byte,
   counting from the start of the section, and one more line break always
   closes the image.

The source panics in two places: a zero `width` divides by zero, and a
section that runs past the end of the file breaks the slice bounds. The model
returns these two panics as `DumpError` values.

Modules, one per step of the function:

- `Common` (`common.dfy`): `u8` and `u64`, `Option`, `Result`.
- `Hex` (`hex.dfy`): hex digits, `{:02x?}` for bytes, and `{:x?}` for the
  directive value, with parsers that invert them.
- `Flip` (`flip.dfy`): the 4-byte chunk reversal. It has two forms: a
  position formula (`FlipChunks`, where each output byte comes from its
  mirror inside its chunk) and the source's chunk loop (`FlipLoop`).
- `Format` (`format.dfy`): the `enumerate` loop that writes the body. `Emit`
  follows the loop byte by byte. `Rows` is an independent line-by-line
  description of the same text. `Decode` reads the hex pairs back.
- `Header` (`header.dfy`): the comment line, with name escaping and
  unescaping, and the address directive.
- `Dump` (`dump.dfy`): `DumpSection` itself, a parser for whole images
  (`ParseImage`), the end-to-end properties, and `RunDump`, which runs the
  statements in source order. The `Examples` module in the same file holds
  worked examples.

Two consequences of the code are worth stating:

- The body holds `size / width + 1` line breaks: one per completed line and
  the closing one. When `width` divides `size`, the image ends with an empty
  line.
- The flip is an involution for every length, because chunk boundaries are
  always at multiples of 4.

## Model

| member | source | states |
|---|---|---|
| Flip.FlipLoop | src/main.rs:127-136 | The `chunks(4)` loop, which pushes each reversed chunk in turn, builds exactly the position-formula flip `FlipChunks` for every length, short last chunk included |
| Flip.ReverseAt | src/main.rs:130-131 | `reverse` puts element `|s|-1-i` at position `i` |
| Flip.FlipChunks | src/main.rs:128-135 | The flip keeps the length: the output has exactly as many bytes as the slice, including sizes that are not a multiple of 4 |
| Flip.Arrange | src/main.rs:127-140 | The bytes that get printed keep the slice's length, and with `flip` off they are the slice itself, unchanged |
| Flip.FlipFullChunk | src/main.rs:129-134 | In every full chunk `k`, output byte `4k+j` is input byte `4k+3-j` |
| Flip.FlipPartialChunk | src/main.rs:129-134 | The final chunk of `r = size % 4 < 4` bytes is reversed within its own `r` bytes, with no padding |
| Flip.FlipLayout | src/main.rs:129-135 | Combines the two: a position formula for every output byte, in the full chunks and in the short last chunk |
| Flip.FlipInvolution | src/main.rs:129-135 | Flipping twice gives back the original sequence, for any length |
| Hex.ByteHex | src/main.rs:143 | `{:02x?}` of a byte is exactly two characters, both lowercase hex digits |
| Hex.ByteHexRoundTrip | src/main.rs:143 | The two-digit pair reads back as the byte it was written from, so zero padding and digit order are right |
| Hex.Nat | src/main.rs:125 | `{:x?}` of the directive is a non-empty run of lowercase hex digits that starts with `0` only when the value is 0 (no leading zeros) |
| Hex.NatRoundTrip | src/main.rs:125 | Parsing the rendered directive gives back its value |
| Hex.NatCanonical | src/main.rs:125 | The rendering is the unique digit string without a leading zero that denotes the value |
| Header.Escape | src/main.rs:124 | The escaped section name contains no line break and no unescaped double quote |
| Header.UnescapeEscape | src/main.rs:124 | Unescaping the escaped name gives back the name |
| Header.QuoteRoundTrip | src/main.rs:124 | The quoted `{:?}` rendering of a name reads back as that name |
| Header.CommentLine | src/main.rs:124 | The comment line holds no line break, so the header's first line ends where the source's `writeln!` ends it |
| Header.Directive | src/main.rs:125 | The directive is `address / width` with truncation: `v * width <= address < (v + 1) * width` |
| Header.AddressLine | src/main.rs:125 | The directive line holds no line break |
| Format.RowAt | src/main.rs:143 | Within a line, byte `k` sits after `(k - lo)` strides of 2 or 3 characters, as its hex pair followed by the separator (a space unless packed) |
| Format.EmitIsRows | src/main.rs:142-148 | From a line boundary, the loop's text is lines of exactly `width` pairs, then a last line with the remaining fewer than `width` pairs (empty if none remain). So a line break written inside the loop follows byte `i` exactly when `(i + 1) % width == 0`; the closing break follows the last byte whatever its index |
| Format.BodyIsRows | src/main.rs:142-148 | The whole body, indices counted from the section start, has that line structure |
| Format.BodyNewlines | src/main.rs:144-148 | The body holds `size / width + 1` line breaks whether packed or not: one per completed line and the unconditional closing one |
| Format.BodyDecodes | src/main.rs:142-148 | Reading the hex pairs of the body back, skipping spaces and line breaks, yields exactly the printed bytes |
| Format.WriteBody | src/main.rs:142-148 | The `enumerate` loop's output has the line structure above, decodes to the slice, and has `size / width + 1` line breaks |
| Dump.SectionBytes | src/main.rs:128 | The slice has `size` bytes, and byte `i` is file byte `offset + i` |
| Dump.DumpSection | src/main.rs:108-150 | An image is produced exactly when `width > 0` and `offset + size <= |data|`. A zero width is `DivideByZero` (line 125 runs before the slice); otherwise an out-of-range slice is `SliceOutOfRange` |
| Dump.HeaderLines | src/main.rs:124-125 | The image starts with exactly two lines: the section comment, then the directive line; the body follows |
| Dump.ImageRoundTrip | src/main.rs:124-148 | Parsing an image gives back the section name, `address / width`, and the printed bytes |
| Dump.ListedBytes | src/main.rs:127-140 | The printed bytes number `size`. Without flip they equal `data[offset..offset+size]`; with flip, each full chunk and the short last chunk are reversed, stated per position |
| Dump.ImageNewlines | src/main.rs:124-148 | The image holds `size / width + 3` line breaks: two header lines, the completed lines, and the closing one |
| Dump.RunDump | src/main.rs:108-150 | Running the statements in source order (header, then the chunk loop if flipping, then the `enumerate` loop) gives exactly `DumpSection`'s result, error cases included |
| Examples.DirectiveExample | src/main.rs:125 | Address `0x1000` at width 4 gives the directive line `@400` |
| Examples.FlippedExample | src/main.rs:124-148 | Bytes `de ad be ef 01 02 03 04`, width 4, not packed, flipped, address 0, name `.text`, give the image `// section ".text"`, `@0`, `ef be ad de `, `04 03 02 01 `, then an empty line |

## Left out

- Command-line parsing and default output-path derivation (`src/main.rs:10-66`): configuration glue. The options show up as the `Config` fields.
- Console output through `println!`: it only has side effects.
- ELF parsing and section lookup (`ElfFile::new`, `find_section_by_name` and the header accessors): a foreign library. Name, address, offset, size and file bytes are plain inputs. The `unwrap` panic on a missing `.text` or `.data` section is not part of this model.
- Reading the input file, creating the output files, and `write!`/`writeln!` error propagation: I/O. The image is the returned text, and write failures are not modelled.
- What the output file holds when the source panics: the comment line is already written before a zero width panics at line 125. The model returns only the error.
- Header.Escape: models the escapes `{:?}` writes for `\0`, `\t`, `\r`, `\n`, `\\` and `"`. Rust also writes `\u{…}` for other non-printable and grapheme-extending characters; those characters are kept unchanged here.
- Dump.DumpSection: `offset + size` is computed in `u64`. If it overflows, a debug build panics on the addition, and a release build wraps to an end below the start, so the slice panics. Both are `SliceOutOfRange` here whenever `|data| < 2^64`, which holds for any file held in memory. The model uses unbounded addition and does not restate that bound. This assumes a 64-bit target. On a 32-bit target the `as usize` casts at lines 128 and 138 truncate offsets and ends of `2^32` or more, so the source can slice a different range where the model reports `SliceOutOfRange`.
