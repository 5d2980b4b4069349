/** `dump_section`: one ELF section written as the text of a Verilog `.mem`
    image. The section header fields and the ELF file bytes are plain inputs;
    the image is the returned text, and each panic of the source is an error. */
module Dump {
  import opened Common
  import Hex
  import Flip
  import Format
  import Header

  /** The located section: its name, load address, file offset and size. */
  datatype Section = Section(name: string, address: u64, offset: u64, size: u64)

  /** The command-line options that shape the image. */
  datatype Config = Config(width: u8, packed: bool, flip: bool)

  /** The two ways `dump_section` panics. */
  datatype DumpError =
    | DivideByZero     // `address / width` with a zero width
    | SliceOutOfRange  // `offset + size` beyond the end of the file

  /** The section's bytes inside the file. */
  function SectionBytes(sh: Section, data: seq<u8>): (d: seq<u8>)
    requires sh.offset + sh.size <= |data|
    ensures |d| == sh.size
    ensures forall i :: 0 <= i < |d| ==> d[i] == data[sh.offset + i]
  {
    data[sh.offset..sh.offset + sh.size]
  }

  /** The bytes the image lists: the section's bytes, flipped when asked. */
  function Payload(sh: Section, data: seq<u8>, cfg: Config): seq<u8>
    requires sh.offset + sh.size <= |data|
  {
    Flip.Arrange(SectionBytes(sh, data), cfg.flip)
  }

  /** The image of one section, or the reason the source panics. */
  function DumpSection(sh: Section, data: seq<u8>, cfg: Config): (r: Result<string, DumpError>)
    ensures r.Ok? <==> cfg.width > 0 && sh.offset + sh.size <= |data|
    ensures cfg.width == 0 ==> r == Err(DivideByZero)
    ensures cfg.width > 0 && sh.offset + sh.size > |data| ==> r == Err(SliceOutOfRange)
  {
    if cfg.width == 0 then Err(DivideByZero)
    else if sh.offset + sh.size > |data| then Err(SliceOutOfRange)
    else Ok(Header.CommentLine(sh.name) + "\n"
          + Header.AddressLine(sh.address, cfg.width) + "\n"
          + Format.Body(Payload(sh, data, cfg), cfg.width, cfg.packed))
  }

  // ----- Reading an image back -----

  /** What an image says: the section name, the directive value and the bytes. */
  datatype Image = Image(name: string, directive: nat, bytes: seq<u8>)

  /** The text before the first line break and the text after it. */
  function SplitLine(s: string): Option<(string, string)>
    decreases |s|
  {
    if s == [] then None
    else if s[0] == '\n' then Some(([], s[1..]))
    else
      match SplitLine(s[1..])
      case None => None
      case Some((line, rest)) => Some(([s[0]] + line, rest))
  }

  lemma {:induction false} SplitLineAt(line: string, rest: string)
    requires '\n' !in line
    ensures SplitLine(line + "\n" + rest) == Some((line, rest))
    decreases |line|
  {
    if line == [] {
      assert line + "\n" + rest == "\n" + rest;
    } else {
      assert (line + "\n" + rest)[1..] == line[1..] + "\n" + rest;
      SplitLineAt(line[1..], rest);
      assert [line[0]] + line[1..] == line;
    }
  }

  function ParseComment(line: string): Option<string> {
    if |line| < |Header.CommentPrefix| || line[..|Header.CommentPrefix|] != Header.CommentPrefix then None
    else Header.ParseQuoted(line[|Header.CommentPrefix|..])
  }

  function ParseDirective(line: string): Option<nat> {
    if |line| < 1 || line[0] != '@' then None else Hex.ParseNat(line[1..])
  }

  /** Parses an image: a comment line, a directive line, then hex pairs. */
  function ParseImage(text: string): Option<Image> {
    match SplitLine(text)
    case None => None
    case Some((first, afterFirst)) =>
      match SplitLine(afterFirst)
      case None => None
      case Some((second, body)) =>
        match (ParseComment(first), ParseDirective(second), Format.Decode(body))
        case (Some(name), Some(v), Some(bytes)) => Some(Image(name, v, bytes))
        case _ => None
  }

  /** An image begins with exactly two header lines: the quoted section name,
      then `@` and address / width in lowercase hex without leading zeros;
      the rest is the body of the listed bytes. */
  lemma HeaderLines(sh: Section, data: seq<u8>, cfg: Config)
    requires cfg.width > 0 && sh.offset + sh.size <= |data|
    ensures SplitLine(DumpSection(sh, data, cfg).value)
         == Some((Header.CommentLine(sh.name),
                  Header.AddressLine(sh.address, cfg.width) + "\n"
                  + Format.Body(Payload(sh, data, cfg), cfg.width, cfg.packed)))
    ensures SplitLine(Header.AddressLine(sh.address, cfg.width) + "\n"
                      + Format.Body(Payload(sh, data, cfg), cfg.width, cfg.packed))
         == Some((Header.AddressLine(sh.address, cfg.width),
                  Format.Body(Payload(sh, data, cfg), cfg.width, cfg.packed)))
  {
    var c := Header.CommentLine(sh.name);
    var a := Header.AddressLine(sh.address, cfg.width);
    var b := Format.Body(Payload(sh, data, cfg), cfg.width, cfg.packed);
    assert DumpSection(sh, data, cfg).value == c + "\n" + (a + "\n" + b);
    SplitLineAt(c, a + "\n" + b);
    SplitLineAt(a, b);
  }

  /** Round trip: parsing an image gives back the section name, the
      directive address / width, and the section bytes, flipped when asked. */
  lemma ImageRoundTrip(sh: Section, data: seq<u8>, cfg: Config)
    requires cfg.width > 0 && sh.offset + sh.size <= |data|
    ensures ParseImage(DumpSection(sh, data, cfg).value)
         == Some(Image(sh.name, sh.address / cfg.width, Payload(sh, data, cfg)))
  {
    HeaderLines(sh, data, cfg);
    var c := Header.CommentLine(sh.name);
    var n := |Header.CommentPrefix|;
    assert c[..n] == Header.CommentPrefix && c[n..] == Header.Quote(sh.name);
    Header.QuoteRoundTrip(sh.name);
    var a := Header.AddressLine(sh.address, cfg.width);
    assert a[1..] == Hex.Nat(sh.address / cfg.width);
    Hex.NatRoundTrip(sh.address / cfg.width);
    Format.BodyDecodes(Payload(sh, data, cfg), cfg.width, cfg.packed);
  }

  /** The listed bytes (which ImageRoundTrip reads back from the image).
      Without the flip they are the file bytes offset .. offset + size
      unchanged. With it, byte 4k + j of every full 4-byte group is file byte
      4k + 3 - j of the section, and the short last group of size % 4 bytes is
      reversed within itself. */
  lemma ListedBytes(sh: Section, data: seq<u8>, cfg: Config)
    requires sh.offset + sh.size <= |data|
    ensures var p := Payload(sh, data, cfg);
      && |p| == sh.size
      && (!cfg.flip ==> p == data[sh.offset..sh.offset + sh.size])
      && (cfg.flip ==> forall i :: 0 <= i < sh.size - sh.size % 4 ==>
            p[i] == data[sh.offset + i / 4 * 4 + 3 - i % 4])
      && (cfg.flip ==> forall i :: sh.size - sh.size % 4 <= i < sh.size ==>
            p[i] == data[sh.offset + sh.size - 1 - (i - (sh.size - sh.size % 4))])
  {
    Flip.FlipLayout(SectionBytes(sh, data));
  }

  /** The image has size / width + 3 line breaks: the two header lines, one
      per completed line of width bytes, and the closing one. */
  lemma ImageNewlines(sh: Section, data: seq<u8>, cfg: Config)
    requires cfg.width > 0 && sh.offset + sh.size <= |data|
    ensures Format.Newlines(DumpSection(sh, data, cfg).value) == sh.size / cfg.width + 3
  {
    var c := Header.CommentLine(sh.name);
    var a := Header.AddressLine(sh.address, cfg.width);
    var b := Format.Body(Payload(sh, data, cfg), cfg.width, cfg.packed);
    assert DumpSection(sh, data, cfg).value == c + "\n" + a + "\n" + b;
    Format.NoNewlines(c);
    Format.NoNewlines(a);
    Format.NewlinesAppend(c, "\n");
    Format.NewlinesAppend(c + "\n", a);
    Format.NewlinesAppend(c + "\n" + a, "\n");
    Format.NewlinesAppend(c + "\n" + a + "\n", b);
    Format.BodyNewlines(Payload(sh, data, cfg), cfg.width, cfg.packed);
  }

  /** The statements of `dump_section` in order: header lines, the chunk
      loop when flipping, then the `enumerate` loop. */
  method RunDump(sh: Section, data: seq<u8>, cfg: Config) returns (r: Result<string, DumpError>)
    ensures r == DumpSection(sh, data, cfg)
  {
    if cfg.width == 0 {
      return Err(DivideByZero);
    }
    var out := Header.CommentLine(sh.name) + "\n" + Header.AddressLine(sh.address, cfg.width) + "\n";
    if sh.offset + sh.size > |data| {
      return Err(SliceOutOfRange);
    }
    var d := data[sh.offset..sh.offset + sh.size];
    var slice := d;
    if cfg.flip {
      slice := Flip.FlipLoop(d);
    }
    assert slice == Payload(sh, data, cfg);
    var body := Format.WriteBody(slice, cfg.width, cfg.packed);
    Format.BodyIsRows(slice, cfg.width, cfg.packed);
    r := Ok(out + body);
  }
}

/** Worked examples of the image format. */
module Examples {
  import opened Common
  import Hex
  import Flip
  import Format
  import Header
  import Dump

  /** 0x1000 at width 4 gives the directive `@400`. */
  lemma DirectiveExample()
    ensures Header.AddressLine(0x1000, 4) == "@400"
  {
    assert 0x1000 / 4 == 0x400;
  }

  const Bytes: seq<u8> := [0xde, 0xad, 0xbe, 0xef, 0x01, 0x02, 0x03, 0x04]
  const Flipped: seq<u8> := [0xef, 0xbe, 0xad, 0xde, 0x04, 0x03, 0x02, 0x01]

  lemma FlippedBytes()
    ensures Flip.FlipChunks(Bytes) == Flipped
  {
    assert Bytes[..4] == [0xde, 0xad, 0xbe, 0xef] && Bytes[4..] == [0x01, 0x02, 0x03, 0x04];
  }

  lemma FirstRow()
    ensures Format.Row(Flipped, 0, 4, false) == "ef be ad de "
  {
    assert Hex.ByteHex(0xef) == "ef" && Hex.ByteHex(0xbe) == "be";
    assert Hex.ByteHex(0xad) == "ad" && Hex.ByteHex(0xde) == "de";
    assert Format.Row(Flipped, 2, 4, false) == "ad de ";
  }

  lemma SecondRow()
    ensures Format.Row(Flipped, 4, 8, false) == "04 03 02 01 "
  {
    assert Hex.ByteHex(4) == "04" && Hex.ByteHex(3) == "03";
    assert Hex.ByteHex(2) == "02" && Hex.ByteHex(1) == "01";
    assert Format.Row(Flipped, 6, 8, false) == "02 01 ";
  }

  lemma LastRows()
    ensures Format.Rows(Flipped, 4, 4, false) == "04 03 02 01 \n\n"
  {
    SecondRow();
    assert Format.Rows(Flipped, 8, 4, false) == "\n";
    assert Format.Rows(Flipped, 4, 4, false) == "04 03 02 01 " + "\n" + "\n";
  }

  lemma FlippedBody()
    ensures Format.Body(Flipped, 4, false) == "ef be ad de \n04 03 02 01 \n\n"
  {
    LastRows();
    FirstRow();
    assert Format.Rows(Flipped, 0, 4, false) == "ef be ad de " + "\n" + "04 03 02 01 \n\n";
    Format.BodyIsRows(Flipped, 4, false);
  }

  lemma ExampleHeader()
    ensures Header.CommentLine(".text") == "// section \".text\""
    ensures Header.AddressLine(0, 4) == "@0"
  {
    assert Header.Escape("t") == "t";
    assert Header.Escape("xt") == "xt";
    assert Header.Escape("ext") == "ext";
    assert Header.Escape("text") == "text";
    assert Header.Escape(".text") == ".text";
  }

  const ExpectedImage: string := "// section \".text\"\n@0\nef be ad de \n04 03 02 01 \n\n"

  lemma ExpectedImageLines()
    ensures ExpectedImage
         == "// section \".text\"" + "\n" + "@0" + "\n" + "ef be ad de \n04 03 02 01 \n\n"
  {
  }

  /** Eight bytes, width 4, spaced, flipped, at address 0: two lines of
      reversed groups (each pair followed by a space) and a closing blank line. */
  lemma FlippedExample()
    ensures Dump.DumpSection(Dump.Section(".text", 0, 0, 8), Bytes, Dump.Config(4, false, true))
         == Ok(ExpectedImage)
  {
    ExpectedImageLines();
    var sh := Dump.Section(".text", 0, 0, 8);
    var cfg := Dump.Config(4, false, true);
    assert Bytes[0..8] == Bytes;
    FlippedBytes();
    assert Dump.Payload(sh, Bytes, cfg) == Flipped;
    FlippedBody();
    ExampleHeader();
    assert Dump.DumpSection(sh, Bytes, cfg)
        == Ok(Header.CommentLine(".text") + "\n" + Header.AddressLine(0, 4) + "\n"
              + Format.Body(Flipped, 4, false));
  }
}
