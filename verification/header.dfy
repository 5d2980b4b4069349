/** The two header lines of a section's `.mem` image: a comment naming the
    section, its name written as Rust's `{:?}` renders a string, and the `@`
    address directive holding the load address divided by the word width. */
module Header {
  import opened Common
  import Hex

  const CommentPrefix: string := "// section "

  /** The escape sequence `{:?}` writes for a character, if it has one. */
  function EscapeChar(c: char): string {
    match c
    case '\0' => "\\0"
    case '\t' => "\\t"
    case '\r' => "\\r"
    case '\n' => "\\n"
    case '\\' => "\\\\"
    case '"' => "\\\""
    case _ => [c]
  }

  /** The characters of a name between the quotes of its `{:?}` rendering. */
  function Escape(name: string): (r: string)
    ensures '\n' !in r && '"' !in Unescaped(r)
  {
    if name == [] then [] else EscapeChar(name[0]) + Escape(name[1..])
  }

  /** The characters of a string that are not consumed by an escape sequence;
      in an escaped name no bare quote is left. */
  function Unescaped(s: string): string
    decreases |s|
  {
    if s == [] then []
    else if s[0] == '\\' && |s| >= 2 then Unescaped(s[2..])
    else [s[0]] + Unescaped(s[1..])
  }

  /** The character an escape sequence `\c` stands for. */
  function UnescapeChar(c: char): Option<char> {
    match c
    case '0' => Some('\0')
    case 't' => Some('\t')
    case 'r' => Some('\r')
    case 'n' => Some('\n')
    case '\\' => Some('\\')
    case '"' => Some('"')
    case _ => None
  }

  /** Reads the escaped characters back; None on a bare quote or a bad escape. */
  function Unescape(s: string): Option<string>
    decreases |s|
  {
    if s == [] then Some([])
    else if s[0] == '"' then None
    else if s[0] == '\\' then
      if |s| < 2 then None
      else match (UnescapeChar(s[1]), Unescape(s[2..]))
        case (Some(c), Some(t)) => Some([c] + t)
        case _ => None
    else
      match Unescape(s[1..])
      case None => None
      case Some(t) => Some([s[0]] + t)
  }

  /** A name as `{:?}` renders it: escaped and between double quotes. */
  function Quote(name: string): string {
    "\"" + Escape(name) + "\""
  }

  /** The first header line, without its line break. */
  function CommentLine(name: string): (line: string)
    ensures '\n' !in line
  {
    CommentPrefix + Quote(name)
  }

  /** The directive value: the load address divided by the width, truncated. */
  function Directive(address: u64, width: u8): (v: u64)
    requires width > 0
    ensures v * width <= address < (v + 1) * width
  {
    address / width
  }

  /** The second header line, without its line break. */
  function AddressLine(address: u64, width: u8): (line: string)
    requires width > 0
    ensures '\n' !in line
  {
    "@" + Hex.Nat(Directive(address, width))
  }

  /** Unescaping undoes the escape of one character in front of any text. */
  lemma UnescapeCons(c: char, rest: string)
    ensures Unescape(EscapeChar(c) + rest)
         == (match Unescape(rest) case None => None case Some(t) => Some([c] + t))
  {
    var e := EscapeChar(c);
    var s := e + rest;
    if |e| == 2 {
      assert s[0] == '\\' && s[2..] == rest;
      assert UnescapeChar(s[1]) == Some(c);
    } else {
      assert e == [c] && c != '"' && c != '\\';
      assert s[0] == c && s[1..] == rest;
    }
  }

  lemma {:induction false} UnescapeEscape(name: string)
    ensures Unescape(Escape(name)) == Some(name)
    decreases |name|
  {
    if name != [] {
      UnescapeEscape(name[1..]);
      UnescapeCons(name[0], Escape(name[1..]));
      assert name == [name[0]] + name[1..];
    }
  }

  /** Reads a quoted name back from the text after the comment prefix. */
  function ParseQuoted(s: string): Option<string> {
    if |s| < 2 || s[0] != '"' || s[|s| - 1] != '"' then None
    else Unescape(s[1..|s| - 1])
  }

  /** The quoted rendering of a name reads back as that name. */
  lemma QuoteRoundTrip(name: string)
    ensures ParseQuoted(Quote(name)) == Some(name)
  {
    var q := Quote(name);
    assert q[1..|q| - 1] == Escape(name);
    UnescapeEscape(name);
  }
}
