/** The body of a `.mem` image: the loop over the (possibly flipped) bytes of
    `dump_section`, printing each byte as a hex pair, a space unless packed,
    a line break after every `width`-th byte, and one final line break. */
module Format {
  import opened Common
  import Hex

  /** What follows every hex pair. */
  function Separator(packed: bool): string {
    if packed then "" else " "
  }

  /** Characters per byte on a line: two digits and the optional space. */
  function Stride(packed: bool): nat {
    2 + |Separator(packed)|
  }

  /** Whether the byte at index i of the section closes a line. */
  predicate EndsLine(i: nat, width: u8)
    requires width > 0
  {
    (i + 1) % width == 0
  }

  /** What one iteration of the loop writes for the byte b at index i. */
  function Cell(i: nat, b: u8, width: u8, packed: bool): string
    requires width > 0
  {
    Hex.ByteHex(b) + Separator(packed) + (if EndsLine(i, width) then "\n" else "")
  }

  /** The text the loop writes from index i on, followed by the closing line break. */
  function Emit(bs: seq<u8>, i: nat, width: u8, packed: bool): string
    requires width > 0 && i <= |bs|
    decreases |bs| - i
  {
    if i == |bs| then "\n"
    else Cell(i, bs[i], width, packed) + Emit(bs, i + 1, width, packed)
  }

  /** The body for a whole section, indices counted from the section start. */
  function Body(bs: seq<u8>, width: u8, packed: bool): string
    requires width > 0
  {
    Emit(bs, 0, width, packed)
  }

  // ----- An independent, line-oriented description of the same text -----

  /** The bytes bs[lo..hi] on one line: each as its hex pair and separator,
      no line break. */
  function Row(bs: seq<u8>, lo: nat, hi: nat, packed: bool): (r: string)
    requires lo <= hi <= |bs|
    ensures '\n' !in r
    decreases hi - lo
  {
    if lo == hi then "" else Hex.ByteHex(bs[lo]) + Separator(packed) + Row(bs, lo + 1, hi, packed)
  }

  /** From index lo on: lines of exactly `width` bytes each, then a last line
      holding the remaining fewer than `width` bytes (empty when none remain). */
  function Rows(bs: seq<u8>, lo: nat, width: u8, packed: bool): string
    requires width > 0 && lo <= |bs|
    decreases |bs| - lo
  {
    if |bs| - lo < width then Row(bs, lo, |bs|, packed) + "\n"
    else Row(bs, lo, lo + width, packed) + "\n" + Rows(bs, lo + width, width, packed)
  }

  lemma {:induction false} RowLength(bs: seq<u8>, lo: nat, hi: nat, packed: bool)
    requires lo <= hi <= |bs|
    ensures |Row(bs, lo, hi, packed)| == (hi - lo) * Stride(packed)
    decreases hi - lo
  {
    if lo < hi {
      RowLength(bs, lo + 1, hi, packed);
      MulStep(hi - lo, Stride(packed));
    }
  }

  lemma MulStep(n: nat, k: nat)
    requires n >= 1
    ensures n * k == k + (n - 1) * k
  {
  }

  lemma {:induction false} RowSplit(bs: seq<u8>, lo: nat, mid: nat, hi: nat, packed: bool)
    requires lo <= mid <= hi <= |bs|
    ensures Row(bs, lo, hi, packed) == Row(bs, lo, mid, packed) + Row(bs, mid, hi, packed)
    decreases mid - lo
  {
    if lo < mid {
      var head := Hex.ByteHex(bs[lo]) + Separator(packed);
      RowSplit(bs, lo + 1, mid, hi, packed);
      assert Row(bs, lo, hi, packed) == head + (Row(bs, lo + 1, mid, packed) + Row(bs, mid, hi, packed));
      assert Row(bs, lo, mid, packed) == head + Row(bs, lo + 1, mid, packed);
    }
  }

  /** Inside a line, byte k sits right after the text of the bytes before it,
      as its two hex digits followed by a single space unless packed; that
      offset is (k - lo) strides. */
  lemma RowAt(bs: seq<u8>, lo: nat, k: nat, hi: nat, packed: bool)
    requires lo <= k < hi <= |bs|
    ensures |Row(bs, lo, k, packed)| == (k - lo) * Stride(packed)
    ensures Row(bs, lo, hi, packed)
         == Row(bs, lo, k, packed) + Hex.ByteHex(bs[k]) + Separator(packed) + Row(bs, k + 1, hi, packed)
  {
    RowLength(bs, lo, k, packed);
    RowSplit(bs, lo, k, hi, packed);
  }

  lemma MulGrows(x: int, w: int)
    requires x >= 1 && w > 0
    ensures x * w >= w
  {
  }

  /** Division facts for a positive divisor, from a witness decomposition. */
  lemma DivMod(a: nat, w: nat, q: nat, r: nat)
    requires w > 0 && a == q * w + r && r < w
    ensures a / w == q && a % w == r
  {
    var q', r' := a / w, a % w;
    assert a == q' * w + r';
    if q' < q {
      assert (q - q') * w == q * w - q' * w;
      MulGrows(q - q', w);
    } else if q < q' {
      assert (q' - q) * w == q' * w - q * w;
      MulGrows(q' - q, w);
    }
  }

  /** No byte with index in [i, j) closes a line. */
  predicate NoBreakIn(i: nat, j: nat, width: u8)
    requires width > 0
  {
    forall k :: i <= k < j ==> !EndsLine(k, width)
  }

  /** With no line boundary among bytes i..j, their text is one run of pairs
      and separators. */
  lemma EmitRunStep(bs: seq<u8>, i: nat, j: nat, width: u8, packed: bool)
    requires width > 0 && i < j <= |bs| && !EndsLine(i, width)
    requires Emit(bs, i + 1, width, packed) == Row(bs, i + 1, j, packed) + Emit(bs, j, width, packed)
    ensures Emit(bs, i, width, packed) == Row(bs, i, j, packed) + Emit(bs, j, width, packed)
  {
    var head := Hex.ByteHex(bs[i]) + Separator(packed);
    assert Cell(i, bs[i], width, packed) == head;
    assert Emit(bs, i, width, packed)
        == head + (Row(bs, i + 1, j, packed) + Emit(bs, j, width, packed));
    assert Row(bs, i, j, packed) == head + Row(bs, i + 1, j, packed);
  }

  lemma {:induction false} EmitRun(bs: seq<u8>, i: nat, j: nat, width: u8, packed: bool)
    requires width > 0 && i <= j <= |bs|
    requires NoBreakIn(i, j, width)
    ensures Emit(bs, i, width, packed) == Row(bs, i, j, packed) + Emit(bs, j, width, packed)
    decreases j - i
  {
    if i < j {
      EmitRun(bs, i + 1, j, width, packed);
      EmitRunStep(bs, i, j, width, packed);
    } else {
      assert Row(bs, i, j, packed) == "";
    }
  }

  /** Starting at a line boundary, none of the next width - 1 bytes closes a line. */
  lemma NoBreakInsideLine(lo: nat, width: u8)
    requires width > 0 && lo % width == 0
    ensures NoBreakIn(lo, lo + width - 1, width)
  {
    forall k | lo <= k < lo + width - 1 ensures !EndsLine(k, width) {
      DivMod(k + 1, width, lo / width, k + 1 - lo);
    }
  }

  lemma {:induction false} RowSnoc(bs: seq<u8>, lo: nat, hi: nat, packed: bool)
    requires lo <= hi < |bs|
    ensures Row(bs, lo, hi + 1, packed) == Row(bs, lo, hi, packed) + Hex.ByteHex(bs[hi]) + Separator(packed)
    decreases hi - lo
  {
    if lo < hi {
      var head := Hex.ByteHex(bs[lo]) + Separator(packed);
      var pair := Hex.ByteHex(bs[hi]) + Separator(packed);
      RowSnoc(bs, lo + 1, hi, packed);
      assert Row(bs, lo, hi + 1, packed) == head + (Row(bs, lo + 1, hi, packed) + pair);
      assert Row(bs, lo, hi, packed) == head + Row(bs, lo + 1, hi, packed);
    } else {
      assert Row(bs, lo, hi + 1, packed) == Hex.ByteHex(bs[hi]) + Separator(packed) + "";
    }
  }

  /** From a line boundary lo, bytes lo .. lo + width - 2 stay on the line,
      byte lo + width - 1 closes it, and lo + width is the next boundary. */
  lemma LineBoundary(lo: nat, width: u8)
    requires width > 0 && lo % width == 0
    ensures NoBreakIn(lo, lo + width - 1, width)
    ensures EndsLine(lo + width - 1, width)
    ensures (lo + width) % width == 0
  {
    NoBreakInsideLine(lo, width);
    DivMod(lo + width, width, lo / width + 1, 0);
  }

  /** A full line from a line boundary: width pairs, then a line break. */
  lemma EmitFullLine(bs: seq<u8>, lo: nat, width: u8, packed: bool)
    requires width > 0 && lo + width <= |bs|
    requires NoBreakIn(lo, lo + width - 1, width) && EndsLine(lo + width - 1, width)
    ensures Emit(bs, lo, width, packed)
         == Row(bs, lo, lo + width, packed) + "\n" + Emit(bs, lo + width, width, packed)
  {
    var last := lo + width - 1;
    EmitRun(bs, lo, last, width, packed);
    var run := Row(bs, lo, last, packed);
    var pair := Hex.ByteHex(bs[last]) + Separator(packed);
    var next := Emit(bs, lo + width, width, packed);
    assert Emit(bs, last, width, packed) == pair + "\n" + next;
    RowSnoc(bs, lo, last, packed);
    assert Row(bs, lo, lo + width, packed) == run + pair;
    assert Emit(bs, lo, width, packed) == run + (pair + "\n" + next);
  }

  lemma NextLine(bs: seq<u8>, lo: nat, width: u8, packed: bool)
    requires width > 0 && lo % width == 0 && lo + width <= |bs|
    ensures Emit(bs, lo, width, packed)
         == Row(bs, lo, lo + width, packed) + "\n" + Emit(bs, lo + width, width, packed)
    ensures (lo + width) % width == 0
  {
    LineBoundary(lo, width);
    EmitFullLine(bs, lo, width, packed);
  }

  /** The short last line from a line boundary: the remaining pairs, then the
      closing line break. */
  lemma EmitLastLine(bs: seq<u8>, lo: nat, width: u8, packed: bool)
    requires width > 0 && lo % width == 0 && lo <= |bs| < lo + width
    ensures Emit(bs, lo, width, packed) == Row(bs, lo, |bs|, packed) + "\n"
  {
    NoBreakInsideLine(lo, width);
    EmitRun(bs, lo, |bs|, width, packed);
  }

  /** The loop's text, split at its line breaks, is Rows: a line break follows
      byte i exactly when i + 1 is a multiple of width. */
  lemma {:induction false} EmitIsRows(bs: seq<u8>, lo: nat, width: u8, packed: bool)
    requires width > 0 && lo <= |bs| && lo % width == 0
    ensures Emit(bs, lo, width, packed) == Rows(bs, lo, width, packed)
    decreases |bs| - lo
  {
    if |bs| - lo < width {
      EmitLastLine(bs, lo, width, packed);
      RowsLast(bs, lo, width, packed);
    } else {
      NextLine(bs, lo, width, packed);
      EmitIsRows(bs, lo + width, width, packed);
      RowsNext(bs, lo, width, packed);
    }
  }

  lemma RowsLast(bs: seq<u8>, lo: nat, width: u8, packed: bool)
    requires width > 0 && lo <= |bs| < lo + width
    ensures Rows(bs, lo, width, packed) == Row(bs, lo, |bs|, packed) + "\n"
  {
  }

  lemma RowsNext(bs: seq<u8>, lo: nat, width: u8, packed: bool)
    requires width > 0 && lo + width <= |bs|
    ensures Rows(bs, lo, width, packed)
         == Row(bs, lo, lo + width, packed) + "\n" + Rows(bs, lo + width, width, packed)
  {
  }

  lemma BodyIsRows(bs: seq<u8>, width: u8, packed: bool)
    requires width > 0
    ensures Body(bs, width, packed) == Rows(bs, 0, width, packed)
  {
    EmitIsRows(bs, 0, width, packed);
  }

  // ----- Line breaks -----

  /** Number of line breaks in a text. */
  function Newlines(s: string): nat {
    if s == [] then 0 else (if s[0] == '\n' then 1 else 0) + Newlines(s[1..])
  }

  lemma {:induction false} NewlinesAppend(a: string, b: string)
    ensures Newlines(a + b) == Newlines(a) + Newlines(b)
    decreases |a|
  {
    if a != [] {
      assert (a + b)[0] == a[0];
      assert (a + b)[1..] == a[1..] + b;
      NewlinesAppend(a[1..], b);
    } else {
      assert a + b == b;
    }
  }

  lemma {:induction false} NoNewlines(s: string)
    requires '\n' !in s
    ensures Newlines(s) == 0
    decreases |s|
  {
    if s != [] {
      NoNewlines(s[1..]);
    }
  }

  lemma DivStep(n: nat, width: nat)
    requires 0 < width
    ensures n < width ==> n / width == 0
    ensures n >= width ==> n / width == (n - width) / width + 1
  {
    if n < width {
      DivMod(n, width, 0, n);
    } else {
      DivMod(n, width, (n - width) / width + 1, (n - width) % width);
    }
  }

  lemma {:induction false} RowsNewlines(bs: seq<u8>, lo: nat, width: u8, packed: bool)
    requires width > 0 && lo <= |bs|
    ensures Newlines(Rows(bs, lo, width, packed)) == (|bs| - lo) / width + 1
    decreases |bs| - lo
  {
    DivStep(|bs| - lo, width);
    if |bs| - lo < width {
      NoNewlines(Row(bs, lo, |bs|, packed));
      NewlinesAppend(Row(bs, lo, |bs|, packed), "\n");
    } else {
      var row := Row(bs, lo, lo + width, packed);
      var rest := Rows(bs, lo + width, width, packed);
      NoNewlines(row);
      NewlinesAppend(row, "\n");
      NewlinesAppend(row + "\n", rest);
      RowsNewlines(bs, lo + width, width, packed);
      assert Newlines(rest) == (|bs| - lo - width) / width + 1;
    }
  }

  /** The body holds |bs| / width + 1 line breaks: one per completed line of
      width bytes and the unconditional closing one. */
  lemma BodyNewlines(bs: seq<u8>, width: u8, packed: bool)
    requires width > 0
    ensures Newlines(Body(bs, width, packed)) == |bs| / width + 1
  {
    BodyIsRows(bs, width, packed);
    RowsNewlines(bs, 0, width, packed);
  }

  // ----- Reading the hex pairs back -----

  /** Reads hex pairs back, skipping spaces and line breaks; None on any other
      character or on a lone digit. */
  function Decode(s: string): Option<seq<u8>>
    decreases |s|
  {
    if s == [] then Some([])
    else if s[0] == ' ' || s[0] == '\n' then Decode(s[1..])
    else if |s| >= 2 && Hex.IsDigit(s[0]) && Hex.IsDigit(s[1]) then
      match Decode(s[2..])
      case None => None
      case Some(t) => Some([Hex.PairValue(s[0], s[1])] + t)
    else None
  }

  predicate IsBlank(s: string) {
    forall i :: 0 <= i < |s| ==> s[i] == ' ' || s[i] == '\n'
  }

  lemma {:induction false} DecodeSkipsBlank(ws: string, rest: string)
    requires IsBlank(ws)
    ensures Decode(ws + rest) == Decode(rest)
    decreases |ws|
  {
    if ws != [] {
      assert (ws + rest)[0] == ws[0];
      assert (ws + rest)[1..] == ws[1..] + rest;
      DecodeSkipsBlank(ws[1..], rest);
    } else {
      assert ws + rest == rest;
    }
  }

  /** One step of the loop's text: a hex pair, then blanks, then the rest. */
  lemma EmitStep(bs: seq<u8>, i: nat, width: u8, packed: bool) returns (ws: string)
    requires width > 0 && i < |bs|
    ensures IsBlank(ws)
    ensures Emit(bs, i, width, packed) == Hex.ByteHex(bs[i]) + (ws + Emit(bs, i + 1, width, packed))
  {
    ws := Separator(packed) + (if EndsLine(i, width) then "\n" else "");
  }

  /** A hex pair in front of a text reads as its byte in front of that text's bytes. */
  lemma DecodePair(pair: string, rest: string)
    requires |pair| == 2 && Hex.IsDigit(pair[0]) && Hex.IsDigit(pair[1])
    ensures Decode(pair + rest)
         == (match Decode(rest) case None => None case Some(t) => Some([Hex.PairValue(pair[0], pair[1])] + t))
  {
    var s := pair + rest;
    assert s[0] == pair[0] && s[1] == pair[1] && s[2..] == rest;
  }

  lemma {:induction false} EmitDecodes(bs: seq<u8>, i: nat, width: u8, packed: bool)
    requires width > 0 && i <= |bs|
    ensures Decode(Emit(bs, i, width, packed)) == Some(bs[i..])
    decreases |bs| - i
  {
    if i == |bs| {
      assert Decode("\n") == Decode("");
    } else {
      var ws := EmitStep(bs, i, width, packed);
      var rest := Emit(bs, i + 1, width, packed);
      EmitDecodes(bs, i + 1, width, packed);
      DecodeSkipsBlank(ws, rest);
      DecodePair(Hex.ByteHex(bs[i]), ws + rest);
      Hex.ByteHexRoundTrip(bs[i]);
      assert bs[i..] == [bs[i]] + bs[i + 1..];
    }
  }

  /** Round trip: reading the hex pairs of a body back yields exactly the
      bytes it was written from, packed or not. */
  lemma BodyDecodes(bs: seq<u8>, width: u8, packed: bool)
    requires width > 0
    ensures Decode(Body(bs, width, packed)) == Some(bs)
  {
    EmitDecodes(bs, 0, width, packed);
    assert bs[0..] == bs;
  }

  /** One iteration of the loop keeps "written so far + still to write" equal
      to the whole body. */
  lemma WriteStep(bs: seq<u8>, i: nat, width: u8, packed: bool, out: string, piece: string)
    requires width > 0 && i < |bs|
    requires out + Emit(bs, i, width, packed) == Body(bs, width, packed)
    requires piece == Cell(i, bs[i], width, packed)
    ensures (out + piece) + Emit(bs, i + 1, width, packed) == Body(bs, width, packed)
  {
    EmitCons(bs, i, width, packed);
    Assoc(out, piece, Emit(bs, i + 1, width, packed));
  }

  lemma EmitCons(bs: seq<u8>, i: nat, width: u8, packed: bool)
    requires width > 0 && i < |bs|
    ensures Emit(bs, i, width, packed) == Cell(i, bs[i], width, packed) + Emit(bs, i + 1, width, packed)
  {
  }

  lemma Assoc(a: string, b: string, c: string)
    ensures (a + b) + c == a + (b + c)
  {
  }

  /** The facts the loop's result inherits from the body. */
  lemma BodyFacts(bs: seq<u8>, width: u8, packed: bool)
    requires width > 0
    ensures Body(bs, width, packed) == Rows(bs, 0, width, packed)
    ensures Decode(Body(bs, width, packed)) == Some(bs)
    ensures Newlines(Body(bs, width, packed)) == |bs| / width + 1
  {
    BodyIsRows(bs, width, packed);
    BodyDecodes(bs, width, packed);
    BodyNewlines(bs, width, packed);
  }

  /** The `enumerate` loop of the source, writing into an output buffer. */
  method WriteBody(slice: seq<u8>, width: u8, packed: bool) returns (out: string)
    requires width > 0
    ensures out == Rows(slice, 0, width, packed)
    ensures Decode(out) == Some(slice)
    ensures Newlines(out) == |slice| / width + 1
  {
    out := [];
    for i := 0 to |slice|
      invariant out + Emit(slice, i, width, packed) == Body(slice, width, packed)
    {
      var piece := Hex.ByteHex(slice[i]) + Separator(packed);
      if (i + 1) % width as int == 0 {
        piece := piece + "\n";
      }
      WriteStep(slice, i, width, packed, out, piece);
      out := out + piece;
    }
    assert out + "\n" == Body(slice, width, packed);
    out := out + "\n";
    BodyFacts(slice, width, packed);
  }
}
