// The text console (src/monitor/monitor.c): an 80x25 grid of 16-bit cells
// (character byte, attribute byte) in video memory and a cursor that
// every character moves.  A `char` of the kernel is a signed byte (i8).
// The hardware cursor update (move_cursor) only writes I/O ports and is
// left out.

module Monitor {
  import opened Common
  import Format

  const Width: nat := 80
  const Height: nat := 25
  const Cells: nat := 2000
  const ColorWhite: u8 := 7
  /** A space on black with the white foreground. */
  const Blank: u16 := 0x0720

  /** The cell a printable character becomes: the character in the low
      byte and `(black << 4 | color & 0xF)` in the high byte.  The two
      parts occupy different bits, so the source's `|` is a sum here. */
  function Glyph(c: i8, color: u8): (g: u16)
    requires c >= 0x20
    ensures g % 256 == c && g / 256 == color % 16
  {
    c + (color % 16) * 256
  }

  /** The screen contents and the cursor. */
  datatype Screen = Screen(cells: seq<u16>, x: nat, y: nat)

  predicate OnScreen(s: Screen)
  {
    |s.cells| == Cells && s.x < Width && s.y < Height
  }

  /** Rows 1-24 moved up one row and a blank last row. */
  function Scrolled(cells: seq<u16>): (r: seq<u16>)
    requires |cells| == Cells
    ensures |r| == Cells
    ensures forall i :: 0 <= i < Cells - Width ==> r[i] == cells[i + Width]
    ensures forall i :: Cells - Width <= i < Cells ==> r[i] == Blank
  {
    seq(Cells, i requires 0 <= i < Cells => if i < Cells - Width then cells[i + Width] else Blank)
  }

  /** monitor_put_with_color on the screen: the character's own effect,
      then the wrap to the next line at column 80, then the scroll when the
      cursor has left the last row. */
  function PutScreen(s: Screen, c: i8, color: u8): (r: Screen)
    requires OnScreen(s)
    ensures OnScreen(r)
  {
    var step :=
      if c == 0x08 && s.x > 0 then Screen(s.cells, s.x - 1, s.y)
      else if c == 0x09 then Screen(s.cells, (s.x + 8) - (s.x + 8) % 8, s.y)
      else if c == 0x0D then Screen(s.cells, 0, s.y)
      else if c == 0x0A then Screen(s.cells, 0, s.y + 1)
      else if c >= 0x20 then Screen(s.cells[s.y * Width + s.x := Glyph(c, color)], s.x + 1, s.y)
      else s;
    var wrapped := if step.x >= Width then Screen(step.cells, 0, step.y + 1) else step;
    if wrapped.y >= Height then Screen(Scrolled(wrapped.cells), wrapped.x, Height - 1) else wrapped
  }

  /** A printable character lands under the cursor and the cursor moves
      right; at the end of a line it moves to the start of the next, and
      past the last line the screen scrolls, taking the new glyph up a row. */
  lemma PutPrintable(s: Screen, c: i8, color: u8)
    requires OnScreen(s) && c >= 0x20
    ensures var r := PutScreen(s, c, color);
      var at := s.y * Width + s.x;
      if s.x < Width - 1 then
        r == Screen(s.cells[at := Glyph(c, color)], s.x + 1, s.y)
      else if s.y < Height - 1 then
        r == Screen(s.cells[at := Glyph(c, color)], 0, s.y + 1)
      else
        r == Screen(Scrolled(s.cells[at := Glyph(c, color)]), 0, Height - 1) && r.cells[at - Width] == Glyph(c, color)
  {
  }

  /** Backspace moves left unless in the first column, and erases nothing. */
  lemma PutBackspace(s: Screen, color: u8)
    requires OnScreen(s)
    ensures s.x > 0 ==> PutScreen(s, 0x08, color) == Screen(s.cells, s.x - 1, s.y)
    ensures s.x == 0 ==> PutScreen(s, 0x08, color) == s
  {
  }

  /** A tab moves to the next multiple of 8 strictly right of the cursor,
      which past column 72 is the start of the next line. */
  lemma PutTab(s: Screen, color: u8)
    requires OnScreen(s)
    ensures var r := PutScreen(s, 0x09, color);
      if s.x < 72 then
        r == Screen(s.cells, r.x, s.y) && r.x % 8 == 0 && s.x < r.x <= s.x + 8
      else
        r.x == 0 && (s.y < Height - 1 ==> r == Screen(s.cells, 0, s.y + 1))
  {
  }

  /** Carriage return goes to column 0; newline also goes down a row,
      scrolling from the last one. */
  lemma PutReturns(s: Screen, color: u8)
    requires OnScreen(s)
    ensures PutScreen(s, 0x0D, color) == Screen(s.cells, 0, s.y)
    ensures s.y < Height - 1 ==> PutScreen(s, 0x0A, color) == Screen(s.cells, 0, s.y + 1)
    ensures s.y == Height - 1 ==> PutScreen(s, 0x0A, color) == Screen(Scrolled(s.cells), 0, Height - 1)
  {
  }

  /** Other control characters, and the bytes above 0x7F (negative as a
      signed char), change nothing. */
  lemma PutIgnored(s: Screen, c: i8, color: u8)
    requires OnScreen(s) && c < 0x20 && c != 0x08 && c != 0x09 && c != 0x0A && c != 0x0D
    ensures PutScreen(s, c, color) == s
  {
  }

  /** The screen after putting each character of `text` in turn. */
  function PutAll(s: Screen, text: seq<i8>, color: u8): (r: Screen)
    requires OnScreen(s)
    ensures OnScreen(r)
    decreases |text|
  {
    if text == [] then s else PutAll(PutScreen(s, text[0], color), text[1..], color)
  }

  lemma {:induction false} PutAllAppend(s: Screen, text: seq<i8>, c: i8, color: u8)
    requires OnScreen(s)
    ensures PutAll(s, text + [c], color) == PutScreen(PutAll(s, text, color), c, color)
    decreases |text|
  {
    if text == [] {
      assert [c][1..] == [];
    } else {
      assert (text + [c])[1..] == text[1..] + [c];
      PutAllAppend(PutScreen(s, text[0], color), text[1..], c, color);
    }
  }

  /** The character codes of a string of digits or other ASCII text. */
  function Codes(s: string): (r: seq<i8>)
    requires forall i :: 0 <= i < |s| ==> s[i] as int < 0x80
    ensures |r| == |s| && forall i :: 0 <= i < |s| ==> r[i] == s[i] as int
  {
    seq(|s|, i requires 0 <= i < |s| => s[i] as int)
  }

  /** "0x" followed by the hexadecimal digits of `n`. */
  function HexString(n: u32): (s: string)
    ensures |s| >= 3 && s[..2] == "0x"
    ensures forall i :: 0 <= i < |s| ==> s[i] as int < 0x80
  {
    "0x" + Format.Hex(n)
  }

  /** `n >> i` on an unsigned value: halved `i` times, rounding down. */
  function Shr(n: nat, i: nat): (r: nat)
  {
    if i == 0 then n else Shr(n, i - 1) / 2
  }

  /** Shifting by four more bits divides by 16. */
  lemma ShrNibble(n: nat, i: nat)
    ensures Shr(n, i + 4) == Shr(n, i) / 16
  {
    var x := Shr(n, i);
    Format.DivDiv(x, 2, 2);
    assert Shr(n, i + 2) == x / 4;
    Format.DivDiv(x, 4, 2);
    assert Shr(n, i + 3) == x / 8;
    Format.DivDiv(x, 8, 2);
  }

  /** A value below 2^k shifted by `i <= k` bits is below 2^(k - i). */
  lemma {:induction false} ShrBound(n: nat, i: nat, k: nat, bound: nat)
    requires i <= k && n < bound * Pow2(i)
    ensures Shr(n, i) < bound
  {
    if i > 0 {
      ShrBound(n, i - 1, k, 2 * bound);
    }
  }

  function Pow2(i: nat): (p: nat)
    ensures p >= 1
  {
    if i == 0 then 1 else 2 * Pow2(i - 1)
  }

  lemma Pow2Nibble(i: nat)
    ensures Pow2(i + 4) == Pow2(i) * 16
  {
    assert Pow2(i + 4) == 2 * Pow2(i + 3);
    assert Pow2(i + 3) == 2 * Pow2(i + 2);
    assert Pow2(i + 2) == 2 * Pow2(i + 1);
  }

  /** A uint32 shifted right by 32 bits is 0. */
  lemma ShrWord(n: u32)
    ensures Shr(n, 32) == 0
  {
    Pow2Nibble(0);
    Pow2Nibble(4);
    Pow2Nibble(8);
    Pow2Nibble(12);
    Pow2Nibble(16);
    Pow2Nibble(20);
    Pow2Nibble(24);
    Pow2Nibble(28);
    ShrBound(n, 32, 32, 1);
  }

  /** Nibble `i / 4` of `n` under the nibbles above it. */
  lemma NibbleSplit(n: nat, i: nat)
    ensures Shr(n, i) == Shr(n, i + 4) * 16 + Shr(n, i) % 16
  {
    ShrNibble(n, i);
    Format.DivMod(Shr(n, i), 16);
  }

  /** The digits of `m` without leading zeros, and nothing for 0. */
  function Lead(m: nat, base: nat): (s: string)
    requires 2 <= base <= 16
  {
    if m == 0 then "" else Format.Digits(m, base)
  }

  /** One more digit below the ones already shown. */
  lemma LeadStep(m: nat, d: nat, base: nat)
    requires 2 <= base <= 16 && d < base
    ensures m * base + d != 0 ==> Lead(m * base + d, base) == Lead(m, base) + [Format.DigitChar(d)]
  {
    var v := m * base + d;
    Format.DivUnique(v, base, m, d);
    if m > 0 {
      assert v >= base;
    }
  }

  /** The nonzero digits of `n` down to bit i: those down to bit i + 4,
      then nibble i / 4 unless everything so far is zero. */
  lemma LeadNibble(n: nat, i: nat)
    ensures Shr(n, i) == 0 <==> Shr(n, i + 4) == 0 && Shr(n, i) % 16 == 0
    ensures Lead(Shr(n, i), 16)
         == if Shr(n, i) == 0 then "" else Lead(Shr(n, i + 4), 16) + [Format.DigitChar(Shr(n, i) % 16)]
  {
    NibbleSplit(n, i);
    LeadStep(Shr(n, i + 4), Shr(n, i) % 16, 16);
  }

  /** The hex digits of `n` are its nonzero digits above bit 4 and then,
      always, the last nibble. */
  lemma HexLastNibble(n: nat)
    ensures Format.Hex(n) == Lead(Shr(n, 4), 16) + [Format.DigitChar(n % 16)]
  {
    NibbleSplit(n, 0);
    LeadStep(Shr(n, 4), n % 16, 16);
    if n == 0 {
      assert Shr(n, 4) == 0;
    }
  }

  /** The digits monitor_write_hex puts after "0x": the nibbles from bit 28
      down to bit 4, with leading zero nibbles skipped, then always the
      last nibble. */
  method HexDigits(n: u32) returns (s: string)
    ensures s == Format.Hex(n)
  {
    s := "";
    var noZeroes := true;
    var i := 28;
    ShrWord(n);
    while i > 0
      invariant 0 <= i <= 28 && i % 4 == 0
      invariant s == Lead(Shr(n, i + 4), 16)
      invariant noZeroes <==> Shr(n, i + 4) == 0
    {
      var tmp := Shr(n, i) % 16;
      LeadNibble(n, i);
      if !(tmp == 0 && noZeroes) {
        noZeroes := false;
        s := s + [Format.DigitChar(tmp)];
      }
      i := i - 4;
    }
    var tmp := n % 16;
    HexLastNibble(n);
    s := s + [Format.DigitChar(tmp)];
  }

  /** The digit loops of monitor_write_dec on the value it keeps in `acc`:
      the digits collected least significant first, then copied out in
      reverse.  Nothing comes out unless `acc` is positive. */
  method DecLoops(acc: int) returns (s: string)
    ensures acc > 0 ==> s == Format.Decimal(acc)
    ensures acc <= 0 ==> s == []
  {
    var a := acc;
    var c: seq<char> := [];
    ghost var shown := if acc > 0 then acc else 0;
    while a > 0
      invariant acc > 0 ==> 0 <= a && Lead(shown, 10) == Lead(a, 10) + Reversed(c)
      invariant acc <= 0 ==> a == acc && c == []
      decreases a
    {
      Format.DivMod(a, 10);
      LeadStep(a / 10, a % 10, 10);
      ReversedSnoc(c, Format.DigitChar(a % 10));
      c := c + [Format.DigitChar(a % 10)];
      a := a / 10;
    }
    s := [];
    var j := 0;
    while j < |c|
      invariant 0 <= j <= |c|
      invariant s == Reversed(c[..j])
    {
      ReversedSnoc(c[..j], c[j]);
      assert c[..j + 1] == c[..j] + [c[j]];
      s := [c[j]] + s;
      j := j + 1;
    }
    assert c[..|c|] == c;
  }

  function Reversed(s: string): (r: string)
    ensures |r| == |s|
  {
    if s == [] then [] else Reversed(s[1..]) + [s[0]]
  }

  lemma {:induction false} ReversedSnoc(s: string, c: char)
    ensures Reversed(s + [c]) == [c] + Reversed(s)
  {
    if s == [] {
      assert [c][1..] == [];
    } else {
      assert (s + [c])[1..] == s[1..] + [c];
      ReversedSnoc(s[1..], c);
    }
  }

  /** monitor_write_dec as written: `acc` is an int32, so from 2^31 on it
      starts negative and nothing at all is printed. */
  method DecStringAsWritten(n: u32) returns (s: string)
    ensures n == 0 ==> s == "0"
    ensures 0 < n < 0x8000_0000 ==> s == Format.Decimal(n)
    ensures n >= 0x8000_0000 ==> s == []
  {
    if n == 0 {
      return "0";
    }
    s := DecLoops(ToI32(n));
  }

  /** monitor_write_dec with `acc` as wide as `n`: the decimal digits of
      every value, "0" for 0. */
  method DecString(n: u32) returns (s: string)
    ensures s == Format.Decimal(n)
  {
    if n == 0 {
      return "0";
    }
    s := DecLoops(n);
  }

  /** 2^31 has ten digits, but the as-written loop starts at a negative
      `acc` and shows none. */
  lemma DecAsWrittenLosesDigits()
    ensures ToI32(0x8000_0000) < 0 && |Format.Decimal(0x8000_0000)| >= 1
  {
  }

  /** The console: video memory and the cursor. */
  class Console {
    const video: array<u16>
    var cursorX: nat
    var cursorY: nat

    ghost predicate Valid()
      reads this
    {
      video.Length == Cells && cursorX < Width && cursorY < Height
    }

    function State(): (s: Screen)
      reads this, video
    {
      Screen(video[..], cursorX, cursorY)
    }

    constructor ()
      ensures Valid() && fresh(video) && cursorX == 0 && cursorY == 0
    {
      video := new u16[Cells];
      cursorX := 0;
      cursorY := 0;
    }

    /** scroll: with the cursor below the last row, rows 1-24 move up, the
        last row is blanked and the cursor goes to row 24. */
    method Scroll()
      requires video.Length == Cells && cursorY <= Height
      modifies this, video
      ensures cursorX == old(cursorX)
      ensures old(cursorY) >= Height ==> video[..] == Scrolled(old(video[..])) && cursorY == Height - 1
      ensures old(cursorY) < Height ==> video[..] == old(video[..]) && cursorY == old(cursorY)
    {
      if cursorY >= Height {
        MoveRowsUp();
        BlankLastRow();
        cursorY := Height - 1;
      }
    }

    method MoveRowsUp()
      requires video.Length == Cells
      modifies video
      ensures forall k :: 0 <= k < Cells - Width ==> video[k] == old(video[k + Width])
      ensures forall k :: Cells - Width <= k < Cells ==> video[k] == old(video[k])
    {
      var i := 0;
      while i < Cells - Width
        invariant 0 <= i <= Cells - Width
        invariant forall k :: 0 <= k < i ==> video[k] == old(video[k + Width])
        invariant forall k :: i <= k < Cells ==> video[k] == old(video[k])
      {
        video[i] := video[i + Width];
        i := i + 1;
      }
    }

    method BlankLastRow()
      requires video.Length == Cells
      modifies video
      ensures forall k :: 0 <= k < Cells - Width ==> video[k] == old(video[k])
      ensures forall k :: Cells - Width <= k < Cells ==> video[k] == Blank
    {
      var i := Cells - Width;
      while i < Cells
        invariant Cells - Width <= i <= Cells
        invariant forall k :: 0 <= k < Cells - Width ==> video[k] == old(video[k])
        invariant forall k :: Cells - Width <= k < i ==> video[k] == Blank
      {
        video[i] := Blank;
        i := i + 1;
      }
    }

    /** monitor_put_with_color. */
    method PutWithColor(c: i8, color: u8)
      requires Valid()
      modifies this, video
      ensures Valid()
      ensures State() == PutScreen(old(State()), c, color)
    {
      if c == 0x08 && cursorX > 0 {
        cursorX := cursorX - 1;
      } else if c == 0x09 {
        cursorX := (cursorX + 8) - (cursorX + 8) % 8;
      } else if c == 0x0D {
        cursorX := 0;
      } else if c == 0x0A {
        cursorX := 0;
        cursorY := cursorY + 1;
      } else if c >= 0x20 {
        video[cursorY * Width + cursorX] := Glyph(c, color);
        cursorX := cursorX + 1;
      }
      if cursorX >= Width {
        cursorX := 0;
        cursorY := cursorY + 1;
      }
      Scroll();
    }

    /** monitor_put: in white. */
    method Put(c: i8)
      requires Valid()
      modifies this, video
      ensures Valid()
      ensures State() == PutScreen(old(State()), c, ColorWhite)
    {
      PutWithColor(c, ColorWhite);
    }

    /** Puts the characters of `text` one after the other. */
    method PutText(text: seq<i8>, color: u8)
      requires Valid()
      modifies this, video
      ensures Valid()
      ensures State() == PutAll(old(State()), text, color)
    {
      var i := 0;
      while i < |text|
        invariant 0 <= i <= |text|
        invariant Valid()
        invariant State() == PutAll(old(State()), text[..i], color)
      {
        PutAllAppend(old(State()), text[..i], text[i], color);
        assert text[..i + 1] == text[..i] + [text[i]];
        PutWithColor(text[i], color);
        i := i + 1;
      }
      assert text[..|text|] == text;
    }

    /** monitor_write_with_color: the characters before the terminating NUL. */
    method WriteWithColor(text: seq<i8>, color: u8)
      requires Valid() && 0 in text
      modifies this, video
      ensures Valid()
      ensures exists k :: 0 <= k < |text| && text[k] == 0 && 0 !in text[..k] &&
                          State() == PutAll(old(State()), text[..k], color)
    {
      var k := 0;
      while text[k] != 0
        invariant 0 <= k < |text| && 0 !in text[..k] && 0 in text[k..]
        decreases |text| - k
      {
        assert text[..k + 1] == text[..k] + [text[k]];
        k := k + 1;
      }
      PutText(text[..k], color);
    }

    /** monitor_clear: every cell blank and the cursor at the top left. */
    method Clear()
      requires Valid()
      modifies this, video
      ensures Valid() && cursorX == 0 && cursorY == 0
      ensures forall k :: 0 <= k < Cells ==> video[k] == Blank
    {
      var i := 0;
      while i < Cells
        invariant 0 <= i <= Cells
        invariant forall k :: 0 <= k < i ==> video[k] == Blank
      {
        video[i] := Blank;
        i := i + 1;
      }
      cursorX := 0;
      cursorY := 0;
    }

    /** monitor_write_hex: "0x" and the hexadecimal digits, in white. */
    method WriteHex(n: u32)
      requires Valid()
      modifies this, video
      ensures Valid()
      ensures State() == PutAll(old(State()), Codes(HexString(n)), ColorWhite)
    {
      var digits := HexDigits(n);
      PutText(Codes("0x" + digits), ColorWhite);
    }

    /** monitor_write_dec, with the intended width of `acc`. */
    method WriteDec(n: u32)
      requires Valid()
      modifies this, video
      ensures Valid()
      ensures State() == PutAll(old(State()), Codes(Format.Decimal(n)), ColorWhite)
    {
      var text := DecString(n);
      PutText(Codes(text), ColorWhite);
    }
  }
}
