/** The VGA text writer (`vga_buffer.rs`): a 25x80 buffer that is scrolled in place. */
module VgaWriter {
  import opened ByteMemory
  import opened ScreenLayout

  class Writer {
    var columnPosition: nat
    var colourCode: byte
    const chars: array2<ScreenChar>

    ghost predicate Valid()
      reads this
    {
      chars.Length0 == HEIGHT && chars.Length1 == WIDTH && columnPosition <= WIDTH
    }

    ghost function RowAt(r: nat): (row: Row)
      requires r < chars.Length0
      reads chars
      ensures |row| == chars.Length1
    {
      seq(chars.Length1, c requires 0 <= c < chars.Length1 reads chars => chars[r, c])
    }

    ghost function Rows(): (rows: seq<Row>)
      reads chars
      ensures |rows| == chars.Length0
      ensures forall r :: 0 <= r < |rows| ==> rows[r] == RowAt(r)
    {
      seq(chars.Length0, r requires 0 <= r < chars.Length0 reads chars => RowAt(r))
    }

    ghost function Screen(): (v: View)
      requires Valid()
      reads this, chars
      ensures Good(v)
    {
      View(Rows(), columnPosition)
    }

    constructor (chars: array2<ScreenChar>, colourCode: byte)
      requires chars.Length0 == HEIGHT && chars.Length1 == WIDTH
      ensures Valid() && this.chars == chars && this.colourCode == colourCode && columnPosition == 0
    {
      this.chars := chars;
      this.colourCode := colourCode;
      columnPosition := 0;
    }

    /** `clear_row`. */
    method ClearRow(row: nat)
      requires Valid() && row < HEIGHT
      modifies chars
      ensures forall c :: 0 <= c < WIDTH ==> chars[row, c] == ScreenChar(SPACE, colourCode)
      ensures forall r, c :: 0 <= r < HEIGHT && r != row && 0 <= c < WIDTH ==> chars[r, c] == old(chars[r, c])
    {
      var blank := ScreenChar(SPACE, colourCode);
      for col := 0 to WIDTH
        invariant forall c :: 0 <= c < col ==> chars[row, c] == blank
        invariant forall r, c :: 0 <= r < HEIGHT && r != row && 0 <= c < WIDTH ==> chars[r, c] == old(chars[r, c])
      {
        chars[row, col] := blank;
      }
    }

    // The row copy of `new_line`: ascending, in place.
    method ShiftUp()
      requires Valid()
      modifies chars
      ensures forall r, c :: 0 <= r < HEIGHT - 1 && 0 <= c < WIDTH ==> chars[r, c] == old(chars[r + 1, c])
    {
      for row := 1 to HEIGHT
        invariant forall r, c :: 0 <= r < row - 1 && 0 <= c < WIDTH ==> chars[r, c] == old(chars[r + 1, c])
        invariant forall r, c :: row <= r < HEIGHT && 0 <= c < WIDTH ==> chars[r, c] == old(chars[r, c])
      {
        for col := 0 to WIDTH
          invariant forall r, c :: 0 <= r < row - 1 && 0 <= c < WIDTH ==> chars[r, c] == old(chars[r + 1, c])
          invariant forall c :: 0 <= c < col ==> chars[row - 1, c] == old(chars[row, c])
          invariant forall r, c :: row <= r < HEIGHT && 0 <= c < WIDTH ==> chars[r, c] == old(chars[r, c])
        {
          var character := chars[row, col];
          chars[row - 1, col] := character;
        }
      }
    }

    /** `new_line`: a pure upward shift with a blank last row. */
    method NewLine()
      requires Valid()
      modifies chars, this`columnPosition
      ensures Valid() && Screen() == Scroll(old(Screen()), colourCode)
      ensures columnPosition == 0
      ensures forall r, c :: 0 <= r < 24 && 0 <= c < 80 ==> chars[r, c] == old(chars[r + 1, c])
      ensures forall c :: 0 <= c < 80 ==> chars[24, c] == ScreenChar(0x20, colourCode)
    {
      ghost var before := Rows();
      ShiftUp();
      ClearRow(HEIGHT - 1);
      columnPosition := 0;
      ghost var after := before[1..] + [BlankRow(colourCode)];
      forall r | 0 <= r < HEIGHT ensures Rows()[r] == after[r] {
        assert RowAt(r) == after[r];
      }
      assert Rows() == after;
    }

    /** `write_byte`. A newline scrolls; any other byte stands in the colour of the writer at the column
        position of the last row, after a scroll if that row is full. */
    method WriteByte(b: byte)
      requires Valid()
      modifies chars, this`columnPosition
      ensures Valid() && Screen() == Put(old(Screen()), colourCode, b)
      ensures b == 0x0a ==> columnPosition == 0
      ensures b != 0x0a ==>
        && columnPosition == (if old(columnPosition) < 80 then old(columnPosition) else 0) + 1
        && chars[24, columnPosition - 1] == ScreenChar(b, colourCode)
      ensures var scrolled := b == 0x0a || old(columnPosition) == 80;
              && (forall r, c :: 0 <= r < 24 && 0 <= c < 80 ==>
                    chars[r, c] == if scrolled then old(chars[r + 1, c]) else old(chars[r, c]))
              && (forall c :: 0 <= c < 80 && (b == 0x0a || c != columnPosition - 1) ==>
                    chars[24, c] == if scrolled then ScreenChar(0x20, colourCode) else old(chars[24, c]))
    {
      if b == NEWLINE {
        NewLine();
      } else {
        if columnPosition >= WIDTH {
          NewLine();
        }
        WriteChar(b);
      }
    }

    method WriteChar(b: byte)
      requires Valid() && columnPosition < WIDTH
      modifies chars, this`columnPosition
      ensures Valid() && Screen() == PutChar(old(Screen()), colourCode, b)
      ensures columnPosition == old(columnPosition) + 1 && chars[24, old(columnPosition)] == ScreenChar(b, colourCode)
      ensures forall r, c :: 0 <= r < 25 && 0 <= c < 80 && (r != 24 || c != old(columnPosition)) ==>
        chars[r, c] == old(chars[r, c])
    {
      var row := HEIGHT - 1;
      var col := columnPosition;
      ghost var before := Rows();
      chars[row, col] := ScreenChar(b, colourCode);
      columnPosition := columnPosition + 1;
      ghost var after := before[row := before[row][col := ScreenChar(b, colourCode)]];
      forall r | 0 <= r < HEIGHT ensures Rows()[r] == after[r] {
        assert RowAt(r) == after[r];
      }
      assert Rows() == after;
    }

    /** `write_string`: the screen ends up showing the last 25 rows of the layout of the whole text, in which
        a byte that cannot be printed is 0xfe. A string that fits the rest of the last row stands there
        byte for byte, and nothing else changes. */
    method WriteString(s: seq<byte>)
      requires Valid()
      modifies chars, this`columnPosition
      ensures Valid() && Screen() == PutAll(old(Screen()), colourCode, PrintableText(s))
      ensures var v, pieces := old(Screen()), Pieces(Lines(PrintableText(s)), WIDTH - old(columnPosition));
              && Fitting(pieces, WIDTH - v.column)
              && Screen() == View(LastRows(Paper(v, colourCode, pieces)), FinalColumn(v, pieces))
      ensures 0x0a !in s && old(columnPosition) + |s| <= 80 ==>
        && columnPosition == old(columnPosition) + |s|
        && (forall i :: 0 <= i < |s| ==>
              chars[24, old(columnPosition) + i] ==
              ScreenChar(if 0x20 <= s[i] <= 0x7e then s[i] else 0xfe, colourCode))
        && forall r, c :: 0 <= r < 25 && 0 <= c < 80 && (r != 24 || c < old(columnPosition) || columnPosition <= c) ==>
             chars[r, c] == old(chars[r, c])
    {
      hide PutAll, Put, Lines, Pieces, Paper, LastRows, FinalColumn, Printable;
      ghost var v, fits := Screen(), 0x0a !in s && columnPosition + |s| <= 80;
      NothingPut(v, colourCode);
      for i := 0 to |s|
        invariant Valid() && Screen() == PutAll(v, colourCode, PrintableText(s[..i]))
        invariant fits ==>
          && columnPosition == old(columnPosition) + i
          && (forall j :: 0 <= j < i ==>
                chars[24, old(columnPosition) + j] ==
                ScreenChar(if 0x20 <= s[j] <= 0x7e then s[j] else 0xfe, colourCode))
          && forall r, c ::
               (0 <= r < 25 && 0 <= c < 80 && (r != 24 || c < old(columnPosition) || columnPosition <= c)) ==>
               chars[r, c] == old(chars[r, c])
      {
        WriteByte(Printable(s[i]));
        ghost var text := PrintableText(s[..i + 1]);
        assert text[..i] == PrintableText(s[..i]) && text[i] == Printable(s[i]);
        PutOneMore(v, colourCode, text);
      }
      assert s[..|s|] == s;
      WritingIsLayout(v, colourCode, PrintableText(s));
    }
  }
}
