/** The text layout of the VGA writer (`vga_buffer.rs`), as a function of the whole text.

    Text is split into lines at newlines, and lines into rows of 80; the screen shows the last 25 rows. */
module ScreenLayout {
  import opened ByteMemory

  const HEIGHT: nat := 25
  const WIDTH: nat := 80
  const NEWLINE: byte := 10
  const SPACE: byte := 32

  datatype ScreenChar = ScreenChar(ascii: byte, colour: byte)

  type Row = seq<ScreenChar>

  // What a writer shows and where it stands in the last row.
  datatype View = View(rows: seq<Row>, column: nat)

  ghost predicate Shaped(rows: seq<Row>) {
    |rows| >= HEIGHT && forall r :: 0 <= r < |rows| ==> |rows[r]| == WIDTH
  }

  ghost predicate Good(v: View) {
    |v.rows| == HEIGHT && Shaped(v.rows) && v.column <= WIDTH
  }

  function BlankRow(colour: byte): (row: Row)
    ensures |row| == WIDTH
  {
    seq(WIDTH, _ => ScreenChar(SPACE, colour))
  }

  // -------- One byte at a time --------

  function Scroll(v: View, colour: byte): (v': View)
    requires |v.rows| > 0
  {
    View(v.rows[1..] + [BlankRow(colour)], 0)
  }

  // A character at the column position of the last row.
  function PutChar(v: View, colour: byte, b: byte): (v': View)
    requires |v.rows| > 0 && v.column < |v.rows[|v.rows| - 1]|
  {
    var last := |v.rows| - 1;
    View(v.rows[last := v.rows[last][v.column := ScreenChar(b, colour)]], v.column + 1)
  }

  // `write_byte`.
  function Put(v: View, colour: byte, b: byte): (v': View)
    requires Good(v)
    ensures Good(v')
  {
    if b == NEWLINE then Scroll(v, colour)
    else if v.column >= WIDTH then PutChar(Scroll(v, colour), colour, b)
    else PutChar(v, colour, b)
  }

  function PutAll(v: View, colour: byte, text: seq<byte>): (v': View)
    requires Good(v)
    ensures Good(v')
    decreases |text|
  {
    if text == [] then v else Put(PutAll(v, colour, text[..|text| - 1]), colour, text[|text| - 1])
  }

  lemma NothingPut(v: View, colour: byte)
    requires Good(v)
    ensures PutAll(v, colour, PrintableText([])) == v
  {
  }

  lemma PutOneMore(v: View, colour: byte, text: seq<byte>)
    requires Good(v) && text != []
    ensures var n := |text| - 1; PutAll(v, colour, text) == Put(PutAll(v, colour, text[..n]), colour, text[n])
  {
  }

  // What `write_string` makes of a byte of the string.
  function Printable(b: byte): (r: byte) {
    if 0x20 <= b <= 0x7e || b == NEWLINE then b else 0xfe
  }

  function PrintableText(s: seq<byte>): (text: seq<byte>)
    ensures |text| == |s| && forall i :: 0 <= i < |s| ==> text[i] == Printable(s[i])
    ensures forall i :: 0 <= i < |s| ==>
      text[i] == if 0x20 <= s[i] <= 0x7e || s[i] == 0x0a then s[i] else 0xfe
  {
    seq(|s|, i requires 0 <= i < |s| => Printable(s[i]))
  }

  // -------- The whole text at once --------

  // The lines of a text: what stands between its newlines.
  function Lines(text: seq<byte>): (ls: seq<seq<byte>>)
    ensures |ls| > 0
    decreases |text|
  {
    if text == [] then [[]] else ConsByte(text[0], Lines(text[1..]))
  }

  // A byte in front of the first line.
  function ConsByte(b: byte, lines: seq<seq<byte>>): (ls: seq<seq<byte>>)
    requires |lines| > 0
    ensures |ls| > 0
  {
    if b == NEWLINE then [[]] + lines else [[b] + lines[0]] + lines[1..]
  }

  // A byte behind the last line.
  function SnocByte(lines: seq<seq<byte>>, b: byte): (ls: seq<seq<byte>>)
    requires |lines| > 0
    ensures |ls| > 0
  {
    var last := |lines| - 1;
    if b == NEWLINE then lines + [[]] else lines[last := lines[last] + [b]]
  }

  // One line cut into rows: the first takes `room` characters, every other 80. A line that just fits
  // makes no further row.
  function Chunks(line: seq<byte>, room: nat): (rows: seq<seq<byte>>)
    requires room <= WIDTH
    ensures |rows| > 0
    decreases |line|, WIDTH - room
  {
    if |line| <= room then [line] else [line[..room]] + Chunks(line[room..], WIDTH)
  }

  // All lines, the first one continuing a row that has `room` left.
  function Pieces(lines: seq<seq<byte>>, room: nat): (rows: seq<seq<byte>>)
    requires |lines| > 0 && room <= WIDTH
    ensures |rows| > 0
    decreases |lines|
  {
    if |lines| == 1 then Chunks(lines[0], room) else Chunks(lines[0], room) + Pieces(lines[1..], WIDTH)
  }

  function Cells(piece: seq<byte>, colour: byte): (row: Row)
    ensures |row| == |piece|
  {
    seq(|piece|, i requires 0 <= i < |piece| => ScreenChar(piece[i], colour))
  }

  // A piece written over a row from a column on.
  function Overlay(row: Row, column: nat, piece: seq<byte>, colour: byte): (r: Row)
    requires column + |piece| <= |row|
    ensures |r| == |row|
  {
    row[..column] + Cells(piece, colour) + row[column + |piece|..]
  }

  // Room for a piece: the first continues the last row.
  function RoomOf(i: nat, room: nat): (r: nat) {
    if i == 0 then room else WIDTH
  }

  ghost predicate Fitting(pieces: seq<seq<byte>>, room: nat) {
    |pieces| > 0 && forall i :: 0 <= i < |pieces| ==> |pieces[i]| <= RoomOf(i, room)
  }

  // Everything ever shown: the old rows, the last of them continued, then one row for each piece.
  function Paper(v: View, colour: byte, pieces: seq<seq<byte>>): (rows: seq<Row>)
    requires Good(v) && Fitting(pieces, WIDTH - v.column)
    ensures |rows| == HEIGHT + |pieces| - 1
  {
    v.rows[..HEIGHT - 1] + [Overlay(v.rows[HEIGHT - 1], v.column, pieces[0], colour)]
    + seq(|pieces| - 1, i requires 0 <= i < |pieces| - 1 => Overlay(BlankRow(colour), 0, pieces[i + 1], colour))
  }

  function LastRows(rows: seq<Row>): (r: seq<Row>)
    requires |rows| >= HEIGHT
  {
    rows[|rows| - HEIGHT..]
  }

  function FinalColumn(v: View, pieces: seq<seq<byte>>): (r: nat)
    requires |pieces| > 0
  {
    |pieces[|pieces| - 1]| + (if |pieces| == 1 then v.column else 0)
  }

  // -------- They agree --------

  // Adding one byte to the pieces of a text.
  function Extend(pieces: seq<seq<byte>>, room: nat, b: byte): (r: seq<seq<byte>>)
    requires |pieces| > 0
  {
    var last := |pieces| - 1;
    if b == NEWLINE then pieces + [[]]
    else if |pieces[last]| >= RoomOf(last, room) then pieces + [[b]]
    else pieces[last := pieces[last] + [b]]
  }

  lemma {:induction false} ChunksFit(line: seq<byte>, room: nat)
    requires room <= WIDTH
    ensures Fitting(Chunks(line, room), room)
    decreases |line|, WIDTH - room
  {
    if |line| <= room {
    } else {
      ChunksFit(line[room..], WIDTH);
    }
  }

  lemma {:induction false} PiecesFit(lines: seq<seq<byte>>, room: nat)
    requires |lines| > 0 && room <= WIDTH
    ensures Fitting(Pieces(lines, room), room)
    decreases |lines|
  {
    ChunksFit(lines[0], room);
    if |lines| > 1 {
      PiecesFit(lines[1..], WIDTH);
      var a, b := Chunks(lines[0], room), Pieces(lines[1..], WIDTH);
      assert forall i :: |a| <= i < |a + b| ==> (a + b)[i] == b[i - |a|];
    }
  }

  lemma {:induction false} ChunksSnoc(line: seq<byte>, room: nat, b: byte)
    requires room <= WIDTH && b != NEWLINE
    ensures Chunks(line + [b], room) == Extend(Chunks(line, room), room, b)
    decreases |line|, WIDTH - room
  {
    if |line| < room {
      assert Chunks(line, room) == [line];
    } else if |line| == room {
      assert (line + [b])[..room] == line && (line + [b])[room..] == [b];
      assert Chunks([b], WIDTH) == [[b]];
    } else {
      assert (line + [b])[..room] == line[..room] && (line + [b])[room..] == line[room..] + [b];
      ChunksSnoc(line[room..], WIDTH, b);
      ExtendTail([line[..room]], Chunks(line[room..], WIDTH), room, b);
    }
  }

  // Extending looks at the last piece only.
  lemma ExtendTail(a: seq<seq<byte>>, rest: seq<seq<byte>>, room: nat, b: byte)
    requires |a| > 0 && |rest| > 0
    ensures Extend(a + rest, room, b) == a + Extend(rest, WIDTH, b)
  {
    var all, last := a + rest, |rest| - 1;
    assert all[|all| - 1] == rest[last];
    if b == NEWLINE || |rest[last]| >= WIDTH {
      assert all + [if b == NEWLINE then [] else [b]] == a + (rest + [if b == NEWLINE then [] else [b]]);
    } else {
      assert all[|all| - 1 := rest[last] + [b]] == a + rest[last := rest[last] + [b]];
    }
  }

  lemma ConsSnoc(a: byte, lines: seq<seq<byte>>, b: byte)
    requires |lines| > 0
    ensures ConsByte(a, SnocByte(lines, b)) == SnocByte(ConsByte(a, lines), b)
  {
    if a != NEWLINE && b != NEWLINE && |lines| == 1 {
      assert [a] + (lines[0] + [b]) == [a] + lines[0] + [b];
    }
  }

  lemma {:induction false} LinesSnoc(text: seq<byte>, b: byte)
    ensures Lines(text + [b]) == SnocByte(Lines(text), b)
    decreases |text|
  {
    if text == [] {
      assert text + [b] == [b] && [b][1..] == [];
      assert [b] + [] == [b] == [] + [b] && Lines([]) == [[]];
    } else {
      assert (text + [b])[1..] == text[1..] + [b] && (text + [b])[0] == text[0];
      LinesSnoc(text[1..], b);
      ConsSnoc(text[0], Lines(text[1..]), b);
    }
  }

  lemma {:induction false} PiecesSnoc(lines: seq<seq<byte>>, room: nat, b: byte)
    requires |lines| > 0 && room <= WIDTH
    ensures Pieces(SnocByte(lines, b), room) == Extend(Pieces(lines, room), room, b)
    decreases |lines|
  {
    var more := SnocByte(lines, b);
    if |lines| == 1 {
      if b == NEWLINE {
        assert more[1..] == [[]] && Chunks([], WIDTH) == [[]];
      } else {
        ChunksSnoc(lines[0], room, b);
      }
    } else {
      var rest := lines[1..];
      assert more[0] == lines[0];
      assert more[1..] == SnocByte(rest, b);
      PiecesSnoc(rest, WIDTH, b);
      ExtendTail(Chunks(lines[0], room), Pieces(rest, WIDTH), room, b);
    }
  }

  // One more byte on the paper is one more byte on the screen.
  lemma PaperExtend(v: View, colour: byte, pieces: seq<seq<byte>>, b: byte)
    requires Good(v) && Fitting(pieces, WIDTH - v.column)
    requires Good(View(LastRows(Paper(v, colour, pieces)), FinalColumn(v, pieces)))
    requires Fitting(Extend(pieces, WIDTH - v.column, b), WIDTH - v.column)
    ensures var more := Extend(pieces, WIDTH - v.column, b);
            Put(View(LastRows(Paper(v, colour, pieces)), FinalColumn(v, pieces)), colour, b)
            == View(LastRows(Paper(v, colour, more)), FinalColumn(v, more))
  {
    var room, n := WIDTH - v.column, |pieces|;
    var more := Extend(pieces, room, b);
    var before := View(LastRows(Paper(v, colour, pieces)), FinalColumn(v, pieces));
    if b == NEWLINE {
      PaperGrows(v, colour, pieces, []);
      assert Overlay(BlankRow(colour), 0, [], colour) == BlankRow(colour);
    } else if |pieces[n - 1]| >= RoomOf(n - 1, room) {
      PaperGrows(v, colour, pieces, [b]);
      assert Overlay(BlankRow(colour), 0, [b], colour) == BlankRow(colour)[0 := ScreenChar(b, colour)];
      assert before.column == WIDTH;
    } else {
      PaperContinues(v, colour, pieces, b);
    }
  }

  lemma PaperGrows(v: View, colour: byte, pieces: seq<seq<byte>>, piece: seq<byte>)
    requires Good(v) && Fitting(pieces, WIDTH - v.column) && |piece| <= WIDTH
    ensures Fitting(pieces + [piece], WIDTH - v.column)
    ensures Paper(v, colour, pieces + [piece])
         == Paper(v, colour, pieces) + [Overlay(BlankRow(colour), 0, piece, colour)]
  {
  }

  lemma PaperContinues(v: View, colour: byte, pieces: seq<seq<byte>>, b: byte)
    requires Good(v) && Fitting(pieces, WIDTH - v.column)
    requires |pieces[|pieces| - 1]| < RoomOf(|pieces| - 1, WIDTH - v.column)
    ensures var last, top := |pieces| - 1, |Paper(v, colour, pieces)| - 1;
            var more := pieces[last := pieces[last] + [b]];
            && Fitting(more, WIDTH - v.column)
            && FinalColumn(v, pieces) < |Paper(v, colour, pieces)[top]|
            && Paper(v, colour, more) == Paper(v, colour, pieces)[top :=
                 Paper(v, colour, pieces)[top][FinalColumn(v, pieces) := ScreenChar(b, colour)]]
  {
    var last := |pieces| - 1;
    var more := pieces[last := pieces[last] + [b]];
    var row := if last == 0 then v.rows[HEIGHT - 1] else BlankRow(colour);
    var column := if last == 0 then v.column else 0;
    OverlayExtend(row, column, pieces[last], b, colour);
    var paper, top := Paper(v, colour, pieces), |Paper(v, colour, pieces)| - 1;
    assert paper[top] == Overlay(row, column, pieces[last], colour);
    assert Paper(v, colour, more)[top] == Overlay(row, column, more[last], colour);
  }

  lemma OverlayExtend(row: Row, column: nat, piece: seq<byte>, b: byte, colour: byte)
    requires column + |piece| < |row|
    ensures Overlay(row, column, piece + [b], colour)
         == Overlay(row, column, piece, colour)[column + |piece| := ScreenChar(b, colour)]
  {
    assert Cells(piece + [b], colour) == Cells(piece, colour) + [ScreenChar(b, colour)];
  }

  /** Writing a text byte by byte shows the last 25 rows of its layout: lines cut into rows of 80, a line
      that exactly fills its row making no further one, and the column behind the last character. */
  lemma {:induction false} WritingIsLayout(v: View, colour: byte, text: seq<byte>)
    requires Good(v)
    ensures var pieces := Pieces(Lines(text), WIDTH - v.column);
            && Fitting(pieces, WIDTH - v.column)
            && PutAll(v, colour, text) == View(LastRows(Paper(v, colour, pieces)), FinalColumn(v, pieces))
    decreases |text|
  {
    hide Lines, Pieces, Paper, Extend, Put, SnocByte, FinalColumn, LastRows;
    var room := WIDTH - v.column;
    PiecesFit(Lines(text), room);
    if text == [] {
      NothingWritten(v, colour);
    } else {
      var shorter, b := text[..|text| - 1], text[|text| - 1];
      assert text == shorter + [b];
      WritingIsLayout(v, colour, shorter);
      LinesSnoc(shorter, b);
      PiecesSnoc(Lines(shorter), room, b);
      PaperExtend(v, colour, Pieces(Lines(shorter), room), b);
    }
  }

  lemma NothingWritten(v: View, colour: byte)
    requires Good(v)
    ensures var pieces := Pieces(Lines([]), WIDTH - v.column);
            && Fitting(pieces, WIDTH - v.column)
            && v == View(LastRows(Paper(v, colour, pieces)), FinalColumn(v, pieces))
  {
    assert Lines([]) == [[]] && Pieces([[]], WIDTH - v.column) == [[]];
    assert Overlay(v.rows[HEIGHT - 1], v.column, [], colour) == v.rows[HEIGHT - 1];
    assert LastRows(Paper(v, colour, [[]])) == v.rows;
  }

  lemma {:induction false} LineWithoutNewline(s: seq<byte>, rest: seq<byte>)
    requires NEWLINE !in s
    ensures Lines(s + rest) == [s + Lines(rest)[0]] + Lines(rest)[1..]
    decreases |s|
  {
    if s == [] {
      assert s + rest == rest && [] + Lines(rest)[0] == Lines(rest)[0];
    } else {
      assert (s + rest)[1..] == s[1..] + rest;
      LineWithoutNewline(s[1..], rest);
      assert [s[0]] + (s[1..] + Lines(rest)[0]) == s + Lines(rest)[0];
    }
  }

  /** A line of at most 80 characters printed between two newlines stands in the last row but one, from
      any screen: nothing but the line and blanks. */
  lemma PrintedLineIsLastButOne(v: View, colour: byte, s: seq<byte>)
    requires Good(v) && NEWLINE !in s && |s| <= WIDTH
    ensures var v' := PutAll(v, colour, [NEWLINE] + s + [NEWLINE]);
            && v'.rows[HEIGHT - 2] == Overlay(BlankRow(colour), 0, s, colour)
            && v'.rows[HEIGHT - 1] == BlankRow(colour) && v'.column == 0
  {
    var text := [NEWLINE] + s + [NEWLINE];
    assert text[1..] == s + [NEWLINE];
    assert [NEWLINE][1..] == [] && Lines([NEWLINE]) == [[], []];
    LineWithoutNewline(s, [NEWLINE]);
    assert s + [] == s;
    assert Lines(text) == [[], s, []];
    var room := WIDTH - v.column;
    assert Lines(text)[1..] == [s, []] && [s, []][1..] == [[]];
    assert Pieces([[]], WIDTH) == [[]] && Pieces([s, []], WIDTH) == [s, []];
    assert Pieces(Lines(text), room) == [[], s, []];
    WritingIsLayout(v, colour, text);
    assert Overlay(BlankRow(colour), 0, [], colour) == BlankRow(colour);
  }
}
