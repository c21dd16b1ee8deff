/**
 The mini 4x4 puzzle: sixteen single-character input cells read row-major
 (cell r*4 + c is row r, column c), a per-keystroke sanitiser, a check
 against one fixed solution grid that marks every cell and reports one of
 three messages, and a reset.

 A cell's content is its input string. The sanitiser and reset are the only
 writers of that string, so a well-formed board holds sixteen cells that are
 each empty or one character from '1' to '4'.
 */
module MiniPuzzle {

  /** The fixed answer, row by row. */
  const Solution: seq<seq<int>> := [
    [1, 2, 3, 4],
    [3, 4, 1, 2],
    [2, 1, 4, 3],
    [4, 3, 2, 1]
  ]

  const Size: int := 4
  const CellCount: int := 16

  /** The answer for cell `i` of the row-major reading. */
  function Expected(i: int): int
    requires 0 <= i < CellCount
  {
    Solution[i / Size][i % Size]
  }

  function Column(c: int): seq<int>
    requires 0 <= c < Size
  {
    [Solution[0][c], Solution[1][c], Solution[2][c], Solution[3][c]]
  }

  /** `s` holds each of 1..4 exactly once: four entries, each in 1..4,
      no two equal. */
  predicate OneToFourOnce(s: seq<int>)
  {
    && |s| == Size
    && (forall i :: 0 <= i < |s| ==> 1 <= s[i] <= Size)
    && (forall i, j :: 0 <= i < j < |s| ==> s[i] != s[j])
  }

  /** The answer grid is a Latin square: every row and every column holds
      each of 1, 2, 3, 4 exactly once. */
  lemma SolutionIsLatinSquare()
    ensures |Solution| == Size
    ensures forall r :: 0 <= r < Size ==> OneToFourOnce(Solution[r])
    ensures forall c :: 0 <= c < Size ==> OneToFourOnce(Column(c))
  {
  }

  datatype Mark = Unmarked | Correct | Error

  /** The status line: cleared, or one of the three messages of a check. */
  datatype Status = Cleared | FillAll | Solved | SomeWrong

  /** The text of the status line. Only a cleared status shows nothing,
      and the three messages of a check are told apart by their text. */
  function StatusText(s: Status): (text: string)
    ensures text == [] <==> s == Cleared
    ensures s != Cleared ==> text[|text| - 1] == '.'
  {
    match s
    case Cleared => ""
    case FillAll => "Fill all cells with numbers 1\U{2013}4."
    case Solved => "Nice! You solved the mini puzzle."
    case SomeWrong => "Some numbers are wrong. Try again."
  }

  datatype Board = Board(cells: seq<string>, marks: seq<Mark>, status: Status)

  predicate IsPuzzleDigit(ch: char)
  {
    '1' <= ch <= '4'
  }

  /** A cell string the sanitiser can leave: empty or one digit 1..4. */
  predicate Sanitized(cell: string)
  {
    cell == [] || (|cell| == 1 && IsPuzzleDigit(cell[0]))
  }

  predicate WellFormed(b: Board)
  {
    && |b.cells| == CellCount
    && |b.marks| == CellCount
    && forall i :: 0 <= i < CellCount ==> Sanitized(b.cells[i])
  }

  /** `j` is the position of the first character 1..4 in `s`. */
  predicate FirstDigitAt(s: string, j: int)
  {
    && 0 <= j < |s|
    && IsPuzzleDigit(s[j])
    && forall k :: 0 <= k < j ==> !IsPuzzleDigit(s[k])
  }

  predicate HasDigit(s: string)
  {
    exists i :: 0 <= i < |s| && IsPuzzleDigit(s[i])
  }

  /** `s.replace(/[^1-4]/g, "")`: the characters 1..4 of `s`, in order.
      The contract states that every such character is kept as often as it
      occurs, nothing else is, and the first one comes first. */
  function KeepDigits(s: string): (r: string)
    ensures forall i :: 0 <= i < |r| ==> IsPuzzleDigit(r[i])
    ensures forall ch :: IsPuzzleDigit(ch) ==> multiset(r)[ch] == multiset(s)[ch]
    ensures |r| <= |s|
    ensures |r| == 0 <==> !HasDigit(s)
    ensures |r| > 0 ==> exists j :: FirstDigitAt(s, j) && r[0] == s[j]
  {
    if s == [] then []
    else
      var rest := KeepDigits(s[1..]);
      var r := if IsPuzzleDigit(s[0]) then [s[0]] + rest else rest;
      DigitCountsStep(s, rest, r);
      if IsPuzzleDigit(s[0]) then
        KeepHeadDigit(s, rest);
        r
      else
        SkipNonDigit(s, rest);
        r
  }

  /** A leading character 1..4 is the first digit, and it heads the kept
      characters. */
  lemma KeepHeadDigit(s: string, rest: string)
    requires s != [] && IsPuzzleDigit(s[0])
    requires forall i :: 0 <= i < |rest| ==> IsPuzzleDigit(rest[i])
    ensures forall i :: 0 <= i < |[s[0]] + rest| ==> IsPuzzleDigit(([s[0]] + rest)[i])
    ensures HasDigit(s)
    ensures exists j :: FirstDigitAt(s, j) && ([s[0]] + rest)[0] == s[j]
  {
    assert FirstDigitAt(s, 0);
  }

  /** Dropping a leading character that is not 1..4 changes neither whether
      the text holds a digit nor which digit comes first. */
  lemma SkipNonDigit(s: string, rest: string)
    requires s != [] && !IsPuzzleDigit(s[0])
    requires |rest| == 0 <==> !HasDigit(s[1..])
    requires |rest| > 0 ==> exists j :: FirstDigitAt(s[1..], j) && rest[0] == s[1..][j]
    ensures |rest| == 0 <==> !HasDigit(s)
    ensures |rest| > 0 ==> exists j :: FirstDigitAt(s, j) && rest[0] == s[j]
  {
    if HasDigit(s) {
      var i :| 0 <= i < |s| && IsPuzzleDigit(s[i]);
      assert s[1..][i - 1] == s[i];
    }
    if |rest| > 0 {
      var j :| FirstDigitAt(s[1..], j) && rest[0] == s[1..][j];
      assert FirstDigitAt(s, j + 1);
    }
  }

  /** One step of `KeepDigits`: keeping or dropping the head character keeps
      the count of every digit 1..4 in line with the input's. */
  lemma DigitCountsStep(s: string, rest: string, r: string)
    requires s != []
    requires forall ch :: IsPuzzleDigit(ch) ==> multiset(rest)[ch] == multiset(s[1..])[ch]
    requires r == if IsPuzzleDigit(s[0]) then [s[0]] + rest else rest
    ensures forall ch :: IsPuzzleDigit(ch) ==> multiset(r)[ch] == multiset(s)[ch]
  {
    assert s == [s[0]] + s[1..];
    assert multiset(s) == multiset{s[0]} + multiset(s[1..]);
  }

  /** The input handler's rewrite of a cell's text after a keystroke: drop
      every character that is not 1..4 and keep at most the first one left. */
  function Sanitize(raw: string): (v: string)
    ensures Sanitized(v)
    ensures v == [] <==> !HasDigit(raw)
    ensures v != [] ==> exists j :: FirstDigitAt(raw, j) && v == [raw[j]]
  {
    var d := KeepDigits(raw);
    if |d| == 0 then [] else d[..1]
  }

  /** `Number(cell)` on a sanitised cell: 0 for the empty string, otherwise
      the digit. */
  function Value(cell: string): (n: int)
    requires Sanitized(cell)
    ensures n == 0 <==> cell == []
    ensures 0 <= n <= Size
    ensures n != 0 ==> cell[0] as int == '0' as int + n
  {
    if cell == [] then 0 else cell[0] as int - '0' as int
  }

  /** The cell is filled with the answer for its position. */
  predicate Matches(cell: string, i: int)
    requires Sanitized(cell) && 0 <= i < CellCount
  {
    cell != [] && Value(cell) == Expected(i)
  }

  /** Every cell holds its answer. */
  predicate Solves(cells: seq<string>)
    requires |cells| == CellCount
    requires forall i :: 0 <= i < CellCount ==> Sanitized(cells[i])
  {
    forall i :: 0 <= i < CellCount ==> Matches(cells[i], i)
  }

  /** The board in which every cell holds its answer. */
  function SolvedCells(): (cells: seq<string>)
    ensures |cells| == CellCount
    ensures forall i :: 0 <= i < CellCount ==> Sanitized(cells[i]) && Matches(cells[i], i)
  {
    seq(CellCount, i requires 0 <= i < CellCount => [('0' as int + Expected(i)) as char])
  }

  /** A keystroke in cell `i`, where `raw` is the cell's whole text after
      the keystroke: the cell becomes the sanitised text, its mark is removed
      and the status line cleared; nothing else changes. */
  function Input(b: Board, i: int, raw: string): (r: Board)
    requires |b.cells| == CellCount && |b.marks| == CellCount
    requires 0 <= i < CellCount
    ensures |r.cells| == CellCount && |r.marks| == CellCount
    ensures WellFormed(b) ==> WellFormed(r)
    ensures r.cells[i] == Sanitize(raw) && r.marks[i] == Unmarked && r.status == Cleared
    ensures forall k :: 0 <= k < CellCount && k != i ==> r.cells[k] == b.cells[k] && r.marks[k] == b.marks[k]
  {
    Board(b.cells[i := Sanitize(raw)], b.marks[i := Unmarked], Cleared)
  }

  /** The check button. Marks left by earlier checks are dropped first; then
      each filled cell is marked correct when it holds its answer and error
      otherwise, empty cells stay unmarked, and the status is "fill all"
      when a cell is empty, "solved" when every cell holds its answer, and
      "some wrong" otherwise. */
  method Check(b: Board) returns (r: Board)
    requires WellFormed(b)
    ensures r.cells == b.cells && WellFormed(r)
    ensures forall i :: 0 <= i < CellCount ==> (r.marks[i] == Unmarked <==> b.cells[i] == [])
    ensures forall i :: 0 <= i < CellCount ==> (r.marks[i] == Correct <==> Matches(b.cells[i], i))
    ensures r.status == FillAll <==> exists i :: 0 <= i < CellCount && b.cells[i] == []
    ensures r.status == Solved <==> Solves(b.cells)
    ensures r.status != Cleared
  {
    var marks := seq(CellCount, _ => Unmarked);
    var allFilled := true;
    var allCorrect := true;
    var row := 0;
    while row < Size
      invariant 0 <= row <= Size
      invariant |marks| == CellCount
      invariant forall i :: 0 <= i < row * Size ==>
        (marks[i] == Unmarked <==> b.cells[i] == []) && (marks[i] == Correct <==> Matches(b.cells[i], i))
      invariant forall i :: row * Size <= i < CellCount ==> marks[i] == Unmarked
      invariant allFilled <==> forall i :: 0 <= i < row * Size ==> b.cells[i] != []
      invariant allCorrect <==> forall i :: 0 <= i < row * Size ==> Matches(b.cells[i], i)
    {
      var col := 0;
      while col < Size
        invariant 0 <= col <= Size
        invariant |marks| == CellCount
        invariant forall i :: 0 <= i < row * Size + col ==>
          (marks[i] == Unmarked <==> b.cells[i] == []) && (marks[i] == Correct <==> Matches(b.cells[i], i))
        invariant forall i :: row * Size + col <= i < CellCount ==> marks[i] == Unmarked
        invariant allFilled <==> forall i :: 0 <= i < row * Size + col ==> b.cells[i] != []
        invariant allCorrect <==> forall i :: 0 <= i < row * Size + col ==> Matches(b.cells[i], i)
      {
        var index := row * Size + col;
        var expected := Solution[row][col];
        assert expected == Expected(index);
        var value := Value(b.cells[index]);
        if value == 0 {
          allFilled := false;
          allCorrect := false;
        } else if value == expected {
          marks := marks[index := Correct];
        } else {
          marks := marks[index := Error];
          allCorrect := false;
        }
        col := col + 1;
      }
      assert row * Size + col == (row + 1) * Size;
      row := row + 1;
    }
    var status := if !allFilled then FillAll else if allCorrect then Solved else SomeWrong;
    r := Board(b.cells, marks, status);
  }

  /** The reset button: every cell emptied and unmarked, the status cleared,
      whatever the board held before. */
  function Reset(b: Board): (r: Board)
    ensures |r.cells| == |b.cells| && |r.marks| == |b.cells|
    ensures forall i :: 0 <= i < |r.cells| ==> r.cells[i] == [] && r.marks[i] == Unmarked
    ensures r.status == Cleared
    ensures |b.cells| == CellCount ==> WellFormed(r)
  {
    Board(seq(|b.cells|, _ => []), seq(|b.cells|, _ => Unmarked), Cleared)
  }

  /** The solved board is the only one a check reports as solved. */
  lemma OnlySolution(cells: seq<string>)
    requires |cells| == CellCount
    requires forall i :: 0 <= i < CellCount ==> Sanitized(cells[i])
    ensures Solves(cells) <==> cells == SolvedCells()
  {
    if Solves(cells) {
      var s := SolvedCells();
      forall i | 0 <= i < CellCount
        ensures cells[i] == s[i]
      {
        assert Matches(cells[i], i) && Matches(s[i], i);
        assert cells[i][0] == s[i][0];
      }
    }
  }

  /** A check right after a reset asks to fill all cells and marks nothing:
      its status is "fill all" because cell 0 is empty, and no cell is
      filled to be marked. */
  lemma CheckAfterReset(b: Board)
    requires |b.cells| == CellCount
    ensures WellFormed(Reset(b))
    ensures exists i :: 0 <= i < CellCount && Reset(b).cells[i] == []
    ensures forall i :: 0 <= i < CellCount ==> !Matches(Reset(b).cells[i], i)
  {
    assert Reset(b).cells[0] == [];
  }

  /** Pressing reset and then check: the status line asks to fill all cells
      and no cell carries a mark. */
  method ResetThenCheck(b: Board) returns (r: Board)
    requires |b.cells| == CellCount
    ensures WellFormed(r) && r.status == FillAll
    ensures StatusText(r.status) == "Fill all cells with numbers 1\U{2013}4."
    ensures forall i :: 0 <= i < CellCount ==> r.cells[i] == [] && r.marks[i] == Unmarked
  {
    var z := Reset(b);
    CheckAfterReset(b);
    r := Check(z);
  }

  /** Checking the solution grid: the status line reports the puzzle solved
      and every cell is marked correct, whatever marks it carried before. */
  method CheckSolution(b: Board) returns (r: Board)
    requires b.cells == SolvedCells() && |b.marks| == CellCount
    ensures WellFormed(r) && r.status == Solved
    ensures StatusText(r.status) == "Nice! You solved the mini puzzle."
    ensures forall i :: 0 <= i < CellCount ==> r.marks[i] == Correct
  {
    OnlySolution(b.cells);
    r := Check(b);
  }

  /** The first digit in a cell's text wins: typing after a filled cell's
      digit leaves that digit in place (typing "2" after "3" keeps "3"). */
  lemma FirstDigitWins(cell: string, typed: string)
    requires Sanitized(cell) && cell != []
    ensures Sanitize(cell + typed) == cell
  {
  }

  /** Distinct statuses show distinct texts. */
  lemma StatusTextsDistinct(x: Status, y: Status)
    ensures x != y ==> StatusText(x) != StatusText(y)
  {
  }

  /** Typing never stores more than one character or anything but 1..4,
      so a board stays well formed under any sequence of keystrokes. */
  lemma InputsKeepWellFormed(b: Board, keys: seq<(int, string)>)
    requires WellFormed(b)
    requires forall k :: 0 <= k < |keys| ==> 0 <= keys[k].0 < CellCount
    ensures WellFormed(TypeAll(b, keys))
    decreases |keys|
  {
    if keys != [] {
      InputsKeepWellFormed(Input(b, keys[0].0, keys[0].1), keys[1..]);
    }
  }

  /** A run of keystrokes, each naming its cell and that cell's text after it. */
  function TypeAll(b: Board, keys: seq<(int, string)>): Board
    requires |b.cells| == CellCount && |b.marks| == CellCount
    requires forall k :: 0 <= k < |keys| ==> 0 <= keys[k].0 < CellCount
    decreases |keys|
  {
    if keys == [] then b else TypeAll(Input(b, keys[0].0, keys[0].1), keys[1..])
  }
}
