/** The fixed 4 x 12 key grid of the on-screen keyboard and the movement
    of the highlighted key over it. The cursor is a single index into the
    grid, row-major; every movement keeps it in [0, 48). */
module KeyboardGrid {

  import opened OskTypes

  const NumKeyRows: int := 4
  const KeysPerRow: int := 12
  const NumberOfValidChars: int := 48

  /** The grid, one string per row, as the dialog draws it. */
  const KeyRows: seq<string> := [
    "1234567890-+",
    "qwertyuiop[]",
    "asdfghjkl;@~",
    "zxcvbnm,./?\\"
  ]

  predicate InGrid(index: int) {
    0 <= index < NumberOfValidChars
  }

  /** Row and column of a grid index (both operands are non-negative, so
      Dafny's division agrees with the source's truncating one). */
  function Row(index: int): int requires InGrid(index) { index / KeysPerRow }
  function Col(index: int): int requires InGrid(index) { index % KeysPerRow }

  /** Printable ASCII other than the space: every character the grid
      holds and every character a key can type. */
  predicate IsKeyChar(c: char) {
    '!' <= c <= '~'
  }

  /** The key under a grid index. */
  function KeyAt(index: int): (c: char)
    requires InGrid(index)
    ensures IsKeyChar(c)
  {
    var row := KeyRows[Row(index)];
    assert |row| == KeysPerRow && forall k :: 0 <= k < |row| ==> IsKeyChar(row[k]) by {
      RowsAreKeyChars(Row(index));
    }
    row[Col(index)]
  }

  lemma RowsAreKeyChars(r: int)
    requires 0 <= r < NumKeyRows
    ensures |KeyRows[r]| == KeysPerRow
    ensures forall k :: 0 <= k < KeysPerRow ==> IsKeyChar(KeyRows[r][k])
  {
  }

  /** The C library's `toupper` in the default locale: lower-case ASCII
      letters become upper case, everything else is unchanged. */
  function ToUpper(c: char): (u: char)
    ensures 'a' <= c <= 'z' ==> u as int == c as int - 32 && 'A' <= u <= 'Z'
    ensures !('a' <= c <= 'z') ==> u == c
  {
    if 'a' <= c <= 'z' then (c as int - 32) as char else c
  }

  lemma ToUpperKeepsKeyChar(c: char)
    requires IsKeyChar(c)
    ensures IsKeyChar(ToUpper(c))
  {
  }

  /** One tick's cursor movement: at most one direction is honoured, in
      the order up, down, left, right. Up and down step a whole row;
      left and right step one key and, on leaving the row, jump a whole
      row back so as to stay on it; the index is then wrapped into the
      grid. */
  function Move(index: int, pressed: set<Button>): (next: int)
    requires InGrid(index)
    ensures InGrid(next)
  {
    var moved :=
      if Up in pressed then index - KeysPerRow
      else if Down in pressed then index + KeysPerRow
      else if Left in pressed then
        var l := index - 1;
        if (l + KeysPerRow) % KeysPerRow == KeysPerRow - 1 then l + KeysPerRow else l
      else if Right in pressed then
        var r := index + 1;
        if r % KeysPerRow == 0 then r - KeysPerRow else r
      else index;
    (moved + NumberOfValidChars) % NumberOfValidChars
  }

  /** Where up takes the cursor: one row back, or from the top row to
      the same column of the bottom row. */
  lemma UpTarget(index: int, pressed: set<Button>)
    requires InGrid(index) && Up in pressed
    ensures Move(index, pressed) ==
      if Row(index) == 0 then index + NumberOfValidChars - KeysPerRow else index - KeysPerRow
  {
  }

  /** Where down takes the cursor: one row on, or from the bottom row to
      the same column of the top row. */
  lemma DownTarget(index: int, pressed: set<Button>)
    requires InGrid(index) && Up !in pressed && Down in pressed
    ensures Move(index, pressed) ==
      if Row(index) == NumKeyRows - 1 then index + KeysPerRow - NumberOfValidChars else index + KeysPerRow
  {
  }

  /** Up keeps the column and moves to the row above, from the top row
      to the bottom one. */
  lemma MoveUp(index: int, pressed: set<Button>)
    requires InGrid(index) && Up in pressed
    ensures Col(Move(index, pressed)) == Col(index)
    ensures Row(Move(index, pressed)) == (Row(index) + NumKeyRows - 1) % NumKeyRows
  {
    UpTarget(index, pressed);
  }

  /** Down keeps the column and moves to the row below, from the bottom
      row to the top one. */
  lemma MoveDown(index: int, pressed: set<Button>)
    requires InGrid(index) && Up !in pressed && Down in pressed
    ensures Col(Move(index, pressed)) == Col(index)
    ensures Row(Move(index, pressed)) == (Row(index) + 1) % NumKeyRows
  {
    DownTarget(index, pressed);
  }

  /** Where left takes the cursor: one key back, or from the first
      column to the last key of the same row. */
  lemma LeftTarget(index: int, pressed: set<Button>)
    requires InGrid(index) && Up !in pressed && Down !in pressed && Left in pressed
    ensures Move(index, pressed) == if Col(index) == 0 then index + KeysPerRow - 1 else index - 1
  {
  }

  /** Where right takes the cursor: one key on, or from the last column
      to the first key of the same row. */
  lemma RightTarget(index: int, pressed: set<Button>)
    requires InGrid(index) && Up !in pressed && Down !in pressed && Left !in pressed && Right in pressed
    ensures Move(index, pressed) == if Col(index) == KeysPerRow - 1 then index + 1 - KeysPerRow else index + 1
  {
  }

  /** Left keeps the row and moves one column left, from column 0 to the
      last column. */
  lemma MoveLeft(index: int, pressed: set<Button>)
    requires InGrid(index) && Up !in pressed && Down !in pressed && Left in pressed
    ensures Row(Move(index, pressed)) == Row(index)
    ensures Col(Move(index, pressed)) == (Col(index) + KeysPerRow - 1) % KeysPerRow
  {
    LeftTarget(index, pressed);
  }

  /** Right keeps the row and moves one column right, from the last
      column to column 0. */
  lemma MoveRight(index: int, pressed: set<Button>)
    requires InGrid(index) && Up !in pressed && Down !in pressed && Left !in pressed && Right in pressed
    ensures Row(Move(index, pressed)) == Row(index)
    ensures Col(Move(index, pressed)) == (Col(index) + 1) % KeysPerRow
  {
    RightTarget(index, pressed);
  }

  /** Without a direction the cursor stays where it is. */
  lemma MoveNone(index: int, pressed: set<Button>)
    requires InGrid(index) && Up !in pressed && Down !in pressed && Left !in pressed && Right !in pressed
    ensures Move(index, pressed) == index
  {
  }

  /** Down undoes up. */
  lemma UpThenDown(index: int)
    requires InGrid(index)
    ensures Move(Move(index, {Up}), {Down}) == index
  {
    var mid := Move(index, {Up});
    UpTarget(index, {Up});
    MoveUp(index, {Up});
    DownTarget(mid, {Down});
  }

  /** Up undoes down. */
  lemma DownThenUp(index: int)
    requires InGrid(index)
    ensures Move(Move(index, {Down}), {Up}) == index
  {
    var mid := Move(index, {Down});
    DownTarget(index, {Down});
    MoveDown(index, {Down});
    UpTarget(mid, {Up});
  }

  /** Right undoes left. */
  lemma LeftThenRight(index: int)
    requires InGrid(index)
    ensures Move(Move(index, {Left}), {Right}) == index
  {
    var mid := Move(index, {Left});
    LeftTarget(index, {Left});
    MoveLeft(index, {Left});
    RightTarget(mid, {Right});
  }

  /** Left undoes right. */
  lemma RightThenLeft(index: int)
    requires InGrid(index)
    ensures Move(Move(index, {Right}), {Left}) == index
  {
    var mid := Move(index, {Right});
    RightTarget(index, {Right});
    MoveRight(index, {Right});
    LeftTarget(mid, {Left});
  }

  /** The wrap at each edge: right from the end of the top row lands on
      its first key and left from its first key on its last; up from the
      top row lands on the bottom row and down from the bottom row on the
      top row. */
  lemma MoveWrapExamples()
    ensures Move(11, {Right}) == 0
    ensures Move(0, {Left}) == 11
    ensures Move(3, {Up}) == 39
    ensures Move(47, {Down}) == 11
  {
  }
}
