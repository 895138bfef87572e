/** Chess-style names of grid cells (get_chess_notation in tracker.py):
    the column letter A-E followed by the row digit 1-5, or "Unknown" for
    an index outside the grid. */
module Notation {
  import opened Wrappers

  const Columns: string := "ABCDE"
  const Rows: string := "12345"

  /** The name of cell `index`; row-major, so column `index % 5` and
      row `index / 5`. */
  function ChessNotation(index: int): (s: string)
    ensures 0 <= index < 25 ==> |s| == 2 && s[0] in Columns && s[1] in Rows
    ensures !(0 <= index < 25) ==> s == "Unknown"
  {
    if 0 <= index < 25 then
      [('A' as int + index % 5) as char, ('1' as int + index / 5) as char]
    else
      "Unknown"
  }

  /** Reads a cell name back into its index; the inverse of ChessNotation
      on the 25 cells. */
  function ParseNotation(s: string): (r: Option<int>)
    ensures r.Some? ==> 0 <= r.value < 25
  {
    if |s| == 2 && 'A' <= s[0] <= 'E' && '1' <= s[1] <= '5' then
      Some(5 * (s[1] as int - '1' as int) + (s[0] as int - 'A' as int))
    else
      None
  }

  /** The cell in row r, column c (both from 0) is named by the c-th letter
      and the r-th digit. */
  lemma NotationOfCell(r: int, c: int)
    requires 0 <= r < 5 && 0 <= c < 5
    ensures ChessNotation(5 * r + c) == [Columns[c], Rows[r]]
  {
  }

  lemma NotationRoundTrip(index: int)
    requires 0 <= index < 25
    ensures ParseNotation(ChessNotation(index)) == Some(index)
  {
  }

  lemma ParseRoundTrip(s: string)
    requires ParseNotation(s).Some?
    ensures ChessNotation(ParseNotation(s).value) == s
  {
    var i := ParseNotation(s).value;
    assert i % 5 == s[0] as int - 'A' as int && i / 5 == s[1] as int - '1' as int;
  }

  /** Distinct cells have distinct names. */
  lemma NotationInjective(i: int, j: int)
    requires 0 <= i < 25 && 0 <= j < 25 && ChessNotation(i) == ChessNotation(j)
    ensures i == j
  {
    NotationRoundTrip(i);
    NotationRoundTrip(j);
  }

  /** No cell is named like the sentinel. */
  lemma UnknownIsNoCell(index: int)
    requires 0 <= index < 25
    ensures ChessNotation(index) != "Unknown"
  {
  }
}
