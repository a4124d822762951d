/** The DTMF keypad: the eight target tones and the 4x4 key matrix.
    Indices 0-3 of the tone table are the low ("row") group, 4-7 the high
    ("column") group; the key matrix is indexed by [row][column]. */
module Keypad {

  /** Sample rate of the audio stream, in Hz. */
  const SampleRate: nat := 8000

  /** The eight target tones, in Hz: four row tones, then four column tones. */
  const Frequencies: seq<nat> := [697, 770, 852, 941, 1209, 1336, 1477, 1633]

  /** The key matrix, row by row. */
  const Keys: seq<seq<char>> := [
    ['1', '2', '3', 'A'],
    ['4', '5', '6', 'B'],
    ['7', '8', '9', 'C'],
    ['*', '0', '#', 'D']
  ]

  /** The character the detector uses for "no key". */
  const NoKey: char := ' '

  datatype Cell = Cell(row: nat, col: nat)

  datatype Option<T> = None | Some(value: T)

  /** The standard DTMF assignment of symbols to (row tone, column tone),
      written symbol by symbol: the inverse of the key matrix. */
  function Position(k: char): Option<Cell>
  {
    match k
    case '1' => Some(Cell(0, 0)) case '2' => Some(Cell(0, 1)) case '3' => Some(Cell(0, 2)) case 'A' => Some(Cell(0, 3))
    case '4' => Some(Cell(1, 0)) case '5' => Some(Cell(1, 1)) case '6' => Some(Cell(1, 2)) case 'B' => Some(Cell(1, 3))
    case '7' => Some(Cell(2, 0)) case '8' => Some(Cell(2, 1)) case '9' => Some(Cell(2, 2)) case 'C' => Some(Cell(2, 3))
    case '*' => Some(Cell(3, 0)) case '0' => Some(Cell(3, 1)) case '#' => Some(Cell(3, 2)) case 'D' => Some(Cell(3, 3))
    case _ => None
  }

  /** A symbol of the keypad (never the "no key" character or NUL). */
  predicate IsKey(k: char)
  {
    Position(k).Some?
  }

  /** Every character of ks is a keypad symbol. */
  predicate AllKeys(ks: seq<char>)
  {
    forall i | 0 <= i < |ks| :: IsKey(ks[i])
  }

  lemma AllKeysConcat(a: seq<char>, b: seq<char>)
    requires AllKeys(a) && AllKeys(b)
    ensures AllKeys(a + b)
  {
    forall i | 0 <= i < |a + b| ensures IsKey((a + b)[i]) {
      if i >= |a| {
        assert (a + b)[i] == b[i - |a|];
      }
    }
  }

  /** The key looked up for a row and a column index, where -1 stands for
      "no dominant tone in that group": a keypad symbol when both were found,
      NoKey otherwise. */
  function KeyFor(row: int, col: int): (k: char)
    requires -1 <= row < 4 && -1 <= col < 4
    ensures row >= 0 && col >= 0 ==> Position(k) == Some(Cell(row, col))
    ensures k == NoKey <==> row < 0 || col < 0
    ensures k != '\0'
  {
    if row >= 0 && col >= 0 then
      KeyMatrixInverse(row, col);
      Keys[row][col]
    else
      NoKey
  }

  /** Every entry of the matrix sits at the cell the standard assigns it. */
  lemma KeyMatrixInverse(row: nat, col: nat)
    requires row < 4 && col < 4
    ensures Position(Keys[row][col]) == Some(Cell(row, col))
  {
  }

  /** Every keypad symbol is stored in the matrix at its standard cell, so
      the matrix holds each of the sixteen symbols exactly once. */
  lemma PositionInverse(k: char)
    requires IsKey(k)
    ensures Position(k).value.row < 4 && Position(k).value.col < 4
    ensures Keys[Position(k).value.row][Position(k).value.col] == k
  {
  }

  /** The row group lies wholly below the column group, each group is in
      increasing order, and every tone is below the Nyquist frequency. */
  lemma ToneGroups()
    ensures |Frequencies| == 8
    ensures forall i, j :: 0 <= i < j < 8 ==> Frequencies[i] < Frequencies[j]
    ensures forall i :: 0 <= i < 8 ==> 2 * Frequencies[i] < SampleRate
  {
  }
}
