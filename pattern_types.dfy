/** The value types of the pattern-lock widget: grid dots, the two
    confirmation stages, the four-way view state, and the key that a drawn
    pattern is stored under. */
module PatternTypes {

  datatype Option<+T> = None | Some(value: T)

  /** A row or column of the 3×3 grid. */
  type Index = i: int | 0 <= i < 3

  /** One selectable dot of the grid, identified by its row and column. */
  datatype Dot = Dot(row: Index, column: Index)

  /** Fewest dots a pattern must have to be accepted (minCount). */
  const MinCount: nat := 4

  /** Most dots one gesture may acquire (maxCount). */
  const MaxCount: nat := 9

  /** The two stages of the enter-then-confirm protocol. */
  datatype Stage = First | Second

  type Color = int

  /** What the widget shows and reports: nothing yet, a gesture in
      progress, or a finished gesture with the colours to draw it in. */
  datatype ViewState =
    | Initial
    | Started
    | Success(dotColor: Color, lineColor: Color)
    | Error(dotColor: Color, lineColor: Color)

  /** The configured success and error colours. */
  datatype Palette = Palette(successDot: Color, successLine: Color, errorDot: Color, errorLine: Color)
  {
    function SuccessState(): ViewState
    {
      Success(successDot, successLine)
    }

    function ErrorState(): ViewState
    {
      Error(errorDot, errorLine)
    }
  }

  /** The label of every grid cell, row by row (dotNumberKeyArray). */
  const DotNumberKeys: seq<seq<string>> := [["1", "2", "3"], ["4", "5", "6"], ["7", "8", "9"]]

  /** The label of a dot: one digit, its 1-based position in row-major order. */
  function DotKey(d: Dot): (k: string)
    ensures |k| == 1
    ensures k[0] as int == '1' as int + 3 * d.row + d.column
  {
    DotNumberKeys[d.row][d.column]
  }

  /** Distinct dots have distinct labels. */
  lemma DotKeyInjective(a: Dot, b: Dot)
    ensures DotKey(a) == DotKey(b) <==> a == b
  {
  }

  /** The key of a drawn pattern: the labels of its dots in touch order. */
  function DrawnPatternKey(marked: seq<Dot>): (key: string)
    ensures |key| == |marked|
    ensures forall i :: 0 <= i < |marked| ==> key[i] == DotKey(marked[i])[0]
  {
    if marked == [] then "" else DotKey(marked[0]) + DrawnPatternKey(marked[1..])
  }

  /** Two patterns have the same key exactly when they touched the same
      dots in the same order. */
  lemma DrawnPatternKeyInjective(a: seq<Dot>, b: seq<Dot>)
    ensures DrawnPatternKey(a) == DrawnPatternKey(b) <==> a == b
  {
  }

  /** No dot occurs twice. */
  predicate NoDuplicates(s: seq<Dot>)
  {
    forall i, j :: 0 <= i < j < |s| ==> s[i] != s[j]
  }
}
