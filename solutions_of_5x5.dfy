/** The checks thinness/solutions_of_5x5.py runs over the solutions found for a square
    grid graph: whether some row or some column lies in one class, the search for a
    solution where neither happens, and the per-vertex cells of its LaTeX picture. The
    grid's vertex at (row, column) is numbered row * rows + column. */
module SolutionsOf5x5 {
  import opened Wrappers
  import opened Graphs
  import opened ConsistentSolution

  // ---------------------------------------------------------------------------------
  // vertex_by_coordinates

  /** `vertex_by_coordinates(row, column, rows)`. */
  function VertexByCoordinates(row: nat, column: nat, rows: nat): (v: nat)
    ensures row < rows && column < rows ==> v < rows * rows
  {
    GridBound(row, column, rows);
    row * rows + column
  }

  lemma GridBound(row: nat, column: nat, rows: nat)
    ensures row < rows && column < rows ==> row * rows + column < rows * rows
  {
    if row < rows && column < rows {
      MulMono(row + 1, rows, rows);
    }
  }

  lemma {:induction false} MulMono(a: nat, b: nat, n: nat)
    requires a <= b
    ensures a * n <= b * n
    decreases b - a
  {
    if a < b {
      MulMono(a + 1, b, n);
    }
  }

  /** Inside the grid the numbering is one-to-one: a vertex has one row and one column. */
  lemma CoordinatesUnique(r1: nat, c1: nat, r2: nat, c2: nat, rows: nat)
    requires c1 < rows && c2 < rows
    requires VertexByCoordinates(r1, c1, rows) == VertexByCoordinates(r2, c2, rows)
    ensures r1 == r2 && c1 == c2
  {
    if r1 < r2 {
      MulMono(r1 + 1, r2, rows);
    } else if r2 < r1 {
      MulMono(r2 + 1, r1, rows);
    }
  }

  // ---------------------------------------------------------------------------------
  // row_shares_class, col_shares_class

  /** Every vertex of the row is in the class of the row's column-0 vertex (`part_of`
      compared, so vertices in no class agree with each other). */
  predicate RowInOneClass(s: Solution, rows: nat, row: nat) {
    forall col | 0 <= col < rows ::
      s.PartOf(VertexByCoordinates(row, col, rows)) == s.PartOf(VertexByCoordinates(row, 0, rows))
  }

  /** Every vertex of the column is in the class of the column's row-0 vertex. */
  predicate ColumnInOneClass(s: Solution, rows: nat, col: nat) {
    forall row | 0 <= row < rows ::
      s.PartOf(VertexByCoordinates(row, col, rows)) == s.PartOf(VertexByCoordinates(0, col, rows))
  }

  /** `row_shares_class(solution, rows)`: scan the rows, each with a `good_row` flag that
      the first vertex outside the row's class clears. */
  method RowSharesClass(s: Solution, rows: nat) returns (shares: bool)
    ensures shares <==> exists row | 0 <= row < rows :: RowInOneClass(s, rows, row)
  {
    for row := 0 to rows
      invariant forall r | 0 <= r < row :: !RowInOneClass(s, rows, r)
    {
      var goodRow := true;
      var firstVertexInRow := VertexByCoordinates(row, 0, rows);
      var part := s.PartOf(firstVertexInRow);
      var col := 0;
      while col < rows
        invariant col <= rows
        invariant goodRow ==> forall c | 0 <= c < col :: s.PartOf(VertexByCoordinates(row, c, rows)) == part
        invariant !goodRow ==> !RowInOneClass(s, rows, row)
        decreases rows - col
      {
        var vertex := VertexByCoordinates(row, col, rows);
        if s.PartOf(vertex) != part {
          goodRow := false;
          break;
        }
        col := col + 1;
      }
      if goodRow {
        assert RowInOneClass(s, rows, row);
        return true;
      }
    }
    return false;
  }

  /** `col_shares_class(solution, rows)`: the same scan over the columns. */
  method ColSharesClass(s: Solution, rows: nat) returns (shares: bool)
    ensures shares <==> exists col | 0 <= col < rows :: ColumnInOneClass(s, rows, col)
  {
    for col := 0 to rows
      invariant forall c | 0 <= c < col :: !ColumnInOneClass(s, rows, c)
    {
      var goodCol := true;
      var firstVertexInCol := VertexByCoordinates(0, col, rows);
      var part := s.PartOf(firstVertexInCol);
      var row := 0;
      while row < rows
        invariant row <= rows
        invariant goodCol ==> forall r | 0 <= r < row :: s.PartOf(VertexByCoordinates(r, col, rows)) == part
        invariant !goodCol ==> !ColumnInOneClass(s, rows, col)
        decreases rows - row
      {
        var vertex := VertexByCoordinates(row, col, rows);
        if s.PartOf(vertex) != part {
          goodCol := false;
          break;
        }
        row := row + 1;
      }
      if goodCol {
        assert ColumnInOneClass(s, rows, col);
        return true;
      }
    }
    return false;
  }

  /** A solution is rejected by the search when some row or some column is in one class. */
  predicate SharesLine(s: Solution, rows: nat) {
    (exists row | 0 <= row < rows :: RowInOneClass(s, rows, row)) ||
    (exists col | 0 <= col < rows :: ColumnInOneClass(s, rows, col))
  }

  // ---------------------------------------------------------------------------------
  // find_solution_without_same_class_row_or_column

  /** `find_solution_without_same_class_row_or_column(solutions, rows)`: the first solution
      with no row and no column in one class, or `None` when every one has such a line. */
  method FindSolutionWithoutSameClassRowOrColumn(solutions: seq<Solution>, rows: nat) returns (r: Option<Solution>)
    ensures r.None? <==> forall i | 0 <= i < |solutions| :: SharesLine(solutions[i], rows)
    ensures r.Some? ==> exists i | 0 <= i < |solutions| ::
              solutions[i] == r.value && !SharesLine(r.value, rows) &&
              forall j | 0 <= j < i :: SharesLine(solutions[j], rows)
  {
    for i := 0 to |solutions|
      invariant forall j | 0 <= j < i :: SharesLine(solutions[j], rows)
    {
      var solution := solutions[i];
      var rowShares := RowSharesClass(solution, rows);
      if !rowShares {
        var colShares := ColSharesClass(solution, rows);
        if !colShares {
          return Some(solution);
        }
      }
    }
    return None;
  }

  // ---------------------------------------------------------------------------------
  // to_latex_grid_vertices

  /** `color_for_part`: the colour names of classes 0, 1 and 2. */
  const ColorForPart: seq<string> := ["brown", "cyan", ""]

  /** The picture of one vertex: its 1-based position in the order and its class colour. */
  datatype GridCell = GridCell(position: nat, color: string)

  /** Vertex `v` can be drawn: it is in the order (else `order.index` raises `ValueError`)
      and in one of the first three classes (else `color_for_part[...]` raises `TypeError`
      for `None` or `IndexError` past the list). */
  predicate Drawable(s: Solution, v: nat) {
    v in s.order && s.PartOf(v).Some? && s.PartOf(v).value < |ColorForPart|
  }

  /** The exception raised for a vertex that cannot be drawn, in evaluation order. */
  function DrawError(s: Solution, v: nat): string {
    if v !in s.order then "ValueError"
    else if s.PartOf(v).None? then "TypeError"
    else "IndexError"
  }

  /** `to_latex_grid_vertices(solution)`: for the vertices 0 .. |order| - 1 in turn, the
      cell `position/colour`; the first vertex that cannot be drawn raises. The text
      `position/colour, ` of each cell is kept as the cell itself. */
  method ToLatexGridVertices(s: Solution) returns (r: Result<seq<GridCell>>)
    ensures r.Success? <==> forall v | 0 <= v < |s.order| :: Drawable(s, v)
    ensures r.Success? ==> |r.value| == |s.order|
    ensures r.Success? ==> forall v | 0 <= v < |s.order| ::
              1 <= r.value[v].position <= |s.order| && s.order[r.value[v].position - 1] == v &&
              (forall k | 0 <= k < r.value[v].position - 1 :: s.order[k] != v) &&
              Drawable(s, v) && r.value[v].color == ColorForPart[s.PartOf(v).value]
    ensures r.Failure? ==> exists v | 0 <= v < |s.order| ::
              !Drawable(s, v) && r.error == DrawError(s, v) && forall u | 0 <= u < v :: Drawable(s, u)
  {
    var res: seq<GridCell> := [];
    for vertex := 0 to |s.order|
      invariant |res| == vertex
      invariant forall v | 0 <= v < vertex :: Drawable(s, v)
      invariant forall v | 0 <= v < vertex ::
                  1 <= res[v].position <= |s.order| && s.order[res[v].position - 1] == v &&
                  (forall k | 0 <= k < res[v].position - 1 :: s.order[k] != v) &&
                  Drawable(s, v) && res[v].color == ColorForPart[s.PartOf(v).value]
    {
      if vertex !in s.order {
        assert !Drawable(s, vertex);
        return Failure("ValueError");
      }
      var position := IndexOf(s.order, vertex) + 1;
      var part := s.PartOf(vertex);
      if part.None? {
        assert !Drawable(s, vertex);
        return Failure("TypeError");
      }
      if part.value >= |ColorForPart| {
        assert !Drawable(s, vertex);
        return Failure("IndexError");
      }
      res := res + [GridCell(position, ColorForPart[part.value])];
    }
    return Success(res);
  }
}
