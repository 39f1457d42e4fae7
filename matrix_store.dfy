/**
 * The graph store: the N×N adjacency matrix of the cities, its allocation as a
 * zero-filled table and its loading from the integers of the input file.
 * The C program keeps N and the matrix in globals; here the matrix is an
 * `array2<int>` handed to each operation, and N is its dimension.
 */
module MatrixStore {
  import opened Graph

  /** The contents of a 2-D array as a table value. */
  ghost function Snapshot(a: array2<int>): (t: Table)
    reads a
    ensures |t| == a.Length0 && forall i :: 0 <= i < |t| ==> |t[i]| == a.Length1
    ensures forall i, j :: 0 <= i < a.Length0 && 0 <= j < a.Length1 ==> t[i][j] == a[i, j]
  {
    seq(a.Length0, i requires 0 <= i < a.Length0 reads a =>
      seq(a.Length1, j requires 0 <= j < a.Length1 reads a => a[i, j]))
  }

  /** Two arrays that agree cell by cell have the same snapshot. */
  lemma SnapshotsAgree(a: array2<int>, b: array2<int>)
    requires a.Length0 == b.Length0 && a.Length1 == b.Length1
    requires forall i, j :: 0 <= i < a.Length0 && 0 <= j < a.Length1 ==> a[i, j] == b[i, j]
    ensures Snapshot(a) == Snapshot(b)
  {
    var s, t := Snapshot(a), Snapshot(b);
    forall i | 0 <= i < |s|
      ensures s[i] == t[i]
    {
    }
  }

  /** An array equals a table value when they agree cell by cell. */
  lemma SnapshotIs(a: array2<int>, t: Table)
    requires IsMatrix(t, a.Length0) && a.Length1 == a.Length0
    requires forall i, j :: 0 <= i < a.Length0 && 0 <= j < a.Length0 ==> a[i, j] == t[i][j]
    ensures Snapshot(a) == t
  {
    var s := Snapshot(a);
    forall i | 0 <= i < |s|
      ensures s[i] == t[i]
    {
    }
  }

  /** createMatrix: a fresh n×n table with every cell zero. */
  method CreateMatrix(n: nat) returns (t: array2<int>)
    ensures fresh(t)
    ensures t.Length0 == n && t.Length1 == n
    ensures forall i, j :: 0 <= i < n && 0 <= j < n ==> t[i, j] == 0
  {
    t := new int[n, n]((i, j) => 0);
  }

  /** Copies every cell of src into dst; src is only read. */
  method CopyTable(src: array2<int>, dst: array2<int>)
    requires src != dst
    requires src.Length0 == dst.Length0 && src.Length1 == dst.Length1
    modifies dst
    ensures Snapshot(dst) == Snapshot(src)
  {
    for i := 0 to src.Length0
      invariant forall a, b :: 0 <= a < i && 0 <= b < src.Length1 ==> dst[a, b] == src[a, b]
    {
      for j := 0 to src.Length1
        invariant forall a, b :: 0 <= a < i && 0 <= b < src.Length1 ==> dst[a, b] == src[a, b]
        invariant forall b :: 0 <= b < j ==> dst[i, b] == src[i, b]
      {
        dst[i, j] := src[i, j];
      }
    }
    SnapshotsAgree(dst, src);
  }

  /** The two ways loading fails: no city count, or fewer than N·N entries after it. */
  datatype LoadError = MissingCityCount | MissingEntry

  datatype LoadResult = Loaded(matrix: array2<int>) | Malformed(error: LoadError)

  /** The number of rows createMatrix gives a count read from the input:
      a negative count allocates nothing and every loop over it is empty. */
  function Rows(count: int): nat
  {
    if count < 0 then 0 else count
  }

  /** rows · n, built by addition so that the loader's invariants stay linear. */
  ghost function Offset(n: nat, rows: nat): nat
  {
    if rows == 0 then 0 else Offset(n, rows - 1) + n
  }

  lemma {:induction false} OffsetIsProduct(n: nat, rows: nat)
    ensures Offset(n, rows) == rows * n
  {
    if rows > 0 {
      OffsetIsProduct(n, rows - 1);
      assert rows * n == (rows - 1) * n + n;
    }
  }

  lemma {:induction false} OffsetGrows(n: nat, a: nat, i: nat)
    requires a < i
    ensures Offset(n, a) + n <= Offset(n, i)
  {
    if a < i - 1 {
      OffsetGrows(n, a, i - 1);
    }
  }

  lemma RowMajorIndexBound(n: nat, i: nat, j: nat)
    requires i < n && j < n
    ensures i * n + j < n * n
  {
    OffsetGrows(n, i, n);
    OffsetIsProduct(n, i);
    OffsetIsProduct(n, n);
  }

  /** The input integer that row-major order puts in cell (i, j): the count
      comes first, then N·N entries, row 0 first. */
  function RowMajorToken(tokens: seq<int>, n: nat, i: nat, j: nat): int
    requires i < n && j < n && 1 + n * n <= |tokens|
  {
    RowMajorIndexBound(n, i, j);
    tokens[1 + i * n + j]
  }

  /**
   * readAdjacencyMatrix over the integers of the input file, already split
   * into tokens: the first is the city count N, the next N·N fill the matrix
   * row by row. It fails when the count is missing or the entries run out.
   */
  method ReadAdjacencyMatrix(tokens: seq<int>) returns (r: LoadResult)
    ensures |tokens| == 0 <==> r == Malformed(MissingCityCount)
    ensures |tokens| > 0 ==>
      var n := Rows(tokens[0]);
      && (r.Loaded? <==> 1 + n * n <= |tokens|)
      && (r.Malformed? ==> r.error == MissingEntry)
    ensures r.Loaded? ==> fresh(r.matrix)
    ensures r.Loaded? ==>
      var n := Rows(tokens[0]);
      && 1 + n * n <= |tokens|
      && r.matrix.Length0 == n && r.matrix.Length1 == n
      && forall i, j :: 0 <= i < n && 0 <= j < n ==> r.matrix[i, j] == RowMajorToken(tokens, n, i, j)
  {
    if |tokens| == 0 {
      return Malformed(MissingCityCount);
    }
    var n := Rows(tokens[0]);
    var matrix := CreateMatrix(n);
    var pos := 1;
    for i := 0 to n
      invariant pos == 1 + Offset(n, i) && pos <= |tokens|
      invariant forall a :: 0 <= a < i ==> Offset(n, a) + n <= Offset(n, i)
      invariant forall a, b :: 0 <= a < i && 0 <= b < n ==> matrix[a, b] == tokens[1 + Offset(n, a) + b]
    {
      for j := 0 to n
        invariant pos == 1 + Offset(n, i) + j && pos <= |tokens|
        invariant forall a, b :: 0 <= a < i && 0 <= b < n ==> matrix[a, b] == tokens[1 + Offset(n, a) + b]
        invariant forall b :: 0 <= b < j ==> matrix[i, b] == tokens[1 + Offset(n, i) + b]
      {
        if pos >= |tokens| {
          OffsetGrows(n, i, n);
          OffsetIsProduct(n, n);
          return Malformed(MissingEntry);
        }
        matrix[i, j] := tokens[pos];
        pos := pos + 1;
      }
      forall a | 0 <= a < i + 1
        ensures Offset(n, a) + n <= Offset(n, i + 1)
      {
        OffsetGrows(n, a, i + 1);
      }
    }
    OffsetIsProduct(n, n);
    forall i, j | 0 <= i < n && 0 <= j < n
      ensures matrix[i, j] == RowMajorToken(tokens, n, i, j)
    {
      OffsetIsProduct(n, i);
    }
    return Loaded(matrix);
  }
}
