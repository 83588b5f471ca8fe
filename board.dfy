/** The board view: the flat, row-major slot list of the board data is cut into
    rows of `width` cells for rendering, and the board's size in pixels is derived
    from its dimensions. */
module Board {
  import opened Types

  /** Side of one board cell in pixels. */
  const CellPixels: int := 96

  // ---------------------------------------------------------------------------
  // Specification of the row partition
  // ---------------------------------------------------------------------------

  /** `s` cut front to back into rows of `w` elements; the last row holds what is left. */
  function Chunk<T>(s: seq<T>, w: int): seq<seq<T>>
    requires w > 0
    decreases |s|
  {
    if |s| <= w then (if s == [] then [] else [s])
    else [s[..w]] + Chunk(s[w..], w)
  }

  /** The rows joined back together in order. */
  function Flatten<T>(rows: seq<seq<T>>): seq<T>
  {
    if rows == [] then [] else rows[0] + Flatten(rows[1..])
  }

  /** The number of rows `n` slots need at `w` per row: `ceil(n / w)`. */
  function RowCount(n: nat, w: int): nat
    requires w > 0
  {
    if n % w == 0 then n / w else n / w + 1
  }

  /** `RowCount` is the ceiling of `n / w`: the least row count whose rows hold `n` slots. */
  lemma RowCountIsCeil(n: nat, w: int)
    requires w > 0
    ensures RowCount(n, w) == 0 <==> n == 0
    ensures n > 0 ==> RowCount(n, w) * w - w < n <= RowCount(n, w) * w
  {
    var q, r := n / w, n % w;
    assert n == q * w + r;
    if r == 0 {
      assert RowCount(n, w) * w == n;
    } else {
      assert RowCount(n, w) * w == q * w + w;
    }
  }

  /** A positive multiple of a positive `w` is at least `w`. */
  lemma {:induction false} MultipleAtLeast(a: int, w: int)
    requires a >= 1 && w > 0
    ensures a * w >= w
  {
    if a > 1 {
      MultipleAtLeast(a - 1, w);
      assert a * w == (a - 1) * w + w;
    }
  }

  /** Quotient and remainder are the only pair that decomposes `n` this way. */
  lemma DivModUnique(n: int, w: int, q: int, r: int)
    requires w > 0 && 0 <= r < w && n == q * w + r
    ensures n / w == q && n % w == r
  {
    var q', r' := n / w, n % w;
    assert n == q' * w + r' && 0 <= r' < w;
    assert (q - q') * w == r' - r;
    if q' < q {
      MultipleAtLeast(q - q', w);
    } else if q' > q {
      MultipleAtLeast(q' - q, w);
    }
  }

  /** One more full row of `w` adds one to the quotient and keeps the remainder. */
  lemma DivModStep(n: int, w: int)
    requires w > 0 && n >= 0
    ensures (n + w) / w == n / w + 1 && (n + w) % w == n % w
  {
    DivModUnique(n + w, w, n / w + 1, n % w);
  }

  /** Fewer than `w` slots sit in row 0, at their own index. */
  lemma DivModSmall(n: int, w: int)
    requires 0 <= n < w
    ensures n / w == 0 && n % w == n
  {
    DivModUnique(n, w, 0, n);
  }

  // ---------------------------------------------------------------------------
  // Properties of the partition
  // ---------------------------------------------------------------------------

  /** Joining the rows gives back the slot list exactly. */
  lemma {:induction false} FlattenChunk<T>(s: seq<T>, w: int)
    requires w > 0
    ensures Flatten(Chunk(s, w)) == s
    decreases |s|
  {
    if |s| > w {
      var rest := Chunk(s[w..], w);
      assert ([s[..w]] + rest)[1..] == rest;
      FlattenChunk(s[w..], w);
      assert s[..w] + s[w..] == s;
    } else if s != [] {
      assert Flatten([s]) == s + Flatten([]);
    }
  }

  /** There are `ceil(|s| / w)` rows, so no slots means no rows. */
  lemma {:induction false} ChunkCount<T>(s: seq<T>, w: int)
    requires w > 0
    ensures |Chunk(s, w)| == RowCount(|s|, w)
    ensures Chunk(s, w) == [] <==> s == []
    decreases |s|
  {
    if |s| > w {
      ChunkCount(s[w..], w);
      DivModStep(|s| - w, w);
      assert RowCount(|s|, w) == RowCount(|s| - w, w) + 1;
    } else if |s| == w {
      DivModStep(0, w);
      DivModSmall(0, w);
    } else {
      DivModSmall(|s|, w);
    }
  }

  /** Every row is non-empty and at most `w` long, and every row but the last is full. */
  lemma {:induction false} ChunkRowSizes<T>(s: seq<T>, w: int)
    requires w > 0
    ensures forall r :: 0 <= r < |Chunk(s, w)| ==> 0 < |Chunk(s, w)[r]| <= w
    ensures forall r :: 0 <= r < |Chunk(s, w)| - 1 ==> |Chunk(s, w)[r]| == w
    decreases |s|
  {
    if |s| > w {
      ChunkRowSizes(s[w..], w);
    }
  }

  /** The slot at flat index `i` lands in row `i / w`, column `i % w`. */
  lemma {:induction false} ChunkAt<T>(s: seq<T>, w: int, i: int)
    requires w > 0 && 0 <= i < |s|
    ensures i / w < |Chunk(s, w)|
    ensures i % w < |Chunk(s, w)[i / w]|
    ensures Chunk(s, w)[i / w][i % w] == s[i]
    decreases |s|
  {
    var rows := Chunk(s, w);
    if i < w {
      DivModSmall(i, w);
      assert rows[0] == if |s| <= w then s else s[..w];
    } else {
      var tail := s[w..];
      var j := i - w;
      ChunkAt(tail, w, j);
      DivModStep(j, w);
      assert rows == [s[..w]] + Chunk(tail, w);
      assert rows[i / w] == Chunk(tail, w)[j / w];
      assert tail[j] == s[i];
    }
  }

  /** Empty cells are kept where they were: a slot is empty exactly when the
      cell at its row and column is. */
  lemma EmptyCellsStay(s: seq<Cell>, w: int)
    requires w > 0
    ensures forall i :: 0 <= i < |s| ==>
      i / w < |Chunk(s, w)| && i % w < |Chunk(s, w)[i / w]| &&
      (Chunk(s, w)[i / w][i % w].None? <==> s[i].None?)
  {
    forall i | 0 <= i < |s|
      ensures i / w < |Chunk(s, w)| && i % w < |Chunk(s, w)[i / w]|
      ensures Chunk(s, w)[i / w][i % w].None? <==> s[i].None?
    {
      ChunkAt(s, w, i);
    }
  }

  /** Adding one more slot either opens a new row holding just that slot (when
      the slots so far fill whole rows) or appends it to the last row. The row it
      goes to is `|p| / w`, and that row is new exactly when `|p| % w == 0`. */
  lemma {:induction false} ChunkSnoc<T>(p: seq<T>, x: T, w: int)
    requires w > 0
    ensures var c, k := Chunk(p, w), |p| / w;
      k <= |c| && (k == |c| <==> |p| % w == 0) &&
      Chunk(p + [x], w) == if k == |c| then c + [[x]] else c[k := c[k] + [x]]
    decreases |p|
  {
    var c := Chunk(p, w);
    if p == [] {
      DivModSmall(0, w);
      assert p + [x] == [x];
    } else if |p| < w {
      DivModSmall(|p|, w);
      assert c == [p];
      assert Chunk(p + [x], w) == [p + [x]];
    } else if |p| == w {
      DivModSmall(0, w);
      DivModStep(0, w);
      assert (p + [x])[..w] == p;
      assert (p + [x])[w..] == [x];
    } else {
      var tail := p[w..];
      ChunkSnoc(tail, x, w);
      DivModStep(|tail|, w);
      assert (p + [x])[..w] == p[..w];
      assert (p + [x])[w..] == tail + [x];
      var c' := Chunk(tail, w);
      assert c == [p[..w]] + c';
      if |tail| / w < |c'| {
        var k' := |tail| / w;
        assert c[k' + 1 := c[k' + 1] + [x]] == [p[..w]] + c'[k' := c'[k'] + [x]];
      }
    }
  }

  // ---------------------------------------------------------------------------
  // The rows the board renders
  // ---------------------------------------------------------------------------

  /** The `boardRows` reduce: walks the slots left to right, starts row
      `index / width` when it does not exist yet, and pushes the slot onto it. */
  method BoardRows(state: BoardData) returns (rows: seq<seq<Cell>>)
    requires state.width > 0
    ensures rows == Chunk(state.items, state.width)
  {
    var perChunk := state.width;
    rows := [];
    var index := 0;
    while index < |state.items|
      invariant 0 <= index <= |state.items|
      invariant rows == Chunk(state.items[..index], perChunk)
    {
      var item := state.items[index];
      var chunkIndex := index / perChunk;
      ChunkSnoc(state.items[..index], item, perChunk);
      ghost var before := rows;
      if chunkIndex >= |rows| {
        rows := rows + [[]];  // no row at this index yet: open an empty one
        assert rows[chunkIndex] + [item] == [item];
      }
      rows := rows[chunkIndex := rows[chunkIndex] + [item]];
      assert chunkIndex == |before| ==> rows == before + [[item]];
      assert state.items[..index + 1] == state.items[..index] + [item];
      index := index + 1;
    }
    assert state.items[..index] == state.items;
  }

  /** `boardWidthInPixels`: the board's width in 96-pixel cells. */
  function BoardWidthInPixels(state: BoardData): (px: int)
    ensures px == state.width * CellPixels
  {
    state.width * CellPixels
  }

  /** `boardHeightInPixels`: the board's height in 96-pixel cells. */
  function BoardHeightInPixels(state: BoardData): (px: int)
    ensures px == state.height * CellPixels
  {
    state.height * CellPixels
  }

  /** When the board data holds exactly `width * height` slots, the partition has
      `height` rows of `width` cells each, so the row count and the row length,
      counted in 96-pixel cells, are the two pixel expressions. */
  lemma BoardFillsPixels(state: BoardData)
    requires state.width > 0 && |state.items| == state.width * state.height
    ensures |Chunk(state.items, state.width)| * CellPixels == BoardHeightInPixels(state)
    ensures forall row :: row in Chunk(state.items, state.width) ==>
      |row| * CellPixels == BoardWidthInPixels(state)
  {
    var w, h := state.width, state.height;
    var rows := Chunk(state.items, w);
    ChunkCount(state.items, w);
    ChunkRowSizes(state.items, w);
    if h > 0 {
      DivModUnique(w * h, w, h, 0);
      assert RowCount(w * h, w) == h;
      assert |rows| == h;
      // the last slot sits in the last column of the last row
      DivModUnique(w * h - 1, w, h - 1, w - 1);
      ChunkAt(state.items, w, w * h - 1);
      assert |rows[h - 1]| == w;
      forall row | row in rows
        ensures |row| == w
      {
        var r :| 0 <= r < |rows| && rows[r] == row;
      }
    } else {
      assert h == 0;
    }
  }
}
