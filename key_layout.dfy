/** The keyboard geometry of the piano screen: the five black and seven
    white key rectangles derived from the view's width and height, the
    chromatic index of each, and the reference answer of the hit test. */
module KeyLayout {
  import opened Geometry

  /** Names of the twelve chromatic keys, indexed from middle C. */
  const KeyNames: seq<string> :=
    ["C", "C\U{266F}", "D", "E\U{266D}", "E", "F",
     "F\U{266F}", "G", "G\U{266F}", "A", "B\U{266D}", "B"]

  /** Chromatic indices of the black keys, in the order they are put. */
  const BlackKeyIndices: seq<int> := [1, 3, 6, 8, 10]
  /** Column boundaries (in white-key widths) the black keys are centred on. */
  const BlackCentres: seq<int> := [1, 2, 4, 5, 6]
  /** Chromatic indices of the white keys, column by column. */
  const WhiteKeyIndices: seq<int> := [0, 2, 4, 5, 7, 9, 11]

  /** The width of one white key: a seventh of the view. */
  function WhiteWidth(width: int): real {
    width as real / 7.0
  }

  /** `(int)(ww * k)`: the x-coordinate of white column boundary `k`. For
      a width that is not negative it is `k * width / 7` rounded down. */
  function WhiteEdge(width: int, k: int): (e: int)
    ensures width >= 0 && k >= 0 ==> e == (k * width) / 7
  {
    SeventhsTruncate(width, k);
    Trunc(WhiteWidth(width) * k as real)
  }

  lemma SeventhsTruncate(width: int, k: int)
    ensures width >= 0 && k >= 0 ==> Trunc(WhiteWidth(width) * k as real) == (k * width) / 7
  {
    if width >= 0 && k >= 0 {
      var q, r := (k * width) / 7, (k * width) % 7;
      assert WhiteWidth(width) * k as real == q as real + r as real / 7.0;
    }
  }

  /** `(int)bh` with `bh = .575 * height`: the bottom of every black key.
      For a height that is not negative it is `23 * height / 40` rounded
      down, within the view. */
  function BlackBottom(height: int): (b: int)
    ensures height >= 0 ==> b == (23 * height) / 40 && 0 <= b <= height
  {
    Trunc(0.575 * height as real)
  }

  /** The black key centred on column boundary `c`, `bw = .52 * ww` wide:
      it runs from the top of the view to the black keys' bottom edge. */
  function BlackRect(width: int, height: int, c: int): (r: Rect)
    ensures r.top == 0 && r.bottom == BlackBottom(height)
  {
    var ww := WhiteWidth(width);
    var bw := 0.52 * ww;
    Rect(Trunc(ww * c as real - 0.5 * bw), 0, Trunc(ww * c as real + 0.5 * bw), BlackBottom(height))
  }

  /** The white key of column `i`: the full height of the view, between
      boundaries `i` and `i + 1`. */
  function WhiteRect(width: int, height: int, i: int): (r: Rect)
    ensures r.top == 0 && r.bottom == height
    ensures width >= 0 && i >= 0 ==> r.left == (i * width) / 7 && r.right == ((i + 1) * width) / 7
  {
    Rect(WhiteEdge(width, i), 0, WhiteEdge(width, i + 1), height)
  }

  /** The five black keys in the order they are put, on the boundaries
      `BlackCentres` names; all share the top and bottom edges. */
  function BlackRects(width: int, height: int): (rs: seq<Rect>)
    ensures |rs| == |BlackKeyIndices|
    ensures forall i :: 0 <= i < |rs| ==> rs[i].top == 0 && rs[i].bottom == BlackBottom(height)
  {
    [BlackRect(width, height, 1), BlackRect(width, height, 2), BlackRect(width, height, 4),
     BlackRect(width, height, 5), BlackRect(width, height, 6)]
  }

  /** The seven white columns in order, each the full height of the view
      and ending where the next begins. */
  function WhiteRects(width: int, height: int): (rs: seq<Rect>)
    ensures |rs| == |WhiteKeyIndices|
    ensures forall i :: 0 <= i < |rs| ==> rs[i].top == 0 && rs[i].bottom == height
    ensures forall i :: 0 <= i < |rs| - 1 ==> rs[i].right == rs[i + 1].left
  {
    [WhiteRect(width, height, 0), WhiteRect(width, height, 1), WhiteRect(width, height, 2),
     WhiteRect(width, height, 3), WhiteRect(width, height, 4), WhiteRect(width, height, 5),
     WhiteRect(width, height, 6)]
  }

  /** The position of the first rectangle of `rs` that contains the point,
      or -1 when none does. */
  function HitIndex(rs: seq<Rect>, x: int, y: int): (k: int)
    ensures -1 <= k < |rs|
    ensures k >= 0 ==> Contains(rs[k], x, y)
    ensures k >= 0 ==> forall j :: 0 <= j < k ==> !Contains(rs[j], x, y)
    ensures k == -1 ==> forall j :: 0 <= j < |rs| ==> !Contains(rs[j], x, y)
  {
    if rs == [] then -1
    else if Contains(rs[0], x, y) then 0
    else
      var k := HitIndex(rs[1..], x, y);
      if k == -1 then -1 else k + 1
  }

  /** The reference hit test: the black keys in order, then the white keys
      in order. The answer is -1 exactly when no key rectangle contains the
      point; otherwise it is a chromatic index, a black one exactly when a
      black key contains the point. */
  function KeyAt(width: int, height: int, x: int, y: int): (k: int)
    ensures -1 <= k < 12
    ensures k == -1 <==>
              (forall i :: 0 <= i < 5 ==> !Contains(BlackRects(width, height)[i], x, y))
              && (forall i :: 0 <= i < 7 ==> !Contains(WhiteRects(width, height)[i], x, y))
    ensures k in BlackKeyIndices <==> exists i :: 0 <= i < 5 && Contains(BlackRects(width, height)[i], x, y)
    ensures k != -1 && k !in BlackKeyIndices ==> k in WhiteKeyIndices
  {
    var bs, ws := BlackRects(width, height), WhiteRects(width, height);
    var b := HitIndex(bs, x, y);
    if b >= 0 then BlackKeyIndices[b]
    else
      var w := HitIndex(ws, x, y);
      if w >= 0 then
        ChromaticPartition();
        WhiteKeyIndices[w]
      else -1
  }

  /** The contents of a hash map after putting `ix[i]` under `rs[i]` for
      each i in order, starting from an empty map: a later put under an
      equal key replaces the earlier value. */
  function Table(rs: seq<Rect>, ix: seq<int>): (t: map<Rect, int>)
    requires |rs| == |ix|
    ensures forall r :: r in t <==> r in rs
  {
    if rs == [] then map[]
    else Table(rs[..|rs| - 1], ix[..|ix| - 1])[rs[|rs| - 1] := ix[|ix| - 1]]
  }

  /** The black-key map the screen builds on first use. */
  function BlackTable(width: int, height: int): map<Rect, int> {
    Table(BlackRects(width, height), BlackKeyIndices)
  }

  /** The white-key map the screen builds on first use. */
  function WhiteTable(width: int, height: int): map<Rect, int> {
    Table(WhiteRects(width, height), WhiteKeyIndices)
  }

  // ---------------------------------------------------------------------
  // The map and the ordered scan

  /** Last put wins: a key that is not put again later maps to its value. */
  lemma {:induction false} TableAt(rs: seq<Rect>, ix: seq<int>, j: int)
    requires |rs| == |ix| && 0 <= j < |rs|
    requires forall i :: j < i < |rs| ==> rs[i] != rs[j]
    ensures rs[j] in Table(rs, ix) && Table(rs, ix)[rs[j]] == ix[j]
  {
    var n := |rs| - 1;
    var rs', ix' := rs[..n], ix[..n];
    assert Table(rs, ix) == Table(rs', ix')[rs[n] := ix[n]];
    if j < n {
      assert rs'[j] == rs[j] && ix'[j] == ix[j];
      forall i | j < i < n ensures rs'[i] != rs'[j] {
        assert rs'[i] == rs[i];
      }
      TableAt(rs', ix', j);
    }
  }

  /** One more put extends the map of a prefix. */
  lemma TablePrefix(rs: seq<Rect>, ix: seq<int>, n: nat)
    requires |rs| == |ix| && n < |rs|
    ensures Table(rs[..n + 1], ix[..n + 1]) == Table(rs[..n], ix[..n])[rs[n] := ix[n]]
  {
    assert rs[..n + 1][..n] == rs[..n] && ix[..n + 1][..n] == ix[..n];
  }

  /** In pairwise separated rectangles, a rectangle containing the point
      is the first hit. */
  lemma HitIndexUnique(rs: seq<Rect>, j: int, x: int, y: int)
    requires PairwiseSeparated(rs) && 0 <= j < |rs| && Contains(rs[j], x, y)
    ensures HitIndex(rs, x, y) == j
  {
    var k := HitIndex(rs, x, y);
    if k != j {
      assert k < j;
      SeparatedNoCommonPoint(rs[k], rs[j], x, y);
    }
  }

  /** Whichever map entry containing the point a scan meets first, its
      value is the answer of the ordered scan: the map's iteration order
      does not matter. */
  lemma TableHit(rs: seq<Rect>, ix: seq<int>, r: Rect, x: int, y: int)
    requires |rs| == |ix| && PairwiseSeparated(rs)
    requires r in Table(rs, ix) && Contains(r, x, y)
    ensures HitIndex(rs, x, y) >= 0 && Table(rs, ix)[r] == ix[HitIndex(rs, x, y)]
  {
    var j :| 0 <= j < |rs| && rs[j] == r;
    HitIndexUnique(rs, j, x, y);
    forall i | j < i < |rs| ensures rs[i] != rs[j] {
      if rs[i] == rs[j] {
        SeparatedNoCommonPoint(rs[j], rs[i], x, y);
      }
    }
    TableAt(rs, ix, j);
  }

  /** A map entry that contains the point exists exactly when the ordered
      scan hits. */
  lemma TableMiss(rs: seq<Rect>, ix: seq<int>, x: int, y: int)
    requires |rs| == |ix|
    ensures HitIndex(rs, x, y) == -1 <==> forall r :: r in Table(rs, ix) ==> !Contains(r, x, y)
  {
    var k := HitIndex(rs, x, y);
    if k >= 0 {
      assert rs[k] in Table(rs, ix);
    }
  }

  // ---------------------------------------------------------------------
  // Rows of rectangles that run from left to right

  /** Each rectangle has its left edge at or before its right edge, and
      each one ends at or before the next one starts. */
  predicate LeftToRight(rs: seq<Rect>) {
    (forall i :: 0 <= i < |rs| ==> rs[i].left <= rs[i].right)
    && (forall i :: 0 <= i < |rs| - 1 ==> rs[i].right <= rs[i + 1].left)
  }

  lemma {:induction false} LeftToRightGap(rs: seq<Rect>, i: int, j: int)
    requires LeftToRight(rs) && 0 <= i < j < |rs|
    ensures rs[i].right <= rs[j].left
    decreases j - i
  {
    if i + 1 < j {
      LeftToRightGap(rs, i, j - 1);
    }
  }

  /** A row running from left to right has no two overlapping rectangles. */
  lemma LeftToRightSeparated(rs: seq<Rect>)
    requires LeftToRight(rs)
    ensures PairwiseSeparated(rs)
  {
    forall i, j | 0 <= i < j < |rs| ensures Separated(rs[i], rs[j]) {
      LeftToRightGap(rs, i, j);
    }
  }

  /** Every rectangle of a row running from left to right lies between the
      first left edge and the last right edge. */
  lemma {:induction false} LeftToRightBounds(rs: seq<Rect>, i: int)
    requires LeftToRight(rs) && 0 <= i < |rs|
    ensures rs[0].left <= rs[i].left && rs[i].right <= rs[|rs| - 1].right
  {
    if 0 < i {
      LeftToRightGap(rs, 0, i);
    }
    if i < |rs| - 1 {
      LeftToRightGap(rs, i, |rs| - 1);
    }
  }

  /** Rectangles that share each boundary with the next one, all spanning
      the rows `[top, bottom)`, cover their whole extent: each point of it
      lies in one of them. */
  lemma {:induction false} TiledCover(rs: seq<Rect>, x: int, y: int)
    requires LeftToRight(rs) && |rs| > 0
    requires forall i :: 0 <= i < |rs| - 1 ==> rs[i].right == rs[i + 1].left
    requires forall i :: 0 <= i < |rs| ==> rs[i].top <= y < rs[i].bottom
    requires rs[0].left <= x < rs[|rs| - 1].right
    ensures HitIndex(rs, x, y) >= 0
  {
    if !Contains(rs[0], x, y) {
      var rest := rs[1..];
      assert x >= rs[0].right == rest[0].left;
      assert forall i :: 0 <= i < |rest| - 1 ==> rest[i].right == rest[i + 1].left by {
        forall i | 0 <= i < |rest| - 1 ensures rest[i].right == rest[i + 1].left {
          assert rest[i] == rs[i + 1] && rest[i + 1] == rs[i + 2];
        }
      }
      assert LeftToRight(rest) by {
        forall i | 0 <= i < |rest| - 1 ensures rest[i].right <= rest[i + 1].left {
          assert rest[i] == rs[i + 1] && rest[i + 1] == rs[i + 2];
        }
      }
      TiledCover(rest, x, y);
    }
  }

  // ---------------------------------------------------------------------
  // Layout geometry

  /** For a width that is not negative, the black key on boundary c spans
      `(c - 0.26) * width / 7` to `(c + 0.26) * width / 7`, each rounded
      down. */
  lemma BlackEdgesExact(width: int, height: int)
    requires width >= 0
    ensures BlackRect(width, height, 1).left == (74 * width) / 700
    ensures BlackRect(width, height, 1).right == (126 * width) / 700
    ensures BlackRect(width, height, 2).left == (174 * width) / 700
    ensures BlackRect(width, height, 2).right == (226 * width) / 700
    ensures BlackRect(width, height, 4).left == (374 * width) / 700
    ensures BlackRect(width, height, 4).right == (426 * width) / 700
    ensures BlackRect(width, height, 5).left == (474 * width) / 700
    ensures BlackRect(width, height, 5).right == (526 * width) / 700
    ensures BlackRect(width, height, 6).left == (574 * width) / 700
    ensures BlackRect(width, height, 6).right == (626 * width) / 700
  {
  }

  /** For a width that is not negative the white columns run from left to
      right, from 0 to the view width. */
  lemma WhiteColumnsInOrder(width: int, height: int)
    requires width >= 0
    ensures LeftToRight(WhiteRects(width, height))
    ensures WhiteRects(width, height)[0].left == 0 && WhiteRects(width, height)[6].right == width
  {
  }

  /** For a width that is not negative the black keys run from left to
      right, inside `[0, width]`. */
  lemma BlackKeysInOrder(width: int, height: int)
    requires width >= 0
    ensures LeftToRight(BlackRects(width, height))
    ensures BlackRects(width, height)[0].left >= 0 && BlackRects(width, height)[4].right <= width
  {
    BlackEdgesExact(width, height);
  }

  /** For a negative width every key rectangle is empty. */
  lemma NegativeWidthEmpty(width: int, height: int)
    requires width < 0
    ensures forall i :: 0 <= i < 5 ==> IsEmpty(BlackRects(width, height)[i])
    ensures forall i :: 0 <= i < 7 ==> IsEmpty(WhiteRects(width, height)[i])
  {
    var ww := WhiteWidth(width);
    var h := 0.5 * (0.52 * ww);
    TruncMonotone(ww * 1 as real + h, ww * 1 as real - h);
    TruncMonotone(ww * 2 as real + h, ww * 2 as real - h);
    TruncMonotone(ww * 4 as real + h, ww * 4 as real - h);
    TruncMonotone(ww * 5 as real + h, ww * 5 as real - h);
    TruncMonotone(ww * 6 as real + h, ww * 6 as real - h);
    TruncMonotone(ww * 1 as real, ww * 0 as real);
    TruncMonotone(ww * 2 as real, ww * 1 as real);
    TruncMonotone(ww * 3 as real, ww * 2 as real);
    TruncMonotone(ww * 4 as real, ww * 3 as real);
    TruncMonotone(ww * 5 as real, ww * 4 as real);
    TruncMonotone(ww * 6 as real, ww * 5 as real);
    TruncMonotone(ww * 7 as real, ww * 6 as real);
  }

  /** No point lies in two black keys, nor in two white keys, whatever the
      view size: the order in which either map is scanned cannot change
      the answer. */
  lemma LayoutSeparated(width: int, height: int)
    ensures PairwiseSeparated(BlackRects(width, height))
    ensures PairwiseSeparated(WhiteRects(width, height))
  {
    if width >= 0 {
      BlackKeysInOrder(width, height);
      WhiteColumnsInOrder(width, height);
      LeftToRightSeparated(BlackRects(width, height));
      LeftToRightSeparated(WhiteRects(width, height));
    } else {
      NegativeWidthEmpty(width, height);
    }
  }

  // ---------------------------------------------------------------------
  // What the hit test answers

  /** Black beats white: a point inside a black key resolves to that black
      key, even where the white key beneath also contains it. */
  lemma BlackBeatsWhite(width: int, height: int, j: int, x: int, y: int)
    requires 0 <= j < 5 && Contains(BlackRects(width, height)[j], x, y)
    ensures KeyAt(width, height, x, y) == BlackKeyIndices[j]
  {
    LayoutSeparated(width, height);
    HitIndexUnique(BlackRects(width, height), j, x, y);
  }

  /** A point outside every black key resolves to the white column that
      contains it. */
  lemma WhiteOutsideBlack(width: int, height: int, j: int, x: int, y: int)
    requires 0 <= j < 7 && Contains(WhiteRects(width, height)[j], x, y)
    requires forall i :: 0 <= i < 5 ==> !Contains(BlackRects(width, height)[i], x, y)
    ensures KeyAt(width, height, x, y) == WhiteKeyIndices[j]
  {
    LayoutSeparated(width, height);
    HitIndexUnique(WhiteRects(width, height), j, x, y);
  }

  /** Every black key lies inside the view `[0, width) x [0, height)`. */
  lemma BlackKeyInsideView(width: int, height: int, i: int, x: int, y: int)
    requires 0 <= i < 5 && Contains(BlackRects(width, height)[i], x, y)
    ensures 0 <= x < width && 0 <= y < height
  {
    if width < 0 {
      NegativeWidthEmpty(width, height);
      assert false;
    }
    BlackKeysInOrder(width, height);
    LeftToRightBounds(BlackRects(width, height), i);
  }

  /** Every white key lies inside the view `[0, width) x [0, height)`. */
  lemma WhiteKeyInsideView(width: int, height: int, i: int, x: int, y: int)
    requires 0 <= i < 7 && Contains(WhiteRects(width, height)[i], x, y)
    ensures 0 <= x < width && 0 <= y < height
  {
    if width < 0 {
      NegativeWidthEmpty(width, height);
      assert false;
    }
    WhiteColumnsInOrder(width, height);
    LeftToRightBounds(WhiteRects(width, height), i);
  }

  /** Every point of the view lies in a white column. */
  lemma ViewCoveredByWhite(width: int, height: int, x: int, y: int)
    requires 0 <= x < width && 0 <= y < height
    ensures HitIndex(WhiteRects(width, height), x, y) >= 0
  {
    WhiteColumnsInOrder(width, height);
    TiledCover(WhiteRects(width, height), x, y);
  }

  /** The hit test misses exactly the points outside the view: the white
      columns tile it and every key lies within it. */
  lemma MissIffOutsideView(width: int, height: int, x: int, y: int)
    ensures KeyAt(width, height, x, y) == -1 <==> !(0 <= x < width && 0 <= y < height)
  {
    if 0 <= x < width && 0 <= y < height {
      ViewCoveredByWhite(width, height, x, y);
    } else {
      var b := HitIndex(BlackRects(width, height), x, y);
      var w := HitIndex(WhiteRects(width, height), x, y);
      if b >= 0 {
        BlackKeyInsideView(width, height, b, x, y);
      } else if w >= 0 {
        WhiteKeyInsideView(width, height, w, x, y);
      }
    }
  }

  /** Before the view is measured (width 0) every point misses. */
  lemma UnmeasuredViewMisses(height: int, x: int, y: int)
    ensures KeyAt(0, height, x, y) == -1
  {
    MissIffOutsideView(0, height, x, y);
  }

  /** At or below the black keys' bottom edge only white keys answer. */
  lemma BelowBlackKeysOnlyWhite(width: int, height: int, x: int, y: int)
    requires y >= BlackBottom(height)
    ensures KeyAt(width, height, x, y) == -1 || KeyAt(width, height, x, y) in WhiteKeyIndices
  {
  }

  /** The black and the white indices partition the twelve chromatic keys,
      each of which has a name. */
  lemma ChromaticPartition()
    ensures |KeyNames| == 12
    ensures forall k :: k in BlackKeyIndices || k in WhiteKeyIndices <==> 0 <= k < 12
    ensures forall k :: !(k in BlackKeyIndices && k in WhiteKeyIndices)
  {
  }

  // ---------------------------------------------------------------------
  // The maps the screen builds

  /** In a measured view (at least 14 pixels wide and 2 high) all twelve
      rectangles are distinct, so each key keeps its own entry. */
  lemma MeasuredLayoutKeepsAllKeys(width: int, height: int)
    requires width >= 14 && height >= 2
    ensures forall j :: 0 <= j < 5 ==>
              (BlackRects(width, height)[j] in BlackTable(width, height)
               && BlackTable(width, height)[BlackRects(width, height)[j]] == BlackKeyIndices[j])
    ensures forall j :: 0 <= j < 7 ==>
              (WhiteRects(width, height)[j] in WhiteTable(width, height)
               && WhiteTable(width, height)[WhiteRects(width, height)[j]] == WhiteKeyIndices[j])
  {
    var bs, ws := BlackRects(width, height), WhiteRects(width, height);
    BlackEdgesExact(width, height);
    LayoutSeparated(width, height);
    forall j | 0 <= j < 5 ensures bs[j] in BlackTable(width, height) && BlackTable(width, height)[bs[j]] == BlackKeyIndices[j] {
      assert !IsEmpty(bs[j]);
      forall i | j < i < 5 ensures bs[i] != bs[j] {
        assert Separated(bs[j], bs[i]);
      }
      TableAt(bs, BlackKeyIndices, j);
    }
    forall j | 0 <= j < 7 ensures ws[j] in WhiteTable(width, height) && WhiteTable(width, height)[ws[j]] == WhiteKeyIndices[j] {
      assert !IsEmpty(ws[j]);
      forall i | j < i < 7 ensures ws[i] != ws[j] {
        assert Separated(ws[j], ws[i]);
      }
      TableAt(ws, WhiteKeyIndices, j);
    }
  }

  /** Before the view is measured every black rectangle is the same empty
      rectangle, and so is every white one: each map holds one entry, the
      last key put. */
  lemma UnmeasuredLayoutCollapses(height: int)
    ensures BlackTable(0, height) == map[Rect(0, 0, 0, BlackBottom(height)) := 10]
    ensures WhiteTable(0, height) == map[Rect(0, 0, 0, height) := 11]
  {
    BlackEdgesExact(0, height);
    var b := Rect(0, 0, 0, BlackBottom(height));
    var w := Rect(0, 0, 0, height);
    assert BlackRects(0, height) == [b, b, b, b, b];
    assert WhiteRects(0, height) == [w, w, w, w, w, w, w];
    assert Table([b, b, b, b, b], BlackKeyIndices) == map[b := 10] by {
      assert [b, b, b, b, b][..4] == [b, b, b, b];
      assert [b, b, b, b][..3] == [b, b, b];
      assert [b, b, b][..2] == [b, b];
      assert [b, b][..1] == [b];
      assert [b][..0] == [];
    }
    assert Table([w, w, w, w, w, w, w], WhiteKeyIndices) == map[w := 11] by {
      assert [w, w, w, w, w, w, w][..6] == [w, w, w, w, w, w];
      assert [w, w, w, w, w, w][..5] == [w, w, w, w, w];
      assert [w, w, w, w, w][..4] == [w, w, w, w];
      assert [w, w, w, w][..3] == [w, w, w];
      assert [w, w, w][..2] == [w, w];
      assert [w, w][..1] == [w];
      assert [w][..0] == [];
    }
  }

  // ---------------------------------------------------------------------
  // A worked example: a 700 x 400 view

  /** The white columns of a 700-pixel view are 100 pixels wide, and a tap
      at (50, 300) lies in column 0, below the black keys: middle C. */
  lemma Example700By400()
    ensures forall k :: 0 <= k <= 7 ==> WhiteEdge(700, k) == 100 * k
    ensures KeyAt(700, 400, 50, 300) == 0
  {
    forall k | 0 <= k <= 7 ensures WhiteEdge(700, k) == 100 * k {
      assert WhiteWidth(700) == 100.0;
      TruncOfInt(100 * k);
    }
    assert Contains(WhiteRects(700, 400)[0], 50, 300);
    WhiteOutsideBlack(700, 400, 0, 50, 300);
  }
}
