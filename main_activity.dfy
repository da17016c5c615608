/** The piano screen's state and its event handlers: the two key maps,
    built on the first hit test and never again, the sample ids and the
    list of loaded flags. */
module Piano {
  import opened Geometry
  import opened KeyLayout
  import opened SoundBank

  class MainActivity {
    /** Black key rectangles to chromatic index, filled on first use. */
    var blackKeys: map<Rect, int>
    /** White key rectangles to chromatic index, filled on first use. */
    var whiteKeys: map<Rect, int>
    /** The pool's id of each loaded sample, in key order. */
    var sounds: seq<int>
    /** One entry per load-complete callback that matched a sample. */
    var soundsBoolean: seq<bool>
    /** The view size the key maps were built from. */
    ghost var layoutWidth: int
    ghost var layoutHeight: int

    /** Either neither map is built yet, or both hold exactly the layout
        of the view size they were built from. */
    ghost predicate Valid()
      reads this
    {
      if |blackKeys| == 0 then whiteKeys == map[]
      else blackKeys == BlackTable(layoutWidth, layoutHeight)
           && whiteKeys == WhiteTable(layoutWidth, layoutHeight)
    }

    /** The key maps have been built. */
    ghost predicate Built()
      reads this
    {
      |blackKeys| != 0
    }

    constructor ()
      ensures Valid() && !Built()
      ensures sounds == [] && soundsBoolean == []
    {
      blackKeys, whiteKeys := map[], map[];
      sounds, soundsBoolean := [], [];
      layoutWidth, layoutHeight := 0, 0;
    }

    /** Registers, in key order, the ids the pool returned for the samples. */
    method RegisterSounds(ids: seq<int>)
      modifies this`sounds
      ensures sounds == old(sounds) + ids
    {
      for i := 0 to |ids|
        invariant sounds == old(sounds) + ids[..i]
      {
        sounds := sounds + [ids[i]];
      }
    }

    /** Builds both key maps from the view size, putting the black keys and
        then the white keys in source order. */
    method BuildLayout(viewWidth: int, viewHeight: int)
      requires |blackKeys| == 0 && whiteKeys == map[]
      modifies this`blackKeys, this`whiteKeys, this`layoutWidth, this`layoutHeight
      ensures Valid() && Built()
      ensures layoutWidth == viewWidth && layoutHeight == viewHeight
    {
      assert blackKeys == map[];
      layoutWidth, layoutHeight := viewWidth, viewHeight;
      var bs := BlackRects(viewWidth, viewHeight);
      blackKeys := blackKeys[bs[0] := 1];
      blackKeys := blackKeys[bs[1] := 3];
      blackKeys := blackKeys[bs[2] := 6];
      blackKeys := blackKeys[bs[3] := 8];
      blackKeys := blackKeys[bs[4] := 10];
      var ws := WhiteRects(viewWidth, viewHeight);
      whiteKeys := whiteKeys[ws[0] := 0];
      whiteKeys := whiteKeys[ws[1] := 2];
      whiteKeys := whiteKeys[ws[2] := 4];
      whiteKeys := whiteKeys[ws[3] := 5];
      whiteKeys := whiteKeys[ws[4] := 7];
      whiteKeys := whiteKeys[ws[5] := 9];
      whiteKeys := whiteKeys[ws[6] := 11];
      TablesUnrolled(viewWidth, viewHeight);
      assert bs[4] in blackKeys;
    }

    /** `getPianoKey`: on the first call builds the key maps from the view
        size; then scans the black keys, then the white keys, in whatever
        order the maps yield them, and answers the index of the first
        rectangle containing the point, or -1. */
    method GetPianoKey(x: int, y: int, viewWidth: int, viewHeight: int) returns (key: int)
      requires Valid()
      modifies this`blackKeys, this`whiteKeys, this`layoutWidth, this`layoutHeight
      ensures Valid() && Built()
      ensures old(Built()) ==> blackKeys == old(blackKeys) && whiteKeys == old(whiteKeys)
                               && layoutWidth == old(layoutWidth) && layoutHeight == old(layoutHeight)
      ensures !old(Built()) ==> layoutWidth == viewWidth && layoutHeight == viewHeight
      ensures key == KeyAt(layoutWidth, layoutHeight, x, y)
    {
      if |blackKeys| == 0 {
        BuildLayout(viewWidth, viewHeight);
      }
      LayoutSeparated(layoutWidth, layoutHeight);
      var blacks := blackKeys.Keys;
      while blacks != {}
        invariant blacks <= blackKeys.Keys
        invariant forall r :: r in blackKeys && r !in blacks ==> !Contains(r, x, y)
        decreases |blacks|
      {
        var r :| r in blacks;
        if Contains(r, x, y) {
          TableHit(BlackRects(layoutWidth, layoutHeight), BlackKeyIndices, r, x, y);
          return blackKeys[r];
        }
        blacks := blacks - {r};
      }
      TableMiss(BlackRects(layoutWidth, layoutHeight), BlackKeyIndices, x, y);
      var whites := whiteKeys.Keys;
      while whites != {}
        invariant whites <= whiteKeys.Keys
        invariant forall r :: r in whiteKeys && r !in whites ==> !Contains(r, x, y)
        decreases |whites|
      {
        var r :| r in whites;
        if Contains(r, x, y) {
          TableHit(WhiteRects(layoutWidth, layoutHeight), WhiteKeyIndices, r, x, y);
          return whiteKeys[r];
        }
        whites := whites - {r};
      }
      TableMiss(WhiteRects(layoutWidth, layoutHeight), WhiteKeyIndices, x, y);
      return -1;
    }

    /** `handleTap`: resolves the key, then reads its name and its sample id
        without checking that the key is one. */
    method HandleTap(x: int, y: int, viewWidth: int, viewHeight: int) returns (outcome: TapOutcome)
      requires Valid()
      modifies this`blackKeys, this`whiteKeys, this`layoutWidth, this`layoutHeight
      ensures Valid() && Built()
      ensures old(Built()) ==> blackKeys == old(blackKeys) && whiteKeys == old(whiteKeys)
                               && layoutWidth == old(layoutWidth) && layoutHeight == old(layoutHeight)
      ensures !old(Built()) ==> layoutWidth == viewWidth && layoutHeight == viewHeight
      ensures outcome == Tap(KeyAt(layoutWidth, layoutHeight, x, y), sounds)
    {
      var key := GetPianoKey(x, y, viewWidth, viewHeight);
      if !(0 <= key < |KeyNames|) {
        return KeyNameFault(key);
      }
      if key >= |sounds| {
        return SoundFault(key);
      }
      return Played(KeyNames[key], sounds[key]);
    }

    /** The load-complete listener: on success, inserts `true` at the
        position of the first sample whose id matches. */
    method OnLoadComplete(sampleId: int, status: int) returns (outcome: LoadOutcome)
      modifies this`soundsBoolean
      ensures (outcome, soundsBoolean) == LoadCompleted(sounds, old(soundsBoolean), sampleId, status)
    {
      outcome := Ignored;
      if status == 0 {
        match SampleSlot(sounds, sampleId)
        case Miss =>
        case LookupFault(i) =>
          outcome := LookupFailed(i);
        case Hit(i) =>
          if i <= |soundsBoolean| {
            soundsBoolean := Insert(soundsBoolean, i, true);
            outcome := Marked(i);
          } else {
            outcome := InsertFailed(i);
          }
      }
    }
  }

  /** The maps `BuildLayout` produces by its twelve puts. */
  lemma TablesUnrolled(width: int, height: int)
    ensures var bs := BlackRects(width, height);
      BlackTable(width, height) == map[][bs[0] := 1][bs[1] := 3][bs[2] := 6][bs[3] := 8][bs[4] := 10]
    ensures var ws := WhiteRects(width, height);
      WhiteTable(width, height)
      == map[][ws[0] := 0][ws[1] := 2][ws[2] := 4][ws[3] := 5][ws[4] := 7][ws[5] := 9][ws[6] := 11]
  {
    var bs, bi := BlackRects(width, height), BlackKeyIndices;
    assert bs == bs[..5] && bi == bi[..5];
    TablePrefix(bs, bi, 0);
    TablePrefix(bs, bi, 1);
    TablePrefix(bs, bi, 2);
    TablePrefix(bs, bi, 3);
    TablePrefix(bs, bi, 4);
    var ws, wi := WhiteRects(width, height), WhiteKeyIndices;
    assert ws == ws[..7] && wi == wi[..7];
    TablePrefix(ws, wi, 0);
    TablePrefix(ws, wi, 1);
    TablePrefix(ws, wi, 2);
    TablePrefix(ws, wi, 3);
    TablePrefix(ws, wi, 4);
    TablePrefix(ws, wi, 5);
    TablePrefix(ws, wi, 6);
  }

  /** A first hit test before the view is measured caches an empty
      layout: `getPianoKey` answers -1 then and for every later point,
      whatever size the view has by then. */
  method StaleUnmeasuredLayout(height: int, x: int, y: int) returns (first: int, later: int)
    ensures first == -1 && later == -1
  {
    var screen := new MainActivity();
    first := screen.GetPianoKey(x, y, 0, height);
    UnmeasuredViewMisses(height, x, y);
    later := screen.GetPianoKey(50, 300, 700, 400);
    UnmeasuredViewMisses(height, 50, 300);
  }

  /** A measured layout answers the same for the same point even after the
      view has changed size. */
  method LayoutSurvivesResize() returns (first: int, later: int)
    ensures first == 0 && later == 0
  {
    var screen := new MainActivity();
    first := screen.GetPianoKey(50, 300, 700, 400);
    Example700By400();
    later := screen.GetPianoKey(50, 300, 0, 0);
  }
}
