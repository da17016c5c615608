/** The bookkeeping around the sound pool: which sample a load-complete
    callback refers to, the positional insert into the list of loaded
    flags, and what a tap does with the key it resolved. The pool itself
    (loading, playing) is not modelled; a sample is known only by the id
    the pool handed out for it. */
module SoundBank {
  import opened KeyLayout

  /** One sample is loaded per chromatic key. */
  const SampleCount: nat := 12

  // ---------------------------------------------------------------------
  // Which sample a callback refers to

  /** The outcome of the listener's chain of twelve comparisons
      `sampleId == sounds.get(i)`. */
  datatype Slot =
    | Hit(index: nat)          // the first i with sounds[i] == sampleId
    | Miss                     // none of the twelve matched
    | LookupFault(index: nat)  // sounds.get(index) read past the end of the list

  /** The comparison chain from comparison `i` on. */
  function SlotFrom(sounds: seq<int>, sampleId: int, i: nat): (s: Slot)
    requires i <= SampleCount
    decreases SampleCount - i
    ensures s.Hit? ==> i <= s.index < SampleCount && s.index < |sounds| && sounds[s.index] == sampleId
    ensures s.Hit? ==> forall j :: i <= j < s.index ==> sounds[j] != sampleId
    ensures s.LookupFault? ==> s.index < SampleCount && s.index == (if i < |sounds| then |sounds| else i)
    ensures s.LookupFault? ==> forall j :: i <= j < s.index ==> sounds[j] != sampleId
    ensures s.Miss? ==> i == SampleCount || SampleCount <= |sounds|
    ensures s.Miss? ==> forall j :: i <= j < SampleCount ==> sounds[j] != sampleId
  {
    if i == SampleCount then Miss
    else if i >= |sounds| then LookupFault(i)
    else if sounds[i] == sampleId then Hit(i)
    else SlotFrom(sounds, sampleId, i + 1)
  }

  /** The whole comparison chain: the first of the twelve positions holding
      the id, a fault at the end of a list shorter than twelve that does not
      hold it, or a miss. */
  function SampleSlot(sounds: seq<int>, sampleId: int): (s: Slot)
    ensures s.Hit? ==> s.index < SampleCount && s.index < |sounds| && sounds[s.index] == sampleId
                       && forall j :: 0 <= j < s.index ==> sounds[j] != sampleId
    ensures s.LookupFault? ==> s.index == |sounds| < SampleCount
                               && forall j :: 0 <= j < |sounds| ==> sounds[j] != sampleId
    ensures s.Miss? ==> SampleCount <= |sounds| && forall j :: 0 <= j < SampleCount ==> sounds[j] != sampleId
  {
    SlotFrom(sounds, sampleId, 0)
  }

  /** With all twelve ids registered the chain never reads past the end,
      and it hits exactly when the id is one of the first twelve. */
  lemma SlotOfFullList(sounds: seq<int>, sampleId: int)
    requires |sounds| >= SampleCount
    ensures !SampleSlot(sounds, sampleId).LookupFault?
    ensures SampleSlot(sounds, sampleId).Hit? <==> sampleId in sounds[..SampleCount]
  {
    var s := SampleSlot(sounds, sampleId);
    if s.Miss? {
      assert forall j :: 0 <= j < SampleCount ==> sounds[..SampleCount][j] == sounds[j];
    }
  }

  // ---------------------------------------------------------------------
  // The list of loaded flags

  /** `ArrayList.add(i, v)`: insert `v` at position `i`, which must be at
      most the length; later elements move one place right. */
  function Insert(s: seq<bool>, i: nat, v: bool): (r: seq<bool>)
    requires i <= |s|
    ensures |r| == |s| + 1 && r[i] == v
    ensures forall j :: 0 <= j < i ==> r[j] == s[j]
    ensures forall j :: i < j < |r| ==> r[j] == s[j - 1]
  {
    s[..i] + [v] + s[i..]
  }

  /** What one load-complete callback did. */
  datatype LoadOutcome =
    | Ignored                   // a failed load, or an id not among the twelve
    | Marked(index: nat)        // `true` was inserted at position index
    | LookupFailed(index: nat)  // sounds.get(index) threw
    | InsertFailed(index: nat)  // soundsBoolean.add(index, true) threw

  /** The load-complete listener, given the registered ids and the flags
      so far: its outcome and the flags afterwards. Status 0 means the
      sample loaded. */
  function LoadCompleted(sounds: seq<int>, loaded: seq<bool>, sampleId: int, status: int): (r: (LoadOutcome, seq<bool>))
    ensures r.0.Marked? <==> status == 0 && SampleSlot(sounds, sampleId).Hit?
                             && SampleSlot(sounds, sampleId).index <= |loaded|
    ensures r.0.Marked? ==> r.0.index == SampleSlot(sounds, sampleId).index
                            && sounds[r.0.index] == sampleId
                            && |r.1| == |loaded| + 1 && r.1[r.0.index]
                            && r.1[..r.0.index] == loaded[..r.0.index]
                            && r.1[r.0.index + 1..] == loaded[r.0.index..]
    ensures !r.0.Marked? ==> r.1 == loaded
    ensures r.0.InsertFailed? <==> status == 0 && SampleSlot(sounds, sampleId).Hit?
                                   && SampleSlot(sounds, sampleId).index > |loaded|
    ensures r.0.Ignored? <==> status != 0 || SampleSlot(sounds, sampleId).Miss?
  {
    if status != 0 then (Ignored, loaded)
    else match SampleSlot(sounds, sampleId)
      case Miss => (Ignored, loaded)
      case LookupFault(i) => (LookupFailed(i), loaded)
      case Hit(i) =>
        if i <= |loaded| then (Marked(i), Insert(loaded, i, true)) else (InsertFailed(i), loaded)
  }

  /** Delivered in load order, each successful callback appends its flag:
      after the first k samples load, the flags are k times `true`. */
  lemma {:induction false} InOrderLoadsAppend(sounds: seq<int>, k: nat)
    requires |sounds| == SampleCount && k < SampleCount
    requires forall i, j :: 0 <= i < j < SampleCount ==> sounds[i] != sounds[j]
    ensures LoadCompleted(sounds, seq(k, _ => true), sounds[k], 0)
            == (Marked(k), seq(k + 1, _ => true))
  {
    SlotHitsFirstMatch(sounds, sounds[k], k);
    var r := LoadCompleted(sounds, seq(k, _ => true), sounds[k], 0);
    assert r.1 == seq(k + 1, _ => true);
  }

  /** The chain hits the first index holding the id. */
  lemma {:induction false} SlotHitsFirstMatch(sounds: seq<int>, sampleId: int, k: nat)
    requires k < SampleCount && k < |sounds| && sounds[k] == sampleId
    requires forall j :: 0 <= j < k ==> sounds[j] != sampleId
    ensures SampleSlot(sounds, sampleId) == Hit(k)
  {
  }

  // ---------------------------------------------------------------------
  // Handling a tap

  /** What a tap does once its key is known. */
  datatype TapOutcome =
    | Played(name: string, soundId: int)  // logged the name, played the sample
    | Silent                              // nothing happens (the checked variant only)
    | KeyNameFault(key: int)              // KEY_NAMES[key] threw
    | SoundFault(key: int)                // sounds.get(key) threw

  /** `handleTap` after `getPianoKey`: it indexes the key names, then the
      sample ids, with no check of the key. */
  function Tap(key: int, sounds: seq<int>): (o: TapOutcome)
    ensures o.Played? <==> 0 <= key < |KeyNames| && key < |sounds|
    ensures o.Played? ==> o.name == KeyNames[key] && o.soundId == sounds[key]
    ensures o.KeyNameFault? <==> !(0 <= key < |KeyNames|)
    ensures !o.Silent?
  {
    if !(0 <= key < |KeyNames|) then KeyNameFault(key)
    else if key >= |sounds| then SoundFault(key)
    else Played(KeyNames[key], sounds[key])
  }

  /** A tap outside the view reaches `KEY_NAMES[-1]`; a tap inside it with
      all twelve samples registered plays the key under it. */
  lemma TapOutcomeByPosition(width: int, height: int, x: int, y: int, sounds: seq<int>)
    requires |sounds| == SampleCount
    ensures var key := KeyAt(width, height, x, y);
      && (Tap(key, sounds) == KeyNameFault(-1) <==> !(0 <= x < width && 0 <= y < height))
      && (0 <= x < width && 0 <= y < height ==> Tap(key, sounds) == Played(KeyNames[key], sounds[key]))
  {
    MissIffOutsideView(width, height, x, y);
    ChromaticPartition();
  }

  /** As written: a tap at the right edge of a 700-pixel view faults. */
  lemma TapAtRightEdgeFaults(sounds: seq<int>)
    requires |sounds| == SampleCount
    ensures Tap(KeyAt(700, 400, 700, 100), sounds) == KeyNameFault(-1)
  {
    TapOutcomeByPosition(700, 400, 700, 100, sounds);
  }

  /** The evidently intended handler: a miss plays nothing, a key plays
      its sample, and for any answer of the hit test with every sample
      registered nothing faults. */
  function CheckedTap(key: int, sounds: seq<int>): (o: TapOutcome)
    ensures o.Silent? <==> key == -1
    ensures o.Played? <==> 0 <= key < |KeyNames| && key < |sounds|
    ensures o.Played? ==> o.name == KeyNames[key] && o.soundId == sounds[key]
    ensures -1 <= key < |KeyNames| <= |sounds| ==> !o.KeyNameFault? && !o.SoundFault?
  {
    if key == -1 then Silent else Tap(key, sounds)
  }

  /** With all twelve samples registered, the checked handler never faults,
      and plays exactly for taps inside the view. */
  lemma CheckedTapNeverFaults(width: int, height: int, x: int, y: int, sounds: seq<int>)
    requires |sounds| == SampleCount
    ensures var o := CheckedTap(KeyAt(width, height, x, y), sounds);
      && !o.KeyNameFault? && !o.SoundFault?
      && (o.Played? <==> 0 <= x < width && 0 <= y < height)
  {
    TapOutcomeByPosition(width, height, x, y, sounds);
  }

  // ---------------------------------------------------------------------
  // Load bookkeeping that does not depend on callback order

  /** As written: if sample 0 fails to load, the callback for sample 1
      inserts at position 1 of an empty list and throws. */
  lemma FailedFirstLoadBreaksInsert(sounds: seq<int>)
    requires |sounds| == SampleCount && sounds[0] != sounds[1]
    ensures LoadCompleted(sounds, [], sounds[0], 1) == (Ignored, [])
    ensures LoadCompleted(sounds, [], sounds[1], 0).0 == InsertFailed(1)
  {
    SlotHitsFirstMatch(sounds, sounds[1], 1);
  }

  /** The evidently intended bookkeeping: one flag per sample, set when
      its load succeeds. */
  function MarkLoaded(sounds: seq<int>, flags: seq<bool>, sampleId: int, status: int): (r: seq<bool>)
    requires |flags| == SampleCount
    ensures |r| == SampleCount
    ensures forall j :: 0 <= j < SampleCount ==>
              r[j] == (flags[j] || (status == 0 && SampleSlot(sounds, sampleId) == Hit(j)))
  {
    if status == 0 && SampleSlot(sounds, sampleId).Hit? then flags[SampleSlot(sounds, sampleId).index := true]
    else flags
  }

  /** Callbacks marked this way may arrive in any order. */
  lemma MarkLoadedCommutes(sounds: seq<int>, flags: seq<bool>, a: int, sa: int, b: int, sb: int)
    requires |flags| == SampleCount
    ensures MarkLoaded(sounds, MarkLoaded(sounds, flags, a, sa), b, sb)
            == MarkLoaded(sounds, MarkLoaded(sounds, flags, b, sb), a, sa)
  {
    var l := MarkLoaded(sounds, MarkLoaded(sounds, flags, a, sa), b, sb);
    var r := MarkLoaded(sounds, MarkLoaded(sounds, flags, b, sb), a, sa);
    assert forall j :: 0 <= j < SampleCount ==> l[j] == r[j];
  }
}
