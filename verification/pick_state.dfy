/**
  The pick state derived at start-up: the pick map restricted to the slots of
  the draft order, the index of the next pick, and the list of drafted player
  ids shown by the dashboard.
 */
module PickState {

  import opened Wrappers
  import opened PyDict
  import opened KeyCodec
  import opened DraftOrder
  import opened Persistence

  /** The pick-map key of a slot: its round and participant, without the slot number. */
  function SlotKey(s: Slot): PickKey {
    PickKey(s.round, s.participant)
  }

  /** The saved pick for a key, or `None` when nothing was saved under it. */
  function SavedValue(saved: SavedPicks, k: PickKey): Option<int> {
    GetOr(saved, KeyTuple(k), None)
  }

  /** The initial pick map: one key per slot of the order, in order, holding the saved pick for it. */
  function InitPicks(order: seq<Slot>, saved: SavedPicks): PickMap
    decreases |order|
  {
    if |order| == 0 then []
    else
      var n := |order| - 1;
      var k := SlotKey(order[n]);
      Put(InitPicks(order[..n], saved), k, SavedValue(saved, k))
  }

  /**
    The initial pick map has exactly one key per `(round, participant)` pair of
    the order; saved keys outside the order are dropped.
   */
  lemma {:induction false} InitPicksKeys(order: seq<Slot>, saved: SavedPicks, k: PickKey)
    ensures k in Keys(InitPicks(order, saved)) <==> exists i :: 0 <= i < |order| && SlotKey(order[i]) == k
    decreases |order|
  {
    if |order| > 0 {
      var n := |order| - 1;
      var front := order[..n];
      var prev := InitPicks(front, saved);
      var kn := SlotKey(order[n]);
      assert Keys(InitPicks(order, saved)) == Keys(prev) + {kn};
      InitPicksKeys(front, saved, k);
      assert forall i :: 0 <= i < n ==> front[i] == order[i];
    }
  }

  /** Every slot's key holds the saved value for it, or `None` when nothing was saved. */
  lemma {:induction false} InitPicksValues(order: seq<Slot>, saved: SavedPicks, i: int)
    requires 0 <= i < |order|
    ensures Get(InitPicks(order, saved), SlotKey(order[i])) == Some(SavedValue(saved, SlotKey(order[i])))
    decreases |order|
  {
    var n := |order| - 1;
    var front := order[..n];
    var prev := InitPicks(front, saved);
    var k := SlotKey(order[n]);
    var v := SavedValue(saved, k);
    var ki := SlotKey(order[i]);
    assert InitPicks(order, saved) == Put(prev, k, v);
    if ki == k {
      PutGet(prev, k, v, ki);
    } else {
      assert i < n && front[i] == order[i];
      InitPicksValues(front, saved, i);
      PutGet(prev, k, v, ki);
    }
  }

  /**
    When no two slots of the order share a key, the initial pick map lists the
    slots in draft order: entry `i` is slot `i`'s key with its saved pick.
   */
  lemma {:induction false} InitPicksInOrder(order: seq<Slot>, saved: SavedPicks)
    requires forall i, j :: 0 <= i < j < |order| ==> SlotKey(order[i]) != SlotKey(order[j])
    ensures |InitPicks(order, saved)| == |order|
    ensures forall i :: 0 <= i < |order| ==>
      InitPicks(order, saved)[i] == Entry(SlotKey(order[i]), SavedValue(saved, SlotKey(order[i])))
    decreases |order|
  {
    if |order| > 0 {
      var n := |order| - 1;
      var front := order[..n];
      InitPicksInOrder(front, saved);
      InitPicksAppendsFresh(order, saved);
    }
  }

  /** One step of `InitPicksInOrder`: the last slot's key is new, so its entry is appended. */
  lemma InitPicksAppendsFresh(order: seq<Slot>, saved: SavedPicks)
    requires |order| > 0
    requires forall i, j :: 0 <= i < j < |order| ==> SlotKey(order[i]) != SlotKey(order[j])
    requires var front := order[..|order| - 1];
      && |InitPicks(front, saved)| == |front|
      && forall i :: 0 <= i < |front| ==>
           InitPicks(front, saved)[i] == Entry(SlotKey(front[i]), SavedValue(saved, SlotKey(front[i])))
    ensures |InitPicks(order, saved)| == |order|
    ensures forall i :: 0 <= i < |order| ==>
      InitPicks(order, saved)[i] == Entry(SlotKey(order[i]), SavedValue(saved, SlotKey(order[i])))
  {
    var n := |order| - 1;
    var front := order[..n];
    var prev := InitPicks(front, saved);
    var k := SlotKey(order[n]);
    assert k !in Keys(prev) by {
      forall i | 0 <= i < n ensures prev[i].key != k {
        assert front[i] == order[i];
      }
    }
    var r := InitPicks(order, saved);
    assert r == prev + [Entry(k, SavedValue(saved, k))];
    forall i | 0 <= i < |order|
      ensures r[i] == Entry(SlotKey(order[i]), SavedValue(saved, SlotKey(order[i])))
    {
      if i < n {
        assert r[i] == prev[i];
        assert front[i] == order[i];
      }
    }
  }

  /** A slot is filled when its key holds a player id. */
  predicate IsFilled(picks: PickMap, s: Slot) {
    GetOr(picks, SlotKey(s), None).Some?
  }

  /** The positions of the filled slots of the order, ascending. */
  function FilledIndices(order: seq<Slot>, picks: PickMap): (filled: seq<int>)
    ensures forall i :: i in filled <==> 0 <= i < |order| && IsFilled(picks, order[i])
    decreases |order|
  {
    if |order| == 0 then []
    else
      var n := |order| - 1;
      var prev := FilledIndices(order[..n], picks);
      assert forall i :: 0 <= i < n ==> order[..n][i] == order[i];
      prev + (if IsFilled(picks, order[n]) then [n] else [])
  }

  /** The largest element of a non-empty list. */
  function MaxOf(s: seq<int>): (m: int)
    requires |s| > 0
    ensures m in s
    ensures forall x :: x in s ==> x <= m
  {
    if |s| == 1 then s[0]
    else
      var m := MaxOf(s[1..]);
      assert s == [s[0]] + s[1..];
      if s[0] >= m then s[0] else m
  }

  /**
    The next pick: one past the last filled slot, or 0 when none is filled. No
    slot from it on is filled, while gaps below it may remain.
   */
  function CurrentPickIndex(order: seq<Slot>, picks: PickMap): (idx: int)
    ensures 0 <= idx <= |order|
    ensures forall i :: idx <= i < |order| ==> !IsFilled(picks, order[i])
    ensures idx > 0 ==> IsFilled(picks, order[idx - 1])
  {
    var filled := FilledIndices(order, picks);
    if |filled| > 0 then MaxOf(filled) + 1 else 0
  }

  /** If the first `m` slots are filled and the rest are not, the next pick is slot `m`. */
  lemma NextPickAfterFilledPrefix(order: seq<Slot>, picks: PickMap, m: int)
    requires 0 <= m <= |order|
    requires forall i :: 0 <= i < m ==> IsFilled(picks, order[i])
    requires forall i :: m <= i < |order| ==> !IsFilled(picks, order[i])
    ensures CurrentPickIndex(order, picks) == m
  {
    var idx := CurrentPickIndex(order, picks);
    assert 0 < m ==> IsFilled(picks, order[m - 1]);
    assert 0 < idx ==> IsFilled(picks, order[idx - 1]);
  }

  /** The session state built by `init_session_state`. */
  datatype Session = Session(picks: PickMap, currentPickIndex: int)

  function InitSession(order: seq<Slot>, saved: SavedPicks): Session {
    var picks := InitPicks(order, saved);
    Session(picks, CurrentPickIndex(order, picks))
  }

  /** The player ids held by the pick map, in map order, skipping unfilled keys and keeping repeats. */
  function DraftedIds(picks: seq<Entry<PickKey, Option<int>>>): (ids: seq<int>)
    ensures |ids| <= |picks|
    ensures forall x :: x in ids <==> exists i :: 0 <= i < |picks| && picks[i].value == Some(x)
    decreases |picks|
  {
    if |picks| == 0 then []
    else
      var n := |picks| - 1;
      var prev := DraftedIds(picks[..n]);
      assert forall i :: 0 <= i < n ==> picks[..n][i] == picks[i];
      prev + (match picks[n].value
              case Some(pid) => [pid]
              case None => [])
  }

  /** The positions of the entries that hold a player id, strictly ascending. */
  function PickedPositions(picks: seq<Entry<PickKey, Option<int>>>): (pos: seq<int>)
    ensures forall j :: 0 <= j < |pos| ==> 0 <= pos[j] < |picks|
    ensures forall a, b :: 0 <= a < b < |pos| ==> pos[a] < pos[b]
    ensures forall i :: i in pos <==> 0 <= i < |picks| && picks[i].value.Some?
    decreases |picks|
  {
    if |picks| == 0 then []
    else
      var n := |picks| - 1;
      var front := picks[..n];
      var prev := PickedPositions(front);
      var pos := prev + (if picks[n].value.Some? then [n] else []);
      assert forall j :: 0 <= j < |pos| ==> pos[j] == if j < |prev| then prev[j] else n;
      assert forall i :: i in pos <==> i in prev || (i == n && picks[n].value.Some?);
      assert forall i :: 0 <= i < n ==> front[i] == picks[i];
      pos
  }

  /** Both lists grow by one item exactly when the last entry holds an id. */
  lemma DraftedIdsSnoc(picks: seq<Entry<PickKey, Option<int>>>)
    requires |picks| > 0
    ensures var n := |picks| - 1;
      && DraftedIds(picks) == DraftedIds(picks[..n]) + (if picks[n].value.Some? then [picks[n].value.value] else [])
      && PickedPositions(picks) == PickedPositions(picks[..n]) + (if picks[n].value.Some? then [n] else [])
  {
  }

  /** One drafted id per filled entry. */
  lemma {:induction false} DraftedIdsCount(picks: seq<Entry<PickKey, Option<int>>>)
    ensures |DraftedIds(picks)| == |PickedPositions(picks)|
    decreases |picks|
  {
    if |picks| > 0 {
      DraftedIdsCount(picks[..|picks| - 1]);
      DraftedIdsSnoc(picks);
    }
  }

  /** The `j`-th drafted id is the value of the `j`-th filled entry. */
  lemma {:induction false} DraftedIdAt(picks: seq<Entry<PickKey, Option<int>>>, j: int)
    requires 0 <= j < |PickedPositions(picks)|
    ensures j < |DraftedIds(picks)| && picks[PickedPositions(picks)[j]].value == Some(DraftedIds(picks)[j])
    decreases |picks|
  {
    var n := |picks| - 1;
    var front := picks[..n];
    DraftedIdsCount(picks);
    DraftedIdsCount(front);
    DraftedIdsSnoc(picks);
    var pos, ids := PickedPositions(picks), DraftedIds(picks);
    var pos', ids' := PickedPositions(front), DraftedIds(front);
    if j < |pos'| {
      DraftedIdAt(front, j);
      var p := pos'[j];
      assert pos[j] == p && ids[j] == ids'[j];
      assert front[p] == picks[p];
    }
  }

  /**
    The drafted ids are the held ids read in map order, one per filled entry: the
    `j`-th id is the value of the `j`-th filled entry, so repeats are kept and
    nothing is reordered.
   */
  lemma DraftedIdsInMapOrder(picks: seq<Entry<PickKey, Option<int>>>)
    ensures |DraftedIds(picks)| == |PickedPositions(picks)|
    ensures forall j :: 0 <= j < |PickedPositions(picks)| ==>
      picks[PickedPositions(picks)[j]].value == Some(DraftedIds(picks)[j])
  {
    DraftedIdsCount(picks);
    forall j | 0 <= j < |PickedPositions(picks)|
      ensures picks[PickedPositions(picks)[j]].value == Some(DraftedIds(picks)[j])
    {
      DraftedIdAt(picks, j);
    }
  }

  /** A player id is listed as drafted exactly when some pick key holds it. */
  lemma DraftedIdsAreFilledValues(picks: PickMap, x: int)
    ensures x in DraftedIds(picks) <==> exists k :: Get(picks, k) == Some(Some(x))
  {
    if x in DraftedIds(picks) {
      var i :| 0 <= i < |picks| && picks[i].value == Some(x);
      GetMember(picks, picks[i].key, Some(x));
    }
    if exists k :: Get(picks, k) == Some(Some(x)) {
      var k :| Get(picks, k) == Some(Some(x));
      GetMember(picks, k, Some(x));
    }
  }

  /** No uniqueness guard: two keys holding one player list that player twice, in map order. */
  lemma DraftedIdsKeepDuplicates()
    ensures DraftedIds([Entry(PickKey(1, 1), Some(7)), Entry(PickKey(1, 2), None), Entry(PickKey(1, 3), Some(7))]) == [7, 7]
  {
  }

  lemma {:induction false} InitPicksCongruent(order: seq<Slot>, s1: SavedPicks, s2: SavedPicks)
    requires forall i :: 0 <= i < |order| ==> SavedValue(s1, SlotKey(order[i])) == SavedValue(s2, SlotKey(order[i]))
    ensures InitPicks(order, s1) == InitPicks(order, s2)
    decreases |order|
  {
    if |order| > 0 {
      var n := |order| - 1;
      assert forall i :: 0 <= i < n ==> order[..n][i] == order[i];
      InitPicksCongruent(order[..n], s1, s2);
    }
  }

  /**
    Saving the initial pick map and initialising again from what was saved
    rebuilds the same session: the same pick map, in the same order, and the
    same next-pick index.
   */
  lemma ReloadKeepsSession(order: seq<Slot>, saved: SavedPicks, picks: PickMap, reloaded: SavedPicks)
    requires picks == InitPicks(order, saved)
    requires reloaded == DecodePicks(EncodePicks(picks))
    ensures InitSession(order, reloaded) == InitSession(order, saved)
  {
    forall i | 0 <= i < |order|
      ensures SavedValue(reloaded, SlotKey(order[i])) == SavedValue(saved, SlotKey(order[i]))
    {
      var k := SlotKey(order[i]);
      SaveLoadRoundTrip(picks, k);
      InitPicksValues(order, saved, i);
    }
    InitPicksCongruent(order, reloaded, saved);
  }

}
