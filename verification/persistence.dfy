/**
  The key/value conversion around the persisted picks file. Saving turns every
  `(round, participant)` key into its `"round_participant"` string and keeps each
  value (`null` or an integer player id); loading turns every string key back into
  an integer tuple and silently skips keys that do not convert. Transport (the
  remote store, base64, JSON text) is not part of this module.
 */
module Persistence {

  import opened Wrappers
  import opened PyDict
  import opened KeyCodec

  /** The in-session pick map: `(round, participant)` to a player id or `None`. */
  type PickMap = Dict<PickKey, Option<int>>

  /** The JSON object as stored: string keys to `null` or an integer. */
  type JsonPicks = Dict<string, Option<int>>

  /** The loaded picks: integer tuples (of any length) to a player id or `None`. */
  type SavedPicks = Dict<seq<int>, Option<int>>

  /** Key encoding seen as a conversion that accepts every key. */
  function EncodeEntryKey(k: PickKey): Option<string> {
    Some(EncodeKey(k))
  }

  /**
    The conversion loop of `save_draft_picks`: every entry, in order, is stored
    under its encoded key with its value unchanged (a present integer is passed
    through the integer conversion, which leaves an integer as it is).
   */
  function EncodePicks(picks: PickMap): JsonPicks {
    Rekey(picks, EncodeEntryKey)
  }

  /**
    The conversion loop of `load_draft_picks`: every entry, in order, is stored
    under its key read back as an integer tuple; an entry whose key does not
    convert is skipped.
   */
  function DecodePicks(json: JsonPicks): SavedPicks {
    Rekey(json, ParseKey)
  }

  /**
    Saving keeps every entry, in the same order, with its key encoded and its
    value unchanged: distinct pick keys never collide once encoded.
   */
  lemma EncodePicksEntries(picks: PickMap)
    ensures |EncodePicks(picks)| == |picks|
    ensures forall i :: 0 <= i < |picks| ==>
      EncodePicks(picks)[i] == Entry(EncodeKey(picks[i].key), picks[i].value)
  {
    forall i, j | 0 <= i < j < |picks|
      ensures EncodeEntryKey(picks[i].key) != EncodeEntryKey(picks[j].key)
    {
      EncodeKeyInjective(picks[i].key, picks[j].key);
    }
    RekeyInjective(picks, EncodeEntryKey);
  }

  /**
    Loading never fails on a bad key: the loaded keys are exactly the tuples that
    some stored key converts to, so unconvertible keys are dropped and the rest kept.
   */
  lemma DecodePicksKeys(json: JsonPicks, t: seq<int>)
    ensures t in Keys(DecodePicks(json)) <==> exists i :: 0 <= i < |json| && ParseKey(json[i].key) == Some(t)
  {
    RekeyKeys(json, ParseKey, t);
  }

  /** Each loaded tuple holds the value of the last stored key that converts to it. */
  lemma DecodePicksValues(json: JsonPicks, i: int)
    requires 0 <= i < |json| && ParseKey(json[i].key).Some?
    requires forall j :: i < j < |json| ==> ParseKey(json[j].key) != ParseKey(json[i].key)
    ensures Get(DecodePicks(json), ParseKey(json[i].key).value) == Some(json[i].value)
  {
    RekeyLastWins(json, ParseKey, i);
  }

  /** The pick map's entries with each key written as the integer pair the loader produces. */
  function AsTuples(picks: PickMap): seq<Entry<seq<int>, Option<int>>> {
    seq(|picks|, i requires 0 <= i < |picks| => Entry(KeyTuple(picks[i].key), picks[i].value))
  }

  /**
    Saving then loading a pick map yields the same entries in the same order,
    each key turned into its integer pair.
   */
  lemma DecodeEncode(picks: PickMap)
    ensures DecodePicks(EncodePicks(picks)) == AsTuples(picks)
  {
    var json := EncodePicks(picks);
    EncodePicksEntries(picks);
    forall i | 0 <= i < |json| ensures ParseKey(json[i].key) == Some(KeyTuple(picks[i].key)) {
      KeyRoundTrip(picks[i].key);
    }
    RekeyInjective(json, ParseKey);
  }

  /** After a save and a load, every pair key reads back what the pick map held. */
  lemma SaveLoadRoundTrip(picks: PickMap, k: PickKey)
    ensures Get(DecodePicks(EncodePicks(picks)), KeyTuple(k)) == Get(picks, k)
  {
    DecodeEncode(picks);
    TuplesGet(picks, DecodePicks(EncodePicks(picks)), k);
  }

  lemma TuplesGet(picks: PickMap, back: SavedPicks, k: PickKey)
    requires back == AsTuples(picks)
    ensures Get(back, KeyTuple(k)) == Get(picks, k)
  {
  }

}
