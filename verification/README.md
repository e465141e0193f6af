# FPLDraft draft bookkeeping in Dafny

A model of the pure bookkeeping inside the FPLDraft dashboard
(`dashboard_public.py`), with proofs of its properties:

- **Draft order** (`DraftOrder`, `draft_order.dfy`). `prepare_draft_order`
  builds the `(round, slotInRound, participant)` triples of a modified snake
  draft. Round 1 runs forward and round 2 reversed. From round 3 on the direction
  alternates, starting reversed. The generator is modelled as written, with its
  direction toggle. It is proved equal to a closed-form reference, `SnakeRounds`
  over `RoundOrder`, built from `RoundCount(rounds) = max(2, rounds)` rounds.
- **Pick-state initialisation** (`PickState`, `pick_state.dfy`). This is the
  pure part of `init_session_state`. The saved picks are restricted to the keys
  of the order. The next-pick index is one past the last filled slot. The
  drafted-id list holds the non-`None` values of the pick map.
- **Persisted-pick codec** (`KeyCodec`, `key_codec.dfy`; `Persistence`,
  `persistence.dfy`). The key/value conversion loops of `save_draft_picks` and
  `load_draft_picks`. A key `(r, p)` is written `"r_p"`. On load it is split on
  `'_'` and every part is converted with `int`. A key that fails to convert is
  skipped.

Python dicts are modelled by `PyDict` (`py_dict.dfy`) as insertion-ordered
lists of entries with distinct keys. `d[k] = v` updates a present key in place
and appends a new one. This order is what "in map order" means for the
drafted-id list, and it makes the save/load round trip an exact equation.
Both conversion loops have the shape `out[f(k)] = v`, skipping keys that `f`
rejects. This shape is the generic `PyDict.Rekey`.

Behaviour of the code that the model keeps:
- Rounds 1 and 2 are always emitted, so fewer than two rounds still yield
  `2 * N` slots (`RoundCount`).
- The drafted ids form a list that keeps duplicates: nothing stops one player
  from being recorded under two keys, and such a player is then listed twice.
- The loader turns a key into an integer tuple of any length. For example,
  `"1_2_3"` loads as `(1, 2, 3)`. Initialisation then never looks that key up.
  The model keeps such keys, as `seq<int>`.
- Participants are integer ids, as in the dashboard's participant list
  (`dashboard_public.py:171`). A participant id is written in decimal inside a
  saved key, and read back with `int`.

## Model

| member | source | states |
|---|---|---|
| DraftOrder.Reverse | dashboard_public.py:148 | `participants[::-1]` has the same length, and position `i` holds element `N-1-i` |
| DraftOrder.ReversePermutes | dashboard_public.py:148 | reversing keeps every participant with its multiplicity |
| DraftOrder.NumberRound | dashboard_public.py:147 | one round of the order, its slots numbered from 1 over the given participant order; what it yields is stated by `DraftOrderSlot` and `DraftOrderRound` |
| DraftOrder.LaterRounds | dashboard_public.py:149-155 | the loop over rounds 3 onwards with its direction flag; `LaterRoundsFollowSnake` states what it appends |
| DraftOrder.LaterRoundsFollowSnake | dashboard_public.py:149-155 | entering round `r >= 3` with rounds `1..r-1` already in closed form and the flag at 1 on odd rounds and -1 on even ones, the loop ends with the closed-form rounds up to `max(r - 1, rounds)` |
| DraftOrder.PrepareDraftOrder | dashboard_public.py:145-156 | the draft order; its contract is stated by `PrepareIsSnake`, `DraftOrderLength`, `DraftOrderSlot`, `DraftOrderStep`, `DraftOrderRound` and `DraftOrderDirections` |
| DraftOrder.PrepareIsSnake | dashboard_public.py:145-156 | the direction-toggling loop yields exactly the closed-form order: rounds `1..max(2, rounds)`, round `r` numbered over `RoundOrder(ps, r)` |
| DraftOrder.DraftOrderLength | dashboard_public.py:145-156 | `rounds * N` triples when `rounds >= 2`, and still `2 * N` when `rounds < 2`, because rounds 1 and 2 are unconditional |
| DraftOrder.DraftOrderSlot | dashboard_public.py:147-155 | triple `k` is `(k / N + 1, k % N + 1, RoundOrder(ps, k / N + 1)[k % N])` |
| DraftOrder.DraftOrderStep | dashboard_public.py:147-154 | consecutive triples either keep the round with the next slot number, or go from slot `N` to slot 1 of the next round |
| DraftOrder.DraftOrderStart | dashboard_public.py:147 | the order opens with round 1, slot 1, the first participant |
| DraftOrder.RoundsAscending | dashboard_public.py:147-155 | triples are grouped by round, in ascending round order |
| DraftOrder.DraftOrderRound | dashboard_public.py:147-154 | each emitted round has `N` slots numbered 1..N over its participant order, which holds every participant exactly as often as the input; other rounds are empty |
| DraftOrder.DraftOrderDirections | dashboard_public.py:147-155 | round 1 is forward and round 2 reversed; from round 3 on, odd rounds are reversed and even rounds forward; so round 3 equals round 2 and round 4 equals round 1 |
| KeyCodec.NatToString | dashboard_public.py:45 | a non-negative integer in decimal, in canonical form: ASCII digits only, no leading zero except for `"0"` itself, which is the only text starting with `'0'` |
| KeyCodec.IntToString | dashboard_public.py:45 | writing an integer in decimal; `IntRoundTrip` states that reading it back gives the integer |
| KeyCodec.ParseInt | dashboard_public.py:110 | reading an integer from text; `IntRoundTrip` states it inverts `IntToString` (the accepted syntax is narrower than Python's, see "Left out") |
| KeyCodec.IntRoundTrip | dashboard_public.py:110 | `int(str(i)) == i` for every integer |
| KeyCodec.Split | dashboard_public.py:110 | splitting at a separator gives at least one part, and no part contains the separator |
| KeyCodec.SplitJoin | dashboard_public.py:110 | joining the parts of `s.split(sep)` with `sep` gives back `s` |
| KeyCodec.JoinSplit | dashboard_public.py:110 | splitting a join of separator-free parts gives back those parts |
| KeyCodec.ParseAll | dashboard_public.py:110 | `tuple(map(int, parts))` succeeds exactly when every part converts, and then holds each part's value in order |
| KeyCodec.EncodeKey | dashboard_public.py:45 | a pick key as `"r_p"`; `KeyRoundTrip` and `EncodeKeyInjective` state its contract |
| KeyCodec.ParseKey | dashboard_public.py:110 | a stored key read back as a tuple, or `None` where the conversion raises; `KeyRoundTrip`, `EmptyPartRejected` and `ThreePartKeyParses` state its contract |
| KeyCodec.KeyRoundTrip | dashboard_public.py:110 | the key written as `"r_p"` loads back as the pair `(r, p)` |
| KeyCodec.EncodeKeyInjective | dashboard_public.py:45 | two pick keys encode to the same string exactly when they are equal |
| KeyCodec.ExampleKey | dashboard_public.py:45 | round 3, participant 2 encodes as `"3_2"` and loads back as `(3, 2)` |
| KeyCodec.EmptyPartRejected | dashboard_public.py:109-112 | a key with an empty part (`"1__2"`) fails to convert |
| KeyCodec.ThreePartKeyParses | dashboard_public.py:110 | a key with three parts converts to a triple, not a failure |
| PyDict.Get | dashboard_public.py:161 | the lookup "`d[k]` if `k in d`": `None` exactly when `k` is not a key, otherwise `Some` of the value stored under `k` (which may itself be `None`) |
| PyDict.GetOr | dashboard_public.py:161 | `d.get(k, default)`: the default when `k` is not a key, otherwise the value stored under `k` |
| PyDict.GetMember | dashboard_public.py:161 | the lookup "`d[k]` if `k in d`" gives `Some(v)` exactly when `(k, v)` is an entry |
| PyDict.Put | dashboard_public.py:113 | `d[k] = v` adds `k` to the key set and stores `(k, v)`; a new key is appended at the end; for a present key, only the entry at that key's position changes, so it keeps its place and every other entry stays put |
| PyDict.PutGet | dashboard_public.py:113 | after `d[k] = v`, `k` reads `v` and every other key reads as before |
| PyDict.Rekey | dashboard_public.py:107-114 | the conversion loop shared by saving (lines 43-49) and loading: each entry in order is assigned under its converted key, unconvertible keys are skipped; `RekeyKeys`, `RekeyLastWins` and `RekeyInjective` state its contract |
| PyDict.RekeyKeys | dashboard_public.py:107-114 | the converted keys are exactly the images of the keys that convert |
| PyDict.RekeyLastWins | dashboard_public.py:107-114 | a converted key holds the value of the last entry converting to it |
| PyDict.RekeyInjective | dashboard_public.py:43-49 | a conversion that accepts every key and never merges two keys keeps every entry in place |
| Persistence.EncodePicks | dashboard_public.py:43-49 | the save loop; `EncodePicksEntries` states its contract |
| Persistence.DecodePicks | dashboard_public.py:107-114 | the load loop; `DecodePicksKeys`, `DecodePicksValues` and `DecodeEncode` state its contract |
| Persistence.EncodePicksEntries | dashboard_public.py:43-49 | saving keeps every entry in order, with key `"r_p"` and the value unchanged (`None` stays `None`, an integer stays that integer) |
| Persistence.DecodePicksKeys | dashboard_public.py:107-114 | loading never fails on a bad key: the loaded keys are exactly the tuples that some stored key converts to |
| Persistence.DecodePicksValues | dashboard_public.py:107-114 | each loaded tuple holds the value of the last stored key converting to it |
| Persistence.DecodeEncode | dashboard_public.py:107-114 | loading what was saved gives the same entries, in the same order, with each key as the pair `(r, p)` |
| Persistence.SaveLoadRoundTrip | dashboard_public.py:107-114 | after a save and a load, `(r, p)` reads back exactly what the pick map held under it |
| PickState.InitPicks | dashboard_public.py:161 | the initial pick map; `InitPicksKeys` and `InitPicksValues` state its contract |
| PickState.InitPicksInOrder | dashboard_public.py:161 | when no two slots of the order share a `(round, participant)` key, entry `i` of the initial pick map is slot `i`'s key with its saved pick, so map order is draft order |
| PickState.InitPicksKeys | dashboard_public.py:161 | the initial pick map's keys are exactly the `(round, participant)` pairs of the order; saved keys outside the order are dropped |
| PickState.InitPicksValues | dashboard_public.py:161 | each pair in the order holds `saved.get((r, p), None)` |
| PickState.FilledIndices | dashboard_public.py:163 | the filled indices are exactly the positions of the order whose key holds a non-`None` pick |
| PickState.MaxOf | dashboard_public.py:164 | `max` returns an element of the list that no element exceeds |
| PickState.CurrentPickIndex | dashboard_public.py:163-164 | the index lies in `0..len(order)`; no slot from it on is filled; the slot just before it is filled when the index is positive (gaps below are allowed) |
| PickState.NextPickAfterFilledPrefix | dashboard_public.py:163-164 | when slots `0..m-1` are filled and the rest are empty, the next pick is `m` |
| PickState.DraftedIds | dashboard_public.py:178 | the drafted ids are exactly the values some entry holds as a non-`None` pick, and there are at most as many ids as entries |
| PickState.PickedPositions | dashboard_public.py:178 | the positions of the entries holding an id, strictly ascending, each a valid position, and listing exactly the filled entries |
| PickState.DraftedIdsCount | dashboard_public.py:178 | there are exactly as many drafted ids as entries holding an id |
| PickState.DraftedIdsInMapOrder | dashboard_public.py:178 | the drafted ids are the held ids in map order, one per filled entry: the `j`-th id is the value of the `j`-th filled entry, so repeats are kept and nothing is reordered |
| PickState.DraftedIdsAreFilledValues | dashboard_public.py:178 | an id is listed exactly when some pick key holds it |
| PickState.DraftedIdsKeepDuplicates | dashboard_public.py:178 | two keys holding one player list that player twice, in map order |
| PickState.InitSession | dashboard_public.py:158-164 | the initial pick map with its next-pick index; `CurrentPickIndex` and `ReloadKeepsSession` state its contract |
| PickState.InitPicksCongruent | dashboard_public.py:161 | two loaded objects that agree on every slot of the order build the same initial pick map |
| PickState.ReloadKeepsSession | dashboard_public.py:158-164 | saving the initial picks and initialising from the loaded result rebuilds the same pick map, in the same order, with the same next-pick index |

## Left out

- GitHub HTTP calls are not modelled: `get_file_sha`, the PUT in `save_draft_picks`, the GET in `load_draft_picks`, and the team-map request. They are network I/O against external services. The JSON object is instead the parameter of `DecodePicks`, and `InitSession` takes the loader's result (what `load_draft_picks()` returns at line 159).
- JSON text, UTF-8 and base64 encoding and decoding are not modelled. They are library calls. The model works on the decoded key/value object, in document order.
- The local-file fallback and the exception handling of `load_draft_picks` (lines 75-105) are not modelled. They are file I/O and error plumbing. Whether the JSON object comes from the remote store or the local file, it goes through the same conversion loop; the model takes that object as the parameter of `DecodePicks`, and "no file" is the empty object.
- The Streamlit "only if not already set" guards on `st.session_state` are not modelled. Initialisation is a pure function of the order and the loaded picks.
- CSV loading, filters, the top-10 chart, `highlight_row` and column reordering are not modelled. They are display code over pandas, Altair and Streamlit.
- Recording, undoing or de-duplicating picks is not modelled, because the code has no such operation.
- JSON values other than `null` and integers are not modelled. `int(v)` would truncate a float, or raise on a non-numeric string outside the `try`. The stored format holds only `null` and integers.
- KeyCodec.ParseInt: models `int` on an optional sign followed by ASCII digits. Python's `int` also strips surrounding whitespace and accepts other Unicode decimal digits; such keys are treated as unconvertible here.
