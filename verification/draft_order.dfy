/**
  The draft-order generator: the sequence of `(round, slotInRound, participant)`
  triples of a modified snake draft. Round 1 runs forward, round 2 reversed, and
  from round 3 on the direction alternates starting reversed, so rounds 2 and 3
  share one order. Rounds 1 and 2 are always emitted, whatever the round count.
 */
module DraftOrder {

  /** One pick of the draft: round, 1-based slot within the round, participant. */
  datatype Slot = Slot(round: int, slotInRound: int, participant: int)

  /** The sequence read back to front. */
  function Reverse<T>(s: seq<T>): (r: seq<T>)
    ensures |r| == |s|
    ensures forall i :: 0 <= i < |s| ==> r[i] == s[|s| - 1 - i]
  {
    if |s| == 0 then [] else Reverse(s[1..]) + [s[0]]
  }

  lemma {:induction false} ReversePermutes<T>(s: seq<T>)
    ensures multiset(Reverse(s)) == multiset(s)
  {
    if |s| > 0 {
      ReversePermutes(s[1..]);
      assert s == [s[0]] + s[1..];
    }
  }

  /** Round `r` over the participants in the given order, with slots numbered from 1. */
  function NumberRound(r: int, ps: seq<int>): seq<Slot> {
    seq(|ps|, i requires 0 <= i < |ps| => Slot(r, i + 1, ps[i]))
  }

  /**
    The loop over rounds 3 onwards: appends rounds `r..rounds` to `order`,
    reversing the participants whenever the direction flag is 1 and flipping the
    flag after every round.
   */
  function LaterRounds(ps: seq<int>, order: seq<Slot>, r: int, rounds: int, direction: int): seq<Slot>
    decreases rounds - r
  {
    if r > rounds then order
    else
      var next := if direction == 1 then NumberRound(r, Reverse(ps)) else NumberRound(r, ps);
      LaterRounds(ps, order + next, r + 1, rounds, -direction)
  }

  /** The draft order: round 1 forward, round 2 reversed, then the alternating loop from round 3. */
  function PrepareDraftOrder(ps: seq<int>, rounds: int): seq<Slot> {
    var firstTwo := NumberRound(1, ps) + NumberRound(2, Reverse(ps));
    LaterRounds(ps, firstTwo, 3, rounds, 1)
  }

  // ---------------------------------------------------------------------------
  // Reference definition: the order written round by round in closed form.

  /** The participant order of round `r`: reversed in round 2 and in every odd round from 3 on. */
  function RoundOrder(ps: seq<int>, r: int): seq<int> {
    if r == 2 || (r >= 3 && r % 2 == 1) then Reverse(ps) else ps
  }

  /** The number of rounds actually emitted: rounds 1 and 2 are unconditional. */
  function RoundCount(rounds: int): nat {
    if rounds < 2 then 2 else rounds
  }

  /** Rounds `1..n`, each numbered in its closed-form participant order. */
  function SnakeRounds(ps: seq<int>, n: nat): seq<Slot> {
    if n == 0 then [] else SnakeRounds(ps, n - 1) + NumberRound(n, RoundOrder(ps, n))
  }

  /** The participants of a sequence of slots, in order. */
  function Participants(slots: seq<Slot>): (r: seq<int>)
    ensures |r| == |slots|
    ensures forall i :: 0 <= i < |slots| ==> r[i] == slots[i].participant
  {
    seq(|slots|, i requires 0 <= i < |slots| => slots[i].participant)
  }

  /** The slots of round `r`, in the order they appear. */
  function InRound(slots: seq<Slot>, r: int): seq<Slot> {
    if |slots| == 0 then []
    else (if slots[0].round == r then [slots[0]] else []) + InRound(slots[1..], r)
  }

  /** Entering round `r` with rounds `1..r-1` in closed form and the flag matching `r`'s parity, the loop stays in closed form. */
  lemma {:induction false} LaterRoundsFollowSnake(ps: seq<int>, r: int, rounds: int, direction: int)
    requires r >= 3
    requires direction == if r % 2 == 1 then 1 else -1
    ensures LaterRounds(ps, SnakeRounds(ps, r - 1), r, rounds, direction) == SnakeRounds(ps, if rounds < r then r - 1 else rounds)
    decreases rounds - r
  {
    if r <= rounds {
      SnakeStep(ps, r, direction);
      LaterRoundsFollowSnake(ps, r + 1, rounds, -direction);
    }
  }

  /**
    One pass of the loop body on the closed-form prefix: round `r` is appended in
    its closed-form order, and the negated flag matches round `r + 1`.
   */
  lemma SnakeStep(ps: seq<int>, r: int, direction: int)
    requires r >= 3
    requires direction == if r % 2 == 1 then 1 else -1
    ensures SnakeRounds(ps, r - 1) + (if direction == 1 then NumberRound(r, Reverse(ps)) else NumberRound(r, ps)) == SnakeRounds(ps, r)
    ensures -direction == if (r + 1) % 2 == 1 then 1 else -1
  {
    LoopDirection(ps, r, direction);
  }

  /** The flag value of round `r` selects that round's closed-form order, and negating it gives round `r + 1`'s flag. */
  lemma LoopDirection(ps: seq<int>, r: int, direction: int)
    requires r >= 3
    requires direction == if r % 2 == 1 then 1 else -1
    ensures RoundOrder(ps, r) == if direction == 1 then Reverse(ps) else ps
    ensures -direction == if (r + 1) % 2 == 1 then 1 else -1
  {
  }

  /** The generator's direction toggle produces the closed-form order, with at least two rounds. */
  lemma PrepareIsSnake(ps: seq<int>, rounds: int)
    ensures PrepareDraftOrder(ps, rounds) == SnakeRounds(ps, RoundCount(rounds))
  {
    var firstTwo := NumberRound(1, ps) + NumberRound(2, Reverse(ps));
    assert SnakeRounds(ps, 1) == NumberRound(1, ps);
    assert firstTwo == SnakeRounds(ps, 2);
    LaterRoundsFollowSnake(ps, 3, rounds, 1);
  }

  lemma {:induction false} SnakeLength(ps: seq<int>, n: nat)
    ensures |SnakeRounds(ps, n)| == n * |ps|
  {
    if n > 0 {
      SnakeLength(ps, n - 1);
      assert (n - 1) * |ps| + |ps| == n * |ps|;
    }
  }

  /** One triple per participant per round, where fewer than two rounds still count as two. */
  lemma DraftOrderLength(ps: seq<int>, rounds: int)
    ensures rounds >= 2 ==> |PrepareDraftOrder(ps, rounds)| == rounds * |ps|
    ensures rounds < 2 ==> |PrepareDraftOrder(ps, rounds)| == 2 * |ps|
  {
    PrepareIsSnake(ps, rounds);
    SnakeLength(ps, RoundCount(rounds));
  }

  lemma DivModUnique(k: int, n: int, q: int, j: int)
    requires n > 0 && 0 <= j < n && k == q * n + j
    ensures k / n == q && k % n == j
  {
    var q', j' := k / n, k % n;
    var d := q - q';
    assert d * n == j' - j by {
      assert k == q' * n + j';
      assert d * n == q * n - q' * n;
    }
  }

  lemma DivModStep(i: int, n: int)
    requires 0 <= i && n > 0
    ensures || ((i + 1) / n == i / n && (i + 1) % n == i % n + 1)
            || ((i + 1) / n == i / n + 1 && (i + 1) % n == 0 && i % n == n - 1)
  {
    var q, m := i / n, i % n;
    assert i == q * n + m;
    if m + 1 < n {
      DivModUnique(i + 1, n, q, m + 1);
    } else {
      assert i + 1 == (q + 1) * n + 0 by {
        assert (q + 1) * n == q * n + n;
      }
      DivModUnique(i + 1, n, q + 1, 0);
    }
  }

  lemma {:induction false} SnakeSlotAt(ps: seq<int>, n: nat, k: int)
    requires |ps| > 0
    requires 0 <= k < |SnakeRounds(ps, n)|
    ensures |RoundOrder(ps, k / |ps| + 1)| == |ps|
    ensures SnakeRounds(ps, n)[k] == Slot(k / |ps| + 1, k % |ps| + 1, RoundOrder(ps, k / |ps| + 1)[k % |ps|])
  {
    var N := |ps|;
    assert n > 0;
    var prev, last := SnakeRounds(ps, n - 1), NumberRound(n, RoundOrder(ps, n));
    assert SnakeRounds(ps, n) == prev + last;
    SnakeLength(ps, n - 1);
    if k < |prev| {
      SnakeSlotAt(ps, n - 1, k);
      assert SnakeRounds(ps, n)[k] == prev[k];
    } else {
      var j := k - |prev|;
      DivModUnique(k, N, n - 1, j);
      assert k / N + 1 == n && k % N == j;
      assert SnakeRounds(ps, n)[k] == last[j] == Slot(n, j + 1, RoundOrder(ps, n)[j]);
    }
  }

  /**
    The slot at position `k` of the draft order: round `k / N + 1`, slot `k % N + 1`
    and that round's participant order at `k % N`, where `N` is the participant count.
   */
  lemma DraftOrderSlot(ps: seq<int>, rounds: int, k: int)
    requires 0 <= k < |PrepareDraftOrder(ps, rounds)|
    ensures |ps| > 0
    ensures PrepareDraftOrder(ps, rounds)[k]
         == Slot(k / |ps| + 1, k % |ps| + 1, RoundOrder(ps, k / |ps| + 1)[k % |ps|])
  {
    PrepareIsSnake(ps, rounds);
    SnakeLength(ps, RoundCount(rounds));
    SnakeSlotAt(ps, RoundCount(rounds), k);
  }

  /**
    Consecutive slots either stay in one round with the next slot number, or move
    from the last slot of a round to slot 1 of the next round.
   */
  lemma DraftOrderStep(ps: seq<int>, rounds: int, i: int)
    requires 0 <= i && i + 1 < |PrepareDraftOrder(ps, rounds)|
    ensures var order := PrepareDraftOrder(ps, rounds);
      || (order[i + 1].round == order[i].round && order[i + 1].slotInRound == order[i].slotInRound + 1)
      || (order[i + 1].round == order[i].round + 1 && order[i].slotInRound == |ps| && order[i + 1].slotInRound == 1)
  {
    DraftOrderSlot(ps, rounds, i);
    DraftOrderSlot(ps, rounds, i + 1);
    DivModStep(i, |ps|);
  }

  /** The draft order starts at round 1, slot 1. */
  lemma DraftOrderStart(ps: seq<int>, rounds: int)
    requires |ps| > 0
    ensures |PrepareDraftOrder(ps, rounds)| > 0
    ensures PrepareDraftOrder(ps, rounds)[0] == Slot(1, 1, ps[0])
  {
    DraftOrderLength(ps, rounds);
    assert 2 * |ps| > 0;
    DraftOrderSlot(ps, rounds, 0);
  }

  /** Triples are grouped by round, in ascending round order. */
  lemma {:induction false} RoundsAscending(ps: seq<int>, rounds: int, i: int, j: int)
    requires 0 <= i <= j < |PrepareDraftOrder(ps, rounds)|
    ensures PrepareDraftOrder(ps, rounds)[i].round <= PrepareDraftOrder(ps, rounds)[j].round
    decreases j - i
  {
    if i < j {
      DraftOrderStep(ps, rounds, i);
      RoundsAscending(ps, rounds, i + 1, j);
    }
  }

  lemma {:induction false} InRoundAppend(a: seq<Slot>, b: seq<Slot>, r: int)
    ensures InRound(a + b, r) == InRound(a, r) + InRound(b, r)
  {
    if |a| > 0 {
      assert (a + b)[1..] == a[1..] + b;
      InRoundAppend(a[1..], b, r);
    } else {
      assert a + b == b;
    }
  }

  lemma {:induction false} InRoundUniform(slots: seq<Slot>, n: int, r: int)
    requires forall i :: 0 <= i < |slots| ==> slots[i].round == n
    ensures InRound(slots, r) == if n == r then slots else []
  {
    if |slots| > 0 {
      InRoundUniform(slots[1..], n, r);
    }
  }

  lemma {:induction false} InRoundSnake(ps: seq<int>, n: nat, r: int)
    ensures InRound(SnakeRounds(ps, n), r) == if 1 <= r <= n then NumberRound(r, RoundOrder(ps, r)) else []
  {
    if n > 0 {
      var prev, last := SnakeRounds(ps, n - 1), NumberRound(n, RoundOrder(ps, n));
      assert SnakeRounds(ps, n) == prev + last;
      InRoundSnake(ps, n - 1, r);
      InRoundAppend(prev, last, r);
      InRoundUniform(last, n, r);
      if r == n {
        assert InRound(prev, r) == [] && InRound(last, r) == last;
        assert [] + last == last;
      } else {
        assert InRound(last, r) == [];
        assert InRound(prev, r) + [] == InRound(prev, r);
      }
    }
  }

  /**
    The slots of round `r` are numbered 1..N and list the round's participant
    order, which holds every participant exactly as often as the input does;
    rounds outside `1..RoundCount(rounds)` are empty.
   */
  lemma DraftOrderRound(ps: seq<int>, rounds: int, r: int)
    ensures var slots := InRound(PrepareDraftOrder(ps, rounds), r);
      && (1 <= r <= RoundCount(rounds) ==> |slots| == |ps|)
      && (1 <= r <= RoundCount(rounds) ==> forall j :: 0 <= j < |slots| ==> slots[j].slotInRound == j + 1)
      && (1 <= r <= RoundCount(rounds) ==> Participants(slots) == RoundOrder(ps, r))
      && (1 <= r <= RoundCount(rounds) ==> multiset(Participants(slots)) == multiset(ps))
      && (r < 1 || r > RoundCount(rounds) ==> slots == [])
  {
    PrepareIsSnake(ps, rounds);
    InRoundSnake(ps, RoundCount(rounds), r);
    ReversePermutes(ps);
  }

  /**
    Round 1 is the input order and round 2 its reverse; from round 3 on odd
    rounds are reversed and even rounds forward, so round 3 repeats round 2 and
    round 4 repeats round 1.
   */
  lemma DraftOrderDirections(ps: seq<int>, rounds: int)
    ensures Participants(InRound(PrepareDraftOrder(ps, rounds), 1)) == ps
    ensures Participants(InRound(PrepareDraftOrder(ps, rounds), 2)) == Reverse(ps)
    ensures forall r :: 3 <= r <= rounds && r % 2 == 1 ==>
      Participants(InRound(PrepareDraftOrder(ps, rounds), r)) == Reverse(ps)
    ensures forall r :: 3 <= r <= rounds && r % 2 == 0 ==>
      Participants(InRound(PrepareDraftOrder(ps, rounds), r)) == ps
    ensures rounds >= 3 ==>
      Participants(InRound(PrepareDraftOrder(ps, rounds), 3)) == Participants(InRound(PrepareDraftOrder(ps, rounds), 2))
    ensures rounds >= 4 ==>
      Participants(InRound(PrepareDraftOrder(ps, rounds), 4)) == Participants(InRound(PrepareDraftOrder(ps, rounds), 1))
  {
    DraftOrderRound(ps, rounds, 1);
    DraftOrderRound(ps, rounds, 2);
    forall r | 3 <= r <= rounds
      ensures Participants(InRound(PrepareDraftOrder(ps, rounds), r)) == RoundOrder(ps, r)
    {
      DraftOrderRound(ps, rounds, r);
    }
  }

}
