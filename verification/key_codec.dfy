/**
  The codec between a pick key `(round, participant)` and the string key of the
  persisted JSON object: `"<round>_<participant>"` on the way out, and on the way
  in a split on `'_'` followed by an integer conversion of every part.
 */
module KeyCodec {

  import opened Wrappers

  /** A key of the pick map: the round and the participant picking in it. */
  datatype PickKey = PickKey(round: int, participant: int)

  /** The same key as the integer tuple the loader produces. */
  function KeyTuple(k: PickKey): seq<int> {
    [k.round, k.participant]
  }

  // ---------------------------------------------------------------------------
  // Decimal integers: writing an integer as text and reading it back.

  predicate IsDigit(c: char) {
    '0' <= c <= '9'
  }

  predicate AllDigits(s: string) {
    forall i :: 0 <= i < |s| ==> IsDigit(s[i])
  }

  function DigitChar(d: int): (c: char)
    requires 0 <= d < 10
    ensures IsDigit(c)
  {
    (d + '0' as int) as char
  }

  function DigitValue(c: char): (d: int)
    requires IsDigit(c)
    ensures 0 <= d < 10 && DigitChar(d) == c
  {
    c as int - '0' as int
  }

  /** The decimal digits of `n`, most significant first, without leading zeros. */
  function NatToString(n: nat): (s: string)
    ensures |s| > 0 && AllDigits(s)
    ensures |s| > 1 ==> s[0] != '0'
    ensures s[0] == '0' <==> n == 0
  {
    if n < 10 then [DigitChar(n)] else NatToString(n / 10) + [DigitChar(n % 10)]
  }

  /** The value of a string of decimal digits (leading zeros allowed). */
  function DigitsValue(s: string): nat
    requires AllDigits(s)
  {
    if |s| == 0 then 0 else DigitsValue(s[..|s| - 1]) * 10 + DigitValue(s[|s| - 1])
  }

  /** An integer in decimal, with a leading minus sign when negative. */
  function IntToString(i: int): string {
    if i < 0 then "-" + NatToString(-i) else NatToString(i)
  }

  /**
    Reading an integer from text: an optional `+` or `-` sign followed by at
    least one ASCII digit, leading zeros allowed. Python's `int` also strips surrounding whitespace and
    accepts non-ASCII decimal digits; those inputs are not modelled and parse as
    failures here.
   */
  function ParseInt(s: string): Option<int> {
    if |s| > 0 && (s[0] == '-' || s[0] == '+') then
      if |s| > 1 && AllDigits(s[1..]) then
        var magnitude: int := DigitsValue(s[1..]);
        Some(if s[0] == '-' then -magnitude else magnitude)
      else None
    else if |s| > 0 && AllDigits(s) then Some(DigitsValue(s))
    else None
  }

  lemma {:induction false} NatRoundTrip(n: nat)
    ensures DigitsValue(NatToString(n)) == n
  {
    if n >= 10 {
      NatRoundTrip(n / 10);
      var s := NatToString(n);
      assert s[..|s| - 1] == NatToString(n / 10);
    }
  }

  /** Reading back the decimal text of an integer gives the integer. */
  lemma IntRoundTrip(i: int)
    ensures ParseInt(IntToString(i)) == Some(i)
  {
    var s := IntToString(i);
    if i < 0 {
      var t := NatToString(-i);
      NatRoundTrip(-i);
      assert s == "-" + t;
      assert s[0] == '-' && |s| > 1;
      assert s[1..] == t;
    } else {
      NatRoundTrip(i);
      assert IsDigit(s[0]);
    }
  }

  // ---------------------------------------------------------------------------
  // Splitting text at a separator character, and joining parts with it.

  /** The pieces between occurrences of `sep`: always at least one, and none contains `sep`. */
  function Split(s: string, sep: char): (parts: seq<string>)
    ensures |parts| >= 1
    ensures forall i :: 0 <= i < |parts| ==> sep !in parts[i]
  {
    if |s| == 0 then [""]
    else
      var rest := Split(s[1..], sep);
      if s[0] == sep then [""] + rest
      else [[s[0]] + rest[0]] + rest[1..]
  }

  /** The parts concatenated with `sep` between neighbours. */
  function Join(parts: seq<string>, sep: char): string
    requires |parts| >= 1
  {
    if |parts| == 1 then parts[0] else parts[0] + [sep] + Join(parts[1..], sep)
  }

  lemma JoinConsChar(c: char, parts: seq<string>, sep: char)
    requires |parts| >= 1
    ensures Join([[c] + parts[0]] + parts[1..], sep) == [c] + Join(parts, sep)
  {
  }

  /** Joining the parts of a split restores the string. */
  lemma {:induction false} SplitJoin(s: string, sep: char)
    ensures Join(Split(s, sep), sep) == s
  {
    if |s| > 0 {
      var rest := Split(s[1..], sep);
      SplitJoin(s[1..], sep);
      if s[0] == sep {
        assert ([""] + rest)[1..] == rest;
      } else {
        JoinConsChar(s[0], rest, sep);
      }
    }
  }

  lemma {:induction false} SplitFree(a: string, sep: char)
    requires sep !in a
    ensures Split(a, sep) == [a]
  {
    if |a| > 0 {
      SplitFree(a[1..], sep);
      assert [a[0]] + a[1..] == a;
    }
  }

  lemma {:induction false} SplitAfterFree(a: string, t: string, sep: char)
    requires sep !in a
    ensures Split(a + [sep] + t, sep) == [a] + Split(t, sep)
  {
    if |a| == 0 {
      assert (a + [sep] + t)[1..] == t;
    } else {
      assert (a + [sep] + t)[1..] == a[1..] + [sep] + t;
      SplitAfterFree(a[1..], t, sep);
      assert [a[0]] + a[1..] == a;
    }
  }

  /** Splitting a join of separator-free parts restores the parts. */
  lemma {:induction false} JoinSplit(parts: seq<string>, sep: char)
    requires |parts| >= 1
    requires forall i :: 0 <= i < |parts| ==> sep !in parts[i]
    ensures Split(Join(parts, sep), sep) == parts
  {
    if |parts| == 1 {
      SplitFree(parts[0], sep);
    } else {
      JoinSplit(parts[1..], sep);
      SplitAfterFree(parts[0], Join(parts[1..], sep), sep);
      assert [parts[0]] + parts[1..] == parts;
    }
  }

  // ---------------------------------------------------------------------------
  // The key codec.

  /** A pick key as text: the round and the participant in decimal, joined by an underscore. */
  function EncodeKey(k: PickKey): string {
    IntToString(k.round) + "_" + IntToString(k.participant)
  }

  /** Every part read as an integer, in order; fails when any part is not an integer. */
  function ParseAll(parts: seq<string>): (r: Option<seq<int>>)
    ensures r.Some? <==> forall i :: 0 <= i < |parts| ==> ParseInt(parts[i]).Some?
    ensures r.Some? ==> |r.value| == |parts|
    ensures r.Some? ==> forall i :: 0 <= i < |parts| ==> r.value[i] == ParseInt(parts[i]).value
  {
    if |parts| == 0 then Some([])
    else
      match ParseInt(parts[0])
      case None => None
      case Some(x) =>
        match ParseAll(parts[1..])
        case None => None
        case Some(xs) => Some([x] + xs)
  }

  /**
    A stored key read back: split at underscores and every part read as an
    integer. `None` stands for the conversion error that makes the loader skip
    the key.
   */
  function ParseKey(key: string): Option<seq<int>> {
    ParseAll(Split(key, '_'))
  }

  lemma NoSeparatorInInt(i: int)
    ensures '_' !in IntToString(i)
  {
  }

  /** Parsing an encoded key gives back the round and participant. */
  lemma KeyRoundTrip(k: PickKey)
    ensures ParseKey(EncodeKey(k)) == Some(KeyTuple(k))
  {
    var a, b := IntToString(k.round), IntToString(k.participant);
    NoSeparatorInInt(k.round);
    NoSeparatorInInt(k.participant);
    assert Join([a, b], '_') == EncodeKey(k);
    JoinSplit([a, b], '_');
    IntRoundTrip(k.round);
    IntRoundTrip(k.participant);
    var r := ParseAll([a, b]);
    assert r.Some?;
    assert r.value == KeyTuple(k);
  }

  /** Distinct keys encode to distinct strings. */
  lemma EncodeKeyInjective(k1: PickKey, k2: PickKey)
    ensures EncodeKey(k1) == EncodeKey(k2) <==> k1 == k2
  {
    KeyRoundTrip(k1);
    KeyRoundTrip(k2);
  }

  /** The key of round 3, participant 2 is `"3_2"` and reads back as `(3, 2)`. */
  lemma ExampleKey()
    ensures EncodeKey(PickKey(3, 2)) == "3_2"
    ensures ParseKey("3_2") == Some([3, 2])
  {
    KeyRoundTrip(PickKey(3, 2));
  }

  /** A key with an empty part is rejected rather than misread. */
  lemma EmptyPartRejected()
    ensures ParseKey("1__2") == None
  {
    assert Join(["1", "", "2"], '_') == "1__2";
    JoinSplit(["1", "", "2"], '_');
    assert ParseInt("") == None;
  }

  /** A key with more than two parts still parses, to a longer tuple. */
  lemma ThreePartKeyParses()
    ensures ParseKey("1_2_3") == Some([1, 2, 3])
  {
    assert Join(["1", "2", "3"], '_') == "1_2_3";
    JoinSplit(["1", "2", "3"], '_');
    IntRoundTrip(1);
    IntRoundTrip(2);
    IntRoundTrip(3);
    assert IntToString(1) == "1" && IntToString(2) == "2" && IntToString(3) == "3";
    var r := ParseAll(["1", "2", "3"]);
    assert r.Some?;
    assert r.value == [1, 2, 3];
  }

}
