/**
 * The string helpers of the daemon's client, test.py: a list of endpoints
 * travels as its elements joined with single spaces and comes back as the
 * pieces of a split on the space.
 */
module Client {
  import opened PyStr

  /** `' '.join(arr)`. */
  function Stringify(arr: seq<string>): (s: string)
    ensures |arr| == 1 ==> s == arr[0]
  {
    Join(arr, ' ')
  }

  /** What `reverse_stringify(s)` returns: `s.split(' ')`, never empty, one piece more than spaces. */
  function ReverseStringify(s: string): (parts: seq<string>)
    ensures |parts| == CountChar(s, ' ') + 1
    ensures forall i :: 0 <= i < |parts| ==> ' ' !in parts[i]
  {
    Split(s, ' ')
  }

  /**
   * `reverse_stringify` as written: its loop rebinds the loop variable to
   * cleaned copies and drops them, so the split is returned untouched, with
   * quotes, commas and brackets still in place.
   */
  method ReverseStringifyLoop(s: string) returns (temp: seq<string>)
    ensures temp == ReverseStringify(s)
  {
    temp := Split(s, ' ');
    for k := 0 to |temp| {
      var i := temp[k];
      i := Replace(i, "'", "");
      i := Replace(i, ",", "");
      i := Replace(i, "[", "");
      i := Replace(i, "]", "");
    }
  }

  /** A non-empty list of space-free elements survives the round trip. */
  lemma RoundTrip(arr: seq<string>)
    requires |arr| > 0 && forall i :: 0 <= i < |arr| ==> ' ' !in arr[i]
    ensures ReverseStringify(Stringify(arr)) == arr
  {
    SplitJoin(arr, ' ');
  }

  /** The empty list comes back as one empty string. */
  lemma EmptyListRoundTrip()
    ensures ReverseStringify(Stringify([])) == [""]
  {
  }

  /** The other direction holds for every text. */
  lemma ReverseThenStringify(s: string)
    ensures Stringify(ReverseStringify(s)) == s
  {
    JoinSplit(s, ' ');
  }

  /** An element holding a space comes back as two elements. */
  lemma SpaceSplitsElement(a: string, b: string)
    requires ' ' !in a && ' ' !in b
    ensures ReverseStringify(Stringify([a + " " + b])) == [a, b]
  {
    SplitWithoutSep(b, ' ');
    SplitField(a, b, ' ');
    assert a + " " + b == a + [' '] + b;
  }

  /** Brackets and quotes are not stripped: a space-free text comes back whole. */
  lemma NothingStripped(s: string)
    requires ' ' !in s
    ensures ReverseStringify(s) == [s]
    ensures ReverseStringify("['a',") == ["['a',"]
  {
    SplitWithoutSep(s, ' ');
    SplitWithoutSep("['a',", ' ');
  }
}
