/** Joining a list of sentence fragments with `", "` (JavaScript's
    `Array.prototype.join(', ')`) and splitting such a sentence back. */
module Text {

  const Separator: string := ", "

  /** No occurrence of the separator starts inside `s`. */
  predicate NoSeparator(s: string) {
    forall i :: 0 <= i < |s| - 1 ==> !(s[i] == ',' && s[i + 1] == ' ')
  }

  /** `xs.join(', ')`. */
  function Join(xs: seq<string>): (r: string)
    ensures |xs| == 0 ==> r == ""
    ensures |xs| > 0 ==> xs[0] <= r
    ensures |xs| > 1 ==> xs[0] + Separator <= r
    decreases |xs|
  {
    if |xs| == 0 then ""
    else if |xs| == 1 then xs[0]
    else xs[0] + Separator + Join(xs[1..])
  }

  /** The joined string ends with the last element. */
  lemma {:induction false} JoinEndsWithLast(xs: seq<string>)
    requires |xs| > 0
    ensures |xs[|xs| - 1]| <= |Join(xs)|
    ensures Join(xs)[|Join(xs)| - |xs[|xs| - 1]|..] == xs[|xs| - 1]
    decreases |xs|
  {
    if |xs| > 1 {
      JoinEndsWithLast(xs[1..]);
      assert xs[1..][|xs| - 2] == xs[|xs| - 1];
    }
  }

  /** `s.split(', ')`: the pieces between the separator occurrences, found
      left to right. Always at least one piece. */
  function Split(s: string): (parts: seq<string>)
    ensures |parts| >= 1
    decreases |s|
  {
    if |s| < 2 then [s]
    else if s[0] == ',' && s[1] == ' ' then [""] + Split(s[2..])
    else
      var rest := Split(s[1..]);
      [[s[0]] + rest[0]] + rest[1..]
  }

  /** A fragment without the separator is split off whole, whether it ends
      the string or is followed by a separator. */
  lemma {:induction false} SplitFragment(x: string, tail: string)
    requires NoSeparator(x)
    requires tail == [] || (|tail| >= 2 && tail[..2] == Separator)
    ensures tail == [] ==> Split(x + tail) == [x]
    ensures tail != [] ==> Split(x + tail) == [x] + Split(tail[2..])
    decreases |x|
  {
    if |x| == 0 {
      assert x + tail == tail;
    } else {
      var s := x + tail;
      assert s[0] == x[0];
      assert |s| >= 2 ==> s[1] != ' ' || s[0] != ',' by {
        if |x| >= 2 {
          assert s[1] == x[1];
        } else if tail != [] {
          assert s[1] == tail[0] == ',';
        }
      }
      assert NoSeparator(x[1..]);
      assert s[1..] == x[1..] + tail;
      SplitFragment(x[1..], tail);
      if |s| >= 2 {
        assert [s[0]] + x[1..] == x;
      } else {
        assert s == x;
      }
    }
  }

  /** Splitting a joined list gives the list back when no element contains
      the separator. */
  lemma {:induction false} SplitJoin(xs: seq<string>)
    requires |xs| >= 1
    requires forall i :: 0 <= i < |xs| ==> NoSeparator(xs[i])
    ensures Split(Join(xs)) == xs
    decreases |xs|
  {
    if |xs| == 1 {
      SplitFragment(xs[0], []);
      assert xs[0] + [] == xs[0];
    } else {
      var tail := Separator + Join(xs[1..]);
      assert tail[..2] == Separator;
      assert tail[2..] == Join(xs[1..]);
      assert Join(xs) == xs[0] + tail;
      SplitFragment(xs[0], tail);
      SplitJoin(xs[1..]);
      assert xs == [xs[0]] + xs[1..];
    }
  }
}
