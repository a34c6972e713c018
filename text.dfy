/** String helpers shared by the document reader and the response streamer:
    left-to-right concatenation (Python's repeated `+=`) and `str.join`. */
module Text {

  /** The strings of `parts` glued together in order, with nothing between them;
      defined as the left fold that a loop of `acc += part` computes. */
  function Concat(parts: seq<string>): string
  {
    if parts == [] then "" else Concat(parts[..|parts| - 1]) + parts[|parts| - 1]
  }

  /** Concatenation splits at any point of the sequence of parts. */
  lemma {:induction false} ConcatAppend(xs: seq<string>, ys: seq<string>)
    ensures Concat(xs + ys) == Concat(xs) + Concat(ys)
  {
    if ys == [] {
      assert xs + ys == xs;
    } else {
      var n := |ys| - 1;
      assert (xs + ys)[..|xs + ys| - 1] == xs + ys[..n];
      ConcatAppend(xs, ys[..n]);
    }
  }

  /** The length of a concatenation is the sum of the lengths of its parts. */
  function TotalLength(parts: seq<string>): nat
  {
    if parts == [] then 0 else TotalLength(parts[..|parts| - 1]) + |parts[|parts| - 1]|
  }

  lemma {:induction false} ConcatLength(parts: seq<string>)
    ensures |Concat(parts)| == TotalLength(parts)
  {
    if parts != [] {
      ConcatLength(parts[..|parts| - 1]);
    }
  }

  /** Part `k` sits in the concatenation right after the parts before it and right
      before the parts after it: order is kept and no separator is inserted. */
  lemma {:induction false} ConcatAt(parts: seq<string>, k: nat)
    requires k < |parts|
    ensures Concat(parts) == Concat(parts[..k]) + parts[k] + Concat(parts[k + 1..])
  {
    var front, back := parts[..k + 1], parts[k + 1..];
    assert parts == front + back;
    ConcatAppend(front, back);
    assert front[..k] == parts[..k];
  }

  lemma {:induction false} TotalLengthFront(parts: seq<string>)
    requires parts != []
    ensures TotalLength(parts) == |parts[0]| + TotalLength(parts[1..])
  {
    if |parts| > 1 {
      var init := parts[..|parts| - 1];
      TotalLengthFront(init);
      assert init[1..] == parts[1..][..|parts[1..]| - 1];
    } else {
      assert parts[1..] == [];
      assert parts[..0] == [];
    }
  }

  /** Python's `sep.join(parts)`. */
  function Join(parts: seq<string>, sep: string): (r: string)
    ensures parts == [] ==> r == ""
    ensures |parts| == 1 ==> r == parts[0]
  {
    if parts == [] then ""
    else if |parts| == 1 then parts[0]
    else parts[0] + sep + Join(parts[1..], sep)
  }

  /** A join holds the parts in order with one separator between each two: it
      starts with the first part and is as long as the parts plus the
      separators. */
  lemma {:induction false} JoinShape(parts: seq<string>, sep: string)
    requires parts != []
    ensures |Join(parts, sep)| == TotalLength(parts) + (|parts| - 1) * |sep|
    ensures |parts[0]| <= |Join(parts, sep)| && Join(parts, sep)[..|parts[0]|] == parts[0]
  {
    if |parts| == 1 {
      assert parts[..0] == [];
    } else {
      JoinShape(parts[1..], sep);
      TotalLengthFront(parts);
    }
  }

  /** Appending a part to a join adds one separator and then that part, so the
      parts after the first follow in order, one separator before each. */
  lemma {:induction false} JoinSnoc(parts: seq<string>, p: string, sep: string)
    requires parts != []
    ensures Join(parts + [p], sep) == Join(parts, sep) + sep + p
  {
    if |parts| == 1 {
      assert (parts + [p])[1..] == [p];
    } else {
      assert (parts + [p])[1..] == parts[1..] + [p];
      JoinSnoc(parts[1..], p, sep);
    }
  }
}
