/**
 * `String.prototype.split` and `Array.prototype.join` for a one-character
 * separator, which is how both components use them.
 */
module Text {

  /** Position of the first `d` in `s`. */
  function IndexOf(s: string, d: char): (i: nat)
    requires d in s
    ensures i < |s| && s[i] == d && d !in s[..i]
  {
    if s[0] == d then 0
    else
      assert s == [s[0]] + s[1..];
      var j := IndexOf(s[1..], d);
      assert s[..j + 1] == [s[0]] + s[1..][..j];
      j + 1
  }

  /**
   * `s.split(d)`: the pieces between occurrences of `d`. There is always one
   * piece more than there are separators, so the empty string yields `[""]`.
   */
  function Split(s: string, d: char): (pieces: seq<string>)
    ensures |pieces| == multiset(s)[d] + 1
    ensures forall k :: 0 <= k < |pieces| ==> d !in pieces[k]
    ensures Join(pieces, d) == s
    decreases |s|
  {
    if d !in s then [s]
    else
      var i := IndexOf(s, d);
      var rest := Split(s[i + 1..], d);
      assert s == s[..i] + [d] + s[i + 1..];
      assert ([s[..i]] + rest)[1..] == rest;
      [s[..i]] + rest
  }

  /** `pieces.join(d)`. */
  function Join(pieces: seq<string>, d: char): (r: string)
    ensures |pieces| == 0 ==> r == []
    ensures |pieces| > 0 ==> |r| == TotalLength(pieces) + |pieces| - 1
  {
    if |pieces| == 0 then []
    else if |pieces| == 1 then pieces[0]
    else pieces[0] + [d] + Join(pieces[1..], d)
  }

  /** Sum of the lengths of the pieces. */
  function TotalLength(pieces: seq<string>): nat
  {
    if |pieces| == 0 then 0 else |pieces[0]| + TotalLength(pieces[1..])
  }

  /** Total number of `d` characters inside the pieces. */
  function Occurrences(pieces: seq<string>, d: char): nat
  {
    if |pieces| == 0 then 0 else multiset(pieces[0])[d] + Occurrences(pieces[1..], d)
  }

  /** Splitting a join of `d`-free pieces gives the pieces back. */
  lemma {:induction false} SplitJoin(pieces: seq<string>, d: char)
    requires |pieces| >= 1
    requires forall k :: 0 <= k < |pieces| ==> d !in pieces[k]
    ensures Split(Join(pieces, d), d) == pieces
  {
    if |pieces| > 1 {
      var p := pieces[0];
      var rest := Join(pieces[1..], d);
      var s := Join(pieces, d);
      assert s == p + [d] + rest;
      assert s[|p|] == d;
      var i := IndexOf(s, d);
      assert s[..|p|] == p;
      assert i == |p|;
      assert s[i + 1..] == rest;
      SplitJoin(pieces[1..], d);
      assert pieces == [p] + pieces[1..];
    }
  }

  /** A leading separator splits off an empty first piece. */
  lemma SplitLeading(s: string, d: char)
    ensures Split([d] + s, d) == [""] + Split(s, d)
  {
    assert IndexOf([d] + s, d) == 0;
    assert ([d] + s)[1..] == s;
  }

  /** A join has one separator between each pair of neighbouring pieces. */
  lemma {:induction false} JoinCount(pieces: seq<string>, d: char)
    requires |pieces| >= 1
    ensures multiset(Join(pieces, d))[d] == Occurrences(pieces, d) + |pieces| - 1
  {
    if |pieces| > 1 {
      JoinCount(pieces[1..], d);
    }
  }
}
