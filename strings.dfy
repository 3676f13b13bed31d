/** The string operations of Rust's `str` that the converter relies on. */
module Strings {

  /** Position of the first character of `s` that belongs to `stop`, or `|s|` when none does. */
  function FindFirst(s: string, stop: set<char>): (k: nat)
    ensures k <= |s|
    ensures forall i :: 0 <= i < k ==> s[i] !in stop
    ensures k < |s| ==> s[k] in stop
    decreases |s|
  {
    if s == [] then 0
    else if s[0] in stop then 0
    else 1 + FindFirst(s[1..], stop)
  }

  /** `s.split(sep)`: the pieces between occurrences of `sep`, in order; an empty
      string still yields one (empty) piece. */
  function Split(s: string, sep: char): (pieces: seq<string>)
    ensures |pieces| >= 1
    ensures pieces[0] == s[..FindFirst(s, {sep})]
    ensures forall i :: 0 <= i < |pieces| ==> sep !in pieces[i]
    decreases |s|
  {
    var k := FindFirst(s, {sep});
    if k == |s| then [s] else [s[..k]] + Split(s[k + 1..], sep)
  }

  /** The pieces glued back together with `sep` between neighbours. */
  function Join(pieces: seq<string>, sep: char): string
  {
    if |pieces| == 0 then []
    else if |pieces| == 1 then pieces[0]
    else pieces[0] + [sep] + Join(pieces[1..], sep)
  }

  /** Splitting loses nothing: joining the pieces gives the string back. */
  lemma {:induction false} JoinSplit(s: string, sep: char)
    ensures Join(Split(s, sep), sep) == s
    decreases |s|
  {
    var k := FindFirst(s, {sep});
    if k < |s| {
      var rest := s[k + 1..];
      var pieces := Split(s, sep);
      var tail := Split(rest, sep);
      assert pieces == [s[..k]] + tail;
      assert pieces[1..] == tail;
      calc {
        Join(pieces, sep);
        pieces[0] + [sep] + Join(pieces[1..], sep);
        { JoinSplit(rest, sep); }
        s[..k] + [sep] + rest;
        { assert s == s[..k] + [s[k]] + rest; }
        s;
      }
    }
  }
}
