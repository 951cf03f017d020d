/** The three string operations the request handler asks of JavaScript:
    `s.includes(p)`, and `s.match(open + "(.*?)" + close)` for a literal
    prefix `open` and a single literal character `close`, of which only the
    first capture group is used. The regular-expression engine itself is not
    modelled, only the behaviour of this one pattern shape. */
module LazyMatch {
  import opened Wrappers

  /** The characters JavaScript's `.` does not match (no `s` flag):
      line feed, carriage return, line separator and paragraph separator. */
  predicate IsLineTerminator(c: char) {
    c == '\n' || c == '\r' || c == '\U{2028}' || c == '\U{2029}'
  }

  /** `p` occurs in `s` starting at index `i`. */
  predicate OccursAt(s: string, p: string, i: int) {
    0 <= i && i + |p| <= |s| && s[i..i + |p|] == p
  }

  /** `cap` is what the lazy group `(.*?)` followed by the literal `close`
      can capture at the front of `t`: `cap` is a prefix of `t`, `close`
      comes right after it, and no character of `cap` is `close` (the group
      stops at the first one) or a line terminator (`.` refuses those). */
  ghost predicate LazyCapture(t: string, close: char, cap: string) {
    && |cap| < |t|
    && t[..|cap|] == cap
    && t[|cap|] == close
    && forall k :: 0 <= k < |cap| ==> cap[k] != close && !IsLineTerminator(cap[k])
  }

  /** The pattern `open(.*?)close` matches `s` at index `i` with group `cap`. */
  ghost predicate MatchAt(s: string, open: string, close: char, i: int, cap: string) {
    OccursAt(s, open, i) && LazyCapture(s[i + |open|..], close, cap)
  }

  /** `cap` is the group of the leftmost match, which is what `match` returns. */
  ghost predicate FirstMatch(s: string, open: string, close: char, cap: string) {
    exists i :: MatchAt(s, open, close, i, cap) && NoMatchBefore(s, open, close, i)
  }

  ghost predicate NoMatchBefore(s: string, open: string, close: char, i: int) {
    forall j, cap :: 0 <= j < i ==> !MatchAt(s, open, close, j, cap)
  }

  /** The pattern matches nowhere in `s`: `match` returns null. */
  ghost predicate Absent(s: string, open: string, close: char) {
    forall j, cap :: !MatchAt(s, open, close, j, cap)
  }

  /** The group ends at the first `close` of `t`. */
  lemma CaptureStopsAtFirstClose(t: string, close: char, cap: string)
    requires LazyCapture(t, close, cap)
    ensures forall k :: 0 <= k < |cap| ==> t[k] != close
  {
    forall k | 0 <= k < |cap| ensures t[k] != close {
      assert t[k] == t[..|cap|][k] == cap[k];
    }
  }

  /** At most one group can be captured from a given position. */
  lemma LazyCaptureUnique(t: string, close: char, a: string, b: string)
    requires LazyCapture(t, close, a) && LazyCapture(t, close, b)
    ensures a == b
  {
    assert |a| == |b| by {
      CaptureStopsAtFirstClose(t, close, a);
      CaptureStopsAtFirstClose(t, close, b);
    }
  }

  lemma LazyCaptureTail(t: string, close: char, cap: string)
    requires LazyCapture(t, close, cap) && t[0] != close
    ensures cap != [] && cap[0] == t[0] && LazyCapture(t[1..], close, cap[1..])
  {
    assert cap != [];
    assert cap[0] == t[..|cap|][0] == t[0];
    assert t[1..][..|cap| - 1] == t[..|cap|][1..];
  }

  /** Runs the lazy group and the closing literal from the front of `t`. */
  function TakeUntil(t: string, close: char): (r: Option<string>)
    ensures r.Some? ==> LazyCapture(t, close, r.value)
    ensures r.None? ==> forall cap :: !LazyCapture(t, close, cap)
  {
    if t == [] then None
    else if t[0] == close then Some([])
    else if IsLineTerminator(t[0]) then
      assert forall cap :: !LazyCapture(t, close, cap) by {
        forall cap | LazyCapture(t, close, cap) ensures false {
          LazyCaptureTail(t, close, cap);
        }
      }
      None
    else
      match TakeUntil(t[1..], close)
      case None =>
        assert forall cap :: !LazyCapture(t, close, cap) by {
          forall cap | LazyCapture(t, close, cap) ensures false {
            LazyCaptureTail(t, close, cap);
          }
        }
        None
      case Some(rest) =>
        assert t[..|rest| + 1] == [t[0]] + t[1..][..|rest|];
        Some([t[0]] + rest)
  }

  /** Where the leftmost match starts and what its group holds. */
  datatype Found = Found(start: nat, group: string)

  /** The engine's scan: try each start index from `from` onwards and stop
      at the first where `open` occurs and the lazy group closes. */
  function Search(s: string, open: string, close: char, from: nat): (r: Option<Found>)
    decreases |s| - from
    ensures r.Some? ==>
      && from <= r.value.start
      && MatchAt(s, open, close, r.value.start, r.value.group)
      && forall j, cap :: from <= j < r.value.start ==> !MatchAt(s, open, close, j, cap)
    ensures r.None? ==> forall j, cap :: from <= j ==> !MatchAt(s, open, close, j, cap)
  {
    if |s| < from + |open| then None
    else if s[from..from + |open|] == open then
      match TakeUntil(s[from + |open|..], close)
      case Some(cap) => Some(Found(from, cap))
      case None => Search(s, open, close, from + 1)
    else Search(s, open, close, from + 1)
  }

  /** `s.match(open + "(.*?)" + close)[1]`, or None where `match` gives null. */
  function Capture(s: string, open: string, close: char): (r: Option<string>)
    ensures r.Some? ==> FirstMatch(s, open, close, r.value)
    ensures r.None? <==> Absent(s, open, close)
  {
    match Search(s, open, close, 0)
    case None => None
    case Some(found) =>
      assert MatchAt(s, open, close, found.start, found.group);
      Some(found.group)
  }

  /** The converse of Capture's contract: whatever the leftmost match
      captures is exactly what Capture returns. */
  lemma {:induction false} CaptureComplete(s: string, open: string, close: char, cap: string)
    requires FirstMatch(s, open, close, cap)
    ensures Capture(s, open, close) == Some(cap)
  {
    var i :| MatchAt(s, open, close, i, cap) && NoMatchBefore(s, open, close, i);
    var r := Search(s, open, close, 0);
    assert r.Some?;
    var found := r.value;
    assert found.start == i;
    LazyCaptureUnique(s[i + |open|..], close, found.group, cap);
  }

  /** The group of a match holds neither the closing character nor a line
      terminator. */
  lemma FirstMatchGroupShape(s: string, open: string, close: char, cap: string)
    requires FirstMatch(s, open, close, cap)
    ensures forall k :: 0 <= k < |cap| ==> cap[k] != close && !IsLineTerminator(cap[k])
  {
    var i :| MatchAt(s, open, close, i, cap) && NoMatchBefore(s, open, close, i);
  }

  /** `s.includes(p)` searching from index `from`. */
  function IncludesFrom(s: string, p: string, from: nat): (r: bool)
    decreases |s| - from
    ensures r <==> exists i :: from <= i && OccursAt(s, p, i)
  {
    if |s| < from + |p| then false
    else if s[from..from + |p|] == p then
      assert OccursAt(s, p, from);
      true
    else IncludesFrom(s, p, from + 1)
  }

  /** `s.includes(p)`. */
  function Includes(s: string, p: string): (r: bool)
    ensures r <==> exists i :: OccursAt(s, p, i)
  {
    IncludesFrom(s, p, 0)
  }

  /** A successful match needs its opening literal to be in the string. */
  lemma CaptureImpliesIncludes(s: string, open: string, close: char)
    requires Capture(s, open, close).Some?
    ensures Includes(s, open)
  {
    var i :| MatchAt(s, open, close, i, Capture(s, open, close).value) && NoMatchBefore(s, open, close, i);
    assert OccursAt(s, open, i);
  }
}
