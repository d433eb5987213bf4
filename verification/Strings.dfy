/** Splitting, joining and trimming of text, shared by the tile keys, the search index and the reader. */
module Strings {

  /** White space as Python's str.strip and the regular-expression class \s see it. */
  predicate IsSpace(c: char) {
    var n := c as int;
    || 0x09 <= n <= 0x0D || 0x1C <= n <= 0x20 || n == 0x85 || n == 0xA0 || n == 0x1680
    || 0x2000 <= n <= 0x200A || n == 0x2028 || n == 0x2029 || n == 0x202F || n == 0x205F || n == 0x3000
  }

  predicate IsBlank(s: string) {
    forall i | 0 <= i < |s| :: IsSpace(s[i])
  }

  /** The first position at or after `lo` that is not white space. */
  function KeptFrom(s: string, space: char -> bool, lo: nat): (r: nat)
    requires lo <= |s|
    ensures lo <= r <= |s|
    decreases |s| - lo
  {
    if lo < |s| && space(s[lo]) then KeptFrom(s, space, lo + 1) else lo
  }

  /** The end of what is left before `hi` once white space is cut off, down to `lo`. */
  function KeptTo(s: string, space: char -> bool, lo: nat, hi: nat): (r: nat)
    requires lo <= hi <= |s|
    ensures lo <= r <= hi
  {
    if lo < hi && space(s[hi - 1]) then KeptTo(s, space, lo, hi - 1) else hi
  }

  lemma {:induction false} KeptFromStops(s: string, space: char -> bool, lo: nat)
    requires lo <= |s|
    ensures var r := KeptFrom(s, space, lo); (r < |s| ==> !space(s[r])) && forall i | lo <= i < r :: space(s[i])
    decreases |s| - lo
  {
    if lo < |s| && space(s[lo]) {
      KeptFromStops(s, space, lo + 1);
    }
  }

  lemma {:induction false} KeptToStops(s: string, space: char -> bool, lo: nat, hi: nat)
    requires lo <= hi <= |s|
    ensures var r := KeptTo(s, space, lo, hi); (lo < r ==> !space(s[r - 1])) && forall i | r <= i < hi :: space(s[i])
  {
    if lo < hi && space(s[hi - 1]) {
      KeptToStops(s, space, lo, hi - 1);
    }
  }

  function Trim(s: string, space: char -> bool): string {
    var lo := KeptFrom(s, space, 0);
    s[lo..KeptTo(s, space, lo, |s|)]
  }

  function Strip(s: string): string {
    Trim(s, IsSpace)
  }

  /** Neither end is white space. */
  predicate Trimmed(s: string, space: char -> bool) {
    s != "" ==> !space(s[0]) && !space(s[|s| - 1])
  }

  /** A text is its part before a position followed by the rest. */
  lemma Halves(s: string, k: nat)
    requires k <= |s|
    ensures s == s[..k] + s[k..]
  {
  }

  lemma Regroup(a: string, b: string, c: string)
    ensures (a + b) + c == a + (b + c)
  {
  }

  /** What trimming returns is a trimmed slice, with only white space cut off on either side. */
  lemma TrimIsSlice(s: string, space: char -> bool) returns (lo: nat, hi: nat)
    ensures lo <= hi <= |s| && Trim(s, space) == s[lo..hi]
    ensures Trimmed(s[lo..hi], space)
    ensures forall i | 0 <= i < lo || hi <= i < |s| :: space(s[i])
  {
    lo := KeptFrom(s, space, 0);
    hi := KeptTo(s, space, lo, |s|);
    KeptFromStops(s, space, 0);
    KeptToStops(s, space, lo, |s|);
  }

  lemma TrimmedIsFixed(s: string, space: char -> bool)
    requires Trimmed(s, space)
    ensures Trim(s, space) == s
  {
  }

  lemma TrimBlank(s: string)
    ensures Strip(s) == "" <==> IsBlank(s)
  {
    var lo, hi := TrimIsSlice(s, IsSpace);
    assert lo < hi ==> Strip(s)[0] == s[lo];
    if !IsBlank(s) {
      var i :| 0 <= i < |s| && !IsSpace(s[i]);
      assert lo <= i < hi;
    }
  }

  // ----- splitting and joining on one separator character -----

  predicate Without(s: string, c: char) {
    forall i | 0 <= i < |s| :: s[i] != c
  }

  function Split(s: string, sep: char): (parts: seq<string>)
    ensures |parts| >= 1
    ensures forall i | 0 <= i < |parts| :: Without(parts[i], sep)
  {
    if s == "" then [""]
    else
      var rest := Split(s[1..], sep);
      if s[0] == sep then [""] + rest else [[s[0]] + rest[0]] + rest[1..]
  }

  function Join(parts: seq<string>, sep: string): string {
    if parts == [] then ""
    else if |parts| == 1 then parts[0]
    else parts[0] + sep + Join(parts[1..], sep)
  }

  lemma {:induction false} SplitAtFirst(head: string, sep: char, rest: string)
    requires Without(head, sep)
    ensures Split(head + [sep] + rest, sep) == [head] + Split(rest, sep)
  {
    var s := head + [sep] + rest;
    if head == "" {
      assert s[1..] == rest;
    } else {
      SplitAtFirst(head[1..], sep, rest);
      assert s[1..] == head[1..] + [sep] + rest;
      assert [head[0]] + head[1..] == head;
    }
  }

  lemma {:induction false} SplitWhole(s: string, sep: char)
    requires Without(s, sep)
    ensures Split(s, sep) == [s]
  {
    if s != "" {
      SplitWhole(s[1..], sep);
      assert [s[0]] + s[1..] == s;
    }
  }

  /** Splitting undoes joining, as long as no part contains the separator. */
  lemma {:induction false} SplitJoin(parts: seq<string>, sep: char)
    requires parts != []
    requires forall i | 0 <= i < |parts| :: Without(parts[i], sep)
    ensures Split(Join(parts, [sep]), sep) == parts
  {
    if |parts| == 1 {
      SplitWhole(parts[0], sep);
    } else {
      assert forall i | 0 <= i < |parts[1..]| :: parts[1..][i] == parts[i + 1];
      SplitJoin(parts[1..], sep);
      assert Join(parts, [sep]) == parts[0] + [sep] + Join(parts[1..], [sep]);
      SplitAtFirst(parts[0], sep, Join(parts[1..], [sep]));
    }
  }

  lemma {:induction false} JoinConcat(a: seq<string>, b: seq<string>, sep: string)
    requires a != [] && b != []
    ensures Join(a + b, sep) == Join(a, sep) + sep + Join(b, sep)
  {
    if |a| == 1 {
      assert (a + b)[1..] == b;
    } else {
      assert (a + b)[1..] == a[1..] + b;
      JoinConcat(a[1..], b, sep);
    }
  }

  lemma JoinFront(front: string, parts: seq<string>, sep: string)
    requires parts != []
    ensures Join([front + parts[0]] + parts[1..], sep) == front + Join(parts, sep)
  {
    var longer := [front + parts[0]] + parts[1..];
    assert longer[1..] == parts[1..];
    if |parts| > 1 {
      assert front + parts[0] + sep + Join(parts[1..], sep) == front + (parts[0] + sep + Join(parts[1..], sep));
    }
  }

  /** Joining undoes splitting. */
  lemma {:induction false} JoinSplit(s: string, sep: char)
    ensures Join(Split(s, sep), [sep]) == s
  {
    if s != "" {
      var rest := Split(s[1..], sep);
      JoinSplit(s[1..], sep);
      if s[0] == sep {
        assert Split(s, sep)[1..] == rest;
        assert s == "" + [sep] + s[1..];
      } else {
        JoinFront([s[0]], rest, [sep]);
        assert [s[0]] + s[1..] == s;
      }
    }
  }
}
