/**
 Byte-string helpers of Go's `strings` package as used by mvcommon: trimming by a
 cut set, `TrimSpace`, splitting on a one-byte separator and its inverse `Join`.
 Strings are sequences of single-byte characters; no UTF-8 decoding is modelled.
 */
module Strings {

  /** `s` occurs in `t` starting at offset `p`. */
  predicate OccursAt(s: string, t: string, p: int) {
    0 <= p && p + |s| <= |t| && t[p..p + |s|] == s
  }

  /** `s` is a contiguous substring of `t`. */
  ghost predicate IsSubstring(s: string, t: string) {
    exists p :: OccursAt(s, t, p)
  }

  /** `strings.TrimLeft`: drops leading bytes that belong to `cutset`. */
  function TrimLeft(s: string, cutset: string): string
    decreases |s|
  {
    if |s| > 0 && s[0] in cutset then TrimLeft(s[1..], cutset) else s
  }

  /** `strings.TrimRight`: drops trailing bytes that belong to `cutset`. */
  function TrimRight(s: string, cutset: string): string
    decreases |s|
  {
    if |s| > 0 && s[|s| - 1] in cutset then TrimRight(s[..|s| - 1], cutset) else s
  }

  /** `strings.Trim` on bytes: every leading and trailing byte of `cutset` removed. */
  function Trim(s: string, cutset: string): string
  {
    TrimRight(TrimLeft(s, cutset), cutset)
  }

  /** `TrimLeft` removes exactly the longest prefix of cut-set bytes. */
  lemma {:induction false} TrimLeftSpec(s: string, cutset: string)
    ensures var r := TrimLeft(s, cutset);
            && |r| <= |s| && r == s[|s| - |r|..]
            && (r == [] || r[0] !in cutset)
            && forall i | 0 <= i < |s| - |r| :: s[i] in cutset
    decreases |s|
  {
    if |s| > 0 && s[0] in cutset {
      TrimLeftSpec(s[1..], cutset);
    }
  }

  /** `TrimRight` removes exactly the longest suffix of cut-set bytes. */
  lemma {:induction false} TrimRightSpec(s: string, cutset: string)
    ensures var r := TrimRight(s, cutset);
            && |r| <= |s| && r == s[..|r|]
            && (r == [] || r[|r| - 1] !in cutset)
            && forall i | |r| <= i < |s| :: s[i] in cutset
    decreases |s|
  {
    if |s| > 0 && s[|s| - 1] in cutset {
      TrimRightSpec(s[..|s| - 1], cutset);
    }
  }

  /**
   The result of `Trim` is the slice of `s` left after removing a run of cut-set
   bytes at each end, and it neither begins nor ends with a cut-set byte.
   */
  lemma TrimSpec(s: string, cutset: string)
    ensures var r := Trim(s, cutset);
            && (r == [] || (r[0] !in cutset && r[|r| - 1] !in cutset))
            && exists a :: && OccursAt(r, s, a)
                           && (forall i | 0 <= i < a :: s[i] in cutset)
                           && (forall i | a + |r| <= i < |s| :: s[i] in cutset)
  {
    var l := TrimLeft(s, cutset);
    var r := TrimRight(l, cutset);
    TrimLeftSpec(s, cutset);
    TrimRightSpec(l, cutset);
    var a := |s| - |l|;
    assert s[a..a + |r|] == r;
    assert OccursAt(r, s, a);
  }

  /** Trimming a string whose two ends lie outside the cut set changes nothing. */
  lemma TrimKeepsClean(s: string, cutset: string)
    requires |s| > 0 && s[0] !in cutset && s[|s| - 1] !in cutset
    ensures Trim(s, cutset) == s
  {
  }

  /** Trimming is idempotent. */
  lemma TrimIdempotent(s: string, cutset: string)
    ensures Trim(Trim(s, cutset), cutset) == Trim(s, cutset)
  {
    TrimSpec(s, cutset);
    var r := Trim(s, cutset);
    if r != [] {
      TrimKeepsClean(r, cutset);
    }
  }

  /** The ASCII white space `strings.TrimSpace` removes: tab, LF, VT, FF, CR and space. */
  const AsciiSpace: string := " \t\n\U{B}\U{C}\r"

  /** `strings.TrimSpace` restricted to ASCII input. */
  function TrimSpace(s: string): string
  {
    Trim(s, AsciiSpace)
  }

  /** The position of the first `c` in `s`. */
  function IndexOf(s: string, c: char): (i: nat)
    requires c in s
    ensures i < |s| && s[i] == c && c !in s[..i]
  {
    if s[0] == c then 0 else 1 + IndexOf(s[1..], c)
  }

  /** `strings.Join` with a one-byte separator. */
  function Join(parts: seq<string>, sep: char): string
  {
    if |parts| == 0 then []
    else if |parts| == 1 then parts[0]
    else parts[0] + [sep] + Join(parts[1..], sep)
  }

  /** `strings.Split` with a one-byte separator: the pieces between the separators, in order. */
  function Split(s: string, sep: char): (parts: seq<string>)
    ensures |parts| >= 1
    decreases |s|
  {
    if sep in s then
      var i := IndexOf(s, sep);
      [s[..i]] + Split(s[i + 1..], sep)
    else
      [s]
  }

  /** The pieces hold no separator, and joining them back gives `s`. */
  lemma {:induction false} JoinSplit(s: string, sep: char)
    ensures forall i | 0 <= i < |Split(s, sep)| :: sep !in Split(s, sep)[i]
    ensures Join(Split(s, sep), sep) == s
    decreases |s|
  {
    if sep in s {
      var i := IndexOf(s, sep);
      JoinSplit(s[i + 1..], sep);
      assert s == s[..i] + [sep] + s[i + 1..];
      var parts := Split(s, sep);
      assert parts[1..] == Split(s[i + 1..], sep);
    }
  }

  /** Splitting at the first separator. */
  lemma SplitFirst(s: string, sep: char, n: nat)
    requires n < |s| && s[n] == sep && sep !in s[..n]
    ensures Split(s, sep) == [s[..n]] + Split(s[n + 1..], sep)
  {
    var i := IndexOf(s, sep);
    assert i == n;
  }

  /** Splitting a join of separator-free pieces gives the pieces back. */
  lemma {:induction false} SplitJoin(parts: seq<string>, sep: char)
    requires |parts| >= 1
    requires forall i | 0 <= i < |parts| :: sep !in parts[i]
    ensures Split(Join(parts, sep), sep) == parts
    decreases |parts|
  {
    if |parts| == 1 {
      assert sep !in parts[0];
    } else {
      var s := Join(parts, sep);
      var tail := Join(parts[1..], sep);
      var n := |parts[0]|;
      assert s == parts[0] + [sep] + tail;
      assert s[..n] == parts[0];
      assert s[n + 1..] == tail;
      SplitFirst(s, sep, n);
      SplitJoin(parts[1..], sep);
    }
  }
}
