/** Searching and splitting text at single octets, as the parsers do. */
module Text {
  import opened Octets

  const NL: Byte := 0x0A
  const SPACE: Byte := 0x20

  /** Position of the first `c`, or the length of `s`. */
  function Find(s: Bytes, c: Byte): (i: nat)
    ensures i <= |s| && c !in s[..i]
    ensures i < |s| ==> s[i] == c
  {
    if s == [] || s[0] == c then 0
    else
      var i := Find(s[1..], c) + 1;
      assert s[..i] == [s[0]] + s[1..][..i - 1];
      i
  }

  lemma FindFirst(a: Bytes, c: Byte, b: Bytes)
    requires c !in a
    ensures Find(a + [c] + b, c) == |a| && Find(a, c) == |a|
  {
    hide Find;
    assert (a + [c] + b)[|a|] == c;
  }

  /** The pieces of `s` between occurrences of `c`; always at least one. */
  function SplitOn(s: Bytes, c: Byte): (parts: seq<Bytes>)
    ensures parts != [] && forall p :: p in parts ==> c !in p
    decreases |s|
  {
    var i := Find(s, c);
    if i == |s| then assert s[..i] == s; [s]
    else [s[..i]] + SplitOn(s[i + 1..], c)
  }

  /** Every piece followed by `c`. */
  function Terminated(parts: seq<Bytes>, c: Byte): Bytes {
    if parts == [] then [] else parts[0] + [c] + Terminated(parts[1..], c)
  }

  /** Splitting loses nothing. */
  lemma {:induction false} TerminatedSplit(s: Bytes, c: Byte)
    ensures Terminated(SplitOn(s, c), c) == s + [c]
    decreases |s|
  {
    hide Find;
    var i := Find(s, c);
    if i == |s| {
      assert Terminated([s], c) == s + [c] + Terminated([], c);
    } else {
      TerminatedSplit(s[i + 1..], c);
      assert SplitOn(s, c)[1..] == SplitOn(s[i + 1..], c);
      assert s + [c] == s[..i] + [c] + (s[i + 1..] + [c]);
    }
  }

  /** Pieces free of `c` are recovered. */
  lemma {:induction false} SplitTerminated(parts: seq<Bytes>, c: Byte)
    requires parts != [] && forall p :: p in parts ==> c !in p
    ensures var t := Terminated(parts, c);
            |t| > 0 && t[|t| - 1] == c && SplitOn(t[..|t| - 1], c) == parts
  {
    hide Find;
    var head, u := parts[0], Terminated(parts[1..], c);
    var t := head + [c] + u;
    if |parts| == 1 {
      FindFirst(head, c, []);
      assert parts[1..] == [] && t[..|t| - 1] == head && parts == [head];
    } else {
      SplitTerminated(parts[1..], c);
      var rest := u[..|u| - 1];
      var s := head + [c] + rest;
      assert t[..|t| - 1] == s;
      FindFirst(head, c, rest);
      assert s[..|head|] == head && s[|head| + 1..] == rest;
      assert parts == [head] + parts[1..];
    }
  }

  /** Position of the last blank line, that is of two newlines in a row, or -1. */
  function LastBlank(s: Bytes): (i: int)
    ensures -1 <= i < |s| - 1 || (i == -1 && |s| == 0)
    ensures i >= 0 ==> s[i] == NL && s[i + 1] == NL
    ensures forall j :: i < j && 0 <= j < |s| - 1 ==> !(s[j] == NL && s[j + 1] == NL)
  {
    if |s| < 2 then -1
    else if s[|s| - 2] == NL && s[|s| - 1] == NL then |s| - 2
    else LastBlank(s[..|s| - 1])
  }

  predicate HasBlank(s: Bytes) {
    exists i :: 0 <= i < |s| - 1 && s[i] == NL && s[i + 1] == NL
  }

  /** Non-empty lines never form a blank line. */
  lemma {:induction false} TerminatedNoBlank(parts: seq<Bytes>)
    requires forall p :: p in parts ==> p != [] && NL !in p
    ensures !HasBlank(Terminated(parts, NL))
    ensures parts != [] ==> Terminated(parts, NL) != [] && Terminated(parts, NL)[0] != NL
  {
    if parts != [] {
      var head, rest := parts[0], Terminated(parts[1..], NL);
      assert head in parts && forall p :: p in parts[1..] ==> p in parts;
      TerminatedNoBlank(parts[1..]);
      var t := head + [NL] + rest;
      forall i | 0 <= i < |t| - 1
        ensures !(t[i] == NL && t[i + 1] == NL)
      {
        if i < |head| {
          assert t[i] == head[i] && head[i] in head;
        } else if i > |head| {
          assert t[i] == rest[i - |head| - 1] && t[i + 1] == rest[i - |head|];
        }
      }
    }
  }

  lemma {:induction false} TerminatedConcat(a: seq<Bytes>, b: seq<Bytes>, c: Byte)
    ensures Terminated(a + b, c) == Terminated(a, c) + Terminated(b, c)
  {
    if a == [] {
      assert a + b == b;
    } else {
      TerminatedConcat(a[1..], b, c);
      assert (a + b)[1..] == a[1..] + b;
    }
  }
}
