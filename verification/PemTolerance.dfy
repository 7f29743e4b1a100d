/** Which spacing the PEM decoder tolerates, by code points. */
module PemTolerance {
  import opened Octets
  import opened Text
  import opened Utf8
  import opened Unicode
  import opened Pem
  import Base64

  predicate Blank(xs: seq<Scalar>) { forall x :: x in xs ==> WhiteSpace(x) }

  // ----- trimming -----

  lemma {:induction false} EncodeSnoc(xs: seq<Scalar>, x: Scalar)
    ensures EncodeText(xs + [x]) == EncodeText(xs) + EncodeChar(x)
  {
    hide EncodeChar;
    if xs == [] {
      assert xs + [x] == [x] && [x][1..] == [];
    } else {
      EncodeSnoc(xs[1..], x);
      assert (xs + [x])[1..] == xs[1..] + [x];
    }
  }

  /** No white-space character ends in the tail of a longer character, or in a character and
      the octets before it. */
  lemma NoSpaceTail(a: Byte, b: Byte, x: Scalar)
    ensures var c := EncodeChar(x);
            && (|c| >= 2 ==> !IsSpaceChar([c[|c| - 1]]))
            && (|c| >= 3 ==> !IsSpaceChar([c[|c| - 2], c[|c| - 1]]))
            && (|c| >= 4 ==> !IsSpaceChar([c[|c| - 3], c[|c| - 2], c[|c| - 1]]))
            && (|c| == 1 ==> !IsSpaceChar([b, c[0]]) && !IsSpaceChar([a, b, c[0]]))
            && (|c| == 2 ==> !IsSpaceChar([b, c[0], c[1]]))
  {
  }

  /** The white-space test at the end of text sees its last character. */
  lemma SpaceAtEndOf(s: Bytes, x: Scalar)
    ensures SpaceAtEnd(s + EncodeChar(x)) == if WhiteSpace(x) then |EncodeChar(x)| else 0
  {
    hide IsSpaceChar, EncodeChar, WhiteSpace;
    var c := EncodeChar(x);
    var t := s + c;
    var n := |t|;
    SpaceChar(x);
    NoSpaceTail(if n >= 3 then t[n - 3] else 0, if n >= 3 then t[n - 2] else 0, x);
    NoSpaceTail(0, if |c| == 1 && n >= 2 then t[n - 2] else if n >= 3 then t[n - 3] else 0, x);
    WholeChar(x);
    if |c| == 1 {
      assert c == [t[n - 1]];
    } else if |c| == 2 {
      assert c == [t[n - 2], t[n - 1]];
    } else if |c| == 3 {
      assert c == [t[n - 3], t[n - 2], t[n - 1]];
    }
  }

  /** No white-space character takes four octets. */
  lemma WholeChar(x: Scalar)
    ensures |EncodeChar(x)| == 4 ==> !WhiteSpace(x)
  {
  }

  lemma {:induction false} TrimStartText(pre: seq<Scalar>, rest: seq<Scalar>)
    requires Blank(pre) && (rest == [] || !WhiteSpace(rest[0]))
    ensures TrimStart(EncodeText(pre + rest)) == EncodeText(rest)
  {
    hide CharLen, EncodeChar, IsSpaceChar, WhiteSpace;
    var xs := pre + rest;
    if xs != [] {
      var c, more := EncodeChar(xs[0]), EncodeText(xs[1..]);
      CharLenOf(xs[0], more);
      SpaceChar(xs[0]);
      assert (c + more)[..|c|] == c && (c + more)[|c|..] == more;
      if pre == [] {
        assert xs == rest;
      } else {
        assert pre[0] in pre && xs[1..] == pre[1..] + rest;
        TrimStartText(pre[1..], rest);
      }
    } else {
      assert rest == xs;
    }
  }

  lemma {:induction false} TrimEndText(mid: seq<Scalar>, post: seq<Scalar>)
    requires Blank(post) && (mid == [] || !WhiteSpace(mid[|mid| - 1]))
    ensures TrimEnd(EncodeText(mid + post)) == EncodeText(mid)
    decreases |post|
  {
    hide EncodeChar, IsSpaceChar, WhiteSpace, SpaceAtEnd;
    if post != [] {
      var n := |post| - 1;
      var xs := mid + post[..n];
      assert mid + post == xs + [post[n]] && post[n] in post;
      EncodeSnoc(xs, post[n]);
      SpaceAtEndOf(EncodeText(xs), post[n]);
      var t, c := EncodeText(xs), EncodeChar(post[n]);
      assert (t + c)[..|t + c| - |c|] == t;
      TrimEndText(mid, post[..n]);
    } else if mid != [] {
      var n := |mid| - 1;
      assert mid == mid[..n] + [mid[n]] && mid + post == mid;
      EncodeSnoc(mid[..n], mid[n]);
      SpaceAtEndOf(EncodeText(mid[..n]), mid[n]);
    } else {
      assert mid + post == [];
      NothingAtEnd();
    }
  }

  lemma NothingAtEnd()
    ensures SpaceAtEnd([]) == 0
  {
  }

  /** Trimming removes exactly the white-space characters at both ends. */
  lemma TrimExact(pre: seq<Scalar>, mid: seq<Scalar>, post: seq<Scalar>)
    requires Blank(pre) && Blank(post)
    requires mid != [] ==> !WhiteSpace(mid[0]) && !WhiteSpace(mid[|mid| - 1])
    ensures TrimEnd(TrimStart(EncodeText(pre + mid + post))) == EncodeText(mid)
  {
    hide TrimStart, TrimEnd, EncodeText, WhiteSpace;
    if mid == [] {
      assert pre + mid + post == (pre + post) + [] && Blank(pre + post);
      TrimStartText(pre + post, []);
      TrimEndText([], []);
      assert mid + [] == mid;
    } else {
      assert pre + mid + post == pre + (mid + post);
      TrimStartText(pre, mid + post);
      TrimEndText(mid, post);
    }
  }

  /** One more line: it is trimmed, and dropped when nothing is left of it. */
  lemma CleanLinesStep(pre: seq<Scalar>, mid: seq<Scalar>, post: seq<Scalar>, rest: seq<Bytes>)
    requires Blank(pre) && Blank(post)
    requires mid != [] ==> !WhiteSpace(mid[0]) && !WhiteSpace(mid[|mid| - 1])
    ensures CleanLines([EncodeText(pre + mid + post)] + rest) ==
              (if mid == [] then [] else [EncodeText(mid)]) + CleanLines(rest)
  {
    hide TrimStart, TrimEnd, WhiteSpace, EncodeChar;
    TrimExact(pre, mid, post);
    var line := EncodeText(pre + mid + post);
    assert ([line] + rest)[1..] == rest;
  }

  // ----- a block with spacing -----

  lemma {:induction false} AsciiText(s: Bytes) returns (xs: seq<Scalar>)
    requires forall c :: c in s ==> c < 0x80
    ensures |xs| == |s| && (forall i :: 0 <= i < |s| ==> xs[i] == s[i]) && EncodeText(xs) == s
  {
    if s == [] {
      xs := [];
    } else {
      assert s[0] in s && forall c :: c in s[1..] ==> c in s;
      var rest := AsciiText(s[1..]);
      xs := [s[0]] + rest;
      assert EncodeChar(xs[0]) == [s[0]];
      assert xs[1..] == rest && s == [s[0]] + s[1..];
    }
  }

  lemma {:induction false} EncodeConcat(a: seq<Scalar>, b: seq<Scalar>)
    ensures EncodeText(a + b) == EncodeText(a) + EncodeText(b)
  {
    hide EncodeChar;
    if a == [] {
      assert a + b == b;
    } else {
      EncodeConcat(a[1..], b);
      assert (a + b)[1..] == a[1..] + b;
      Assoc(EncodeChar(a[0]), EncodeText(a[1..]), EncodeText(b));
    }
  }

  lemma Assoc(x: Bytes, y: Bytes, z: Bytes)
    ensures x + (y + z) == x + y + z
  {
  }

  /** White space to put before and after a line, on the same line. */
  datatype Margin = Margin(before: seq<Scalar>, after: seq<Scalar>)

  predicate Margins(ms: seq<Margin>) {
    forall m :: m in ms ==> Blank(m.before) && Blank(m.after) && 0x0A !in m.before && 0x0A !in m.after
  }

  function Spaced(line: Bytes, m: Margin): Bytes { EncodeText(m.before) + line + EncodeText(m.after) }

  function SpacedLines(lines: seq<Bytes>, ms: seq<Margin>): seq<Bytes>
    requires |lines| == |ms|
  {
    if lines == [] then [] else [Spaced(lines[0], ms[0])] + SpacedLines(lines[1..], ms[1..])
  }

  lemma SpacedLine(line: Bytes, m: Margin, rest: seq<Bytes>)
    requires Solid(line) && Blank(m.before) && Blank(m.after) && 0x0A !in m.before && 0x0A !in m.after
    ensures CleanLines([Spaced(line, m)] + rest) == [line] + CleanLines(rest)
    ensures NL !in Spaced(line, m) && IsUtf8(Spaced(line, m))
  {
    hide CleanLines, EncodeText, IsUtf8;
    var mid := AsciiText(line);
    EncodeConcat(m.before, mid);
    EncodeConcat(m.before + mid, m.after);
    CleanLinesStep(m.before, mid, m.after, rest);
    EncodedIsUtf8(m.before + mid + m.after);
    AsciiOctet(m.before, NL);
    AsciiOctet(m.after, NL);
  }

  lemma {:induction false} SpacedBlock(lines: seq<Bytes>, ms: seq<Margin>)
    requires |lines| == |ms| && Margins(ms) && forall p :: p in lines ==> Solid(p)
    ensures CleanLines(SpacedLines(lines, ms) + [[]]) == lines
    ensures forall p :: p in SpacedLines(lines, ms) ==> NL !in p && IsUtf8(p)
  {
    hide CleanLines, Spaced, Solid, IsUtf8, Blank;
    if lines == [] {
      CleanSolid([]);
    } else {
      assert ms[0] in ms && lines[0] in lines;
      var rest := SpacedLines(lines[1..], ms[1..]);
      SpacedBlock(lines[1..], ms[1..]);
      SpacedLine(lines[0], ms[0], rest + [[]]);
      assert SpacedLines(lines, ms) + [[]] == [Spaced(lines[0], ms[0])] + (rest + [[]]);
    }
  }

  lemma {:induction false} BlockUtf8(parts: seq<Bytes>)
    requires forall p :: p in parts ==> IsUtf8(p)
    ensures IsUtf8(Terminated(parts, NL))
  {
    if parts != [] {
      assert IsUtf8([NL]);
      hide IsUtf8;
      BlockUtf8(parts[1..]);
      Utf8Concat(parts[0], [NL]);
      Utf8Concat(parts[0] + [NL], Terminated(parts[1..], NL));
    }
  }

  /** A certificate block decodes to the certificate whatever white space stands around its
      lines: indentation, trailing blanks, carriage returns before the newlines. */
  lemma SpacedRoundTrip(der: Bytes, ms: seq<Margin>)
    requires der != [] && |ms| == |Lines(der)| && Margins(ms)
    ensures DecodeCertificate(Terminated(SpacedLines(Lines(der), ms), NL)) == Some(der)
  {
    hide Base64.Encode, Base64.Decode, Terminated, SplitOn, CleanLines, Begin, End, Solid, IsUtf8, Concat;
    hide Chunks, Spaced, SpacedLines, DecodeCertificate;
    var lines := Lines(der);
    var parts := SpacedLines(lines, ms);
    var text := Terminated(parts, NL);
    LinesSolid(der);
    SpacedBlock(lines, ms);
    SplitTerminatedLines(parts);
    BlockUtf8(parts);
    ChunksJoin(Base64.Encode(der));
    assert lines == [Begin()] + Chunks(Base64.Encode(der)) + [End()];
    DecodeCertificateExact(text, der);
  }
}
