/** CBOR (RFC 8949): a deterministic encoder and a decoder that accepts everything the
    encoder never writes as well: long-form heads, indefinite lengths, any nesting. */
module Cbor {
  import opened Octets
  import opened BigEndian
  import Utf8

  /** A map is the flat list key, value, key, value, and so on. `Other` is any item of
      major type 7. */
  datatype Value =
    | Uint(n: nat)
    | Nint(n: nat) // the integer -1 - n
    | Bstr(bytes: Bytes)
    | Tstr(text: Bytes)
    | Arr(items: seq<Value>)
    | Dict(flat: seq<Value>)
    | Tagged(tag: nat, item: Value)
    | Other(info: nat, bits: nat)

  // ----- heads -----

  /** Octets of argument that follow the first octet in the shortest head. */
  function ArgWidth(n: nat): nat {
    if n < 24 then 0 else if n < 0x100 then 1 else if n < 0x1_0000 then 2 else if n < 0x1_0000_0000 then 4 else 8
  }

  function InfoOf(width: nat): nat {
    if width == 1 then 24 else if width == 2 then 25 else if width == 4 then 26 else 27
  }

  /** The shortest head for `major` and `n` (section 4.2.1 of RFC 8949). */
  function Head(major: nat, n: nat): (b: Bytes)
    requires major < 8 && n < U64_LIMIT
    ensures |b| == 1 + ArgWidth(n)
  {
    if n < 24 then [32 * major + n] else [32 * major + InfoOf(ArgWidth(n))] + ToBe(n, ArgWidth(n))
  }

  datatype HeadInfo = HeadInfo(major: nat, info: nat, arg: nat, rest: Bytes)

  function WidthOf(info: nat): nat
    requires 24 <= info < 28
  {
    if info == 24 then 1 else if info == 25 then 2 else if info == 26 then 4 else 8
  }

  /** Any head form; `info` 31 is an indefinite length or a break. */
  function DecodeHead(b: Bytes): (r: Option<HeadInfo>)
    ensures r.Some? ==> |r.value.rest| < |b|
  {
    if b == [] then None
    else
      var major, info := b[0] / 32, b[0] % 32;
      if info < 24 then Some(HeadInfo(major, info, info, b[1..]))
      else if info == 31 then Some(HeadInfo(major, info, 0, b[1..]))
      else if info >= 28 || |b| < 1 + WidthOf(info) then None
      else Some(HeadInfo(major, info, FromBe(b[1..1 + WidthOf(info)]), b[1 + WidthOf(info)..]))
  }

  lemma DecodeHeadOf(major: nat, n: nat, rest: Bytes)
    requires major < 8 && n < U64_LIMIT
    ensures var r := DecodeHead(Head(major, n) + rest);
            r.Some? && r.value.major == major && r.value.arg == n && r.value.info < 31 && r.value.rest == rest
  {
    hide ToBe, FromBe, Exp256;
    var w := ArgWidth(n);
    var b := Head(major, n) + rest;
    Exp256Values();
    if n >= 24 {
      FromToBe(n, w);
      assert b[1..1 + w] == ToBe(n, w);
    }
    assert b[1 + w..] == rest;
  }

  lemma ShortHead(major: nat, n: nat)
    requires major < 8 && n < 24
    ensures Head(major, n) == [32 * major + n]
  {
  }

  lemma LongHead(major: nat, n: nat)
    requires major < 8 && 24 <= n < 256
    ensures Head(major, n) == [32 * major + 24, n]
  {
  }

  /** The five head forms written out, most significant octet first. */
  function HeadOctets(major: nat, n: nat): Bytes
    requires major < 8 && n < U64_LIMIT
  {
    var m := 0x20 * major;
    if n < 24 then [m + n]
    else if n < 0x100 then [m + 24, n]
    else if n < 0x1_0000 then [m + 25, n / 0x100, n % 0x100]
    else if n < 0x1_0000_0000 then [m + 26, n / 0x100_0000, n / 0x1_0000 % 0x100, n / 0x100 % 0x100, n % 0x100]
    else [m + 27, n / 0x100_0000_0000_0000, n / 0x1_0000_0000_0000 % 0x100, n / 0x100_0000_0000 % 0x100,
          n / 0x1_0000_0000 % 0x100, n / 0x100_0000 % 0x100, n / 0x1_0000 % 0x100, n / 0x100 % 0x100, n % 0x100]
  }

  lemma ExpValues()
    ensures Exp256(0) == 1 && Exp256(1) == 0x100 && Exp256(2) == 0x1_0000 && Exp256(3) == 0x100_0000
    ensures Exp256(4) == 0x1_0000_0000 && Exp256(5) == 0x100_0000_0000 && Exp256(6) == 0x1_0000_0000_0000
    ensures Exp256(7) == 0x100_0000_0000_0000
  {
  }

  lemma ToBe2(n: nat)
    requires n < 0x1_0000
    ensures ToBe(n, 2) == [n / 0x100, n % 0x100]
  {
    ExpValues();
    hide ToBe, Exp256;
    ToBeAt(n, 2, 0);
    ToBeAt(n, 2, 1);
  }

  lemma ToBe4(n: nat)
    requires n < 0x1_0000_0000
    ensures ToBe(n, 4) == [n / 0x100_0000, n / 0x1_0000 % 0x100, n / 0x100 % 0x100, n % 0x100]
  {
    ExpValues();
    hide ToBe, Exp256;
    ToBeAt(n, 4, 0);
    ToBeAt(n, 4, 1);
    ToBeAt(n, 4, 2);
    ToBeAt(n, 4, 3);
  }

  lemma ToBe8High(n: nat)
    requires n < U64_LIMIT
    ensures var b := ToBe(n, 8);
            && b[0] == n / 0x100_0000_0000_0000 && b[1] == n / 0x1_0000_0000_0000 % 0x100
            && b[2] == n / 0x100_0000_0000 % 0x100 && b[3] == n / 0x1_0000_0000 % 0x100
  {
    ExpValues();
    hide ToBe, Exp256;
    ToBeAt(n, 8, 0);
    ToBeAt(n, 8, 1);
    ToBeAt(n, 8, 2);
    ToBeAt(n, 8, 3);
  }

  lemma ToBe8Low(n: nat)
    ensures var b := ToBe(n, 8);
            && b[4] == n / 0x100_0000 % 0x100 && b[5] == n / 0x1_0000 % 0x100
            && b[6] == n / 0x100 % 0x100 && b[7] == n % 0x100
  {
    ExpValues();
    hide ToBe, Exp256;
    ToBeAt(n, 8, 4);
    ToBeAt(n, 8, 5);
    ToBeAt(n, 8, 6);
    ToBeAt(n, 8, 7);
  }

  lemma ToBe8(n: nat)
    requires n < U64_LIMIT
    ensures ToBe(n, 8) == [n / 0x100_0000_0000_0000, n / 0x1_0000_0000_0000 % 0x100, n / 0x100_0000_0000 % 0x100,
                           n / 0x1_0000_0000 % 0x100, n / 0x100_0000 % 0x100, n / 0x1_0000 % 0x100, n / 0x100 % 0x100,
                           n % 0x100]
  {
    hide ToBe;
    ToBe8High(n);
    ToBe8Low(n);
  }

  /** The head of every number, octet by octet. */
  lemma HeadIs(major: nat, n: nat)
    requires major < 8 && n < U64_LIMIT
    ensures Head(major, n) == HeadOctets(major, n)
  {
    if n < 0x100 {
      if n >= 24 {
        LongHead(major, n);
      }
    } else if n < 0x1_0000 {
      ToBe2(n);
    } else if n < 0x1_0000_0000 {
      ToBe4(n);
    } else {
      ToBe8(n);
    }
  }

  /** No head is a prefix of another, and what follows is determined too. */
  lemma HeadPrefixFree(major: nat, n: nat, x: Bytes, major': nat, n': nat, y: Bytes)
    requires major < 8 && n < U64_LIMIT && major' < 8 && n' < U64_LIMIT
    requires Head(major, n) + x == Head(major', n') + y
    ensures major == major' && n == n' && x == y
  {
    hide Head, DecodeHead;
    DecodeHeadOf(major, n, x);
    DecodeHeadOf(major', n', y);
  }

  /** No octets that decode to `n` as a definite head are fewer than those of `Head`. */
  lemma HeadShortest(b: Bytes)
    requires DecodeHead(b).Some? && DecodeHead(b).value.info < 31
    ensures var d := DecodeHead(b).value;
            d.major < 8 && d.arg < U64_LIMIT && |Head(d.major, d.arg)| <= |b| - |d.rest|
  {
    hide FromBe, Exp256;
    Exp256Values();
    var info := b[0] % 32;
    if info >= 24 {
      FromBeBound(b[1..1 + WidthOf(info)]);
    }
  }

  // ----- items -----

  function Enc(v: Value): Bytes
    requires Wf(v)
    decreases v, 0
  {
    match v
    case Uint(n) => Head(0, n)
    case Nint(n) => Head(1, n)
    case Bstr(b) => Head(2, |b|) + b
    case Tstr(t) => Head(3, |t|) + t
    case Arr(items) => Head(4, |items|) + EncAll(items)
    case Dict(flat) => Head(5, |flat| / 2) + EncAll(flat)
    case Tagged(tag, item) => Head(6, tag) + Enc(item)
  }

  function EncAll(items: seq<Value>): Bytes
    requires forall i :: 0 <= i < |items| ==> Wf(items[i])
    decreases items, 1
  {
    if items == [] then [] else Enc(items[0]) + EncAll(items[1..])
  }

  /** Values the encoder writes: 64-bit numbers and lengths, UTF-8 text, no major type 7. */
  predicate Wf(v: Value) {
    match v
    case Uint(n) => n < U64_LIMIT
    case Nint(n) => n < U64_LIMIT
    case Bstr(b) => |b| < U64_LIMIT
    case Tstr(t) => |t| < U64_LIMIT && Utf8.IsUtf8(t)
    case Arr(items) => |items| < U64_LIMIT && forall i :: 0 <= i < |items| ==> Wf(items[i])
    case Dict(flat) => |flat| < U64_LIMIT && |flat| % 2 == 0 && forall i :: 0 <= i < |flat| ==> Wf(flat[i])
    case Tagged(tag, item) => tag < U64_LIMIT && Wf(item)
    case Other(_, _) => false
  }

  /** The first item of `b` and the octets after it. */
  function Decode(b: Bytes): (r: Option<(Value, Bytes)>)
    ensures r.Some? ==> |r.value.1| < |b|
    decreases |b|, 0
  {
    match DecodeHead(b)
    case None => None
    case Some(HeadInfo(major, info, arg, rest)) =>
      if major == 0 then (if info == 31 then None else Some((Uint(arg), rest)))
      else if major == 1 then (if info == 31 then None else Some((Nint(arg), rest)))
      else if major == 2 || major == 3 then DecodeString(major, info, arg, rest)
      else if major == 4 || major == 5 then
        match (if info == 31 then DecodeToBreak(rest) else DecodeItems(if major == 4 then arg else 2 * arg, rest))
        case None => None
        case Some((items, after)) =>
          if major == 4 then Some((Arr(items), after))
          else if |items| % 2 == 0 then Some((Dict(items), after)) else None
      else if major == 6 then
        if info == 31 then None
        else
          match Decode(rest)
          case None => None
          case Some((item, after)) => Some((Tagged(arg, item), after))
      else if info == 31 then None
      else Some((Other(info, arg), rest))
  }

  function DecodeItems(count: nat, b: Bytes): (r: Option<(seq<Value>, Bytes)>)
    ensures r.Some? ==> |r.value.1| <= |b| && |r.value.0| == count
    decreases |b|, 1
  {
    if count == 0 then Some(([], b))
    else
      match Decode(b)
      case None => None
      case Some((v, rest)) =>
        match DecodeItems(count - 1, rest)
        case None => None
        case Some((vs, after)) => Some(([v] + vs, after))
  }

  function DecodeToBreak(b: Bytes): (r: Option<(seq<Value>, Bytes)>)
    ensures r.Some? ==> |r.value.1| < |b|
    decreases |b|, 1
  {
    if b == [] then None
    else if b[0] == 0xFF then Some(([], b[1..]))
    else
      match Decode(b)
      case None => None
      case Some((v, rest)) =>
        match DecodeToBreak(rest)
        case None => None
        case Some((vs, after)) => Some(([v] + vs, after))
  }

  function DecodeString(major: nat, info: nat, arg: nat, rest: Bytes): (r: Option<(Value, Bytes)>)
    ensures r.Some? ==> |r.value.1| <= |rest|
  {
    if info == 31 then
      match DecodeChunks(major, rest)
      case None => None
      case Some((s, after)) => Some((if major == 2 then Bstr(s) else Tstr(s), after))
    else if arg > |rest| then None
    else if major == 2 then Some((Bstr(rest[..arg]), rest[arg..]))
    else if Utf8.IsUtf8(rest[..arg]) then Some((Tstr(rest[..arg]), rest[arg..]))
    else None
  }

  /** Definite strings of one kind up to a break. */
  function DecodeChunks(major: nat, b: Bytes): (r: Option<(Bytes, Bytes)>)
    ensures r.Some? ==> |r.value.1| < |b|
    decreases |b|
  {
    if b == [] then None
    else if b[0] == 0xFF then Some(([], b[1..]))
    else
      match DecodeHead(b)
      case None => None
      case Some(HeadInfo(m, info, arg, rest)) =>
        if m != major || info == 31 || arg > |rest| || (major == 3 && !Utf8.IsUtf8(rest[..arg])) then None
        else
          match DecodeChunks(major, rest[arg..])
          case None => None
          case Some((s, after)) => Some((rest[..arg] + s, after))
  }

  /** Decoding inverts encoding, whatever follows. */
  lemma {:induction false} DecodeEnc(v: Value, rest: Bytes)
    requires Wf(v)
    ensures Decode(Enc(v) + rest) == Some((v, rest))
    decreases v, 0
  {
    hide Head, DecodeHead, Decode;
    match v {
      case Uint(n) => DecodeNumberOf(0, n, rest);
      case Nint(n) => DecodeNumberOf(1, n, rest);
      case Bstr(b) => DecodeStringOf(2, b, rest);
      case Tstr(t) => DecodeStringOf(3, t, rest);
      case Arr(items) =>
        DecodeEncAll(items, rest);
        DecodeListOf(4, items, EncAll(items), rest);
      case Dict(flat) =>
        DecodeEncAll(flat, rest);
        DecodeListOf(5, flat, EncAll(flat), rest);
      case Tagged(tag, item) =>
        DecodeEnc(item, rest);
        DecodeTagOf(tag, item, Enc(item), rest);
    }
  }

  lemma DecodeNumberOf(major: nat, n: nat, rest: Bytes)
    requires major < 2 && n < U64_LIMIT
    ensures Decode(Head(major, n) + rest) == Some((if major == 0 then Uint(n) else Nint(n), rest))
  {
    hide Head, DecodeHead;
    DecodeHeadOf(major, n, rest);
  }

  lemma DecodeListOf(major: nat, items: seq<Value>, body: Bytes, rest: Bytes)
    requires (major == 4 || major == 5) && |items| < U64_LIMIT && (major == 5 ==> |items| % 2 == 0)
    requires DecodeItems(|items|, body + rest) == Some((items, rest))
    ensures Decode(Head(major, if major == 4 then |items| else |items| / 2) + body + rest)
         == Some((if major == 4 then Arr(items) else Dict(items), rest))
  {
    hide Head, DecodeHead, DecodeItems;
    var n := if major == 4 then |items| else |items| / 2;
    DecodeHeadOf(major, n, body + rest);
    assert Head(major, n) + body + rest == Head(major, n) + (body + rest);
  }

  lemma DecodeTagOf(tag: nat, item: Value, body: Bytes, rest: Bytes)
    requires tag < U64_LIMIT && Decode(body + rest) == Some((item, rest))
    ensures Decode(Head(6, tag) + body + rest) == Some((Tagged(tag, item), rest))
  {
    hide Head, DecodeHead;
    DecodeHeadOf(6, tag, body + rest);
    assert Head(6, tag) + body + rest == Head(6, tag) + (body + rest);
  }

  /** A tag written in two octets where one would do is decoded all the same. */
  lemma DecodeLongTag(tag: nat, item: Value, body: Bytes)
    requires tag < 256 && Decode(body) == Some((item, []))
    ensures Decode([0xD8, tag] + body) == Some((Tagged(tag, item), []))
  {
    var b := [0xD8, tag] + body;
    assert b[1..2] == [tag] && b[2..] == body;
    assert FromBe([tag]) == 256 * FromBe([tag][..0]) + tag;
    hide Decode;
    assert DecodeHead(b) == Some(HeadInfo(6, 24, tag, body));
    DecodeTagged(b, 24, tag, body, item);
  }

  lemma DecodeTagged(b: Bytes, info: nat, tag: nat, body: Bytes, item: Value)
    requires DecodeHead(b) == Some(HeadInfo(6, info, tag, body)) && info < 31 && Decode(body) == Some((item, []))
    ensures Decode(b) == Some((Tagged(tag, item), []))
  {
  }

  lemma DecodeStringOf(major: nat, s: Bytes, rest: Bytes)
    requires (major == 2 || major == 3) && |s| < U64_LIMIT && (major == 3 ==> Utf8.IsUtf8(s))
    ensures Decode(Head(major, |s|) + s + rest) == Some((if major == 2 then Bstr(s) else Tstr(s), rest))
  {
    hide Head, DecodeHead, Utf8.IsUtf8;
    DecodeHeadOf(major, |s|, s + rest);
    assert Head(major, |s|) + s + rest == Head(major, |s|) + (s + rest);
    assert (s + rest)[..|s|] == s && (s + rest)[|s|..] == rest;
  }

  lemma {:induction false} DecodeEncAll(items: seq<Value>, rest: Bytes)
    requires forall i :: 0 <= i < |items| ==> Wf(items[i])
    ensures DecodeItems(|items|, EncAll(items) + rest) == Some((items, rest))
    decreases items, 1
  {
    hide Decode, Enc, Wf;
    if items == [] {
      assert EncAll(items) + rest == rest;
    } else {
      var tail := EncAll(items[1..]) + rest;
      DecodeEnc(items[0], tail);
      DecodeEncAll(items[1..], rest);
      assert EncAll(items) + rest == Enc(items[0]) + tail;
      assert items == [items[0]] + items[1..];
    }
  }

  /** Equal encodings, followed by anything, mean equal values. */
  lemma EncInjective(v: Value, x: Bytes, w: Value, y: Bytes)
    requires Wf(v) && Wf(w) && Enc(v) + x == Enc(w) + y
    ensures v == w && x == y
  {
    hide Decode, Enc;
    DecodeEnc(v, x);
    DecodeEnc(w, y);
  }
}
