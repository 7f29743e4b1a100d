/** Proof nodes as bytes and as artifact text. */
module ProofText {
  import opened Octets
  import Base64

  /** The byte form of a proof: its digests, concatenated. */
  function Join(path: seq<Digest>): (b: Bytes)
    ensures |b| == 32 * |path|
  {
    if path == [] then [] else path[0] + Join(path[1..])
  }

  /** A byte form is accepted when it is a whole number of digests. */
  function Nodes(b: Bytes): (r: Option<seq<Digest>>)
    ensures r.Some? <==> |b| % 32 == 0
  {
    if b == [] then Some([])
    else if |b| < 32 then None
    else
      match Nodes(b[32..])
      case None => None
      case Some(rest) => Some([b[..32]] + rest)
  }

  /** Each node is where the byte form has it. */
  lemma {:induction false} JoinAt(path: seq<Digest>, i: nat)
    requires i < |path|
    ensures Join(path)[32 * i..32 * i + 32] == path[i]
  {
    if i > 0 {
      JoinAt(path[1..], i - 1);
      assert Join(path)[32..] == Join(path[1..]);
      assert Join(path)[32 * i..32 * i + 32] == Join(path)[32..][32 * (i - 1)..32 * (i - 1) + 32];
    }
  }

  lemma {:induction false} NodesJoin(path: seq<Digest>)
    ensures Nodes(Join(path)) == Some(path)
  {
    if path != [] {
      NodesJoin(path[1..]);
      assert Join(path)[..32] == path[0] && Join(path)[32..] == Join(path[1..]);
      assert path == [path[0]] + path[1..];
    }
  }

  lemma {:induction false} JoinNodes(b: Bytes)
    requires Nodes(b).Some?
    ensures Join(Nodes(b).value) == b
  {
    if b != [] {
      JoinNodes(b[32..]);
      assert Nodes(b).value[1..] == Nodes(b[32..]).value;
    }
  }

  /** The text of each node, in order. */
  function Texts(path: seq<Digest>): (t: seq<Bytes>)
    ensures |t| == |path| && forall i :: 0 <= i < |t| ==> t[i] == Base64.Encode(path[i])
  {
    if path == [] then [] else [Base64.Encode(path[0])] + Texts(path[1..])
  }

  /** Base64 text of every 32-byte node; a remainder is refused. */
  function ChunkProofBytes(b: Bytes): Option<seq<Bytes>> {
    match Nodes(b)
    case None => None
    case Some(path) => Some(Texts(path))
  }

  /** The concatenation of the decoded entries, each of which must have 32 octets. */
  function DecodeHashes(hashes: seq<Bytes>): Option<Bytes> {
    if hashes == [] then Some([])
    else
      match (Base64.Decode(hashes[0]), DecodeHashes(hashes[1..]))
      case (Some(d), Some(rest)) => if |d| == 32 then Some(d + rest) else None
      case _ => None
  }

  /** The decoding loop: a buffer extended entry by entry. */
  method DecodeHashEntries(hashes: seq<Bytes>) returns (r: Option<Bytes>)
    ensures r == DecodeHashes(hashes)
  {
    hide Base64.Decode;
    var buffer: Bytes := [];
    assert hashes[0..] == hashes;
    assert DecodeHashes(hashes).Some? ==> buffer + DecodeHashes(hashes).value == DecodeHashes(hashes).value;
    for i := 0 to |hashes|
      invariant DecodeHashes(hashes) == match DecodeHashes(hashes[i..])
                                        case None => None
                                        case Some(rest) => Some(buffer + rest)
    {
      assert hashes[i..][1..] == hashes[i + 1..];
      var decoded := Base64.Decode(hashes[i]);
      if decoded.None? {
        return None;
      }
      if |decoded.value| != 32 {
        return None;
      }
      ghost var rest := DecodeHashes(hashes[i + 1..]);
      if rest.Some? {
        assert buffer + (decoded.value + rest.value) == (buffer + decoded.value) + rest.value;
      }
      buffer := buffer + decoded.value;
    }
    assert buffer + [] == buffer;
    return Some(buffer);
  }

  /** Chunking and decoding are inverse: exactly the texts of the nodes decode to them. */
  lemma {:induction false} DecodeHashesExact(hashes: seq<Bytes>, path: seq<Digest>)
    ensures DecodeHashes(hashes) == Some(Join(path)) <==> hashes == Texts(path)
  {
    hide Base64.Decode, Base64.Encode;
    if hashes != [] && path != [] {
      var d, rest := Base64.Decode(hashes[0]), DecodeHashes(hashes[1..]);
      DecodeHashesExact(hashes[1..], path[1..]);
      Base64.DecodeEncode(path[0]);
      assert hashes == [hashes[0]] + hashes[1..];
      if DecodeHashes(hashes) == Some(Join(path)) {
        Base64.EncodeDecode(hashes[0]);
        assert d.value == Join(path)[..32] && rest.value == Join(path)[32..];
        assert Join(path)[..32] == path[0] && Join(path)[32..] == Join(path[1..]);
      }
    }
  }

  /** Entries decode exactly when each one does, to 32 octets, and then to a whole number
      of digests. */
  lemma {:induction false} DecodedIsWhole(hashes: seq<Bytes>)
    ensures DecodeHashes(hashes).Some? <==>
              forall t :: t in hashes ==> Base64.Decode(t).Some? && |Base64.Decode(t).value| == 32
    ensures DecodeHashes(hashes).Some? ==> |DecodeHashes(hashes).value| == 32 * |hashes|
  {
    hide Base64.Decode;
    if hashes != [] {
      DecodedIsWhole(hashes[1..]);
      assert hashes[0] in hashes && forall t :: t in hashes <==> t == hashes[0] || t in hashes[1..];
      assert DecodeHashes(hashes).Some? ==> DecodeHashes(hashes[1..]).Some?;
    }
  }
}
