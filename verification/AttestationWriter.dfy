/** The hand-written encoder as the source runs it: writers that append to a buffer. */
module AttestationWriter {
  import opened Octets
  import opened BigEndian
  import opened Cbor
  import A = Attestation
  import Utf8

  class Buffer {
    var data: Bytes

    constructor ()
      ensures data == []
    {
      data := [];
    }

    method Push(b: Byte)
      modifies this
      ensures data == old(data) + [b]
    {
      data := data + [b];
    }

    method Extend(b: Bytes)
      modifies this
      ensures data == old(data) + b
    {
      data := data + b;
    }

    /** The narrowest of the five head forms that holds the value. */
    method WriteHead(major: nat, value: nat)
      requires major < 8 && value < U64_LIMIT
      modifies this
      ensures data == old(data) + Head(major, value)
      ensures data == old(data) + HeadOctets(major, value)
    {
      HeadIs(major, value);
      var majorBits := 32 * major;
      if value < 0x100 {
        if value < 24 {
          Push(majorBits + value);
        } else {
          Push(majorBits + 24);
          Push(value);
          assert ToBe(value, 1) == ToBe(0, 0) + [value];
        }
      } else if value < 0x1_0000 {
        Push(majorBits + 25);
        Extend(ToBe(value, 2));
      } else if value < 0x1_0000_0000 {
        Push(majorBits + 26);
        Extend(ToBe(value, 4));
      } else {
        Push(majorBits + 27);
        Extend(ToBe(value, 8));
      }
    }

    /** Non-negative integers use major type 0, negative ones -1 - n in major type 1. */
    method WriteI64(value: A.Timestamp)
      modifies this
      ensures data == old(data) + Enc(A.Int(value))
      ensures data == old(data) + if value >= 0 then HeadOctets(0, value) else HeadOctets(1, -1 - value)
    {
      A.IntOctets(value);
      if value >= 0 {
        WriteHead(0, value);
      } else {
        var magnitude: int := -1 - value;
        WriteHead(1, magnitude);
      }
    }
  }

  method BuildProtected(signer: Digest) returns (out: Bytes)
    ensures out == A.ProtectedBytes(signer)
  {
    hide Head, HeadOctets, Enc, Utf8.IsUtf8, A.ContentType, A.ProtectedBytes, A.Int;
    A.TextConstants();
    A.SmallItems();
    A.ProtectedParts(signer);
    var buf := new Buffer();
    buf.WriteHead(5, 3);
    buf.WriteHead(0, 1);
    buf.WriteI64(-8);
    buf.WriteHead(0, 3);
    buf.WriteHead(3, |A.ContentType()|);
    buf.Extend(A.ContentType());
    buf.WriteHead(0, 4);
    buf.WriteHead(2, |signer|);
    buf.Extend(signer);
    out := buf.data;
  }

  method BuildClaims(payloadHash: Digest, timestamp: A.Timestamp) returns (out: Bytes)
    ensures out == A.ClaimsBytes(payloadHash, timestamp)
  {
    hide Head, HeadOctets, A.ClaimsBytes, Enc;
    A.ClaimsParts(payloadHash, timestamp);
    var buf := new Buffer();
    buf.WriteHead(5, 2);
    buf.WriteHead(0, 1);
    buf.WriteHead(2, |payloadHash|);
    buf.Extend(payloadHash);
    buf.WriteHead(0, 2);
    buf.WriteI64(timestamp);
    out := buf.data;
  }

  method BuildSigStructure(signer: Digest, payloadHash: Digest, timestamp: A.Timestamp) returns (out: Bytes)
    ensures out == A.SigBytes(signer, payloadHash, timestamp)
  {
    hide Head, HeadOctets, Enc, Utf8.IsUtf8, A.Context, A.SigBytes, A.ProtectedBytes, A.ClaimsBytes;
    A.TextConstants();
    A.SigParts(signer, payloadHash, timestamp);
    var protected := BuildProtected(signer);
    var claims := BuildClaims(payloadHash, timestamp);
    var buf := new Buffer();
    buf.WriteHead(4, 4);
    buf.WriteHead(3, |A.Context()|);
    buf.Extend(A.Context());
    buf.WriteHead(2, |protected|);
    buf.Extend(protected);
    buf.WriteHead(2, 0);
    buf.WriteHead(2, |claims|);
    buf.Extend(claims);
    out := buf.data;
  }

  method BuildArtifact(a: A.Attestation) returns (out: Bytes)
    ensures out == A.ToCose(a)
  {
    hide Head, HeadOctets, Enc, Utf8.IsUtf8, A.ToCose, A.ProtectedBytes, A.ClaimsBytes;
    A.ArtifactParts(a);
    var protected := BuildProtected(a.signer);
    var claims := BuildClaims(a.payloadHash, a.timestamp);
    var buf := new Buffer();
    buf.WriteHead(6, A.COSE_SIGN1_TAG);
    buf.WriteHead(4, 4);
    buf.WriteHead(2, |protected|);
    buf.Extend(protected);
    buf.WriteHead(5, 0);
    buf.WriteHead(2, |claims|);
    buf.Extend(claims);
    buf.WriteHead(2, |a.signature|);
    buf.Extend(a.signature);
    out := buf.data;
  }
}
