/** The answer to a WebSocket handshake (RFC 6455 section 1.3). */
module Handshake {
  import opened Bytes
  import opened Wrappers
  import Base64
  import Sha1s

  const MAGIC_GUID := "258EAFA5-E914-47DA-95CA-C5AB0DC85B11"

  /** What is hashed: the client key followed by the GUID of the protocol. */
  function Combined(clientKey: seq<byte>): seq<byte> {
    clientKey + Ascii(MAGIC_GUID)
  }

  /** The accept key encodes the SHA-1 digest and decodes to it, and is 28 characters ending in exactly one '='. */
  method ComputeAcceptKey(clientKey: seq<byte>) returns (accept: string)
    ensures accept == Base64.Encode(Sha1s.Digest(Combined(clientKey)))
    ensures Base64.Decode(accept) == Some(Sha1s.Digest(Combined(clientKey)))
    ensures Base64.DigestShaped(accept)
  {
    hide Combined, Base64.Encode, Base64.Decode, Base64.DigestShaped, Sha1s.Digest;
    var combined := Combined(clientKey);
    var s := new Sha1s.Sha1();
    assert [] + combined == combined;
    s.Update(combined);
    var digest := s.Final();
    accept := Base64.Base64Encode(digest);
    Base64.DecodeEncode(digest);
    Base64.DigestShape(digest);
    assert Base64.DigestShaped(accept);
  }
}
