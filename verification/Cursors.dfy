/** The search-after cursor of internal/query/query.go: a JSON payload, its HMAC (RFC 2104) and base64url
    (section 5 of RFC 4648), all three library code known by their laws only. */
module Cursors {

  type Bytes = seq<bv8>

  /** `values` in the source is always the pair (score, id) of the last hit. */
  datatype Payload = Payload(score: real, values: string, docId: string, generation: nat, expires: int)

  datatype Codec = Codec(key: Bytes, marshal: Payload -> Bytes, unmarshal: Bytes -> Decoded,
                         sign: (Bytes, Bytes) -> Bytes, encode64: Bytes -> string, decode64: string -> Raw)

  datatype Decoded = NotJSON | JSON(payload: Payload)

  datatype Raw = NotBase64 | Raw(bytes: Bytes)

  /** The same payload but for the score: there are more reals than byte sequences, and nobody reads it back. */
  predicate SamePlace(p: Payload, q: Payload)
  {
    p.(score := q.score) == q
  }

  ghost predicate Laws(c: Codec)
  {
    && (forall p :: c.unmarshal(c.marshal(p)).JSON? && SamePlace(c.unmarshal(c.marshal(p)).payload, p))
    && (forall b, k :: |c.sign(b, k)| == 32)
    && (forall b :: c.decode64(c.encode64(b)) == Raw(b))
    && c.decode64("") == Raw([])
  }

  datatype CursorError = Invalid | SignatureMismatch | InvalidPayload | Expired

  datatype Reading = Read(payload: Payload) | Refused(error: CursorError)

  function Encode(c: Codec, p: Payload): string
  {
    var raw := c.marshal(p);
    c.encode64(raw + c.sign(raw, c.key))
  }

  function Decode(c: Codec, value: string, now: int): Reading
  {
    var raw := c.decode64(value);
    if raw.NotBase64? || |raw.bytes| < 32 then Refused(Invalid)
    else
      var body, sig := raw.bytes[..|raw.bytes| - 32], raw.bytes[|raw.bytes| - 32..];
      if sig != c.sign(body, c.key) then Refused(SignatureMismatch)
      else
        var p := c.unmarshal(body);
        if p.NotJSON? then Refused(InvalidPayload)
        else if now > p.payload.expires then Refused(Expired)
        else Read(p.payload)
  }

  /** A cursor reads back as what was put into it, but for the score, until it expires; and it is never the empty
      string, which stands for "no cursor". */
  lemma CursorRoundTrip(c: Codec, p: Payload, now: int)
    requires Laws(c)
    ensures
      match Decode(c, Encode(c, p), now)
      case Read(q) => now <= p.expires && SamePlace(q, p)
      case Refused(e) => now > p.expires && e == Expired
    ensures Encode(c, p) != ""
  {
    var raw := c.marshal(p);
    var sig := c.sign(raw, c.key);
    var all := raw + sig;
    assert c.decode64(c.encode64(all)) == Raw(all);
    assert all[..|all| - 32] == raw && all[|all| - 32..] == sig;
  }

  /** A string that holds this payload, signed with the codec's own key. */
  ghost predicate IsSigned(c: Codec, value: string, p: Payload)
  {
    exists body :: c.decode64(value) == Raw(body + c.sign(body, c.key)) && c.unmarshal(body) == JSON(p)
  }

  /** A string reads back as a payload exactly if it is that payload, signed with the codec's own key, and has not
      expired. */
  lemma ReadsBackIff(c: Codec, value: string, p: Payload, now: int)
    requires Laws(c)
    ensures Decode(c, value, now) == Read(p) <==> IsSigned(c, value, p) && now <= p.expires
  {
    if Decode(c, value, now).Read? {
      var all := c.decode64(value).bytes;
      var body := all[..|all| - 32];
      assert all == body + all[|all| - 32..];
      assert c.decode64(value) == Raw(body + c.sign(body, c.key));
    }
    if body :| c.decode64(value) == Raw(body + c.sign(body, c.key)) && c.unmarshal(body) == JSON(p) {
      var sig := c.sign(body, c.key);
      assert (body + sig)[..|body + sig| - 32] == body && (body + sig)[|body + sig| - 32..] == sig;
    }
  }
}
