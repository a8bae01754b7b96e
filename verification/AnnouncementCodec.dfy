/**
 The wire format of provider announcements
 (machineplane/machine/src/provider/announcements.rs:83-254). Peer ids, manifest ids and
 metadata are carried as the bytes on the wire; whether the libraries accept them is a parameter.
 */
module AnnouncementCodec {
  import opened Basics

  type Byte = x: int | 0 <= x < 256
  type Bytes = seq<Byte>

  /** Timestamps are nanoseconds relative to the Unix epoch. */
  datatype Announcement = Announcement(peerId: Bytes, manifestId: Bytes, timestamp: int, ttlSeconds: nat,
                                       metadata: Bytes, signature: Option<Bytes>)

  /**
   What `PeerId::from_bytes`, `String::from_utf8` and `serde_json::from_str` accept, and the
   last second since the epoch that the platform's clock type can represent.
   */
  datatype Formats = Formats(isPeerId: Bytes -> bool, isUtf8: Bytes -> bool, isMetadata: Bytes -> bool, lastSecond: nat)

  datatype Field = PeerIdField | ManifestIdField | TimestampField | TtlField | MetadataField | SignatureFlag | SignatureField

  /** Overflow is no error value: adding the seconds to the epoch stops the program. */
  datatype Error = Missing(field: Field) | TooShort(field: Field) | Malformed(field: Field) | Overflow

  datatype Result<T> = Ok(value: T) | Err(error: Error)

  // ---------- big-endian integers ----------

  /** The low `width` bytes of n, most significant first; `as u32` keeps four of them. */
  function BeBytes(n: nat, width: nat): (r: Bytes)
    ensures |r| == width
  {
    if width == 0 then [] else BeBytes(n / 256, width - 1) + [n % 256]
  }

  function FromBe(bs: Bytes): nat {
    if bs == [] then 0 else FromBe(bs[..|bs| - 1]) * 256 + bs[|bs| - 1]
  }

  function Capacity(width: nat): nat {
    if width == 0 then 1 else 256 * Capacity(width - 1)
  }

  lemma {:induction false} BeRoundTrip(n: nat, width: nat)
    requires n < Capacity(width)
    ensures FromBe(BeBytes(n, width)) == n
  {
    if width > 0 {
      BeRoundTrip(n / 256, width - 1);
      var r := BeBytes(n, width);
      assert r[..width - 1] == BeBytes(n / 256, width - 1);
    }
  }

  lemma {:induction false} BeUnique(bs: Bytes)
    ensures FromBe(bs) < Capacity(|bs|)
    ensures BeBytes(FromBe(bs), |bs|) == bs
  {
    if bs != [] {
      var n := |bs| - 1;
      BeUnique(bs[..n]);
      assert FromBe(bs) / 256 == FromBe(bs[..n]) && FromBe(bs) % 256 == bs[n];
      assert bs == bs[..n] + [bs[n]];
    }
  }

  lemma {:induction false} Widths()
    ensures Capacity(4) == 0x1_0000_0000
    ensures Capacity(8) == 0x1_0000_0000_0000_0000
  {
    assert Capacity(2) == 65536;
    assert Capacity(4) == 256 * (256 * Capacity(2));
    assert Capacity(6) == 256 * (256 * Capacity(4));
  }

  /** The wire form of a four-byte number: the most significant byte first. */
  function Four(n: nat): Bytes {
    [n / 0x100_0000 % 256, n / 0x1_0000 % 256, n / 0x100 % 256, n % 256]
  }

  /** The wire form of an eight-byte number. */
  function Eight(n: nat): Bytes {
    [n / 0x100_0000_0000_0000 % 256, n / 0x1_0000_0000_0000 % 256, n / 0x100_0000_0000 % 256, n / 0x1_0000_0000 % 256,
     n / 0x100_0000 % 256, n / 0x1_0000 % 256, n / 0x100 % 256, n % 256]
  }

  lemma {:induction false} Quotients(n: nat)
    ensures n / 0x100 / 0x100 == n / 0x1_0000
    ensures n / 0x1_0000 / 0x100 == n / 0x100_0000
    ensures n / 0x100_0000 / 0x100 == n / 0x1_0000_0000
  {
  }

  lemma {:induction false} LargeQuotients(n: nat)
    ensures n / 0x1_0000_0000 / 0x100 == n / 0x100_0000_0000
    ensures n / 0x1_0000_0000 / 0x1_0000 == n / 0x1_0000_0000_0000
    ensures n / 0x1_0000_0000 / 0x100_0000 == n / 0x100_0000_0000_0000
  {
  }

  /** The last four bytes of any width, most significant first. */
  lemma {:induction false} LastFour(n: nat, width: nat)
    ensures BeBytes(n, width + 4) == BeBytes(n / 0x1_0000_0000, width) + Four(n)
  {
    var n1, n2, n3, n4 := n / 0x100, n / 0x1_0000, n / 0x100_0000, n / 0x1_0000_0000;
    Quotients(n);
    assert BeBytes(n, width + 4) == BeBytes(n1, width + 3) + [n % 256];
    assert BeBytes(n1, width + 3) == BeBytes(n2, width + 2) + [n1 % 256];
    assert BeBytes(n2, width + 2) == BeBytes(n3, width + 1) + [n2 % 256];
    assert BeBytes(n3, width + 1) == BeBytes(n4, width) + [n3 % 256];
  }

  /** The place value of every byte that is written. */
  lemma {:induction false} WrittenMostSignificantFirst(n: nat)
    ensures BeBytes(n, 4) == Four(n)
    ensures BeBytes(n, 8) == Eight(n)
  {
    LastFour(n, 0);
    LastFour(n, 4);
    LastFour(n / 0x1_0000_0000, 0);
    LargeQuotients(n);
  }

  lemma {:induction false} FromBeLast(bs: Bytes, x: Byte)
    ensures FromBe(bs + [x]) == FromBe(bs) * 256 + x
  {
    assert (bs + [x])[..|bs|] == bs;
  }

  /** The place value of every byte that is read. */
  lemma {:induction false} ReadMostSignificantFirst(a: Byte, b: Byte, c: Byte, d: Byte, e: Byte, f: Byte, g: Byte, h: Byte)
    ensures FromBe([a, b, c, d]) == a * 0x100_0000 + b * 0x1_0000 + c * 0x100 + d
    ensures FromBe([a, b, c, d, e, f, g, h]) ==
              a * 0x100_0000_0000_0000 + b * 0x1_0000_0000_0000 + c * 0x100_0000_0000 + d * 0x1_0000_0000
              + e * 0x100_0000 + f * 0x1_0000 + g * 0x100 + h
  {
    FromBeLast([], a);
    FromBeLast([a], b);
    FromBeLast([a, b], c);
    FromBeLast([a, b, c], d);
    FromBeLast([a, b, c, d], e);
    FromBeLast([a, b, c, d, e], f);
    FromBeLast([a, b, c, d, e, f], g);
    FromBeLast([a, b, c, d, e, f, g], h);
    assert [] + [a] == [a] && [a] + [b] == [a, b] && [a, b] + [c] == [a, b, c] && [a, b, c] + [d] == [a, b, c, d];
    assert [a, b, c, d] + [e] == [a, b, c, d, e] && [a, b, c, d, e] + [f] == [a, b, c, d, e, f];
    assert [a, b, c, d, e, f] + [g] == [a, b, c, d, e, f, g] && [a, b, c, d, e, f, g] + [h] == [a, b, c, d, e, f, g, h];
  }

  // ---------- encoding ----------

  function Block(b: Bytes): Bytes {
    BeBytes(|b|, 4) + b
  }

  /** Whole seconds since the epoch; times before it become zero. */
  function Seconds(timestamp: int): nat {
    if timestamp < 0 then 0 else timestamp / NANOS_PER_SECOND
  }

  function SignaturePart(sig: Option<Bytes>): Bytes {
    if sig.Some? then [1] + Block(sig.value) else [0]
  }

  /** The five common fields in front of what follows. */
  function Fields(a: Announcement, s: Bytes): Bytes {
    Block(a.peerId) + (Block(a.manifestId) + (BeBytes(Seconds(a.timestamp), 8) + (BeBytes(a.ttlSeconds, 8)
    + (Block(a.metadata) + s))))
  }

  function Encode(a: Announcement): Bytes {
    Fields(a, SignaturePart(a.signature))
  }

  /** The layout on the wire, byte for byte; a time before the epoch is written as zero. */
  lemma {:induction false} WireLayout(a: Announcement)
    ensures Encode(a) ==
              Four(|a.peerId|) + a.peerId + Four(|a.manifestId|) + a.manifestId
              + Eight(if a.timestamp < 0 then 0 else a.timestamp / 1_000_000_000) + Eight(a.ttlSeconds)
              + Four(|a.metadata|) + a.metadata
              + (if a.signature.Some? then [1] + Four(|a.signature.value|) + a.signature.value else [0])
  {
    WrittenMostSignificantFirst(|a.peerId|);
    WrittenMostSignificantFirst(|a.manifestId|);
    WrittenMostSignificantFirst(|a.metadata|);
    WrittenMostSignificantFirst(Seconds(a.timestamp));
    WrittenMostSignificantFirst(a.ttlSeconds);
    var last := SignaturePart(a.signature);
    if a.signature.Some? {
      WrittenMostSignificantFirst(|a.signature.value|);
      Assoc([1], Four(|a.signature.value|), a.signature.value);
    }
    EncodeInOrder(a);
    BlocksApart(Four(|a.peerId|), a.peerId, Four(|a.manifestId|), a.manifestId, Eight(Seconds(a.timestamp)),
                Eight(a.ttlSeconds), Four(|a.metadata|), a.metadata, last);
  }

  lemma {:induction false} BlocksApart(p: Bytes, p': Bytes, m: Bytes, m': Bytes, t: Bytes, l: Bytes, d: Bytes, d': Bytes, s: Bytes)
    ensures [] + (p + p') + (m + m') + t + l + (d + d') + s == p + p' + m + m' + t + l + d + d' + s
  {
    assert [] + (p + p') == p + p';
    Assoc(p + p', m, m');
    Assoc(p + p' + m + m' + t + l, d, d');
  }

  method AppendBlock(data: Bytes, b: Bytes) returns (r: Bytes)
    ensures r == data + Block(b)
  {
    r := data + BeBytes(|b|, 4);
    r := r + b;
  }

  method AppendSignature(data: Bytes, sig: Option<Bytes>) returns (r: Bytes)
    ensures r == data + SignaturePart(sig)
  {
    if sig.Some? {
      r := data + [1];
      r := AppendBlock(r, sig.value);
      Assoc(data, [1], Block(sig.value));
    } else {
      r := data + [0];
    }
  }

  /** `to_bytes`: append field by field. */
  method ToBytes(a: Announcement) returns (data: Bytes)
    ensures data == Encode(a)
    ensures data == Four(|a.peerId|) + a.peerId + Four(|a.manifestId|) + a.manifestId
                    + Eight(if a.timestamp < 0 then 0 else a.timestamp / 1_000_000_000) + Eight(a.ttlSeconds)
                    + Four(|a.metadata|) + a.metadata
                    + (if a.signature.Some? then [1] + Four(|a.signature.value|) + a.signature.value else [0])
  {
    WireLayout(a);
    data := AppendBlock([], a.peerId);
    data := AppendBlock(data, a.manifestId);
    data := data + BeBytes(Seconds(a.timestamp), 8);
    data := data + BeBytes(a.ttlSeconds, 8);
    data := AppendBlock(data, a.metadata);
    data := AppendSignature(data, a.signature);
    EncodeInOrder(a);
  }

  lemma {:induction false} EncodeInOrder(a: Announcement)
    ensures Encode(a) == [] + Block(a.peerId) + Block(a.manifestId) + BeBytes(Seconds(a.timestamp), 8)
                         + BeBytes(a.ttlSeconds, 8) + Block(a.metadata) + SignaturePart(a.signature)
  {
    assert [] + Block(a.peerId) == Block(a.peerId);
    Reassociate(Block(a.peerId), Block(a.manifestId), BeBytes(Seconds(a.timestamp), 8), BeBytes(a.ttlSeconds, 8),
                Block(a.metadata), SignaturePart(a.signature));
  }

  lemma {:induction false} Assoc(a: Bytes, b: Bytes, c: Bytes)
    ensures (a + b) + c == a + (b + c)
  {
  }

  lemma {:induction false} Reassociate(p: Bytes, m: Bytes, t: Bytes, l: Bytes, d: Bytes, s: Bytes)
    ensures p + m + t + l + d + s == p + (m + (t + (l + (d + s))))
  {
    Assoc(p + m + t + l, d, s);
    Assoc(p + m + t, l, d + s);
    Assoc(p + m, t, l + (d + s));
    Assoc(p, m, t + (l + (d + s)));
  }

  lemma {:induction false} PushIn(p: Bytes, m: Bytes, t: Bytes, l: Bytes, d: Bytes, s: Bytes, rest: Bytes)
    ensures (p + (m + (t + (l + (d + s))))) + rest == p + (m + (t + (l + (d + (s + rest)))))
  {
    Assoc(d, s, rest);
    Assoc(l, d + s, rest);
    Assoc(t, l + (d + s), rest);
    Assoc(m, t + (l + (d + s)), rest);
    Assoc(p, m + (t + (l + (d + s))), rest);
  }

  // ---------- decoding ----------

  /** A length-prefixed block and what follows it. */
  function TakeBlock(bs: Bytes, field: Field): (r: Result<(Bytes, Bytes)>)
    ensures r.Ok? ==> |r.value.0| < 0x1_0000_0000 && bs == Block(r.value.0) + r.value.1
  {
    if |bs| < 4 then Err(Missing(field))
    else
      var n := FromBe(bs[..4]);
      Widths();
      BeUnique(bs[..4]);
      if |bs| < 4 + n then Err(TooShort(field))
      else
        assert bs == bs[..4] + bs[4..4 + n] + bs[4 + n..];
        Ok((bs[4..4 + n], bs[4 + n..]))
  }

  function TakeU64(bs: Bytes, field: Field): (r: Result<(nat, Bytes)>)
    ensures r.Ok? ==> r.value.0 < 0x1_0000_0000_0000_0000 && bs == BeBytes(r.value.0, 8) + r.value.1
  {
    if |bs| < 8 then Err(Missing(field))
    else
      Widths();
      BeUnique(bs[..8]);
      assert bs == bs[..8] + bs[8..];
      Ok((FromBe(bs[..8]), bs[8..]))
  }

  /** Only a flag of exactly 1 announces a signature. */
  function TakeSignature(bs: Bytes): (r: Result<(Option<Bytes>, Bytes)>)
  {
    if |bs| < 1 then Err(Missing(SignatureFlag))
    else if bs[0] != 1 then Ok((None, bs[1..]))
    else
      var s := TakeBlock(bs[1..], SignatureField);
      if s.Err? then Err(s.error) else Ok((Some(s.value.0), s.value.1))
  }

  /** The announcement at the head of the bytes, and the bytes after it. */
  function Decode(f: Formats, bs: Bytes): Result<(Announcement, Bytes)> {
    var p := TakeBlock(bs, PeerIdField);
    if p.Err? then Err(p.error)
    else if !f.isPeerId(p.value.0) then Err(Malformed(PeerIdField))
    else
      var m := TakeBlock(p.value.1, ManifestIdField);
      if m.Err? then Err(m.error)
      else if !f.isUtf8(m.value.0) then Err(Malformed(ManifestIdField))
      else
        DecodeTail(f, p.value.0, m.value.0, m.value.1)
  }

  function DecodeTail(f: Formats, peerId: Bytes, manifestId: Bytes, bs: Bytes): Result<(Announcement, Bytes)> {
    var t := TakeU64(bs, TimestampField);
    if t.Err? then Err(t.error)
    else if t.value.0 > f.lastSecond then Err(Overflow)
    else
      var ttl := TakeU64(t.value.1, TtlField);
      if ttl.Err? then Err(ttl.error)
      else
        var d := TakeBlock(ttl.value.1, MetadataField);
        if d.Err? then Err(d.error)
        else if !f.isUtf8(d.value.0) || !f.isMetadata(d.value.0) then Err(Malformed(MetadataField))
        else
          var s := TakeSignature(d.value.1);
          if s.Err? then Err(s.error)
          else
            Ok((Announcement(peerId, manifestId, t.value.0 * NANOS_PER_SECOND, ttl.value.0, d.value.0, s.value.0),
                s.value.1))
  }

  /** Read a block at an offset, checking the length before every access. */
  method ReadBlock(data: Bytes, offset: nat, field: Field) returns (r: Result<Bytes>, next: nat)
    requires offset <= |data|
    ensures offset <= next <= |data|
    ensures var s := TakeBlock(data[offset..], field);
            if s.Ok? then r == Ok(s.value.0) && data[next..] == s.value.1 else r == Err(s.error)
  {
    next := offset;
    if |data| < offset + 4 {
      return Err(Missing(field)), next;
    }
    var len := FromBe([data[offset], data[offset + 1], data[offset + 2], data[offset + 3]]);
    assert data[offset..][..4] == [data[offset], data[offset + 1], data[offset + 2], data[offset + 3]];
    next := offset + 4;
    if |data| < next + len {
      return Err(TooShort(field)), next;
    }
    r := Ok(data[next..next + len]);
    assert data[offset..][4..4 + len] == data[next..next + len];
    assert data[offset..][4 + len..] == data[next + len..];
    next := next + len;
  }

  method ReadU64(data: Bytes, offset: nat, field: Field) returns (r: Result<nat>, next: nat)
    requires offset <= |data|
    ensures offset <= next <= |data|
    ensures var s := TakeU64(data[offset..], field);
            if s.Ok? then r == Ok(s.value.0) && data[next..] == s.value.1 else r == Err(s.error)
  {
    next := offset;
    if |data| < offset + 8 {
      return Err(Missing(field)), next;
    }
    var raw := [data[offset], data[offset + 1], data[offset + 2], data[offset + 3],
                data[offset + 4], data[offset + 5], data[offset + 6], data[offset + 7]];
    assert data[offset..][..8] == raw;
    r := Ok(FromBe(raw));
    next := offset + 8;
    assert data[offset..][8..] == data[next..];
  }

  /** `from_bytes`: defined on every input, with no access out of bounds. */
  method FromBytes(f: Formats, data: Bytes) returns (r: Result<Announcement>)
    ensures r == (var d := Decode(f, data); if d.Ok? then Ok(d.value.0) else Err(d.error))
  {
    assert data[0..] == data;
    var peerId, offset := ReadBlock(data, 0, PeerIdField);
    if peerId.Err? {
      return Err(peerId.error);
    }
    if !f.isPeerId(peerId.value) {
      return Err(Malformed(PeerIdField));
    }
    var manifestId;
    manifestId, offset := ReadBlock(data, offset, ManifestIdField);
    if manifestId.Err? {
      return Err(manifestId.error);
    }
    if !f.isUtf8(manifestId.value) {
      return Err(Malformed(ManifestIdField));
    }
    r := FromBytesTail(f, data, offset, peerId.value, manifestId.value);
  }

  method FromBytesTail(f: Formats, data: Bytes, start: nat, peerId: Bytes, manifestId: Bytes)
    returns (r: Result<Announcement>)
    requires start <= |data|
    ensures r == (var d := DecodeTail(f, peerId, manifestId, data[start..]);
                  if d.Ok? then Ok(d.value.0) else Err(d.error))
  {
    var secs, offset := ReadU64(data, start, TimestampField);
    if secs.Err? {
      return Err(secs.error);
    }
    if secs.value > f.lastSecond {
      return Err(Overflow);
    }
    var ttl;
    ttl, offset := ReadU64(data, offset, TtlField);
    if ttl.Err? {
      return Err(ttl.error);
    }
    var metadata;
    metadata, offset := ReadBlock(data, offset, MetadataField);
    if metadata.Err? {
      return Err(metadata.error);
    }
    if !f.isUtf8(metadata.value) || !f.isMetadata(metadata.value) {
      return Err(Malformed(MetadataField));
    }
    var signature := ReadSignature(data, offset);
    if signature.Err? {
      return Err(signature.error);
    }
    r := Ok(Announcement(peerId, manifestId, secs.value * NANOS_PER_SECOND, ttl.value, metadata.value, signature.value));
  }

  method ReadSignature(data: Bytes, offset: nat) returns (r: Result<Option<Bytes>>)
    requires offset <= |data|
    ensures var s := TakeSignature(data[offset..]);
            r == if s.Ok? then Ok(s.value.0) else Err(s.error)
  {
    if |data| < offset + 1 {
      return Err(Missing(SignatureFlag));
    }
    var hasSignature := data[offset] == 1;
    assert data[offset..][1..] == data[offset + 1..];
    if !hasSignature {
      return Ok(None);
    }
    var sig, end := ReadBlock(data, offset + 1, SignatureField);
    r := if sig.Err? then Err(sig.error) else Ok(Some(sig.value));
  }

  // ---------- round trip ----------

  /** Every length fits its four bytes and every number its eight. */
  predicate FitsWire(a: Announcement) {
    && |a.peerId| < 0x1_0000_0000
    && |a.manifestId| < 0x1_0000_0000
    && |a.metadata| < 0x1_0000_0000
    && (a.signature.Some? ==> |a.signature.value| < 0x1_0000_0000)
    && Seconds(a.timestamp) < 0x1_0000_0000_0000_0000
    && a.ttlSeconds < 0x1_0000_0000_0000_0000
  }

  /** Something the libraries accept, at a time the platform can represent. */
  predicate Valid(f: Formats, a: Announcement) {
    && f.isPeerId(a.peerId) && f.isUtf8(a.manifestId) && f.isUtf8(a.metadata) && f.isMetadata(a.metadata)
    && Seconds(a.timestamp) <= f.lastSecond
  }

  /** The announcement with its time cut to whole seconds. */
  function Cut(a: Announcement): Announcement {
    a.(timestamp := Seconds(a.timestamp) * NANOS_PER_SECOND)
  }

  lemma {:induction false} BlockRoundTrip(b: Bytes, rest: Bytes, field: Field)
    requires |b| < 0x1_0000_0000
    ensures TakeBlock(Block(b) + rest, field) == Ok((b, rest))
  {
    Widths();
    BeRoundTrip(|b|, 4);
    var bs := Block(b) + rest;
    assert bs[..4] == BeBytes(|b|, 4);
    assert bs[4..4 + |b|] == b && bs[4 + |b|..] == rest;
  }

  lemma {:induction false} U64RoundTrip(n: nat, rest: Bytes, field: Field)
    requires n < 0x1_0000_0000_0000_0000
    ensures TakeU64(BeBytes(n, 8) + rest, field) == Ok((n, rest))
  {
    Widths();
    BeRoundTrip(n, 8);
    var bs := BeBytes(n, 8) + rest;
    assert bs[..8] == BeBytes(n, 8) && bs[8..] == rest;
  }

  lemma {:induction false} SignatureRoundTrip(sig: Option<Bytes>, rest: Bytes)
    requires sig.Some? ==> |sig.value| < 0x1_0000_0000
    ensures TakeSignature(SignaturePart(sig) + rest) == Ok((sig, rest))
  {
    if sig.Some? {
      Assoc([1], Block(sig.value), rest);
      BlockRoundTrip(sig.value, rest, SignatureField);
      FlagFirst(1, Block(sig.value) + rest);
    } else {
      FlagFirst(0, rest);
    }
  }

  lemma {:induction false} FlagFirst(flag: Byte, tail: Bytes)
    ensures ([flag] + tail)[0] == flag && ([flag] + tail)[1..] == tail
  {
  }

  lemma {:induction false} FieldsThenRest(a: Announcement, s: Bytes, rest: Bytes)
    ensures Fields(a, s) + rest == Fields(a, s + rest)
  {
    PushIn(Block(a.peerId), Block(a.manifestId), BeBytes(Seconds(a.timestamp), 8), BeBytes(a.ttlSeconds, 8),
           Block(a.metadata), s, rest);
  }

  /** Decoding the common fields leaves the signature to be read. */
  lemma {:induction false} DecodeFields(f: Formats, a: Announcement, s: Bytes)
    requires FitsWire(a) && Valid(f, a)
    ensures Decode(f, Fields(a, s)) ==
              (var sig := TakeSignature(s);
               if sig.Err? then Err(sig.error) else Ok((Cut(a).(signature := sig.value.0), sig.value.1)))
  {
    var d := Block(a.metadata) + s;
    var l := BeBytes(a.ttlSeconds, 8) + d;
    var t := BeBytes(Seconds(a.timestamp), 8) + l;
    var m := Block(a.manifestId) + t;
    BlockRoundTrip(a.peerId, m, PeerIdField);
    BlockRoundTrip(a.manifestId, t, ManifestIdField);
    U64RoundTrip(Seconds(a.timestamp), l, TimestampField);
    U64RoundTrip(a.ttlSeconds, d, TtlField);
    BlockRoundTrip(a.metadata, s, MetadataField);
  }

  /** Decoding an encoding returns the announcement and leaves what follows it. */
  lemma {:induction false} RoundTrip(f: Formats, a: Announcement, rest: Bytes)
    requires FitsWire(a) && Valid(f, a)
    ensures Decode(f, Encode(a) + rest) == Ok((Cut(a), rest))
    ensures Cut(a) == a.(timestamp := if a.timestamp < 0 then 0 else a.timestamp - a.timestamp % 1_000_000_000)
  {
    FieldsThenRest(a, SignaturePart(a.signature), rest);
    DecodeFields(f, a, SignaturePart(a.signature) + rest);
    SignatureRoundTrip(a.signature, rest);
  }

  lemma {:induction false} SecondsOfWhole(n: nat)
    ensures Seconds(n * NANOS_PER_SECOND) == n
  {
  }

  /** Whatever is decoded fits the wire. */
  lemma {:induction false} TailFits(f: Formats, peerId: Bytes, manifestId: Bytes, bs: Bytes)
    requires |peerId| < 0x1_0000_0000 && |manifestId| < 0x1_0000_0000
    requires DecodeTail(f, peerId, manifestId, bs).Ok?
    ensures FitsWire(DecodeTail(f, peerId, manifestId, bs).value.0)
    ensures Seconds(DecodeTail(f, peerId, manifestId, bs).value.0.timestamp) <= f.lastSecond
    ensures Cut(DecodeTail(f, peerId, manifestId, bs).value.0) == DecodeTail(f, peerId, manifestId, bs).value.0
  {
    SecondsOfWhole(TakeU64(bs, TimestampField).value.0);
  }

  lemma {:induction false} DecodedFits(f: Formats, bs: Bytes)
    requires Decode(f, bs).Ok?
    ensures FitsWire(Decode(f, bs).value.0) && Valid(f, Decode(f, bs).value.0)
    ensures Cut(Decode(f, bs).value.0) == Decode(f, bs).value.0
  {
    var p := TakeBlock(bs, PeerIdField).value;
    var m := TakeBlock(p.1, ManifestIdField).value;
    TailFits(f, p.0, m.0, m.1);
  }

  /** The round trip holds exactly for announcements that fit: four-byte lengths are the only limit. */
  lemma {:induction false} RoundTripIff(f: Formats, a: Announcement, rest: Bytes)
    requires Valid(f, a)
    ensures Decode(f, Encode(a) + rest) == Ok((Cut(a), rest)) <==> FitsWire(a)
  {
    if FitsWire(a) {
      RoundTrip(f, a, rest);
    } else if Decode(f, Encode(a) + rest).Ok? {
      DecodedFits(f, Encode(a) + rest);
    }
  }

  /** Self-delimiting: no encoding is a proper prefix of another. */
  lemma {:induction false} PrefixFree(a: Announcement, b: Announcement)
    requires FitsWire(a) && FitsWire(b)
    requires Encode(a) <= Encode(b)
    ensures Cut(a) == Cut(b) && Encode(a) == Encode(b)
  {
    var f := Formats(_ => true, _ => true, _ => true, 0x1_0000_0000_0000_0000);
    var ea, eb := Encode(a), Encode(b);
    var rest := eb[|ea|..];
    PrefixSplit(ea, eb);
    RoundTrip(f, a, rest);
    RoundTrip(f, b, []);
    assert Decode(f, eb) == Ok((Cut(a), rest)) == Ok((Cut(b), []));
  }

  lemma {:induction false} PrefixSplit(x: Bytes, y: Bytes)
    requires x <= y
    ensures x + y[|x|..] == y == y + []
    ensures y[|x|..] == [] ==> x == y
  {
  }

  // ---------- which error, field by field ----------

  /** The length in front of a block. */
  function LengthAt(bs: Bytes): nat
    requires |bs| >= 4
  {
    (bs[0] as int) * 0x100_0000 + (bs[1] as int) * 0x1_0000 + (bs[2] as int) * 0x100 + bs[3] as int
  }

  /** A block is missing without four bytes of length, and too short without as many bytes as they say. */
  lemma {:induction false} BlockErrors(bs: Bytes, field: Field)
    ensures |bs| < 4 ==> TakeBlock(bs, field) == Err(Missing(field))
    ensures |bs| >= 4 && |bs| - 4 < LengthAt(bs) ==> TakeBlock(bs, field) == Err(TooShort(field))
    ensures |bs| >= 4 && |bs| - 4 >= LengthAt(bs) ==>
              TakeBlock(bs, field) == Ok((bs[4..4 + LengthAt(bs)], bs[4 + LengthAt(bs)..]))
  {
    if |bs| >= 4 {
      assert bs[..4] == [bs[0], bs[1], bs[2], bs[3]];
      ReadMostSignificantFirst(bs[0], bs[1], bs[2], bs[3], 0, 0, 0, 0);
    }
  }

  lemma {:induction false} PeerIdErrors(f: Formats, bs: Bytes)
    ensures |bs| < 4 ==> Decode(f, bs) == Err(Missing(PeerIdField))
    ensures |bs| >= 4 && |bs| - 4 < LengthAt(bs) ==> Decode(f, bs) == Err(TooShort(PeerIdField))
    ensures |bs| >= 4 && |bs| - 4 >= LengthAt(bs) && !f.isPeerId(bs[4..4 + LengthAt(bs)]) ==>
              Decode(f, bs) == Err(Malformed(PeerIdField))
  {
    BlockErrors(bs, PeerIdField);
  }

  lemma {:induction false} ManifestIdErrors(f: Formats, p: Bytes, bs: Bytes)
    requires |p| < 0x1_0000_0000 && f.isPeerId(p)
    ensures |bs| < 4 ==> Decode(f, Block(p) + bs) == Err(Missing(ManifestIdField))
    ensures |bs| >= 4 && |bs| - 4 < LengthAt(bs) ==> Decode(f, Block(p) + bs) == Err(TooShort(ManifestIdField))
    ensures |bs| >= 4 && |bs| - 4 >= LengthAt(bs) && !f.isUtf8(bs[4..4 + LengthAt(bs)]) ==>
              Decode(f, Block(p) + bs) == Err(Malformed(ManifestIdField))
  {
    BlockRoundTrip(p, bs, PeerIdField);
    BlockErrors(bs, ManifestIdField);
  }

  lemma {:induction false} TailFollows(f: Formats, p: Bytes, m: Bytes, bs: Bytes)
    requires |p| < 0x1_0000_0000 && f.isPeerId(p) && |m| < 0x1_0000_0000 && f.isUtf8(m)
    ensures Decode(f, Block(p) + (Block(m) + bs)) == DecodeTail(f, p, m, bs)
  {
    BlockRoundTrip(p, Block(m) + bs, PeerIdField);
    BlockRoundTrip(m, bs, ManifestIdField);
  }

  lemma {:induction false} NumberErrors(f: Formats, p: Bytes, m: Bytes, secs: nat, bs: Bytes)
    requires |p| < 0x1_0000_0000 && f.isPeerId(p) && |m| < 0x1_0000_0000 && f.isUtf8(m)
    ensures |bs| < 8 ==> Decode(f, Block(p) + (Block(m) + bs)) == Err(Missing(TimestampField))
    ensures |bs| < 8 && secs <= f.lastSecond && secs < 0x1_0000_0000_0000_0000 ==>
              Decode(f, Block(p) + (Block(m) + (BeBytes(secs, 8) + bs))) == Err(Missing(TtlField))
  {
    TailFollows(f, p, m, bs);
    if |bs| < 8 && secs <= f.lastSecond && secs < 0x1_0000_0000_0000_0000 {
      TailFollows(f, p, m, BeBytes(secs, 8) + bs);
      U64RoundTrip(secs, bs, TimestampField);
    }
  }

  lemma {:induction false} MetadataErrors(f: Formats, p: Bytes, m: Bytes, secs: nat, ttl: nat, bs: Bytes)
    requires |p| < 0x1_0000_0000 && f.isPeerId(p) && |m| < 0x1_0000_0000 && f.isUtf8(m)
    requires secs <= f.lastSecond && secs < 0x1_0000_0000_0000_0000 && ttl < 0x1_0000_0000_0000_0000
    ensures var r := Decode(f, Block(p) + (Block(m) + (BeBytes(secs, 8) + (BeBytes(ttl, 8) + bs))));
            && (|bs| < 4 ==> r == Err(Missing(MetadataField)))
            && (|bs| >= 4 && |bs| - 4 < LengthAt(bs) ==> r == Err(TooShort(MetadataField)))
            && (|bs| >= 4 && |bs| - 4 >= LengthAt(bs)
                && !(f.isUtf8(bs[4..4 + LengthAt(bs)]) && f.isMetadata(bs[4..4 + LengthAt(bs)])) ==>
                  r == Err(Malformed(MetadataField)))
  {
    TailFollows(f, p, m, BeBytes(secs, 8) + (BeBytes(ttl, 8) + bs));
    U64RoundTrip(secs, BeBytes(ttl, 8) + bs, TimestampField);
    U64RoundTrip(ttl, bs, TtlField);
    BlockErrors(bs, MetadataField);
  }

  lemma {:induction false} SignatureErrors(f: Formats, a: Announcement, bs: Bytes)
    requires FitsWire(a) && Valid(f, a)
    ensures bs == [] ==> Decode(f, Fields(a, bs)) == Err(Missing(SignatureFlag))
    ensures |bs| >= 1 && bs[0] == 1 && |bs[1..]| < 4 ==> Decode(f, Fields(a, bs)) == Err(Missing(SignatureField))
    ensures |bs| >= 1 && bs[0] == 1 && |bs[1..]| >= 4 && |bs[1..]| - 4 < LengthAt(bs[1..]) ==>
              Decode(f, Fields(a, bs)) == Err(TooShort(SignatureField))
  {
    DecodeFields(f, a, bs);
    if |bs| >= 1 {
      BlockErrors(bs[1..], SignatureField);
    }
  }

  // ---------- when decoding stops the program ----------

  /** Two accepted ids, a second beyond what the platform can represent, and anything after it. */
  ghost predicate BeyondTime(f: Formats, bs: Bytes, peerId: Bytes, manifestId: Bytes, secs: nat, rest: Bytes) {
    && |peerId| < 0x1_0000_0000 && f.isPeerId(peerId)
    && |manifestId| < 0x1_0000_0000 && f.isUtf8(manifestId)
    && f.lastSecond < secs < 0x1_0000_0000_0000_0000
    && bs == Block(peerId) + (Block(manifestId) + (BeBytes(secs, 8) + rest))
  }

  /** Decoding stops the program iff the bytes are well formed up to a timestamp beyond the platform's last second. */
  lemma {:induction false} OverflowIff(f: Formats, bs: Bytes)
    ensures Decode(f, bs) == Err(Overflow) <==>
              exists peerId, manifestId, secs, rest :: BeyondTime(f, bs, peerId, manifestId, secs, rest)
  {
    if Decode(f, bs) == Err(Overflow) {
      TailOverflows(f, bs);
    }
    if peerId, manifestId, secs, rest :| BeyondTime(f, bs, peerId, manifestId, secs, rest) {
      BlockRoundTrip(peerId, Block(manifestId) + (BeBytes(secs, 8) + rest), PeerIdField);
      BlockRoundTrip(manifestId, BeBytes(secs, 8) + rest, ManifestIdField);
      U64RoundTrip(secs, rest, TimestampField);
    }
  }

  lemma {:induction false} TailOverflows(f: Formats, bs: Bytes)
    requires Decode(f, bs) == Err(Overflow)
    ensures exists peerId, manifestId, secs, rest :: BeyondTime(f, bs, peerId, manifestId, secs, rest)
  {
    TakeErrors(bs, PeerIdField);
    var p := TakeBlock(bs, PeerIdField).value;
    TakeErrors(p.1, ManifestIdField);
    var m := TakeBlock(p.1, ManifestIdField).value;
    TailErrors(f, p.0, m.0, m.1);
    var t := TakeU64(m.1, TimestampField).value;
    assert BeyondTime(f, bs, p.0, m.0, t.0, t.1);
  }

  /** Reading a field never overflows. */
  lemma {:induction false} TakeErrors(bs: Bytes, field: Field)
    ensures TakeBlock(bs, field).Err? ==> TakeBlock(bs, field).error != Overflow
    ensures TakeU64(bs, field).Err? ==> TakeU64(bs, field).error != Overflow
    ensures TakeSignature(bs).Err? ==> TakeSignature(bs).error != Overflow
  {
  }

  lemma {:induction false} TailErrors(f: Formats, peerId: Bytes, manifestId: Bytes, bs: Bytes)
    requires DecodeTail(f, peerId, manifestId, bs) == Err(Overflow)
    ensures TakeU64(bs, TimestampField).Ok? && TakeU64(bs, TimestampField).value.0 > f.lastSecond
  {
    TakeErrors(bs, TimestampField);
    var t := TakeU64(bs, TimestampField);
    if t.Ok? {
      TakeErrors(t.value.1, TtlField);
      var l := TakeU64(t.value.1, TtlField);
      if l.Ok? {
        TakeErrors(l.value.1, MetadataField);
        var d := TakeBlock(l.value.1, MetadataField);
        if d.Ok? {
          TakeErrors(d.value.1, SignatureField);
        }
      }
    }
  }

  // ---------- what the decoder accepts ----------

  function FlaggedPart(sig: Option<Bytes>, flag: Byte): Bytes {
    [flag] + (if sig.Some? then Block(sig.value) else [])
  }

  /** An encoding with the flag byte spelled out. */
  function Framed(a: Announcement, flag: Byte): Bytes {
    Fields(a, FlaggedPart(a.signature, flag))
  }

  /**
   Everything accepted is an encoding up to the flag byte, and is an encoding iff that byte
   is 0 or 1; any other reads as no signature.
   */
  lemma {:induction false} DecodedIsFramed(f: Formats, bs: Bytes) returns (flag: Byte)
    requires Decode(f, bs).Ok?
    ensures var (a, rest) := Decode(f, bs).value;
            && bs == Framed(a, flag) + rest
            && (flag == 1 <==> a.signature.Some?)
            && (flag == 0 || flag == 1 <==> bs == Encode(a) + rest)
            && (flag == 0 || flag == 1 <==> IsEncoding(bs))
  {
    var (a, rest) := Decode(f, bs).value;
    var p := TakeBlock(bs, PeerIdField).value;
    var m := TakeBlock(p.1, ManifestIdField).value;
    var t := TakeU64(m.1, TimestampField).value;
    var l := TakeU64(t.1, TtlField).value;
    var d := TakeBlock(l.1, MetadataField).value;
    SecondsOfWhole(t.0);
    flag := d.1[0];
    SignatureIsFramed(d.1);
    FieldsThenRest(a, FlaggedPart(a.signature, flag), rest);
    FlagOfEncoding(a, flag, rest);
    DecodedFits(f, bs);
    if bs == Encode(a) + rest {
      assert Leads(a, rest, bs);
    }
    if b, tail :| Leads(b, tail, bs) {
      EncodingDecodesAnyway(f, b, tail);
    }
  }

  /** The bytes start with the encoding of an announcement that fits. */
  ghost predicate IsEncoding(bs: Bytes) {
    exists a, rest :: Leads(a, rest, bs)
  }

  predicate Leads(a: Announcement, rest: Bytes, bs: Bytes) {
    FitsWire(a) && bs == Encode(a) + rest
  }

  lemma {:induction false} FlagOfEncoding(a: Announcement, flag: Byte, rest: Bytes)
    requires flag == 1 <==> a.signature.Some?
    ensures Framed(a, flag) + rest == Encode(a) + rest <==> flag == 0 || flag == 1
  {
    if Framed(a, flag) + rest == Encode(a) + rest {
      FieldsThenRest(a, FlaggedPart(a.signature, flag), rest);
      FieldsThenRest(a, SignaturePart(a.signature), rest);
      FieldsCancel(a, FlaggedPart(a.signature, flag) + rest, SignaturePart(a.signature) + rest);
      FirstByte(FlaggedPart(a.signature, flag), rest);
      FirstByte(SignaturePart(a.signature), rest);
    }
  }

  lemma {:induction false} FirstByte(s: Bytes, rest: Bytes)
    requires s != []
    ensures (s + rest)[0] == s[0]
  {
  }

  lemma {:induction false} FieldsCancel(a: Announcement, s: Bytes, t: Bytes)
    requires Fields(a, s) == Fields(a, t)
    ensures s == t
  {
    var s4, t4 := Block(a.metadata) + s, Block(a.metadata) + t;
    var s3, t3 := BeBytes(a.ttlSeconds, 8) + s4, BeBytes(a.ttlSeconds, 8) + t4;
    var s2, t2 := BeBytes(Seconds(a.timestamp), 8) + s3, BeBytes(Seconds(a.timestamp), 8) + t3;
    Cancel(Block(a.peerId), Block(a.manifestId) + s2, Block(a.manifestId) + t2);
    Cancel(Block(a.manifestId), s2, t2);
    Cancel(BeBytes(Seconds(a.timestamp), 8), s3, t3);
    Cancel(BeBytes(a.ttlSeconds, 8), s4, t4);
    Cancel(Block(a.metadata), s, t);
  }

  lemma {:induction false} Cancel(x: Bytes, s: Bytes, t: Bytes)
    requires x + s == x + t
    ensures s == t
  {
    assert (x + s)[|x|..] == s && (x + t)[|x|..] == t;
  }

  /** An encoding that is accepted decodes to itself, whatever the formats say about other input. */
  lemma {:induction false} EncodingDecodesAnyway(f: Formats, b: Announcement, tail: Bytes)
    requires FitsWire(b) && Decode(f, Encode(b) + tail).Ok?
    ensures Decode(f, Encode(b) + tail) == Ok((Cut(b), tail)) && Encode(b) == Encode(Cut(b))
  {
    var lenient := Formats(_ => true, _ => true, _ => true, 0x1_0000_0000_0000_0000);
    RoundTrip(lenient, b, tail);
    AcceptedAlike(f, lenient, Encode(b) + tail);
    SecondsOfWhole(Seconds(b.timestamp));
  }

  /** Formats decide what is accepted, not what it means. */
  lemma {:induction false} AcceptedAlike(f: Formats, g: Formats, bs: Bytes)
    requires Decode(f, bs).Ok? && Decode(g, bs).Ok?
    ensures Decode(f, bs) == Decode(g, bs)
  {
  }

  /** A signed encoding with any other flag byte decodes without its signature, which is left as trailing bytes. */
  lemma {:induction false} OtherFlagHidesSignature(f: Formats, a: Announcement, flag: Byte, rest: Bytes)
    requires FitsWire(a) && Valid(f, a) && a.signature.Some? && flag != 1
    ensures Decode(f, Framed(a, flag) + rest) == Ok((Cut(a).(signature := None), Block(a.signature.value) + rest))
  {
    FieldsThenRest(a, FlaggedPart(a.signature, flag), rest);
    DecodeFields(f, a, FlaggedPart(a.signature, flag) + rest);
    Assoc([flag], Block(a.signature.value), rest);
    FlagFirst(flag, Block(a.signature.value) + rest);
  }

  lemma {:induction false} SignatureIsFramed(bs: Bytes)
    requires TakeSignature(bs).Ok?
    ensures var (sig, rest) := TakeSignature(bs).value;
            && |bs| >= 1
            && (bs[0] == 1 <==> sig.Some?)
            && bs == [bs[0]] + (if sig.Some? then Block(sig.value) else []) + rest
  {
    assert bs == [bs[0]] + bs[1..];
  }
}
