/** The binary file format of the table: a flat concatenation of record
    frames, with no header, delimiter or checksum. A frame is
      id        4 bytes, little-endian two's complement
      name_len  8 bytes, little-endian unsigned (a 64-bit `size_t`)
      name      name_len raw bytes
      age       4 bytes, little-endian two's complement
    Decoding reads complete frames from the front and stops at the first
    frame the remaining input is too short to hold. */
module Codec {
  import opened Records

  const ID_WIDTH: nat := 4
  const LENGTH_WIDTH: nat := 8
  const AGE_WIDTH: nat := 4
  /** Bytes before the name: the id and the length field. */
  const HEADER_WIDTH: nat := ID_WIDTH + LENGTH_WIDTH

  /** The number of distinct values n bytes can hold. */
  function Pow256(n: nat): (r: nat)
    ensures r >= 1
  {
    if n == 0 then 1 else 256 * Pow256(n - 1)
  }

  lemma Pow256Widths()
    ensures Pow256(4) == 0x1_0000_0000
    ensures Pow256(8) == 0x1_0000_0000_0000_0000
  {
    assert Pow256(2) == 0x1_0000;
    assert Pow256(4) == 0x1_0000_0000;
    assert Pow256(6) == 0x1_0000_0000_0000;
  }

  /** The n low-order bytes of u, least significant first. */
  function ToLE(u: nat, n: nat): (b: seq<Byte>)
    ensures |b| == n
  {
    if n == 0 then [] else [(u % 256) as Byte] + ToLE(u / 256, n - 1)
  }

  /** The unsigned value of little-endian bytes. */
  function FromLE(b: seq<Byte>): (u: nat)
    ensures u < Pow256(|b|)
  {
    if b == [] then 0 else b[0] as nat + 256 * FromLE(b[1..])
  }

  lemma {:induction false} FromLEToLE(u: nat, n: nat)
    requires u < Pow256(n)
    ensures FromLE(ToLE(u, n)) == u
  {
    if n > 0 {
      FromLEToLE(u / 256, n - 1);
      assert ToLE(u, n)[1..] == ToLE(u / 256, n - 1);
    }
  }

  lemma {:induction false} ToLEFromLE(b: seq<Byte>)
    ensures ToLE(FromLE(b), |b|) == b
  {
    if b != [] {
      ToLEFromLE(b[1..]);
      var u := FromLE(b);
      assert u % 256 == b[0] as nat;
      assert u / 256 == FromLE(b[1..]);
    }
  }

  /** A 32-bit signed integer as it sits in memory on a little-endian host. */
  function EncodeInt32(x: Int32): (b: seq<Byte>)
    ensures |b| == 4
  {
    ToLE(if x < 0 then x + 0x1_0000_0000 else x, 4)
  }

  function DecodeInt32(b: seq<Byte>): (x: Int32)
    requires |b| == 4
  {
    var u := FromLE(b);
    Pow256Widths();
    if u < 0x8000_0000 then u else u - 0x1_0000_0000
  }

  lemma Int32RoundTrip(x: Int32)
    ensures DecodeInt32(EncodeInt32(x)) == x
  {
    Pow256Widths();
    FromLEToLE(if x < 0 then x + 0x1_0000_0000 else x, 4);
  }

  lemma Int32BytesRoundTrip(b: seq<Byte>)
    requires |b| == 4
    ensures EncodeInt32(DecodeInt32(b)) == b
  {
    ToLEFromLE(b);
  }

  /** The frame `Table::save` writes for one record. */
  function EncodeRecord(r: Record): (b: seq<Byte>)
    ensures |b| == HEADER_WIDTH + |r.name| + AGE_WIDTH
  {
    EncodeInt32(r.id) + ToLE(|r.name|, LENGTH_WIDTH) + r.name + EncodeInt32(r.age)
  }

  /** The whole file: the frames of the records in sequence order. */
  function Encode(recs: seq<Record>): (b: seq<Byte>)
  {
    if recs == [] then [] else EncodeRecord(recs[0]) + Encode(recs[1..])
  }

  lemma {:induction false} EncodeAppend(a: seq<Record>, b: seq<Record>)
    ensures Encode(a + b) == Encode(a) + Encode(b)
  {
    if a == [] {
      assert a + b == b;
    } else {
      assert (a + b)[1..] == a[1..] + b;
      EncodeAppend(a[1..], b);
    }
  }

  lemma EncodeSnoc(recs: seq<Record>, r: Record)
    ensures Encode(recs + [r]) == Encode(recs) + EncodeRecord(r)
  {
    EncodeAppend(recs, [r]);
    assert Encode([r]) == EncodeRecord(r) + Encode([]);
  }

  /** A decoded frame and the input that follows it. */
  datatype Decoded = Decoded(rec: Record, rest: seq<Byte>)

  /** The length field of a frame header, read from bytes 4 to 12. */
  function AnnouncedNameLength(s: seq<Byte>): (n: nat)
    requires |s| >= HEADER_WIDTH
    ensures n < 0x1_0000_0000_0000_0000
  {
    Pow256Widths();
    FromLE(s[ID_WIDTH..HEADER_WIDTH])
  }

  /** Reads one frame from the front of `s`; None when `s` is too short for
      the header or for the name and age the header announces. */
  function DecodeFrame(s: seq<Byte>): (d: Option<Decoded>)
    ensures d.None? <==>
      |s| < HEADER_WIDTH || |s| < HEADER_WIDTH + AnnouncedNameLength(s) + AGE_WIDTH
    ensures d.Some? ==> |d.value.rest| < |s|
  {
    if |s| < HEADER_WIDTH then None
    else
      var n := AnnouncedNameLength(s);
      if |s| < HEADER_WIDTH + n + AGE_WIDTH then None
      else
        Some(Decoded(Record(DecodeInt32(s[..ID_WIDTH]), s[HEADER_WIDTH..HEADER_WIDTH + n],
                            DecodeInt32(s[HEADER_WIDTH + n..HEADER_WIDTH + n + AGE_WIDTH])),
                     s[HEADER_WIDTH + n + AGE_WIDTH..]))
  }

  /** A decoded frame is exactly the encoding of the record it yields. */
  lemma DecodeFrameInverse(s: seq<Byte>)
    requires DecodeFrame(s).Some?
    ensures s == EncodeRecord(DecodeFrame(s).value.rec) + DecodeFrame(s).value.rest
  {
    var n := AnnouncedNameLength(s);
    var a, b, c := HEADER_WIDTH, HEADER_WIDTH + n, HEADER_WIDTH + n + AGE_WIDTH;
    var idb, lenb, name, ageb := s[..ID_WIDTH], s[ID_WIDTH..a], s[a..b], s[b..c];
    var d := DecodeFrame(s).value;
    assert d.rec == Record(DecodeInt32(idb), name, DecodeInt32(ageb));
    assert d.rest == s[c..];
    Int32BytesRoundTrip(idb);
    Int32BytesRoundTrip(ageb);
    ToLEFromLE(lenb);
    assert EncodeRecord(d.rec) == idb + lenb + name + ageb;
    SplitFour(s, ID_WIDTH, a, b, c);
  }

  /** A sequence is the concatenation of its consecutive slices. */
  lemma SplitFour<T>(s: seq<T>, a: nat, b: nat, c: nat, d: nat)
    requires a <= b <= c <= d <= |s|
    ensures s == s[..a] + s[a..b] + s[b..c] + s[c..d] + s[d..]
  {
    assert s[..b] == s[..a] + s[a..b];
    assert s[..c] == s[..b] + s[b..c];
    assert s[..d] == s[..c] + s[c..d];
    assert s == s[..d] + s[d..];
  }

  /** The consecutive slices of a concatenation are its parts. */
  lemma SlicesOfFour<T>(a: seq<T>, b: seq<T>, c: seq<T>, d: seq<T>, e: seq<T>)
    ensures var s, i, j, k := a + b + c + d + e, |a| + |b|, |a| + |b| + |c|, |a| + |b| + |c| + |d|;
      s[..|a|] == a && s[|a|..i] == b && s[i..j] == c && s[j..k] == d && s[k..] == e
  {
    var s := a + b + c + d + e;
    assert s == a + (b + (c + (d + e)));
  }

  /** A complete frame followed by anything decodes to its record. */
  lemma DecodeEncodeFrame(r: Record, rest: seq<Byte>)
    ensures DecodeFrame(EncodeRecord(r) + rest) == Some(Decoded(r, rest))
  {
    var n := |r.name|;
    var idb, lenb, ageb := EncodeInt32(r.id), ToLE(n, LENGTH_WIDTH), EncodeInt32(r.age);
    SlicesOfFour(idb, lenb, r.name, ageb, rest);
    Pow256Widths();
    FromLEToLE(n, LENGTH_WIDTH);
    Int32RoundTrip(r.id);
    Int32RoundTrip(r.age);
  }

  /** A strict prefix of a frame is not a frame. */
  lemma TruncatedFrame(r: Record, k: nat)
    requires k < |EncodeRecord(r)|
    ensures DecodeFrame(EncodeRecord(r)[..k]).None?
  {
    var e := EncodeRecord(r);
    if k >= HEADER_WIDTH {
      var lenb := ToLE(|r.name|, LENGTH_WIDTH);
      assert e == EncodeInt32(r.id) + lenb + r.name + EncodeInt32(r.age);
      assert e[ID_WIDTH..HEADER_WIDTH] == lenb;
      assert e[..k][ID_WIDTH..HEADER_WIDTH] == lenb;
      Pow256Widths();
      FromLEToLE(|r.name|, LENGTH_WIDTH);
    }
  }

  /** The records `Table::load` reads from file contents `s`: every complete
      frame from the front, up to the first incomplete one. */
  function Frames(s: seq<Byte>): seq<Record>
    decreases |s|
  {
    match DecodeFrame(s)
    case None => []
    case Some(d) => [d.rec] + Frames(d.rest)
  }

  /** The decoded records re-encode to a prefix of the input, and what
      follows that prefix holds no complete frame. */
  lemma {:induction false} FramesConsumePrefix(s: seq<Byte>)
    ensures Encode(Frames(s)) <= s
    ensures DecodeFrame(s[|Encode(Frames(s))|..]).None?
    decreases |s|
  {
    match DecodeFrame(s)
    case None =>
    case Some(d) =>
      DecodeFrameInverse(s);
      FramesConsumePrefix(d.rest);
      var tail := Frames(d.rest);
      var rs := [d.rec] + tail;
      assert rs[1..] == tail;
      assert Encode(rs) == EncodeRecord(d.rec) + Encode(tail);
      assert s[|Encode(rs)|..] == d.rest[|Encode(tail)|..];
  }

  /** One step of `Frames`: a complete frame, then the frames after it. */
  lemma FramesStep(s: seq<Byte>, r: Record, rest: seq<Byte>)
    requires DecodeFrame(s) == Some(Decoded(r, rest))
    ensures Frames(s) == [r] + Frames(rest)
  {
  }

  lemma ConsAppend<T>(a: seq<T>, b: seq<T>)
    requires a != []
    ensures [a[0]] + (a[1..] + b) == a + b
  {
    assert a == [a[0]] + a[1..];
  }

  lemma ConsPrefix<T>(a: seq<T>, p: seq<T>)
    requires a != [] && p <= a[1..]
    ensures [a[0]] + p <= a
  {
    assert a == [a[0]] + a[1..];
  }

  /** A complete frame in front of any bytes contributes its record first. */
  lemma FramesCons(r: Record, rest: seq<Byte>)
    ensures Frames(EncodeRecord(r) + rest) == [r] + Frames(rest)
  {
    DecodeEncodeFrame(r, rest);
    FramesStep(EncodeRecord(r) + rest, r, rest);
  }

  lemma PrefixOfConcat<T>(a: seq<T>, b: seq<T>, k: nat)
    requires k <= |a| + |b|
    ensures (a + b)[..k] == if k <= |a| then a[..k] else a + b[..k - |a|]
  {
  }

  /** Decoding what was encoded, followed by any bytes, yields the encoded
      records first, in order, with the same fields. */
  lemma {:induction false} FramesAfterEncode(recs: seq<Record>, t: seq<Byte>)
    ensures Frames(Encode(recs) + t) == recs + Frames(t)
  {
    if recs == [] {
      assert Encode(recs) + t == t;
    } else {
      var rest := Encode(recs[1..]) + t;
      assert Encode(recs) + t == EncodeRecord(recs[0]) + rest;
      FramesCons(recs[0], rest);
      FramesAfterEncode(recs[1..], t);
      ConsAppend(recs, Frames(t));
    }
  }

  /** The codec round trip: decode(encode(recs)) == recs. */
  lemma FramesOfEncode(recs: seq<Record>)
    ensures Frames(Encode(recs)) == recs
  {
    FramesAfterEncode(recs, []);
    assert Encode(recs) + [] == Encode(recs);
  }

  /** A trailing partial frame after complete ones is dropped. */
  lemma TrailingPartialFrame(recs: seq<Record>, t: seq<Byte>)
    requires DecodeFrame(t).None?
    ensures Frames(Encode(recs) + t) == recs
  {
    FramesAfterEncode(recs, t);
  }

  /** A file cut inside its first frame holds no complete frame. */
  lemma TruncatedFirstFrame(recs: seq<Record>, k: nat)
    requires recs != [] && k < |EncodeRecord(recs[0])|
    ensures Frames(Encode(recs)[..k]) == []
  {
    var e := EncodeRecord(recs[0]);
    assert Encode(recs) == e + Encode(recs[1..]);
    PrefixOfConcat(e, Encode(recs[1..]), k);
    TruncatedFrame(recs[0], k);
  }

  /** A file cut short anywhere (an interrupted save) decodes to a prefix of
      the records that were being saved. */
  lemma {:induction false} FramesOfTruncated(recs: seq<Record>, k: nat)
    requires k <= |Encode(recs)|
    ensures Frames(Encode(recs)[..k]) <= recs
  {
    if recs != [] {
      var r := recs[0];
      var e := EncodeRecord(r);
      var more := Encode(recs[1..]);
      assert Encode(recs) == e + more;
      PrefixOfConcat(e, more, k);
      if k >= |e| {
        var rest := more[..k - |e|];
        assert Encode(recs)[..k] == e + rest;
        FramesCons(r, rest);
        assert Frames(Encode(recs)[..k]) == [r] + Frames(rest);
        FramesOfTruncated(recs[1..], k - |e|);
        assert Frames(rest) <= recs[1..];
        ConsPrefix(recs, Frames(rest));
        assert [r] + Frames(rest) <= recs;
      } else {
        TruncatedFirstFrame(recs, k);
      }
    }
  }
}
