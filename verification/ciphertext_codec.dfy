/** Binary encoding of a CKKS ciphertext (ckks/marshaler.go).

    Layout of an encoded ciphertext:
      byte 0       degree + 1, truncated to 8 bits
      bytes 1..8   the 64-bit pattern of the scale, little-endian
      byte 9       unused, written as 0 and ignored when decoding
      byte 10      1 when the ciphertext is in the NTT domain, else 0
      bytes 11..   the encodings of the ring elements, back to back

    The codec of a single ring element (`ring.Poly`'s `WriteTo`,
    `DecodePolyNew` and `GetDataLen`) is external; it is carried as a record
    of functions and the properties it is assumed to have are stated as
    predicates on that record. */
module CiphertextCodec {
  import opened Results
  import opened Words

  /** Number of metadata bytes in front of the ring elements. */
  const HEADER_SIZE: nat := 11

  /** The external ring-element codec.
      - `write(p)`: the bytes `WriteTo` writes for `p`; the element's
        `GetDataLen(true)` is the length of these bytes.
      - `read(d)`: what `DecodePolyNew` decodes from the front of `d`: the
        element and the number of bytes consumed, or `None` on failure.
      - `bareLen(p)`: the element's `GetDataLen(false)`.
      - `empty`: a freshly allocated element (`new(ring.Poly)`); it also
        stands for a slot that was never filled. */
  datatype ElementCodec<!P> = ElementCodec(
    write: P -> seq<byte>,
    read: seq<byte> -> Option<(P, nat)>,
    bareLen: P -> nat,
    empty: P)

  /** The element codec decodes what it encodes, whatever follows it. */
  ghost predicate RoundTrips<P(!new)>(c: ElementCodec<P>)
  {
    forall p, rest :: c.read(c.write(p) + rest) == Some((p, |c.write(p)|))
  }

  /** Whatever the element codec decodes is exactly the encoding of the
      decoded element, found at the front of the input. */
  ghost predicate Canonical<P>(c: ElementCodec<P>)
  {
    forall d :: c.read(d).Some? ==>
      c.read(d).value.1 <= |d| && d[..c.read(d).value.1] == c.write(c.read(d).value.0)
  }

  /** A ciphertext: its ring elements (degree + 1 of them), the scale carried
      only as its 64-bit IEEE-754 pattern, and the NTT-domain flag. */
  datatype Ciphertext<P> = Ciphertext(value: seq<P>, scaleBits: uint64, isNTT: bool)
  {
    function Degree(): int {
      |value| - 1
    }
  }

  datatype DecodeError =
    | TooSmall                // "too small bytearray"
    | ElementDecodeFailed     // the element decoder returned an error
    | SliceOutOfRange         // an element claimed more bytes than remain; the next slice panics
    | RemainingUnparsedData   // "remaining unparsed data"

  /** An element's `GetDataLen(withMetaData)`. */
  function ElementLen<P>(c: ElementCodec<P>, p: P, withMetaData: bool): nat
  {
    if withMetaData then |c.write(p)| else c.bareLen(p)
  }

  function SumLens<P>(c: ElementCodec<P>, ps: seq<P>, withMetaData: bool): nat
  {
    if |ps| == 0 then 0 else ElementLen(c, ps[0], withMetaData) + SumLens(c, ps[1..], withMetaData)
  }

  /** `GetDataLen`: the size of the encoding, with or without the header. */
  function DataLen<P>(c: ElementCodec<P>, ct: Ciphertext<P>, withMetaData: bool): (r: nat)
    ensures withMetaData ==> r == HEADER_SIZE + |Concat(c, ct.value)|
    ensures r >= (if withMetaData then HEADER_SIZE else 0)
  {
    (if withMetaData then HEADER_SIZE else 0) + SumLens(c, ct.value, withMetaData)
  }

  /** Where `MarshalBinary` writes element `i`. */
  function Offset<P>(c: ElementCodec<P>, ps: seq<P>, i: nat): nat
    requires i <= |ps|
  {
    HEADER_SIZE + SumLens(c, ps[..i], true)
  }

  /** The 11 metadata bytes `MarshalBinary` writes in front of the
      elements. */
  function Header<P>(ct: Ciphertext<P>): (h: seq<byte>)
    ensures |h| == HEADER_SIZE
    ensures h[0] == (ct.Degree() + 1) % 256
    ensures |ct.value| <= 255 ==> h[0] == |ct.value|
    ensures FromLittleEndian(h[1..9]) == ct.scaleBits
    ensures h[9] == 0
    ensures h[10] == 1 <==> ct.isNTT
    ensures h[10] <= 1
  {
    var h := [|ct.value| % 256] + LittleEndian(ct.scaleBits, 8) + [0] + [if ct.isNTT then 1 else 0];
    assert h[1..9] == LittleEndian(ct.scaleBits, 8);
    Pow256Of8();
    FromLittleEndianOfLittleEndian(ct.scaleBits, 8);
    h
  }

  /** The element encodings, concatenated in order. */
  function Concat<P>(c: ElementCodec<P>, ps: seq<P>): (r: seq<byte>)
    ensures |r| == SumLens(c, ps, true)
  {
    if |ps| == 0 then [] else c.write(ps[0]) + Concat(c, ps[1..])
  }

  /** `MarshalBinary`. The buffer is allocated with exactly `GetDataLen(true)`
      bytes, so the element writer always has room. */
  function Marshal<P>(c: ElementCodec<P>, ct: Ciphertext<P>): (r: seq<byte>)
    ensures |r| == DataLen(c, ct, true)
    ensures r[0] == (ct.Degree() + 1) % 256
    ensures r[1..9] == LittleEndian(ct.scaleBits, 8)
    ensures r[9] == 0
    ensures r[10] == if ct.isNTT then 1 else 0
    ensures forall i :: 0 <= i < |ct.value| ==>
      Offset(c, ct.value, i) + |c.write(ct.value[i])| <= |r| &&
      r[Offset(c, ct.value, i)..Offset(c, ct.value, i) + |c.write(ct.value[i])|] == c.write(ct.value[i])
  {
    var h := Header(ct);
    HeaderThenElements(c, h, ct.value);
    h + Concat(c, ct.value)
  }

  /** After an 11-byte header, every element's encoding sits at its running
      offset. */
  lemma HeaderThenElements<P>(c: ElementCodec<P>, h: seq<byte>, ps: seq<P>)
    requires |h| == HEADER_SIZE
    ensures (h + Concat(c, ps))[..HEADER_SIZE] == h
    ensures forall i :: 0 <= i < |ps| ==>
      Offset(c, ps, i) + |c.write(ps[i])| <= |h + Concat(c, ps)| &&
      (h + Concat(c, ps))[Offset(c, ps, i)..Offset(c, ps, i) + |c.write(ps[i])|] == c.write(ps[i])
  {
    var r := h + Concat(c, ps);
    forall i | 0 <= i < |ps|
      ensures Offset(c, ps, i) + |c.write(ps[i])| <= |r|
      ensures r[Offset(c, ps, i)..Offset(c, ps, i) + |c.write(ps[i])|] == c.write(ps[i])
    {
      ElementAtOffset(c, h, ps, i);
    }
  }

  lemma ElementAtOffset<P>(c: ElementCodec<P>, h: seq<byte>, ps: seq<P>, i: nat)
    requires |h| == HEADER_SIZE && i < |ps|
    ensures Offset(c, ps, i) + |c.write(ps[i])| <= |h + Concat(c, ps)|
    ensures (h + Concat(c, ps))[Offset(c, ps, i)..Offset(c, ps, i) + |c.write(ps[i])|] == c.write(ps[i])
  {
    var before, w, after := Concat(c, ps[..i]), c.write(ps[i]), Concat(c, ps[i + 1..]);
    ConcatSplit(c, ps, i);
    MiddleSlice(h, before, w, after);
  }

  /** The middle piece of a four-part concatenation, sliced back out. */
  lemma MiddleSlice<T>(h: seq<T>, a: seq<T>, w: seq<T>, b: seq<T>)
    ensures |h| + |a| + |w| <= |h + (a + w + b)|
    ensures (h + (a + w + b))[|h| + |a|..|h| + |a| + |w|] == w
  {
    assert h + (a + w + b) == (h + a) + w + b;
  }

  /** `GetDataLen` adds up the elements' lengths one by one: appending an
      element adds its own `GetDataLen`, with or without metadata. */
  lemma DataLenAccumulates<P>(c: ElementCodec<P>, ct: Ciphertext<P>, p: P, withMetaData: bool)
    ensures DataLen(c, ct.(value := ct.value + [p]), withMetaData) ==
      DataLen(c, ct, withMetaData) + ElementLen(c, p, withMetaData)
  {
    SumLensAppend(c, ct.value, [p], withMetaData);
    assert SumLens(c, [p], withMetaData) == ElementLen(c, p, withMetaData);
  }

  lemma {:induction false} SumLensAppend<P>(c: ElementCodec<P>, a: seq<P>, b: seq<P>, withMetaData: bool)
    ensures SumLens(c, a + b, withMetaData) == SumLens(c, a, withMetaData) + SumLens(c, b, withMetaData)
    decreases |a|
  {
    if |a| > 0 {
      assert (a + b)[1..] == a[1..] + b;
      SumLensAppend(c, a[1..], b, withMetaData);
    } else {
      assert a + b == b;
    }
  }

  lemma {:induction false} ConcatAppend<P>(c: ElementCodec<P>, a: seq<P>, b: seq<P>)
    ensures Concat(c, a + b) == Concat(c, a) + Concat(c, b)
    ensures SumLens(c, a + b, true) == SumLens(c, a, true) + SumLens(c, b, true)
    decreases |a|
  {
    if |a| > 0 {
      assert (a + b)[1..] == a[1..] + b;
      ConcatAppend(c, a[1..], b);
    } else {
      assert a + b == b;
    }
  }

  /** Element `i` sits between the first `i` encodings and the rest. */
  lemma ConcatSplit<P>(c: ElementCodec<P>, ps: seq<P>, i: nat)
    requires i < |ps|
    ensures Concat(c, ps) == Concat(c, ps[..i]) + c.write(ps[i]) + Concat(c, ps[i + 1..])
  {
    assert ps == ps[..i] + ([ps[i]] + ps[i + 1..]);
    ConcatAppend(c, ps[..i], [ps[i]] + ps[i + 1..]);
    assert ([ps[i]] + ps[i + 1..])[1..] == ps[i + 1..];
  }

  /** Progress of the element-decoding loop of `UnmarshalBinary`: the
      elements decoded so far, the final read position, and the failure that
      stopped the loop, if any. */
  datatype Decoding<P> = Decoding(elements: seq<P>, pointer: nat, err: Option<DecodeError>)

  /** Decodes `count` elements starting at byte `pointer`. */
  function DecodeElements<P>(c: ElementCodec<P>, data: seq<byte>, pointer: nat, count: nat): (r: Decoding<P>)
    requires pointer <= |data|
    ensures |r.elements| <= count
    ensures r.err.None? ==> |r.elements| == count && pointer <= r.pointer
    decreases count
  {
    if count == 0 then Decoding([], pointer, None)
    else
      match c.read(data[pointer..])
      case None => Decoding([], pointer, Some(ElementDecodeFailed))
      case Some((p, inc)) =>
        var next := pointer + inc;
        if next > |data| then
          // The last element leaves the pointer past the end, which the
          // final length check rejects; any earlier one makes the next
          // `data[pointer:]` panic.
          Decoding([p], next, if count == 1 then None else Some(SliceOutOfRange))
        else
          var rest := DecodeElements(c, data, next, count - 1);
          Decoding([p] + rest.elements, rest.pointer, rest.err)
  }

  /** The state of the target ciphertext after `UnmarshalBinary`, and the
      error it returned, if any. */
  datatype Unmarshalled<P> = Unmarshalled(target: Ciphertext<P>, err: Option<DecodeError>)

  /** `UnmarshalBinary`. After the minimum-length check the target is reset
      and its header fields are overwritten before any element is decoded,
      so a later failure leaves the target changed: the decoded prefix of
      its elements, then `empty` slots. */
  function Unmarshal<P>(c: ElementCodec<P>, target: Ciphertext<P>, data: seq<byte>): (r: Unmarshalled<P>)
    ensures |data| < HEADER_SIZE ==> r == Unmarshalled(target, Some(TooSmall))
    ensures |data| >= HEADER_SIZE ==>
      && |r.target.value| == data[0]
      && r.target.scaleBits == FromLittleEndian(data[1..9])
      && (r.target.isNTT <==> data[10] == 1)
    ensures r.err.None? ==>
      |data| >= HEADER_SIZE && DecodeElements(c, data, HEADER_SIZE, data[0]).pointer == |data|
  {
    if |data| < HEADER_SIZE then Unmarshalled(target, Some(TooSmall))
    else
      var count := data[0];
      FromLittleEndianBound(data[1..9]);
      var scaleBits := FromLittleEndian(data[1..9]);
      var d := DecodeElements(c, data, HEADER_SIZE, count);
      var err :=
        if d.err.Some? then d.err
        else if d.pointer != |data| then Some(RemainingUnparsedData)
        else None;
      var value := d.elements + seq(count - |d.elements|, _ => c.empty);
      Unmarshalled(Ciphertext(value, scaleBits, data[10] == 1), err)
  }

  lemma FromLittleEndianBound(b: seq<byte>)
    requires |b| == 8
    ensures FromLittleEndian(b) < WORD_MODULUS
  {
    Pow256Of8();
  }

  /** Decoding a run of encodings yields the encoded elements and stops right
      after them. */
  lemma {:induction false} DecodeConcat<P(!new)>(c: ElementCodec<P>, data: seq<byte>, pointer: nat, ps: seq<P>)
    requires RoundTrips(c)
    requires pointer + |Concat(c, ps)| <= |data|
    requires data[pointer..pointer + |Concat(c, ps)|] == Concat(c, ps)
    ensures DecodeElements(c, data, pointer, |ps|) == Decoding(ps, pointer + |Concat(c, ps)|, None)
    decreases |ps|
  {
    if |ps| > 0 {
      var next := ReadFront(c, data, pointer, ps);
      DecodeConcat(c, data, next, ps[1..]);
      var rest := DecodeElements(c, data, next, |ps| - 1);
      assert DecodeElements(c, data, pointer, |ps|) == Decoding([ps[0]] + rest.elements, rest.pointer, rest.err);
      assert [ps[0]] + ps[1..] == ps;
    }
  }

  /** The first encoding of a run decodes to its element, and the rest of
      the run follows it. */
  lemma ReadFront<P(!new)>(c: ElementCodec<P>, data: seq<byte>, pointer: nat, ps: seq<P>) returns (next: nat)
    requires RoundTrips(c)
    requires |ps| > 0
    requires pointer + |Concat(c, ps)| <= |data|
    requires data[pointer..pointer + |Concat(c, ps)|] == Concat(c, ps)
    ensures next == pointer + |c.write(ps[0])| <= |data|
    ensures c.read(data[pointer..]) == Some((ps[0], |c.write(ps[0])|))
    ensures next + |Concat(c, ps[1..])| == pointer + |Concat(c, ps)|
    ensures data[next..next + |Concat(c, ps[1..])|] == Concat(c, ps[1..])
  {
    var w := c.write(ps[0]);
    next := pointer + |w|;
    assert Concat(c, ps) == w + Concat(c, ps[1..]);
    var tail := data[pointer..][|w|..];
    assert data[pointer..] == w + tail by {
      assert data[pointer..][..|w|] == Concat(c, ps)[..|w|];
    }
    assert data[next..next + |Concat(c, ps[1..])|] == Concat(c, ps)[|w|..];
  }

  /** Round trip: decoding an encoding restores the element count, the scale
      bits, the NTT flag and every element, whatever the target held. */
  lemma RoundTrip<P(!new)>(c: ElementCodec<P>, ct: Ciphertext<P>, target: Ciphertext<P>)
    requires RoundTrips(c)
    requires |ct.value| <= 255
    ensures Unmarshal(c, target, Marshal(c, ct)) == Unmarshalled(ct, None)
  {
    var data := Marshal(c, ct);
    var body := Concat(c, ct.value);
    assert data == Header(ct) + body;
    assert data[HEADER_SIZE..HEADER_SIZE + |body|] == body;
    HeaderDecodes(ct, data);
    DecodeConcat(c, data, HEADER_SIZE, ct.value);
  }

  /** An encoding followed by extra bytes is rejected, and the target is left
      holding the decoded ciphertext. */
  lemma TrailingBytesRejected<P(!new)>(c: ElementCodec<P>, ct: Ciphertext<P>, target: Ciphertext<P>, extra: seq<byte>)
    requires RoundTrips(c)
    requires |ct.value| <= 255
    requires |extra| > 0
    ensures Unmarshal(c, target, Marshal(c, ct) + extra) == Unmarshalled(ct, Some(RemainingUnparsedData))
  {
    var data := Marshal(c, ct) + extra;
    var body := Concat(c, ct.value);
    assert data == Header(ct) + body + extra;
    assert data[HEADER_SIZE..HEADER_SIZE + |body|] == body;
    HeaderDecodes(ct, data);
    DecodeConcat(c, data, HEADER_SIZE, ct.value);
  }

  /** The header of an encoding decodes to the fields it was written from. */
  lemma HeaderDecodes<P>(ct: Ciphertext<P>, data: seq<byte>)
    requires |ct.value| <= 255
    requires |data| >= HEADER_SIZE && data[..HEADER_SIZE] == Header(ct)
    ensures data[0] == |ct.value|
    ensures FromLittleEndian(data[1..9]) == ct.scaleBits
    ensures data[10] == 1 <==> ct.isNTT
  {
    assert data[1..9] == Header(ct)[1..9] == LittleEndian(ct.scaleBits, 8);
    Pow256Of8();
    FromLittleEndianOfLittleEndian(ct.scaleBits, 8);
  }

  lemma ConcatCons<P>(c: ElementCodec<P>, p: P, ps: seq<P>)
    ensures Concat(c, [p] + ps) == c.write(p) + Concat(c, ps)
  {
    assert ([p] + ps)[1..] == ps;
  }

  /** A successful decode consumed a run of canonical encodings. */
  lemma {:induction false} DecodedIsConcat<P>(c: ElementCodec<P>, data: seq<byte>, pointer: nat, count: nat)
    requires Canonical(c)
    requires pointer <= |data|
    requires DecodeElements(c, data, pointer, count).err.None?
    requires DecodeElements(c, data, pointer, count).pointer == |data|
    ensures data[pointer..] == Concat(c, DecodeElements(c, data, pointer, count).elements)
    decreases count
  {
    if count > 0 {
      var d := data[pointer..];
      var p, inc := c.read(d).value.0, c.read(d).value.1;
      assert pointer + inc <= |data|;
      var rest := DecodeElements(c, data, pointer + inc, count - 1);
      assert DecodeElements(c, data, pointer, count) == Decoding([p] + rest.elements, rest.pointer, rest.err);
      DecodedIsConcat(c, data, pointer + inc, count - 1);
      CanonicalFront(c, d);
      assert d[inc..] == data[pointer + inc..];
      ConcatCons(c, p, rest.elements);
    }
  }

  /** A canonical read splits its input into the decoded element's encoding
      and the bytes after it. */
  lemma CanonicalFront<P>(c: ElementCodec<P>, d: seq<byte>)
    requires Canonical(c)
    requires c.read(d).Some?
    ensures c.read(d).value.1 <= |d|
    ensures d == c.write(c.read(d).value.0) + d[c.read(d).value.1..]
  {
    var inc := c.read(d).value.1;
    assert d == d[..inc] + d[inc..];
  }

  /** Reverse round trip: whatever decodes successfully re-encodes to the same
      bytes, except that byte 9 comes back as 0 and byte 10 as 0 or 1. */
  lemma {:induction false} ReencodeDecoded<P>(c: ElementCodec<P>, target: Ciphertext<P>, data: seq<byte>)
    requires Canonical(c)
    requires Unmarshal(c, target, data).err.None?
    ensures |data| >= HEADER_SIZE
    ensures Marshal(c, Unmarshal(c, target, data).target) ==
      data[9 := 0][10 := if data[10] == 1 then 1 else 0]
  {
    var ct := Unmarshal(c, target, data).target;
    var b10: byte := if data[10] == 1 then 1 else 0;
    var expected := data[9 := 0][10 := b10];
    assert ct.value == DecodeElements(c, data, HEADER_SIZE, data[0]).elements;
    DecodedIsConcat(c, data, HEADER_SIZE, data[0]);
    DecodedHeader(data, ct);
    assert expected == expected[..HEADER_SIZE] + data[HEADER_SIZE..];
  }

  /** The header re-encoded from decoded header fields. */
  lemma DecodedHeader<P>(data: seq<byte>, ct: Ciphertext<P>)
    requires |data| >= HEADER_SIZE
    requires |ct.value| == data[0]
    requires ct.scaleBits == FromLittleEndian(data[1..9])
    requires ct.isNTT <==> data[10] == 1
    ensures Header(ct) == data[9 := 0][10 := if data[10] == 1 then 1 else 0][..HEADER_SIZE]
  {
    LittleEndianOfFromLittleEndian(data[1..9]);
    var b10: byte := if data[10] == 1 then 1 else 0;
    var fields := [data[0]] + data[1..9] + [0] + [b10];
    assert Header(ct) == fields;
    var patched := data[9 := 0][10 := b10][..HEADER_SIZE];
    assert patched[..9] == data[..9] == [data[0]] + data[1..9];
    assert patched == patched[..9] + [0] + [b10];
  }

  /** Byte 9 is never read: changing it changes nothing about the decode. */
  lemma UnusedByteIgnored<P>(c: ElementCodec<P>, target: Ciphertext<P>, data: seq<byte>, b: byte)
    requires |data| >= HEADER_SIZE
    ensures Unmarshal(c, target, data[9 := b]) == Unmarshal(c, target, data)
  {
    var data' := data[9 := b];
    assert data'[1..9] == data[1..9];
    assert data'[HEADER_SIZE..] == data[HEADER_SIZE..];
    DecodeOnlyReadsTail(c, data, data', HEADER_SIZE, data[0]);
  }

  lemma {:induction false} DecodeOnlyReadsTail<P>(c: ElementCodec<P>, a: seq<byte>, b: seq<byte>, pointer: nat, count: nat)
    requires pointer <= |a| == |b|
    requires a[pointer..] == b[pointer..]
    ensures DecodeElements(c, a, pointer, count) == DecodeElements(c, b, pointer, count)
    decreases count
  {
    if count > 0 && c.read(a[pointer..]).Some? {
      var inc := c.read(a[pointer..]).value.1;
      if pointer + inc <= |a| {
        assert a[pointer + inc..] == a[pointer..][inc..];
        assert b[pointer + inc..] == b[pointer..][inc..];
        DecodeOnlyReadsTail(c, a, b, pointer + inc, count - 1);
      }
    }
  }
}
