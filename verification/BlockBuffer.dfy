/** The data generator at work on a block buffer in place. */
module BlockBuffer {
  import opened Bytes
  import opened Datagen

  /** randomize_header into a buffer at an offset. */
  method RandomizeHeader(src: seq<bv8>, dst: array<bv8>, at: nat, mask: seq<bv8>)
    requires |src| == |mask| == HEADER_SIZE && at + HEADER_SIZE <= dst.Length
    modifies dst
    ensures forall i | 0 <= i < dst.Length ::
              dst[i] == if at <= i < at + HEADER_SIZE then Mask(src, mask)[i - at] else old(dst[i])
  {
    dst[at] := src[0];
    for offset := 1 to HEADER_SIZE
      invariant forall i | 0 <= i < dst.Length ::
                  dst[i] == if at <= i < at + offset then Mask(src, mask)[i - at] else old(dst[i])
    {
      dst[at + offset] := src[offset] ^ mask[offset];
    }
  }

  /** memcpy into a buffer at an offset. */
  method Copy(src: seq<bv8>, dst: array<bv8>, at: nat)
    requires at + |src| <= dst.Length
    modifies dst
    ensures forall i | 0 <= i < dst.Length :: dst[i] == if at <= i < at + |src| then src[i - at] else old(dst[i])
  {
    for n := 0 to |src|
      invariant forall i | 0 <= i < dst.Length :: dst[i] == if at <= i < at + n then src[i - at] else old(dst[i])
    {
      dst[at + n] := src[n];
    }
  }

  /** datagen_set_header: header and footer are written, the body is left alone. */
  method SetHeader(g: Generator, data: array<bv8>, lba: u64, timestamp: u64, p: nat)
    requires g.Valid() && data.Length == g.dataSize && p < |g.patterns|
    modifies data
    ensures FirstBytes(g, data[..]) == LastBytes(g, data[..]) == Stored(g, p, Pack(NewHeader(lba, timestamp, p, 0)))
    ensures Body(g, data[..]) == Body(g, old(data[..]))
  {
    hide Pack, Mask;
    var header := Pack(NewHeader(lba, timestamp, p, 0));
    var footer := g.dataSize - HEADER_SIZE;
    if g.randomizeHeader {
      RandomizeHeader(header, data, 0, g.patterns[p].headerMask);
      RandomizeHeader(header, data, footer, g.patterns[p].headerMask);
    } else {
      Copy(header, data, 0);
      Copy(header, data, footer);
    }
    ghost var h := Stored(g, p, header);
    assert forall i | 0 <= i < HEADER_SIZE :: data[i] == h[i] && data[footer + i] == h[i];
    assert forall i | HEADER_SIZE <= i < footer :: data[i] == old(data[i]);
  }

  /** datagen_set_data: the buffer becomes the generated block, whatever it held before. */
  method SetData(g: Generator, data: array<bv8>, lba: u64, timestamp: u64, p: nat)
    requires g.Valid() && data.Length == g.dataSize && p < |g.patterns|
    modifies data
    ensures data[..] == BlockData(g, lba, timestamp, p)
  {
    hide Pack, Stored;
    SetHeader(g, data, lba, timestamp, p);
    ghost var h := Stored(g, p, Pack(NewHeader(lba, timestamp, p, 0)));
    var n := g.dataSize - HEADER_SIZE;
    assert forall i | 0 <= i < HEADER_SIZE ::
      FirstBytes(g, data[..])[i] == data[i] && LastBytes(g, data[..])[i] == data[n + i];
    Copy(g.patterns[p].body, data, HEADER_SIZE);
    ghost var b := h + g.patterns[p].body + h;
    forall i | 0 <= i < g.dataSize ensures data[i] == b[i] {
      if i >= n { assert b[i] == h[i - n]; }
    }
  }
}
