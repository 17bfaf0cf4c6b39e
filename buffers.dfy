/**
 * The wire buffer the Locator is written to and read from: a byte sequence with
 * a fixed capacity, fixed-width big-endian integers and variable-length
 * integers. buffer.rs and varint.rs are not part of this model; the byte layout
 * below is a stand-in with the properties the Locator codec relies on: every
 * append fails past capacity, every read fails past the end of input, and every
 * read undoes the matching append.
 */
module Buffers {
  import opened Wrappers

  type Byte = b: int | 0 <= b < 256
  type Bytes = seq<Byte>

  datatype IoError = UnexpectedEof | InvalidData

  /** One more than the largest usize on a 64-bit target: cursors and lengths wrap around here. */
  const UsizeLimit: nat := 0x1_0000_0000_0000_0000

  function Pow256(n: nat): (r: nat)
    ensures r >= 1
  {
    if n == 0 then 1 else 256 * Pow256(n - 1)
  }

  lemma Pow256Widths()
    ensures Pow256(5) == 0x100_0000_0000
    ensures Pow256(8) == 0x1_0000_0000_0000_0000
  {
  }

  /** `rest` is what remains of `s` after a read: a suffix of it. */
  predicate IsSuffix(rest: Bytes, s: Bytes) {
    |rest| <= |s| && rest == s[|s| - |rest|..]
  }

  lemma SuffixTransitive(a: Bytes, b: Bytes, c: Bytes)
    requires IsSuffix(a, b) && IsSuffix(b, c)
    ensures IsSuffix(a, c)
  {
    assert c[|c| - |b|..][|b| - |a|..] == c[|c| - |a|..];
  }

  // ---- fixed-width big-endian integers ----

  function EncodeFixed(v: nat, width: nat): (r: Bytes)
    ensures |r| == width
  {
    if width == 0 then [] else EncodeFixed(v / 256, width - 1) + [v % 256]
  }

  /** The big-endian value of `s`. */
  function ValueOf(s: Bytes): (r: nat)
    ensures r < Pow256(|s|)
  {
    if s == [] then 0 else ValueOf(s[..|s| - 1]) * 256 + s[|s| - 1]
  }

  lemma {:induction false} ValueOfEncodeFixed(v: nat, width: nat)
    requires v < Pow256(width)
    ensures ValueOf(EncodeFixed(v, width)) == v
  {
    if width > 0 {
      var e := EncodeFixed(v / 256, width - 1);
      ValueOfEncodeFixed(v / 256, width - 1);
      assert (e + [v % 256])[..width - 1] == e;
    }
  }

  /**
   * Reads are modelled on the unread rest of the input: a read returns the
   * value and what remains after it, so a cursor into `s` that has `rest` left
   * to read stands at `|s| - |rest|`.
   */
  function ReadFixed(s: Bytes, width: nat): (r: Result<(nat, Bytes), IoError>)
    ensures r.Ok? ==> r.value.0 < Pow256(width) && width <= |s| && r.value.1 == s[width..]
    ensures r.Err? <==> width > |s|
  {
    if width <= |s| then Ok((ValueOf(s[..width]), s[width..])) else Err(UnexpectedEof)
  }

  lemma ReadFixedEncoded(v: nat, width: nat, rest: Bytes)
    requires v < Pow256(width)
    ensures ReadFixed(EncodeFixed(v, width) + rest, width) == Ok((v, rest))
  {
    var e := EncodeFixed(v, width);
    assert (e + rest)[..width] == e;
    assert (e + rest)[width..] == rest;
    ValueOfEncodeFixed(v, width);
  }

  // ---- variable-length integers: 7 bits per byte, low group first, high bit marks the last byte ----

  function EncodeVarint(v: nat): (r: Bytes)
    ensures |r| >= 1
  {
    if v < 128 then [v + 128] else [v % 128] + EncodeVarint(v / 128)
  }

  function ReadVarint(s: Bytes): (r: Result<(nat, Bytes), IoError>)
    ensures r.Ok? ==> |r.value.1| < |s|
  {
    if s == [] then Err(UnexpectedEof)
    else if s[0] >= 128 then Ok((s[0] - 128, s[1..]))
    else
      var rest :- ReadVarint(s[1..]);
      Ok((s[0] + 128 * rest.0, rest.1))
  }

  lemma {:induction false} ReadVarintSuffix(s: Bytes)
    ensures ReadVarint(s).Ok? ==> IsSuffix(ReadVarint(s).value.1, s)
  {
    if s != [] && s[0] < 128 {
      ReadVarintSuffix(s[1..]);
      if ReadVarint(s[1..]).Ok? {
        SuffixTransitive(ReadVarint(s[1..]).value.1, s[1..], s);
      }
    }
  }

  lemma {:induction false} ReadVarintEncoded(v: nat, rest: Bytes)
    ensures ReadVarint(EncodeVarint(v) + rest) == Ok((v, rest))
  {
    if v >= 128 {
      assert (EncodeVarint(v) + rest)[1..] == EncodeVarint(v / 128) + rest;
      ReadVarintEncoded(v / 128, rest);
    }
  }

  /** A run of `n` raw bytes. */
  function ReadBytes(s: Bytes, n: nat): (r: Result<(Bytes, Bytes), IoError>)
    ensures r.Ok? ==> |r.value.0| == n && r.value.0 + r.value.1 == s && r.value.1 == s[n..]
    ensures r.Err? <==> n > |s|
  {
    if n <= |s| then Ok((s[..n], s[n..])) else Err(UnexpectedEof)
  }

  lemma ReadBytesEncoded(b: Bytes, rest: Bytes)
    ensures ReadBytes(b + rest, |b|) == Ok((b, rest))
  {
    assert (b + rest)[..|b|] == b;
    assert (b + rest)[|b|..] == rest;
  }

  /** `after` is `before` followed by the first bytes of `whole`: a write of `whole` that may have stopped early. */
  predicate Appended(before: Bytes, after: Bytes, whole: Bytes) {
    && |before| <= |after| <= |before| + |whole|
    && after == before + whole[..|after| - |before|]
  }

  /** A write that stopped inside `part`, after `head` was written behind `start`, stopped inside `head + part + tail`. */
  lemma AppendedWithin(start: Bytes, middle: Bytes, written: Bytes, head: Bytes, part: Bytes, tail: Bytes)
    requires middle == start + head && Appended(middle, written, part)
    ensures Appended(start, written, head + (part + tail))
  {
    var m := |written| - |middle|;
    assert head + part[..m] == (head + (part + tail))[..|head| + m];
  }

  /** A write that stopped after `head` of `head + rest`. */
  lemma AppendedStop(start: Bytes, written: Bytes, head: Bytes, rest: Bytes)
    requires written == start + head
    ensures Appended(start, written, head + rest)
  {
    assert (head + rest)[..|head|] == head;
  }

  /** Appended, stated as prefixes: nothing written is lost, and nothing but a prefix of `whole` is added. */
  lemma AppendedPrefix(before: Bytes, after: Bytes, whole: Bytes)
    requires Appended(before, after, whole)
    ensures before <= after && after <= before + whole
  {
    assert after == (before + whole)[..|after|];
  }

  /** A write buffer of fixed capacity (`Buffer<L>` with L = capacity). */
  class Buffer {
    const capacity: nat
    var bytes: Bytes

    ghost predicate Valid()
      reads this
    {
      |bytes| <= capacity
    }

    constructor (capacity: nat)
      ensures Valid() && this.capacity == capacity && bytes == []
    {
      this.capacity := capacity;
      bytes := [];
    }

    method AppendBytes(b: Bytes) returns (ok: bool)
      requires Valid()
      modifies this
      ensures Valid()
      ensures ok == (|old(bytes)| + |b| <= capacity)
      ensures bytes == if ok then old(bytes) + b else old(bytes)
    {
      ok := |bytes| + |b| <= capacity;
      if ok {
        bytes := bytes + b;
      }
    }

    method AppendU64(v: nat) returns (ok: bool)
      requires Valid() && v < Pow256(8)
      modifies this
      ensures Valid()
      ensures ok == (|old(bytes)| + 8 <= capacity)
      ensures bytes == if ok then old(bytes) + EncodeFixed(v, 8) else old(bytes)
    {
      ok := AppendBytes(EncodeFixed(v, 8));
    }

    method AppendVarint(v: nat) returns (ok: bool)
      requires Valid()
      modifies this
      ensures Valid()
      ensures ok == (|old(bytes)| + |EncodeVarint(v)| <= capacity)
      ensures bytes == if ok then old(bytes) + EncodeVarint(v) else old(bytes)
    {
      ok := AppendBytes(EncodeVarint(v));
    }
  }
}
