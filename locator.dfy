/**
 * Locator: a signed record saying where a node (the subject) can be reached,
 * attested by a signer. Models network-hypervisor/src/vl1/locator.rs.
 */
module Locators {
  import opened Wrappers
  import opened Buffers
  import opened Vl1
  import Sorting

  /** PACKET_SIZE_MAX, the capacity of the buffer a locator is signed and checked in (protocol.rs; stand-in value). */
  const PacketSizeMax: nat := 16384

  type I64 = t: int | -0x8000_0000_0000_0000 <= t < 0x8000_0000_0000_0000

  /** `ts as i64` read back from a u64: the same 64 bits, negative exactly when the top bit is set. */
  function I64Of(u: nat): (t: I64)
    requires u < Pow256(8)
    ensures t < 0 <==> u >= 0x8000_0000_0000_0000
    ensures t % 0x1_0000_0000_0000_0000 == u
  {
    Pow256Widths();
    if u >= 0x8000_0000_0000_0000 then u - 0x1_0000_0000_0000_0000 else u
  }

  /** `ts as u64`: the two's-complement reinterpretation of an i64. */
  function U64Of(t: I64): (u: nat)
    ensures u < Pow256(8)
    ensures I64Of(u) == t
  {
    Pow256Widths();
    if t < 0 then t + 0x1_0000_0000_0000_0000 else t
  }

  datatype Locator = Locator(
    subject: Address,
    signer: Address,
    timestamp: I64,
    endpoints: seq<Endpoint>,
    signature: Bytes)

  // ---------------------------------------------------------------------------
  // Proxy signing and supersession
  // ---------------------------------------------------------------------------

  predicate IsProxySigned(loc: Locator) {
    loc.subject != loc.signer
  }

  /** Whether `loc` should replace the already known `other`. */
  function ShouldReplace(loc: Locator, other: Locator): (r: bool)
    ensures r ==> loc.timestamp > other.timestamp || (!IsProxySigned(loc) && IsProxySigned(other))
    ensures IsProxySigned(loc) && !IsProxySigned(other) ==> !r
    ensures !IsProxySigned(loc) && IsProxySigned(other) ==> r
  {
    if IsProxySigned(loc) == IsProxySigned(other) then
      loc.timestamp > other.timestamp
    else
      IsProxySigned(other)
  }

  /** The rank the supersession rule follows: self-signed above proxy-signed, then the later timestamp. */
  function Authority(loc: Locator): nat {
    if IsProxySigned(loc) then 0 else 1
  }

  predicate Outranks(a: Locator, b: Locator) {
    Authority(a) > Authority(b) || (Authority(a) == Authority(b) && a.timestamp > b.timestamp)
  }

  lemma ShouldReplaceFollowsRank(a: Locator, b: Locator)
    ensures ShouldReplace(a, b) <==> Outranks(a, b)
  {
  }

  lemma ShouldReplaceSameStatus(a: Locator, b: Locator)
    requires IsProxySigned(a) == IsProxySigned(b)
    ensures ShouldReplace(a, b) <==> a.timestamp > b.timestamp
    ensures a.timestamp == b.timestamp ==> !ShouldReplace(a, b) && !ShouldReplace(b, a)
  {
  }

  lemma ShouldReplaceSelfSignedWins(a: Locator, b: Locator)
    requires !IsProxySigned(a) && IsProxySigned(b)
    ensures ShouldReplace(a, b) && !ShouldReplace(b, a)
  {
  }

  /** Supersession is a strict order: irreflexive, asymmetric and transitive. */
  lemma ShouldReplaceStrictOrder(a: Locator, b: Locator, c: Locator)
    ensures !ShouldReplace(a, a)
    ensures ShouldReplace(a, b) ==> !ShouldReplace(b, a)
    ensures ShouldReplace(a, b) && ShouldReplace(b, c) ==> ShouldReplace(a, c)
  {
    ShouldReplaceFollowsRank(a, b);
    ShouldReplaceFollowsRank(b, c);
    ShouldReplaceFollowsRank(a, c);
    ShouldReplaceFollowsRank(b, a);
  }

  // ---------------------------------------------------------------------------
  // Endpoint normalisation
  // ---------------------------------------------------------------------------

  function EndpointRank(e: Endpoint): int {
    e.code
  }

  /** `sort_unstable` followed by `dedup`. */
  function Normalize(endpoints: seq<Endpoint>): (r: seq<Endpoint>)
    ensures StrictlyAscending(r)
    ensures forall e :: e in r <==> e in endpoints
  {
    NormalizeSteps(endpoints);
    Sorting.Dedup(Sorting.InsertionSort(endpoints, EndpointRank))
  }

  predicate StrictlyAscending(eps: seq<Endpoint>) {
    forall i, j :: 0 <= i < j < |eps| ==> eps[i].code < eps[j].code
  }

  lemma NormalizeSteps(endpoints: seq<Endpoint>)
    ensures StrictlyAscending(Sorting.Dedup(Sorting.InsertionSort(endpoints, EndpointRank)))
    ensures forall e :: e in Sorting.Dedup(Sorting.InsertionSort(endpoints, EndpointRank)) <==> e in endpoints
  {
    var sorted := Sorting.InsertionSort(endpoints, EndpointRank);
    Sorting.InsertionSortCorrect(endpoints, EndpointRank);
    Sorting.DedupCorrect(sorted, EndpointRank);
    AscendingWithoutRepeats(Sorting.Dedup(sorted));
    forall e ensures e in sorted <==> e in endpoints {
      assert e in sorted <==> e in multiset(sorted);
      assert e in endpoints <==> e in multiset(endpoints);
    }
  }

  /** A sorted endpoint list with no two equal neighbours is strictly ascending. */
  lemma AscendingWithoutRepeats(d: seq<Endpoint>)
    requires Sorting.SortedBy(d, EndpointRank)
    requires forall i :: 0 <= i < |d| - 1 ==> d[i] != d[i + 1]
    ensures StrictlyAscending(d)
  {
    forall i, j | 0 <= i < j < |d| ensures d[i].code < d[j].code {
      assert d[i] != d[i + 1];
      assert EndpointRank(d[i]) <= EndpointRank(d[i + 1]) <= EndpointRank(d[j]);
    }
  }

  /** Sequences with the same elements are both empty or both not. */
  lemma SameElementsEmpty(a: seq<Endpoint>, b: seq<Endpoint>)
    requires forall e :: e in a <==> e in b
    ensures a == [] <==> b == []
  {
    if a != [] {
      assert a[0] in b;
    }
    if b != [] {
      assert b[0] in a;
    }
  }

  /** Two ascending sequences with the same elements and the same head have tails with the same elements. */
  lemma SameTailElements(a: seq<Endpoint>, b: seq<Endpoint>)
    requires StrictlyAscending(a) && StrictlyAscending(b)
    requires forall e :: e in a <==> e in b
    requires a != [] && b != [] && a[0] == b[0]
    ensures forall e :: e in a[1..] <==> e in b[1..]
  {
    forall e ensures e in a[1..] ==> e in b[1..] {
      if e in a[1..] {
        var k :| 1 <= k < |a| && a[k] == e;
        assert e in b;
        var m :| 0 <= m < |b| && b[m] == e;
        assert b[1..][m - 1] == e;
      }
    }
    forall e ensures e in b[1..] ==> e in a[1..] {
      if e in b[1..] {
        var k :| 1 <= k < |b| && b[k] == e;
        assert e in a;
        var m :| 0 <= m < |a| && a[m] == e;
        assert a[1..][m - 1] == e;
      }
    }
  }

  lemma {:induction false} AscendingUnique(a: seq<Endpoint>, b: seq<Endpoint>)
    requires StrictlyAscending(a) && StrictlyAscending(b)
    requires forall e :: e in a <==> e in b
    ensures a == b
  {
    SameElementsEmpty(a, b);
    if a != [] && b != [] {
      assert a[0] in b;
      assert b[0] in a;
      var i :| 0 <= i < |b| && b[i] == a[0];
      var j :| 0 <= j < |a| && a[j] == b[0];
      assert a[0] == b[0];
      SameTailElements(a, b);
      AscendingUnique(a[1..], b[1..]);
      assert a == [a[0]] + a[1..];
      assert b == [b[0]] + b[1..];
    }
  }

  /** Endpoint lists holding the same endpoints, in any order and with any repeats, normalise alike. */
  lemma NormalizeCanonical(a: seq<Endpoint>, b: seq<Endpoint>)
    requires forall e :: e in a <==> e in b
    ensures Normalize(a) == Normalize(b)
  {
    AscendingUnique(Normalize(a), Normalize(b));
  }

  // ---------------------------------------------------------------------------
  // Wire encoding
  // ---------------------------------------------------------------------------

  function EncodeEndpoints(eps: seq<Endpoint>): Bytes {
    if eps == [] then [] else EncodeEndpoint(eps[0]) + EncodeEndpoints(eps[1..])
  }

  lemma {:induction false} EncodeEndpointsAppend(a: seq<Endpoint>, b: seq<Endpoint>)
    ensures EncodeEndpoints(a + b) == EncodeEndpoints(a) + EncodeEndpoints(b)
  {
    if a != [] {
      assert (a + b)[1..] == a[1..] + b;
      EncodeEndpointsAppend(a[1..], b);
    } else {
      assert a + b == b;
    }
  }

  /** The extension field and, unless excluded, the signature. */
  function TrailerEncoding(extension: Bytes, signature: Bytes, excludeSignature: bool): Bytes {
    EncodeVarint(|extension|)
    + (extension
    + (if excludeSignature then [] else EncodeVarint(|signature|) + signature))
  }

  /** Everything after the two addresses. */
  function BodyEncoding(loc: Locator, extension: Bytes, excludeSignature: bool): Bytes {
    EncodeFixed(U64Of(loc.timestamp), 8)
    + (EncodeVarint(|loc.endpoints|)
    + (EncodeEndpoints(loc.endpoints)
    + TrailerEncoding(extension, loc.signature, excludeSignature)))
  }

  /**
   * The encoding of every field but the signature, followed by an extension
   * field, followed (unless excluded) by the signature. `marshal` always writes
   * an empty extension; a later protocol version may write a longer one.
   */
  function Encoding(loc: Locator, extension: Bytes, excludeSignature: bool): Bytes {
    EncodeAddress(loc.subject) + (EncodeAddress(loc.signer) + BodyEncoding(loc, extension, excludeSignature))
  }

  /** The bytes the signature covers. */
  function SignedPayload(loc: Locator): Bytes {
    Encoding(loc, [], true)
  }

  /** Reads `count` endpoints after those already read into `acc`. */
  function DecodeEndpoints(s: Bytes, count: nat, acc: seq<Endpoint>): (r: Result<(seq<Endpoint>, Bytes), IoError>)
    ensures r.Ok? ==> |r.value.0| == |acc| + count && |r.value.1| <= |s|
    decreases count
  {
    if count == 0 then Ok((acc, s))
    else
      var e :- ReadEndpoint(s);
      DecodeEndpoints(e.1, count - 1, acc + [e.0])
  }

  lemma {:induction false} DecodeEndpointsSuffix(s: Bytes, count: nat, acc: seq<Endpoint>)
    ensures DecodeEndpoints(s, count, acc).Ok? ==> IsSuffix(DecodeEndpoints(s, count, acc).value.1, s)
    decreases count
  {
    if count > 0 && ReadEndpoint(s).Ok? {
      var e := ReadEndpoint(s).value;
      ReadVarintSuffix(s);
      DecodeEndpointsSuffix(e.1, count - 1, acc + [e.0]);
      if DecodeEndpoints(e.1, count - 1, acc + [e.0]).Ok? {
        SuffixTransitive(DecodeEndpoints(e.1, count - 1, acc + [e.0]).value.1, e.1, s);
      }
    }
  }

  lemma {:induction false} DecodeEndpointsEncoded(eps: seq<Endpoint>, acc: seq<Endpoint>, rest: Bytes)
    ensures DecodeEndpoints(EncodeEndpoints(eps) + rest, |eps|, acc) == Ok((acc + eps, rest))
    decreases |eps|
  {
    if eps != [] {
      var tail := EncodeEndpoints(eps[1..]) + rest;
      assert EncodeEndpoints(eps) + rest == EncodeEndpoint(eps[0]) + tail;
      ReadEndpointEncoded(eps[0], tail);
      DecodeEndpointsEncoded(eps[1..], acc + [eps[0]], rest);
      assert acc + [eps[0]] + eps[1..] == acc + eps;
    } else {
      assert EncodeEndpoints(eps) + rest == rest;
      assert acc + eps == acc;
    }
  }

  /** The fields read before the extension: everything but the signature, and the extension's declared length. */
  datatype Header = Header(subject: Address, signer: Address, timestamp: I64, endpoints: seq<Endpoint>,
                           extensionLength: nat)
  {
    function WithSignature(signature: Bytes): Locator {
      Locator(subject, signer, timestamp, endpoints, signature)
    }
  }

  function HeaderEncoding(h: Header): Bytes {
    EncodeAddress(h.subject)
    + (EncodeAddress(h.signer)
    + (EncodeFixed(U64Of(h.timestamp), 8)
    + (EncodeVarint(|h.endpoints|)
    + (EncodeEndpoints(h.endpoints)
    + EncodeVarint(h.extensionLength)))))
  }

  /** The signature field: its length and its bytes, or nothing when excluded. */
  function SignatureField(signature: Bytes, excludeSignature: bool): Bytes {
    if excludeSignature then [] else EncodeVarint(|signature|) + signature
  }

  /** An encoding is a header declaring the extension's length, the extension, then the signature field. */
  lemma EncodingSplits(loc: Locator, extension: Bytes, excludeSignature: bool)
    ensures Encoding(loc, extension, excludeSignature)
         == HeaderEncoding(Header(loc.subject, loc.signer, loc.timestamp, loc.endpoints, |extension|))
            + (extension + SignatureField(loc.signature, excludeSignature))
  {
    var tail := extension + SignatureField(loc.signature, excludeSignature);
    assert TrailerEncoding(extension, loc.signature, excludeSignature) == EncodeVarint(|extension|) + tail;
    Regroup(EncodeAddress(loc.subject), EncodeAddress(loc.signer), EncodeFixed(U64Of(loc.timestamp), 8),
            EncodeVarint(|loc.endpoints|), EncodeEndpoints(loc.endpoints), EncodeVarint(|extension|), tail);
  }

  /** Moves the last part of a right-nested concatenation out of the nest. */
  lemma Regroup(a: Bytes, b: Bytes, c: Bytes, d: Bytes, e: Bytes, f: Bytes, tail: Bytes)
    ensures a + (b + (c + (d + (e + (f + tail))))) == a + (b + (c + (d + (e + f)))) + tail
  {
    assert e + (f + tail) == e + f + tail;
    assert d + (e + f + tail) == d + (e + f) + tail;
    assert c + (d + (e + f) + tail) == c + (d + (e + f)) + tail;
    assert b + (c + (d + (e + f)) + tail) == b + (c + (d + (e + f))) + tail;
  }

  /** The reads of Locator::unmarshal up to and including the extension length. */
  function DecodeHeader(s: Bytes): (r: Result<(Header, Bytes), IoError>)
    ensures r.Ok? ==> |r.value.1| < |s|
  {
    var subject :- ReadAddress(s);
    var signer :- ReadAddress(subject.1);
    if subject.0.None? || signer.0.None? then Err(InvalidData)
    else
      var ts :- ReadFixed(signer.1, 8);
      var count :- ReadVarint(ts.1);
      var eps :- DecodeEndpoints(count.1, count.0, []);
      var extensionLength :- ReadVarint(eps.1);
      Ok((Header(subject.0.value, signer.0.value, I64Of(ts.0), eps.0, extensionLength.0), extensionLength.1))
  }

  /** What the header leaves is the tail of the input. */
  lemma DecodeHeaderSuffix(s: Bytes)
    ensures DecodeHeader(s).Ok? ==> IsSuffix(DecodeHeader(s).value.1, s)
  {
    if DecodeHeader(s).Ok? {
      var t2 := s[2 * AddressSize..];
      var ts := ReadFixed(t2, 8).value;
      var count := ReadVarint(ts.1).value;
      var eps := DecodeEndpoints(count.1, count.0, []).value;
      var extensionLength := ReadVarint(eps.1).value;
      ReadVarintSuffix(ts.1);
      DecodeEndpointsSuffix(count.1, count.0, []);
      ReadVarintSuffix(eps.1);
      SuffixTransitive(extensionLength.1, eps.1, count.1);
      SuffixTransitive(extensionLength.1, count.1, ts.1);
      assert IsSuffix(ts.1, s);
      SuffixTransitive(extensionLength.1, ts.1, s);
    }
  }

  lemma DecodeHeaderEncoded(h: Header, rest: Bytes)
    ensures DecodeHeader(HeaderEncoding(h) + rest) == Ok((h, rest))
  {
    var t1 := EncodeVarint(h.extensionLength) + rest;
    var t2 := EncodeEndpoints(h.endpoints) + t1;
    var t3 := EncodeVarint(|h.endpoints|) + t2;
    var t4 := EncodeFixed(U64Of(h.timestamp), 8) + t3;
    var t5 := EncodeAddress(h.signer) + t4;
    assert HeaderEncoding(h) + rest == EncodeAddress(h.subject) + t5;
    ReadAddressEncoded(h.subject, t5);
    ReadAddressEncoded(h.signer, t4);
    ReadFixedEncoded(U64Of(h.timestamp), 8, t3);
    ReadVarintEncoded(|h.endpoints|, t2);
    DecodeEndpointsEncoded(h.endpoints, [], t1);
    assert [] + h.endpoints == h.endpoints;
    ReadVarintEncoded(h.extensionLength, rest);
  }

  /** The signature length and the signature bytes. */
  function DecodeSignature(s: Bytes): (r: Result<(Bytes, Bytes), IoError>)
    ensures r.Ok? ==> |r.value.1| < |s|
  {
    var length :- ReadVarint(s);
    ReadBytes(length.1, length.0)
  }

  lemma DecodeSignatureEncoded(signature: Bytes, rest: Bytes)
    ensures DecodeSignature(SignatureField(signature, false) + rest) == Ok((signature, rest))
  {
    assert SignatureField(signature, false) + rest == EncodeVarint(|signature|) + (signature + rest);
    ReadVarintEncoded(|signature|, signature + rest);
    ReadBytesEncoded(signature, rest);
  }

  /**
   * Locator::unmarshal as its comments intend it, on the input from the cursor
   * on: the locator read and the input left after it. The extension is skipped
   * forward, and an extension running past the end is an error.
   */
  function DecodeLocator(s: Bytes): (r: Result<(Locator, Bytes), IoError>)
    ensures r.Ok? ==> |r.value.1| < |s|
  {
    var header :- DecodeHeader(s);
    if header.0.extensionLength > |header.1| then Err(UnexpectedEof)
    else
      var signature :- DecodeSignature(header.1[header.0.extensionLength..]);
      Ok((header.0.WithSignature(signature.0), signature.1))
  }

  /** `*cursor += n` on a usize cursor: the sum wraps around modulo 2^64. */
  function WrappingAdd(cursor: nat, n: nat): (r: nat)
    ensures r < UsizeLimit
    ensures cursor + n < UsizeLimit ==> r == cursor + n
  {
    (cursor + n) % UsizeLimit
  }

  /**
   * Locator::unmarshal as written: the locator read at `cursor` and the cursor
   * after it. The extension is skipped by a wrapping add to the cursor, so a
   * declared length that carries the cursor past 2^64 moves it back, and the
   * signature is read from wherever it lands. A cursor past the end makes the
   * next read fail. Wherever the signature is read from, the cursor returned
   * lies within the buffer.
   */
  function UnmarshalAt(s: Bytes, cursor: nat): (r: Result<(Locator, nat), IoError>)
    ensures r.Ok? ==> r.value.1 <= |s|
  {
    if cursor > |s| then Err(UnexpectedEof)
    else
      var header :- DecodeHeader(s[cursor..]);
      SignatureAt(s, header.0, WrappingAdd(|s| - |header.1|, header.0.extensionLength))
  }

  /** The signature read at `position`, completing the locator whose other fields `header` holds. */
  function SignatureAt(s: Bytes, header: Header, position: nat): (r: Result<(Locator, nat), IoError>)
    ensures r.Ok? ==> position < r.value.1 <= |s|
  {
    if position > |s| then Err(UnexpectedEof)
    else
      var signature :- DecodeSignature(s[position..]);
      Ok((header.WithSignature(signature.0), |s| - |signature.1|))
  }

  /** Locator::unmarshal with the skip checked: the locator read at `cursor` and the cursor after it. */
  function UnmarshalChecked(s: Bytes, cursor: nat): (r: Result<(Locator, nat), IoError>)
    ensures r.Ok? ==> cursor < r.value.1 <= |s|
  {
    if cursor > |s| then Err(UnexpectedEof)
    else
      var decoded :- DecodeLocator(s[cursor..]);
      Ok((decoded.0, |s| - |decoded.1|))
  }

  /** UnmarshalAt, once the header is read: the signature is read where the skip lands, when it does not wrap. */
  lemma UnmarshalAtAfterHeader(s: Bytes, cursor: nat, header: Header, rest: Bytes)
    requires cursor <= |s| && DecodeHeader(s[cursor..]) == Ok((header, rest))
    requires |s| - |rest| + header.extensionLength < UsizeLimit
    ensures |rest| <= |s|
    ensures UnmarshalAt(s, cursor) == SignatureAt(s, header, |s| - |rest| + header.extensionLength)
  {
  }

  /** DecodeLocator, once the header is read: the signature follows the skipped extension. */
  lemma DecodeLocatorAfterHeader(t: Bytes, header: Header, rest: Bytes)
    requires DecodeHeader(t) == Ok((header, rest))
    ensures DecodeLocator(t)
         == if header.extensionLength > |rest| then Err(UnexpectedEof)
            else match DecodeSignature(rest[header.extensionLength..])
              case Ok(signature) => Ok((header.WithSignature(signature.0), signature.1))
              case Err(e) => Err(e)
  {
  }

  /** SignatureAt, spelled out: the signature read from `tail`, the bytes at `position`, and the cursor after it. */
  lemma SignatureAtValue(s: Bytes, header: Header, position: nat, tail: Bytes)
    requires position <= |s| && s[position..] == tail
    ensures SignatureAt(s, header, position)
         == match DecodeSignature(tail)
            case Ok(signature) => Ok((header.WithSignature(signature.0), |s| - |signature.1|))
            case Err(e) => Err(e)
  {
  }

  /** UnmarshalChecked, spelled out from what DecodeLocator returns at `cursor`. */
  lemma UnmarshalCheckedValue(s: Bytes, cursor: nat, decoded: Result<(Locator, Bytes), IoError>)
    requires cursor <= |s| && DecodeLocator(s[cursor..]) == decoded
    ensures UnmarshalChecked(s, cursor)
         == match decoded
            case Ok(d) => Ok((d.0, |s| - |d.1|))
            case Err(e) => Err(e)
  {
  }

  /** Whether the declared extension length carries the cursor past 2^64. */
  predicate ExtensionWraps(s: Bytes, cursor: nat) {
    && cursor <= |s|
    && DecodeHeader(s[cursor..]).Ok?
    && |s| - |DecodeHeader(s[cursor..]).value.1| + DecodeHeader(s[cursor..]).value.0.extensionLength >= UsizeLimit
  }

  /** UnmarshalAt, spelled out from what the header decoder returns at `cursor`. */
  lemma UnmarshalAtValue(s: Bytes, cursor: nat, header: Result<(Header, Bytes), IoError>)
    requires cursor <= |s| && DecodeHeader(s[cursor..]) == header
    ensures header.Err? ==> UnmarshalAt(s, cursor) == Err(header.error)
    ensures header.Ok? ==>
              UnmarshalAt(s, cursor)
              == SignatureAt(s, header.value.0, WrappingAdd(|s| - |header.value.1|, header.value.0.extensionLength))
  {
    if header.Ok? {
      assert UnmarshalAt(s, cursor)
          == SignatureAt(s, header.value.0, WrappingAdd(|s| - |header.value.1|, header.value.0.extensionLength));
    }
  }

  /** The code as written and the checked skip differ only where the cursor wraps. */
  lemma UnmarshalAgreesUnlessWrapped(s: Bytes, cursor: nat)
    ensures !ExtensionWraps(s, cursor) ==> UnmarshalAt(s, cursor) == UnmarshalChecked(s, cursor)
  {
    if cursor <= |s| && !ExtensionWraps(s, cursor) && DecodeHeader(s[cursor..]).Ok? {
      AgreeAfterHeader(s, cursor, DecodeHeader(s[cursor..]).value.0, DecodeHeader(s[cursor..]).value.1);
    }
  }

  /** The agreement, once the header is read and the skip does not wrap. */
  lemma AgreeAfterHeader(s: Bytes, cursor: nat, header: Header, rest: Bytes)
    requires cursor <= |s| && DecodeHeader(s[cursor..]) == Ok((header, rest))
    requires |s| - |rest| + header.extensionLength < UsizeLimit
    ensures UnmarshalAt(s, cursor) == UnmarshalChecked(s, cursor)
  {
    UnmarshalAtAfterHeader(s, cursor, header, rest);
    HeaderEndsWithin(s, cursor, header, rest);
    SignatureAfterHeader(s, header, rest);
    CheckedAfterHeader(s, cursor, header, rest);
  }

  /** The bytes left after the header are a suffix of the whole input. */
  lemma HeaderEndsWithin(s: Bytes, cursor: nat, header: Header, rest: Bytes)
    requires cursor <= |s| && DecodeHeader(s[cursor..]) == Ok((header, rest))
    ensures IsSuffix(rest, s)
  {
    DecodeHeaderSuffix(s[cursor..]);
    SuffixTransitive(rest, s[cursor..], s);
  }

  /** The checked reading, once the header is read, as AfterHeader spells it out. */
  lemma CheckedAfterHeader(s: Bytes, cursor: nat, header: Header, rest: Bytes)
    requires cursor <= |s| && DecodeHeader(s[cursor..]) == Ok((header, rest)) && |rest| <= |s|
    ensures UnmarshalChecked(s, cursor) == AfterHeader(s, header, rest)
  {
    DecodeLocatorAfterHeader(s[cursor..], header, rest);
    UnmarshalCheckedValue(s, cursor, DecodeLocator(s[cursor..]));
  }

  /** What both readings return once the header is read, when the skip does not wrap. */
  function AfterHeader(s: Bytes, header: Header, rest: Bytes): Result<(Locator, nat), IoError>
    requires |rest| <= |s|
  {
    if header.extensionLength > |rest| then Err(UnexpectedEof)
    else match DecodeSignature(rest[header.extensionLength..])
      case Ok(signature) => Ok((header.WithSignature(signature.0), |s| - |signature.1|))
      case Err(e) => Err(e)
  }

  /** The signature read after the skipped extension, for header bytes that end where `rest` begins. */
  lemma SignatureAfterHeader(s: Bytes, header: Header, rest: Bytes)
    requires IsSuffix(rest, s)
    ensures SignatureAt(s, header, |s| - |rest| + header.extensionLength) == AfterHeader(s, header, rest)
  {
    var n := header.extensionLength;
    var p := |s| - |rest|;
    if n <= |rest| {
      assert s[p + n..] == rest[n..];
      SignatureAtValue(s, header, p + n, rest[n..]);
    }
  }

  /** With the skip checked, the signature is read after the header, never from bytes already read. */
  lemma UnmarshalCheckedReadsForward(s: Bytes, cursor: nat)
    ensures UnmarshalChecked(s, cursor).Ok? ==>
            && DecodeHeader(s[cursor..]).Ok?
            && UnmarshalChecked(s, cursor).value.1 > |s| - |DecodeHeader(s[cursor..]).value.1|
  {
  }

  /**
   * A header with no endpoints whose extension length is 2^64 - 11: the cursor
   * stands at 29 after it, the skip wraps it back to 18, the endpoint count 0
   * there reads as a signature length of 0, and the code as written returns a
   * locator 19 bytes long, shorter than any encoding of it. The checked skip
   * rejects the same input.
   */
  lemma ExtensionWrapReadsBackwards()
    ensures var s := HeaderEncoding(Header(1, 1, 0, [], 0xFFFF_FFFF_FFFF_FFF5));
            && UnmarshalAt(s, 0) == Ok((Locator(1, 1, 0, [], []), 19))
            && 19 < |Encoding(Locator(1, 1, 0, [], []), [], false)|
            && UnmarshalChecked(s, 0) == Err(UnexpectedEof)
  {
    var h := Header(1, 1, 0, [], 0xFFFF_FFFF_FFFF_FFF5);
    var s := HeaderEncoding(h);
    var tail := EncodeVarint(0xFFFF_FFFF_FFFF_FFF5);
    WrappingHeaderLayout();
    assert s[0..] == s;
    assert WrappingAdd(29, 0xFFFF_FFFF_FFFF_FFF5) == 18;
    ReadVarintEncoded(0, tail);
    ReadBytesEncoded([], tail);
    assert [] + tail == tail;
    assert DecodeSignature(s[18..]) == Ok(([], tail));
    EncodingSplits(Locator(1, 1, 0, [], []), [], false);
  }

  /** The header of the wrapping example: 29 bytes, the endpoint count at 18, and nothing left after it. */
  lemma WrappingHeaderLayout()
    ensures var s := HeaderEncoding(Header(1, 1, 0, [], 0xFFFF_FFFF_FFFF_FFF5));
            && DecodeHeader(s) == Ok((Header(1, 1, 0, [], 0xFFFF_FFFF_FFFF_FFF5), []))
            && |s| == 29
            && s[18..] == EncodeVarint(0) + EncodeVarint(0xFFFF_FFFF_FFFF_FFF5)
  {
    WrappingHeaderDecodes();
    WrappingHeaderLength();
    WrappingHeaderTail();
  }

  lemma WrappingHeaderDecodes()
    ensures var h := Header(1, 1, 0, [], 0xFFFF_FFFF_FFFF_FFF5);
            DecodeHeader(HeaderEncoding(h)) == Ok((h, []))
  {
    var h := Header(1, 1, 0, [], 0xFFFF_FFFF_FFFF_FFF5);
    DecodeHeaderEncoded(h, []);
    assert HeaderEncoding(h) + [] == HeaderEncoding(h);
  }

  lemma WrappingHeaderLength()
    ensures |HeaderEncoding(Header(1, 1, 0, [], 0xFFFF_FFFF_FFFF_FFF5))| == 29
  {
    NoEndpointsHeader(Header(1, 1, 0, [], 0xFFFF_FFFF_FFFF_FFF5));
    LongVarintWidth();
  }

  lemma WrappingHeaderTail()
    ensures HeaderEncoding(Header(1, 1, 0, [], 0xFFFF_FFFF_FFFF_FFF5))[18..]
         == EncodeVarint(0) + EncodeVarint(0xFFFF_FFFF_FFFF_FFF5)
  {
    NoEndpointsHeader(Header(1, 1, 0, [], 0xFFFF_FFFF_FFFF_FFF5));
  }

  /** A header without endpoints: 18 bytes, the count 0, then the extension length. */
  lemma NoEndpointsHeader(h: Header)
    requires h.endpoints == []
    ensures |HeaderEncoding(h)| == 19 + |EncodeVarint(h.extensionLength)|
    ensures HeaderEncoding(h)[18..] == EncodeVarint(0) + EncodeVarint(h.extensionLength)
  {
    HeaderFromCount(h);
    assert EncodeEndpoints([]) + EncodeVarint(h.extensionLength) == EncodeVarint(h.extensionLength);
  }

  /** A header is two addresses and a timestamp, 18 bytes, then the endpoint count, the endpoints and the extension length. */
  lemma HeaderFromCount(h: Header)
    ensures |HeaderEncoding(h)| == 18 + |EncodeVarint(|h.endpoints|) + (EncodeEndpoints(h.endpoints) + EncodeVarint(h.extensionLength))|
    ensures HeaderEncoding(h)[18..] == EncodeVarint(|h.endpoints|) + (EncodeEndpoints(h.endpoints) + EncodeVarint(h.extensionLength))
  {
    var timestamp := EncodeFixed(U64Of(h.timestamp), 8);
    var back := EncodeVarint(|h.endpoints|) + (EncodeEndpoints(h.endpoints) + EncodeVarint(h.extensionLength));
    ConcatAssoc3([], EncodeAddress(h.subject), EncodeAddress(h.signer), timestamp + back);
    ConcatAssoc3([], EncodeAddress(h.subject) + EncodeAddress(h.signer), timestamp, back);
    var front := EncodeAddress(h.subject) + EncodeAddress(h.signer) + timestamp;
    assert HeaderEncoding(h) == front + back;
    assert |front| == 18;
  }

  lemma LongVarintWidth()
    ensures |EncodeVarint(0xFFFF_FFFF_FFFF_FFF5)| == 10
  {
  }

  /**
   * Decoding an encoded locator, whatever extension bytes it carries and
   * whatever follows it, yields that locator and leaves exactly what follows.
   */
  lemma DecodeEncoding(loc: Locator, extension: Bytes, rest: Bytes)
    ensures DecodeLocator(Encoding(loc, extension, false) + rest) == Ok((loc, rest))
  {
    var h := Header(loc.subject, loc.signer, loc.timestamp, loc.endpoints, |extension|);
    var sig := SignatureField(loc.signature, false);
    EncodingSplits(loc, extension, false);
    ConcatAssoc3(HeaderEncoding(h), extension, sig, rest);
    assert Encoding(loc, extension, false) + rest == HeaderEncoding(h) + (extension + (sig + rest));
    DecodeAfterHeader(h, extension, loc.signature, rest);
  }

  lemma DecodeAfterHeader(h: Header, extension: Bytes, signature: Bytes, rest: Bytes)
    requires h.extensionLength == |extension|
    ensures DecodeLocator(HeaderEncoding(h) + (extension + (SignatureField(signature, false) + rest)))
         == Ok((h.WithSignature(signature), rest))
  {
    var tail := extension + (SignatureField(signature, false) + rest);
    DecodeHeaderEncoded(h, tail);
    assert tail[|extension|..] == SignatureField(signature, false) + rest;
    DecodeSignatureEncoded(signature, rest);
  }

  /**
   * Unmarshalling at a cursor where an encoding starts, whatever precedes and
   * follows it, yields its locator and moves the cursor just past it (the
   * buffer being no longer than a usize can index).
   */
  lemma UnmarshalEncoded(before: Bytes, loc: Locator, extension: Bytes, after: Bytes)
    requires |before + Encoding(loc, extension, false) + after| < UsizeLimit
    ensures UnmarshalAt(before + Encoding(loc, extension, false) + after, |before|)
         == Ok((loc, |before| + |Encoding(loc, extension, false)|))
  {
    DecodeEncoding(loc, extension, after);
    PrefixSlice(before, Encoding(loc, extension, false), after);
    UnmarshalAfterPrefix(before + Encoding(loc, extension, false) + after, |before|, Encoding(loc, extension, false), after, loc);
  }

  lemma UnmarshalAfterPrefix(s: Bytes, cursor: nat, record: Bytes, after: Bytes, loc: Locator)
    requires cursor <= |s| < UsizeLimit && s[cursor..] == record + after
    requires DecodeLocator(record + after) == Ok((loc, after))
    ensures UnmarshalAt(s, cursor) == Ok((loc, cursor + |record|))
  {
    UnmarshalFollowsDecoder(s, cursor);
  }

  /**
   * Where the checked decoder succeeds on a buffer a usize can index, the code
   * as written returns the same locator and cursor.
   */
  lemma UnmarshalFollowsDecoder(s: Bytes, cursor: nat)
    requires cursor <= |s| < UsizeLimit && DecodeLocator(s[cursor..]).Ok?
    ensures UnmarshalAt(s, cursor)
         == Ok((DecodeLocator(s[cursor..]).value.0, |s| - |DecodeLocator(s[cursor..]).value.1|))
  {
    HeaderWithinInput(s, cursor);
    UnmarshalAgreesUnlessWrapped(s, cursor);
  }

  /** The header's end plus the extension length stays within the input whenever the checked decoding succeeds. */
  lemma HeaderWithinInput(s: Bytes, cursor: nat)
    requires UnmarshalChecked(s, cursor).Ok? && |s| < UsizeLimit
    ensures !ExtensionWraps(s, cursor)
  {
  }

  /** A buffer holding exactly an encoding unmarshals, from its start, to the encoded locator. */
  lemma UnmarshalWholeEncoding(loc: Locator)
    requires |Encoding(loc, [], false)| < UsizeLimit
    ensures UnmarshalAt(Encoding(loc, [], false), 0) == Ok((loc, |Encoding(loc, [], false)|))
  {
    var record := Encoding(loc, [], false);
    DecodeEncoding(loc, [], []);
    assert record + [] == record;
    UnmarshalWhole(record, loc);
  }

  lemma UnmarshalWhole(record: Bytes, loc: Locator)
    requires |record| < UsizeLimit && DecodeLocator(record) == Ok((loc, []))
    ensures UnmarshalAt(record, 0) == Ok((loc, |record|))
  {
    assert record[0..] == record;
    UnmarshalFollowsDecoder(record, 0);
  }


  lemma PrefixSlice(p: Bytes, record: Bytes, after: Bytes)
    ensures (p + record + after)[|p|..] == record + after
  {
  }

  /** The decoder refuses a record whose subject or signer is not an address. */
  lemma DecodeRejectsInvalidAddress(s: Bytes)
    requires 2 * AddressSize <= |s|
    requires !IsValidAddress(ValueOf(s[..AddressSize])) || !IsValidAddress(ValueOf(s[AddressSize..2 * AddressSize]))
    ensures UnmarshalAt(s, 0) == Err(InvalidData) && DecodeLocator(s) == Err(InvalidData)
  {
    assert s[AddressSize..][..AddressSize] == s[AddressSize..2 * AddressSize];
    assert s[0..] == s;
    assert DecodeHeader(s) == Err(InvalidData);
  }

  /** The signed payload determines every field the signature is meant to cover. */
  lemma SignedPayloadDeterminesFields(a: Locator, b: Locator)
    requires SignedPayload(a) == SignedPayload(b)
    ensures a.subject == b.subject && a.signer == b.signer
    ensures a.timestamp == b.timestamp && a.endpoints == b.endpoints
  {
    var ha := Header(a.subject, a.signer, a.timestamp, a.endpoints, 0);
    var hb := Header(b.subject, b.signer, b.timestamp, b.endpoints, 0);
    EncodingSplits(a, [], true);
    EncodingSplits(b, [], true);
    assert SignedPayload(a) == HeaderEncoding(ha) + [];
    assert SignedPayload(b) == HeaderEncoding(hb) + [];
    DecodeHeaderEncoded(ha, []);
    DecodeHeaderEncoded(hb, []);
  }

  lemma ConcatAssoc3(s: Bytes, a: Bytes, b: Bytes, c: Bytes)
    ensures s + a + b + c == s + (a + (b + c))
  {
  }


  /** Appends the encodings of `eps` one endpoint at a time. */
  method AppendEndpoints(buf: Buffer, eps: seq<Endpoint>) returns (ok: bool)
    requires buf.Valid()
    modifies buf
    ensures buf.Valid()
    ensures ok == (|old(buf.bytes)| + |EncodeEndpoints(eps)| <= buf.capacity)
    ensures ok ==> buf.bytes == old(buf.bytes) + EncodeEndpoints(eps)
    ensures Appended(old(buf.bytes), buf.bytes, EncodeEndpoints(eps))
  {
    ghost var start := buf.bytes;
    var i := 0;
    while i < |eps|
      invariant 0 <= i <= |eps|
      invariant buf.Valid()
      invariant buf.bytes == start + EncodeEndpoints(eps[..i])
    {
      EncodeEndpointsStep(eps, i);
      ok := buf.AppendBytes(EncodeEndpoint(eps[i]));
      if !ok {
        StoppedWithinEndpoints(start, eps, i, buf.capacity);
        return;
      }
      i := i + 1;
    }
    assert eps[..i] == eps;
    AppendedStop(start, buf.bytes, EncodeEndpoints(eps), []);
    assert EncodeEndpoints(eps) + [] == EncodeEndpoints(eps);
    ok := true;
  }

  /** Endpoints written up to one that does not fit: a prefix of the whole, which does not fit either. */
  lemma StoppedWithinEndpoints(start: Bytes, eps: seq<Endpoint>, i: nat, capacity: nat)
    requires i < |eps| && |start| + |EncodeEndpoints(eps[..i])| + |EncodeEndpoint(eps[i])| > capacity
    ensures Appended(start, start + EncodeEndpoints(eps[..i]), EncodeEndpoints(eps))
    ensures |start| + |EncodeEndpoints(eps)| > capacity
  {
    EncodeEndpointsStep(eps, i);
    EncodeEndpointsPrefix(eps, i);
    EncodeEndpointsPrefix(eps, i + 1);
    var head := EncodeEndpoints(eps[..i]);
    AppendedStop(start, start + head, head, EncodeEndpoints(eps)[|head|..]);
  }

  /** One more endpoint written extends the encoding of those before it. */
  lemma EncodeEndpointsStep(eps: seq<Endpoint>, i: nat)
    requires i < |eps|
    ensures EncodeEndpoints(eps[..i + 1]) == EncodeEndpoints(eps[..i]) + EncodeEndpoint(eps[i])
  {
    EncodeEndpointsAppend(eps[..i], [eps[i]]);
    assert eps[..i] + [eps[i]] == eps[..i + 1];
    assert EncodeEndpoints([eps[i]]) == EncodeEndpoint(eps[i]);
  }

  /** The encoding of the first `k` endpoints begins the encoding of them all. */
  lemma EncodeEndpointsPrefix(eps: seq<Endpoint>, k: nat)
    requires k <= |eps|
    ensures EncodeEndpoints(eps[..k]) <= EncodeEndpoints(eps)
    ensures EncodeEndpoints(eps) == EncodeEndpoints(eps[..k]) + EncodeEndpoints(eps)[|EncodeEndpoints(eps[..k])|..]
  {
    EncodeEndpointsAppend(eps[..k], eps[k..]);
    assert eps[..k] + eps[k..] == eps;
  }

  /** Appends the signature's length and the signature. */
  method AppendSignature(buf: Buffer, signature: Bytes) returns (ok: bool)
    requires buf.Valid()
    modifies buf
    ensures buf.Valid()
    ensures ok == (|old(buf.bytes)| + |SignatureField(signature, false)| <= buf.capacity)
    ensures ok ==> buf.bytes == old(buf.bytes) + SignatureField(signature, false)
    ensures Appended(old(buf.bytes), buf.bytes, SignatureField(signature, false))
  {
    ghost var b0 := buf.bytes;
    ok := buf.AppendVarint(|signature|);
    if !ok {
      AppendedStop(b0, buf.bytes, [], SignatureField(signature, false));
      return;
    }
    ghost var b1 := buf.bytes;
    ok := buf.AppendBytes(signature);
    if ok {
      assert buf.bytes == b0 + SignatureField(signature, false);
      AppendedStop(b0, buf.bytes, SignatureField(signature, false), []);
    } else {
      AppendedStop(b0, buf.bytes, EncodeVarint(|signature|), signature);
    }
  }

  /** Appends the (empty) extension field and, unless excluded, the signature. */
  method AppendTrailer(buf: Buffer, signature: Bytes, excludeSignature: bool) returns (ok: bool)
    requires buf.Valid()
    modifies buf
    ensures buf.Valid()
    ensures ok == (|old(buf.bytes)| + |TrailerEncoding([], signature, excludeSignature)| <= buf.capacity)
    ensures ok ==> buf.bytes == old(buf.bytes) + TrailerEncoding([], signature, excludeSignature)
    ensures Appended(old(buf.bytes), buf.bytes, TrailerEncoding([], signature, excludeSignature))
  {
    ghost var b0 := buf.bytes;
    ghost var extension := EncodeVarint(0);
    ghost var signed := SignatureField(signature, excludeSignature);
    assert TrailerEncoding([], signature, excludeSignature) == extension + (signed + []);
    ok := buf.AppendVarint(0);
    if !ok {
      AppendedStop(b0, buf.bytes, [], extension + (signed + []));
      return;
    }
    if excludeSignature {
      AppendedStop(b0, buf.bytes, extension, signed);
      return;
    }
    ghost var b1 := buf.bytes;
    ok := AppendSignature(buf, signature);
    AppendedWithin(b0, b1, buf.bytes, extension, signed, []);
  }

  /** Appends the endpoint count and the endpoints. */
  method AppendEndpointList(buf: Buffer, eps: seq<Endpoint>) returns (ok: bool)
    requires buf.Valid()
    modifies buf
    ensures buf.Valid()
    ensures ok == (|old(buf.bytes)| + |EncodeVarint(|eps|) + EncodeEndpoints(eps)| <= buf.capacity)
    ensures ok ==> buf.bytes == old(buf.bytes) + (EncodeVarint(|eps|) + EncodeEndpoints(eps))
    ensures Appended(old(buf.bytes), buf.bytes, EncodeVarint(|eps|) + EncodeEndpoints(eps))
  {
    ghost var b0 := buf.bytes;
    ok := buf.AppendVarint(|eps|);
    if !ok {
      AppendedStop(b0, buf.bytes, [], EncodeVarint(|eps|) + EncodeEndpoints(eps));
      return;
    }
    ghost var b1 := buf.bytes;
    ok := AppendEndpoints(buf, eps);
    AppendedWithin(b0, b1, buf.bytes, EncodeVarint(|eps|), EncodeEndpoints(eps), []);
    assert EncodeEndpoints(eps) + [] == EncodeEndpoints(eps);
  }

  /** Appends the endpoint count, the endpoints and the trailer. */
  method AppendListAndTrailer(buf: Buffer, eps: seq<Endpoint>, signature: Bytes, excludeSignature: bool) returns (ok: bool)
    requires buf.Valid()
    modifies buf
    ensures buf.Valid()
    ensures ok == (|old(buf.bytes)| + |EncodeVarint(|eps|) + EncodeEndpoints(eps) + TrailerEncoding([], signature, excludeSignature)| <= buf.capacity)
    ensures ok ==> buf.bytes == old(buf.bytes) + (EncodeVarint(|eps|) + EncodeEndpoints(eps) + TrailerEncoding([], signature, excludeSignature))
    ensures Appended(old(buf.bytes), buf.bytes, EncodeVarint(|eps|) + EncodeEndpoints(eps) + TrailerEncoding([], signature, excludeSignature))
  {
    ghost var list := EncodeVarint(|eps|) + EncodeEndpoints(eps);
    ghost var trailer := TrailerEncoding([], signature, excludeSignature);
    ghost var b0 := buf.bytes;
    ok := AppendEndpointList(buf, eps);
    if !ok {
      AppendedWithin(b0, b0, buf.bytes, [], list, trailer);
      return;
    }
    ghost var b1 := buf.bytes;
    ok := AppendTrailer(buf, signature, excludeSignature);
    AppendedWithin(b0, b1, buf.bytes, list, trailer, []);
    assert trailer + [] == trailer;
  }

  /** Appends the timestamp, the endpoint count, the endpoints and the trailer. */
  method AppendBody(loc: Locator, buf: Buffer, excludeSignature: bool) returns (ok: bool)
    requires buf.Valid()
    modifies buf
    ensures buf.Valid()
    ensures ok == (|old(buf.bytes)| + |BodyEncoding(loc, [], excludeSignature)| <= buf.capacity)
    ensures ok ==> buf.bytes == old(buf.bytes) + BodyEncoding(loc, [], excludeSignature)
    ensures Appended(old(buf.bytes), buf.bytes, BodyEncoding(loc, [], excludeSignature))
  {
    ghost var timestamp := EncodeFixed(U64Of(loc.timestamp), 8);
    ghost var rest := EncodeVarint(|loc.endpoints|) + EncodeEndpoints(loc.endpoints) + TrailerEncoding([], loc.signature, excludeSignature);
    ghost var b0 := buf.bytes;
    ConcatAssoc3([], EncodeVarint(|loc.endpoints|), EncodeEndpoints(loc.endpoints), TrailerEncoding([], loc.signature, excludeSignature));
    assert BodyEncoding(loc, [], excludeSignature) == timestamp + (rest + []);
    ok := buf.AppendU64(U64Of(loc.timestamp));
    if !ok {
      AppendedStop(b0, buf.bytes, [], timestamp + (rest + []));
      return;
    }
    ghost var b1 := buf.bytes;
    ok := AppendListAndTrailer(buf, loc.endpoints, loc.signature, excludeSignature);
    AppendedWithin(b0, b1, buf.bytes, timestamp, rest, []);
  }

  /** Appends the signer's address and everything after it. */
  method AppendSignerAndBody(loc: Locator, buf: Buffer, excludeSignature: bool) returns (ok: bool)
    requires buf.Valid()
    modifies buf
    ensures buf.Valid()
    ensures ok == (|old(buf.bytes)| + |EncodeAddress(loc.signer) + BodyEncoding(loc, [], excludeSignature)| <= buf.capacity)
    ensures ok ==> buf.bytes == old(buf.bytes) + (EncodeAddress(loc.signer) + BodyEncoding(loc, [], excludeSignature))
    ensures Appended(old(buf.bytes), buf.bytes, EncodeAddress(loc.signer) + BodyEncoding(loc, [], excludeSignature))
  {
    ghost var signer := EncodeAddress(loc.signer);
    ghost var body := BodyEncoding(loc, [], excludeSignature);
    ghost var b0 := buf.bytes;
    ok := buf.AppendBytes(EncodeAddress(loc.signer));
    if !ok {
      AppendedStop(b0, buf.bytes, [], signer + body);
      return;
    }
    ghost var b1 := buf.bytes;
    ok := AppendBody(loc, buf, excludeSignature);
    AppendedWithin(b0, b1, buf.bytes, signer, body, []);
    assert body + [] == body;
  }

  /** Locator::marshal_internal: appends the encoding to `buf`, failing if it does not fit. */
  method MarshalInternal(loc: Locator, buf: Buffer, excludeSignature: bool) returns (ok: bool)
    requires buf.Valid()
    modifies buf
    ensures buf.Valid()
    ensures ok == (|old(buf.bytes)| + |Encoding(loc, [], excludeSignature)| <= buf.capacity)
    ensures ok ==> buf.bytes == old(buf.bytes) + Encoding(loc, [], excludeSignature)
    ensures Appended(old(buf.bytes), buf.bytes, Encoding(loc, [], excludeSignature))
  {
    ghost var subject := EncodeAddress(loc.subject);
    ghost var rest := EncodeAddress(loc.signer) + BodyEncoding(loc, [], excludeSignature);
    ghost var b0 := buf.bytes;
    assert Encoding(loc, [], excludeSignature) == subject + (rest + []);
    ok := buf.AppendBytes(EncodeAddress(loc.subject));
    if !ok {
      AppendedStop(b0, buf.bytes, [], subject + (rest + []));
      return;
    }
    ghost var b1 := buf.bytes;
    ok := AppendSignerAndBody(loc, buf, excludeSignature);
    AppendedWithin(b0, b1, buf.bytes, subject, rest, []);
  }

  /** Locator::marshal: the full encoding, signature included. */
  method Marshal(loc: Locator, buf: Buffer) returns (ok: bool)
    requires buf.Valid()
    modifies buf
    ensures buf.Valid()
    ensures ok == (|old(buf.bytes)| + |Encoding(loc, [], false)| <= buf.capacity)
    ensures ok ==> buf.bytes == old(buf.bytes) + Encoding(loc, [], false)
    ensures old(buf.bytes) <= buf.bytes && buf.bytes <= old(buf.bytes) + Encoding(loc, [], false)
  {
    ok := MarshalInternal(loc, buf, false);
    AppendedPrefix(old(buf.bytes), buf.bytes, Encoding(loc, [], false));
  }

  /** The endpoint loop of Locator::unmarshal: reads `count` endpoints one after another. */
  method ReadEndpoints(s: Bytes, count: nat) returns (r: Result<(seq<Endpoint>, Bytes), IoError>)
    ensures r == DecodeEndpoints(s, count, [])
  {
    var rest := s;
    var endpoints: seq<Endpoint> := [];
    var i := 0;
    while i < count
      invariant 0 <= i <= count
      invariant DecodeEndpoints(s, count, []) == DecodeEndpoints(rest, count - i, endpoints)
    {
      var e := ReadEndpoint(rest);
      if e.Err? {
        return Err(e.error);
      }
      endpoints := endpoints + [e.value.0];
      rest := e.value.1;
      i := i + 1;
    }
    return Ok((endpoints, rest));
  }

  /** The reads of Locator::unmarshal up to the extension length, one field after another. */
  method ReadHeader(input: Bytes) returns (r: Result<(Header, Bytes), IoError>)
    ensures r == DecodeHeader(input)
  {
    var subject := ReadAddress(input);
    if subject.Err? { return Err(subject.error); }
    var signer := ReadAddress(subject.value.1);
    if signer.Err? { return Err(signer.error); }
    if subject.value.0.None? || signer.value.0.None? {
      return Err(InvalidData);
    }
    var ts := ReadFixed(signer.value.1, 8);
    if ts.Err? { return Err(ts.error); }
    var count := ReadVarint(ts.value.1);
    if count.Err? { return Err(count.error); }
    var endpoints := ReadEndpoints(count.value.1, count.value.0);
    if endpoints.Err? { return Err(endpoints.error); }
    var extensionLength := ReadVarint(endpoints.value.1);
    if extensionLength.Err? { return Err(extensionLength.error); }
    r := Ok((Header(subject.value.0.value, signer.value.0.value, I64Of(ts.value.0), endpoints.value.0,
                    extensionLength.value.0), extensionLength.value.1));
  }

  /** The signature length and the signature bytes read at `position`, completing the locator. */
  method ReadSignatureAt(s: Bytes, header: Header, position: nat) returns (r: Result<(Locator, nat), IoError>)
    ensures r == SignatureAt(s, header, position)
  {
    if position > |s| {
      return Err(UnexpectedEof);
    }
    var length := ReadVarint(s[position..]);
    if length.Err? { return Err(length.error); }
    var signature := ReadBytes(length.value.1, length.value.0);
    if signature.Err? { return Err(signature.error); }
    r := Ok((header.WithSignature(signature.value.0), |s| - |signature.value.1|));
  }

  /**
   * Locator::unmarshal: reads a locator at `cursor` and returns it with the
   * advanced cursor, skipping the extension by a wrapping add to the cursor.
   */
  method Unmarshal(buf: Buffer, cursor: nat) returns (r: Result<(Locator, nat), IoError>)
    ensures r == UnmarshalAt(buf.bytes, cursor)
  {
    if cursor > |buf.bytes| {
      return Err(UnexpectedEof);
    }
    var s := buf.bytes;
    var header := ReadHeader(s[cursor..]);
    UnmarshalAtValue(s, cursor, header);
    if header.Err? { return Err(header.error); }
    var position := WrappingAdd(|s| - |header.value.1|, header.value.0.extensionLength);
    r := ReadSignatureAt(s, header.value.0, position);
  }

  /** Marshalling into an empty buffer and unmarshalling from its start gives the locator back. */
  method MarshalThenUnmarshal(loc: Locator, capacity: nat) returns (written: bool, r: Result<(Locator, nat), IoError>)
    requires capacity < UsizeLimit
    ensures written == (|Encoding(loc, [], false)| <= capacity)
    ensures written ==> r == Ok((loc, |Encoding(loc, [], false)|))
  {
    var buf := new Buffer(capacity);
    written := Marshal(loc, buf);
    if written {
      UnmarshalWholeEncoding(loc);
    }
    r := Unmarshal(buf, 0);
  }

  // ---------------------------------------------------------------------------
  // Creation and signature checking
  // ---------------------------------------------------------------------------

  /**
   * Locator::create: normalises the endpoints, encodes every field but the
   * signature into a PACKET_SIZE_MAX buffer and signs that encoding.
   */
  method Create(signerIdentity: Identity, subject: Address, ts: I64, endpoints: seq<Endpoint>)
    returns (r: Option<Locator>)
    ensures var payload := SignedPayload(Locator(subject, signerIdentity.address, ts, Normalize(endpoints), []));
            r.Some? <==> |payload| <= PacketSizeMax && signerIdentity.sign(payload).Some?
    ensures r.Some? ==>
            && r.value.subject == subject
            && r.value.signer == signerIdentity.address
            && r.value.timestamp == ts
            && r.value.endpoints == Normalize(endpoints)
            && r.value.signature == signerIdentity.sign(SignedPayload(r.value)).value
    ensures r.Some? ==> StrictlyAscending(r.value.endpoints)
                        && forall e :: e in r.value.endpoints <==> e in endpoints
  {
    var sorted := Sorting.InsertionSort(endpoints, EndpointRank);
    var normalized := Sorting.Dedup(sorted);
    assert normalized == Normalize(endpoints);
    var loc := Locator(subject, signerIdentity.address, ts, normalized, []);

    var buf := new Buffer(PacketSizeMax);
    var ok := MarshalInternal(loc, buf, true);
    if !ok {
      return None;
    }
    assert buf.bytes == SignedPayload(loc);
    var signature := signerIdentity.sign(buf.bytes);
    if signature.None? {
      return None;
    }
    r := Some(loc.(signature := signature.value));
    assert SignedPayload(r.value) == SignedPayload(loc);
  }

  /**
   * Locator::verify_signature: re-encodes the locator without its signature
   * and asks the identity to check the signature, but only when the identity is
   * the recorded signer.
   */
  method VerifySignature(loc: Locator, signerIdentity: Identity) returns (valid: bool)
    ensures valid <==> && |SignedPayload(loc)| <= PacketSizeMax
                       && signerIdentity.address == loc.signer
                       && signerIdentity.verify(SignedPayload(loc), loc.signature)
  {
    var buf := new Buffer(PacketSizeMax);
    var ok := MarshalInternal(loc, buf, true);
    if ok {
      assert buf.bytes == SignedPayload(loc);
      if signerIdentity.address == loc.signer {
        valid := signerIdentity.verify(buf.bytes, loc.signature);
      } else {
        valid := false;
      }
    } else {
      valid := false;
    }
  }

  /** The identity's verifier accepts whatever its signer produces. */
  ghost predicate AcceptsOwnSignatures(id: Identity) {
    forall m :: id.sign(m).Some? ==> id.verify(m, id.sign(m).value)
  }

  /** A locator just created by an identity verifies against that identity. */
  method CreateThenVerify(signerIdentity: Identity, subject: Address, ts: I64, endpoints: seq<Endpoint>)
    returns (created: Option<Locator>, valid: bool)
    requires AcceptsOwnSignatures(signerIdentity)
    ensures created.Some? ==> valid
  {
    created := Create(signerIdentity, subject, ts, endpoints);
    valid := false;
    if created.Some? {
      valid := VerifySignature(created.value, signerIdentity);
    }
  }

  // ---------------------------------------------------------------------------
  // Ordering
  // ---------------------------------------------------------------------------

  datatype Ordering = Less | Equal | Greater {
    function Reverse(): Ordering {
      match this
      case Less => Greater
      case Equal => Equal
      case Greater => Less
    }
  }

  function CmpInt(a: int, b: int): Ordering {
    if a < b then Less else if a == b then Equal else Greater
  }

  /** `Vec<Endpoint>::cmp`: lexicographic, a proper prefix first. */
  function CmpEndpoints(a: seq<Endpoint>, b: seq<Endpoint>): Ordering {
    if a == [] then (if b == [] then Equal else Less)
    else if b == [] then Greater
    else
      var head := CmpInt(a[0].code, b[0].code);
      if head != Equal then head else CmpEndpoints(a[1..], b[1..])
  }

  /**
   * Ord::cmp: subject, then timestamp, then signer, then endpoints; the
   * signature is not consulted, so two locators compare equal exactly when
   * they agree on the other four fields.
   */
  function Cmp(a: Locator, b: Locator): (r: Ordering)
    ensures r == Equal <==> SameOrderKey(a, b)
  {
    CmpEndpointsReverse(a.endpoints, b.endpoints);
    var bySubject := CmpInt(a.subject, b.subject);
    if bySubject == Equal then
      var byTimestamp := CmpInt(a.timestamp, b.timestamp);
      if byTimestamp == Equal then
        var bySigner := CmpInt(a.signer, b.signer);
        if bySigner == Equal then CmpEndpoints(a.endpoints, b.endpoints) else bySigner
      else byTimestamp
    else bySubject
  }

  /** Agreement on every field the order looks at. */
  predicate SameOrderKey(a: Locator, b: Locator) {
    a.subject == b.subject && a.timestamp == b.timestamp && a.signer == b.signer && a.endpoints == b.endpoints
  }

  lemma {:induction false} CmpEndpointsReverse(a: seq<Endpoint>, b: seq<Endpoint>)
    ensures CmpEndpoints(b, a) == CmpEndpoints(a, b).Reverse()
    ensures CmpEndpoints(a, b) == Equal <==> a == b
  {
    if a != [] && b != [] {
      CmpEndpointsReverse(a[1..], b[1..]);
      assert a == [a[0]] + a[1..];
      assert b == [b[0]] + b[1..];
    }
  }

  lemma {:induction false} CmpEndpointsTransitive(a: seq<Endpoint>, b: seq<Endpoint>, c: seq<Endpoint>)
    requires CmpEndpoints(a, b) == Less && CmpEndpoints(b, c) == Less
    ensures CmpEndpoints(a, c) == Less
  {
    if a != [] && c != [] {
      if a[0].code == b[0].code && b[0].code == c[0].code {
        CmpEndpointsTransitive(a[1..], b[1..], c[1..]);
      }
    }
  }

  /** Ord::cmp is a total order whose equivalence is agreement on everything but the signature. */
  lemma CmpTotalOrder(a: Locator, b: Locator, c: Locator)
    ensures Cmp(b, a) == Cmp(a, b).Reverse()
    ensures Cmp(a, b) == Equal <==> SameOrderKey(a, b)
    ensures Cmp(a, b) == Less && Cmp(b, c) == Less ==> Cmp(a, c) == Less
  {
    CmpEndpointsReverse(a.endpoints, b.endpoints);
    if Cmp(a, b) == Less && Cmp(b, c) == Less {
      if SameOrderKeyBut(a, b) && SameOrderKeyBut(b, c) {
        CmpEndpointsTransitive(a.endpoints, b.endpoints, c.endpoints);
      }
    }
  }

  /** Agreement on subject, timestamp and signer. */
  predicate SameOrderKeyBut(a: Locator, b: Locator) {
    a.subject == b.subject && a.timestamp == b.timestamp && a.signer == b.signer
  }

  /** The order never consults the signature, although the derived equality does. */
  lemma CmpIgnoresSignature(a: Locator, b: Locator, signature: Bytes, other: Bytes)
    ensures Cmp(a.(signature := signature), b.(signature := other)) == Cmp(a, b)
    ensures Cmp(a, a.(signature := signature)) == Equal
    ensures signature != a.signature ==> a != a.(signature := signature)
  {
    CmpEndpointsReverse(a.endpoints, a.endpoints);
  }

  /** Locators built from the same endpoints in any order compare equal. */
  lemma NormalizedLocatorsCompareEqual(subject: Address, signer: Address, ts: I64,
                                       a: seq<Endpoint>, b: seq<Endpoint>, sa: Bytes, sb: Bytes)
    requires forall e :: e in a <==> e in b
    ensures Cmp(Locator(subject, signer, ts, Normalize(a), sa), Locator(subject, signer, ts, Normalize(b), sb)) == Equal
  {
    NormalizeCanonical(a, b);
    CmpEndpointsReverse(Normalize(a), Normalize(b));
  }

  // ---------------------------------------------------------------------------
  // Hashing
  // ---------------------------------------------------------------------------

  /** One call made on the Hasher. */
  datatype HashWrite = WriteBytes(bytes: Bytes) | WriteU64(u: nat) | WriteI64(i: int) | HashEndpoint(endpoint: Endpoint)

  /**
   * Hash::hash: the sequence of writes it makes on the hasher. A signed
   * locator is hashed by its signature in one write; an unsigned one by two
   * writes and then one per endpoint.
   */
  function HashInput(loc: Locator): (r: seq<HashWrite>)
    ensures |r| > 0 && (|loc.signature| > 0 <==> r[0].WriteBytes?)
    ensures |loc.signature| > 0 ==> |r| == 1 && r[0].bytes == loc.signature
    ensures |loc.signature| == 0 ==> |r| == 2 + |loc.endpoints|
  {
    if |loc.signature| > 0 then [WriteBytes(loc.signature)]
    else [WriteU64(loc.signer), WriteI64(loc.timestamp)] + EndpointHashes(loc.endpoints)
  }

  function EndpointHashes(eps: seq<Endpoint>): (r: seq<HashWrite>)
    ensures |r| == |eps|
  {
    seq(|eps|, i requires 0 <= i < |eps| => HashEndpoint(eps[i]))
  }

  /** Two signed locators with the same signature hash alike, whatever else they hold. */
  lemma SignatureIsHashIdentity(a: Locator, b: Locator)
    requires |a.signature| > 0 && a.signature == b.signature
    ensures HashInput(a) == HashInput(b)
  {
  }

  /** What the hash input pins down: the signature when there is one, else signer, timestamp and endpoints. */
  lemma HashInputDetermines(a: Locator, b: Locator)
    requires HashInput(a) == HashInput(b)
    ensures |a.signature| > 0 <==> |b.signature| > 0
    ensures |a.signature| > 0 ==> a.signature == b.signature
    ensures |a.signature| == 0 ==>
            a.signer == b.signer && a.timestamp == b.timestamp && a.endpoints == b.endpoints
  {
    if |a.signature| == 0 && |b.signature| == 0 {
      var ha := EndpointHashes(a.endpoints);
      var hb := EndpointHashes(b.endpoints);
      assert HashInput(a)[2..] == ha;
      assert HashInput(b)[2..] == hb;
      forall i | 0 <= i < |a.endpoints| ensures a.endpoints[i] == b.endpoints[i] {
        assert ha[i] == hb[i];
      }
    }
  }
}
