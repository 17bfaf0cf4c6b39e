/**
 * The collaborators the Locator and the Path are built from: addresses,
 * endpoints and identities. address.rs, endpoint.rs and identity.rs are not
 * part of this model; each is reduced to what the core uses.
 */
module Vl1 {
  import opened Wrappers
  import opened Buffers

  /** An address is 40 bits wide; zero and the reserved prefix 0xff are not addresses. */
  const AddressSize: nat := 5
  const AddressReservedPrefix: nat := 0xff

  predicate IsValidAddress(v: int) {
    0 < v < 0x100_0000_0000 && v / 0x1_0000_0000 != AddressReservedPrefix
  }

  type Address = v: nat | IsValidAddress(v) witness 1

  function EncodeAddress(a: Address): (r: Bytes)
    ensures |r| == AddressSize
  {
    EncodeFixed(a, AddressSize)
  }

  /** Address::unmarshal: fails past the end of input, yields None for a value that is not an address. */
  function ReadAddress(s: Bytes): (r: Result<(Option<Address>, Bytes), IoError>)
    ensures r.Ok? ==> AddressSize <= |s| && r.value.1 == s[AddressSize..]
    ensures r.Err? <==> |s| < AddressSize
  {
    var v :- ReadFixed(s, AddressSize);
    Ok((if IsValidAddress(v.0) then Some(v.0) else None, v.1))
  }

  lemma ReadAddressEncoded(a: Address, rest: Bytes)
    ensures ReadAddress(EncodeAddress(a) + rest) == Ok((Some(a), rest))
  {
    Pow256Widths();
    assert IsValidAddress(a);
    ReadFixedEncoded(a, AddressSize, rest);
  }

  /**
   * An endpoint, reduced to an opaque totally ordered value with a
   * self-delimiting encoding; `code` stands for the endpoint's content and
   * orders endpoints.
   */
  datatype Endpoint = Endpoint(code: nat)

  function EncodeEndpoint(e: Endpoint): Bytes {
    EncodeVarint(e.code)
  }

  function ReadEndpoint(s: Bytes): (r: Result<(Endpoint, Bytes), IoError>)
    ensures r.Ok? ==> |r.value.1| < |s|
  {
    var v :- ReadVarint(s);
    Ok((Endpoint(v.0), v.1))
  }

  lemma ReadEndpointEncoded(e: Endpoint, rest: Bytes)
    ensures ReadEndpoint(EncodeEndpoint(e) + rest) == Ok((e, rest))
  {
    ReadVarintEncoded(e.code, rest);
  }

  /**
   * An identity as the Locator sees it: its address, and its signing and
   * verification primitives, which are left uninterpreted.
   */
  datatype Identity = Identity(
    address: Address,
    sign: Bytes -> Option<Bytes>,
    verify: (Bytes, Bytes) -> bool)
}
