/*
 * Byte-level codec shared by both registry variants: the AVM's 8-byte
 * big-endian integer encoding (Itob / Btoi), the fixed layout of the
 * issuer record, the credential and metadata records, and the key
 * convention of the shared box store.
 */
module Codec {

  /** One byte of an AVM byte string. */
  type Byte = b: int | 0 <= b < 256

  type Bytes = seq<Byte>

  /** AVM integers are unsigned 64-bit. */
  const Uint64Bound: nat := 0x1_0000_0000_0000_0000

  type Uint64 = n: nat | n < Uint64Bound

  /** An account address (Txn.sender(), abi.Address) is 32 bytes. */
  const AddressLength: nat := 32

  type Address = s: Bytes | |s| == AddressLength witness seq(32, i => 0)

  function Pow256(k: nat): (r: nat)
    ensures r >= 1
  {
    if k == 0 then 1 else 256 * Pow256(k - 1)
  }

  /** The low `width` base-256 digits of `n`, most significant first. */
  function BigEndian(n: nat, width: nat): (r: Bytes)
    ensures |r| == width
  {
    if width == 0 then [] else BigEndian(n / 256, width - 1) + [n % 256]
  }

  /** Width in bytes of an AVM integer field. */
  const FieldWidth: nat := 8

  /** TEAL `itob`: a uint64 as 8 big-endian bytes. */
  function Itob(n: Uint64): (r: Bytes)
    ensures |r| == 8
  {
    BigEndian(n, FieldWidth)
  }

  /** Big-endian bytes as an unsigned integer, for any length. */
  function FromBigEndian(b: Bytes): (r: nat)
    ensures r < Pow256(|b|)
  {
    if b == [] then 0 else FromBigEndian(b[..|b| - 1]) * 256 + b[|b| - 1]
  }

  lemma {:induction false} Pow256Monotonic(i: nat, j: nat)
    requires i <= j
    ensures Pow256(i) <= Pow256(j)
  {
    if i < j {
      Pow256Monotonic(i, j - 1);
    }
  }

  /** TEAL `btoi`: defined on at most 8 bytes (longer input fails the program). */
  function Btoi(b: Bytes): (r: Uint64)
    requires |b| <= 8
  {
    Pow256Monotonic(|b|, 8);
    assert Pow256(8) == Uint64Bound;
    FromBigEndian(b)
  }

  lemma {:induction false} FromBigEndianInverse(n: nat, width: nat)
    requires n < Pow256(width)
    ensures FromBigEndian(BigEndian(n, width)) == n
  {
    if width > 0 {
      var hi := BigEndian(n / 256, width - 1);
      assert n / 256 < Pow256(width - 1);
      FromBigEndianInverse(n / 256, width - 1);
      assert BigEndian(n, width)[..width - 1] == hi;
    }
  }

  lemma {:induction false} BigEndianInverse(b: Bytes)
    ensures BigEndian(FromBigEndian(b), |b|) == b
  {
    if b != [] {
      var init := b[..|b| - 1];
      var n := FromBigEndian(b);
      assert n / 256 == FromBigEndian(init) && n % 256 == b[|b| - 1];
      BigEndianInverse(init);
      assert init + [b[|b| - 1]] == b;
    }
  }

  /** Decoding an encoded timestamp gives it back. */
  lemma BtoiItob(n: Uint64)
    ensures Btoi(Itob(n)) == n
  {
    assert Pow256(8) == Uint64Bound;
    FromBigEndianInverse(n, FieldWidth);
  }

  /** Every 8-byte string is the encoding of the integer it decodes to. */
  lemma ItobBtoi(b: Bytes)
    requires |b| == 8
    ensures Itob(Btoi(b)) == b
  {
    BigEndianInverse(b);
  }

  /** Itob is injective: two timestamps with the same bytes are equal. */
  lemma ItobInjective(m: Uint64, n: Uint64)
    ensures Itob(m) == Itob(n) <==> m == n
  {
    BtoiItob(m);
    BtoiItob(n);
  }

  /** Integer held in the 8 bytes at `offset` of `v`. */
  function FieldAt(v: Bytes, offset: nat): (r: Uint64)
    requires offset + 8 <= |v|
  {
    Btoi(v[offset..offset + 8])
  }

  /** A value that starts with Itob(t) carries t in its first field. */
  lemma FieldAtItobPrefix(t: Uint64, rest: Bytes)
    ensures FieldAt(Itob(t) + rest, 0) == t
  {
    assert (Itob(t) + rest)[0..8] == Itob(t);
    BtoiItob(t);
  }

  // ---------------------------------------------------------------------
  // Issuer record: authorized_at (8) ++ revoked_at (8) ++ revoke_all_prior (8) ++ vouched_by (32)

  const IssuerRecordLength: nat := 56

  datatype IssuerRecord = IssuerRecord(
    authorizedAt: Uint64,
    revokedAt: Uint64,      // 0 means "not revoked"
    revokeAllPrior: Uint64, // stored as an 8-byte integer, not clamped to 0/1
    vouchedBy: Address)
  {
    function Encode(): (v: Bytes)
      ensures |v| == IssuerRecordLength
    {
      Itob(authorizedAt) + Itob(revokedAt) + Itob(revokeAllPrior) + vouchedBy
    }

    predicate IsActive() { revokedAt == 0 }
  }

  /**
   * Reads the four fixed-offset slices the contracts Extract. A value
   * shorter than the layout cannot be read (Extract would fail); bytes
   * beyond offset 56 are ignored, as the contracts ignore them.
   */
  function DecodeIssuer(v: Bytes): (r: Option<IssuerRecord>)
    ensures r.Some? <==> |v| >= IssuerRecordLength
  {
    if |v| < IssuerRecordLength then None
    else Some(IssuerRecord(FieldAt(v, 0), FieldAt(v, 8), FieldAt(v, 16), v[24..56]))
  }

  lemma DecodeEncodeIssuer(r: IssuerRecord)
    ensures DecodeIssuer(r.Encode()) == Some(r)
  {
    var v := r.Encode();
    var vouchedBy: Bytes := r.vouchedBy;
    assert |vouchedBy| == AddressLength;
    assert v[0..8] == Itob(r.authorizedAt);
    assert v[8..16] == Itob(r.revokedAt);
    assert v[16..24] == Itob(r.revokeAllPrior);
    assert v[24..56] == r.vouchedBy;
    BtoiItob(r.authorizedAt);
    BtoiItob(r.revokedAt);
    BtoiItob(r.revokeAllPrior);
  }

  /** The two timestamps of an encoded issuer record read back as stored. */
  lemma IssuerStampsReadable(r: IssuerRecord)
    ensures FieldAt(r.Encode(), 0) == r.authorizedAt && FieldAt(r.Encode(), 8) == r.revokedAt
  {
    var v := r.Encode();
    assert v[0..8] == Itob(r.authorizedAt);
    assert v[8..16] == Itob(r.revokedAt);
    BtoiItob(r.authorizedAt);
    BtoiItob(r.revokedAt);
  }

  /** Record stored by add_issuer: authorized now, not revoked, flag 0, vouched by the caller. */
  function NewIssuerRecord(now: Uint64, sender: Address): Bytes
  {
    IssuerRecord(now, 0, 0, sender).Encode()
  }

  /** A stored value of exactly the layout's length is the encoding of what it decodes to. */
  lemma EncodeDecodeIssuer(v: Bytes)
    requires |v| == IssuerRecordLength
    ensures DecodeIssuer(v).Some? && DecodeIssuer(v).value.Encode() == v
  {
    ItobBtoi(v[0..8]);
    ItobBtoi(v[8..16]);
    ItobBtoi(v[16..24]);
    assert v == v[0..8] + v[8..16] + v[16..24] + v[24..56];
  }

  // ---------------------------------------------------------------------
  // Credential-revocation record: revoked_at (8) ++ issuer_address

  datatype CredentialRecord = CredentialRecord(revokedAt: Uint64, issuerAddress: Bytes)
  {
    function Encode(): (v: Bytes)
      ensures |v| == 8 + |issuerAddress|
    {
      Itob(revokedAt) + issuerAddress
    }
  }

  function DecodeCredential(v: Bytes): (r: Option<CredentialRecord>)
    ensures r.Some? <==> |v| >= 8
  {
    if |v| < 8 then None else Some(CredentialRecord(FieldAt(v, 0), v[8..]))
  }

  lemma DecodeEncodeCredential(c: CredentialRecord)
    ensures DecodeCredential(c.Encode()) == Some(c)
  {
    var v := c.Encode();
    assert v[0..8] == Itob(c.revokedAt) && v[8..] == c.issuerAddress;
    BtoiItob(c.revokedAt);
  }

  lemma EncodeDecodeCredential(v: Bytes)
    requires |v| >= 8
    ensures DecodeCredential(v).Some? && DecodeCredential(v).value.Encode() == v
  {
    ItobBtoi(v[0..8]);
    assert v == v[0..8] + v[8..];
  }

  // ---------------------------------------------------------------------
  // Metadata record: updated_at (8) ++ name ++ full_name ++ url ++ org_type ++ jurisdiction

  datatype MetadataRecord = MetadataRecord(
    updatedAt: Uint64,
    name: Bytes,
    fullName: Bytes,
    websiteUrl: Bytes,
    organizationType: Bytes,
    jurisdiction: Bytes)
  {
    /** The text fields are concatenated with no length prefix or delimiter. */
    function Encode(): (v: Bytes)
      ensures |v| == 8 + |name| + |fullName| + |websiteUrl| + |organizationType| + |jurisdiction|
    {
      Itob(updatedAt) + name + fullName + websiteUrl + organizationType + jurisdiction
    }
  }

  /** Only the timestamp can be read back from a metadata value. */
  lemma MetadataStampReadable(m: MetadataRecord)
    ensures |m.Encode()| >= 8 && FieldAt(m.Encode(), 0) == m.updatedAt
  {
    assert m.Encode()[0..8] == Itob(m.updatedAt);
    BtoiItob(m.updatedAt);
  }

  /** Without delimiters, two different records can have the same stored bytes. */
  lemma MetadataEncodingAmbiguous(t: Uint64)
    ensures var a := MetadataRecord(t, [97, 98, 99, 100], [], [], [], []);
            var b := MetadataRecord(t, [97, 98, 99], [100], [], [], []);
            a != b && a.Encode() == b.Encode()
  {
    var a := MetadataRecord(t, [97, 98, 99, 100], [], [], [], []);
    var b := MetadataRecord(t, [97, 98, 99], [100], [], [], []);
    assert a.name != b.name;
    assert [97, 98, 99, 100] == [97, 98, 99] + [100];
  }

  // ---------------------------------------------------------------------
  // Keys of the single box store

  /** "meta:" */
  const MetaPrefix: Bytes := [109, 101, 116, 97, 58]
  /** "cred:" */
  const CredPrefix: Bytes := [99, 114, 101, 100, 58]

  function MetaKey(address: Bytes): (k: Bytes)
    ensures |k| == |address| + 5 && k[..5] == MetaPrefix && k[5..] == address
  {
    MetaPrefix + address
  }

  function CredKey(credentialId: Bytes): (k: Bytes)
    ensures |k| == |credentialId| + 5 && k[..5] == CredPrefix && k[5..] == credentialId
  {
    CredPrefix + credentialId
  }

  /** Metadata and credential keys never collide with each other. */
  lemma MetaCredDisjoint(address: Bytes, credentialId: Bytes)
    ensures MetaKey(address) != CredKey(credentialId)
  {
    assert MetaKey(address)[0] != CredKey(credentialId)[0];
  }

  /** The metadata key of an address is never the address itself. */
  lemma MetaKeyNotIssuerKey(address: Bytes)
    ensures MetaKey(address) != address
  {
  }

  lemma MetaKeyInjective(a: Bytes, b: Bytes)
    ensures MetaKey(a) == MetaKey(b) <==> a == b
  {
    if MetaKey(a) == MetaKey(b) {
      assert a == MetaKey(a)[5..];
    }
  }

  lemma CredKeyInjective(a: Bytes, b: Bytes)
    ensures CredKey(a) == CredKey(b) <==> a == b
  {
    if CredKey(a) == CredKey(b) {
      assert a == CredKey(a)[5..];
    }
  }

  // ---------------------------------------------------------------------

  datatype Option<+T> = None | Some(value: T)

  /** The first 8 bytes of `v` encode a timestamp no later than `clock`. */
  predicate StampedBy(v: Bytes, clock: nat)
  {
    |v| >= 8 && FieldAt(v, 0) <= clock
  }

  /** revoked_at is 0 or not before authorized_at. */
  predicate RevocationOrdered(v: Bytes)
    requires |v| >= 16
  {
    FieldAt(v, 8) == 0 || FieldAt(v, 8) >= FieldAt(v, 0)
  }
}
