/*
 * Call sequences against freshly created registries: what a caller can
 * conclude from the operations' contracts alone. Addresses, timestamps
 * and the free-text metadata fields are parameters, so each scenario
 * covers every choice of them. Stored issuer records are stated as the
 * encoding of the record they hold (Codec.DecodeEncodeIssuer reads them
 * back).
 */
module Scenarios {
  import opened Codec
  import PyTealRegistry
  import BeakerRegistry

  /** "ab" */
  const ShortName: Bytes := [97, 98]

  /**
   * PyTeal: the admin adds an issuer, then revokes it with
   * revoke_all_prior = 1; the issuer box holds the record with revoked_at
   * at the revocation time, the flag set, and the admin as voucher.
   */
  method AddThenRevokeWithFlag(admin: Address, x: Bytes, t1: Uint64, t2: Uint64, name: Bytes, url: Bytes,
                               fullName: Bytes, organizationType: Bytes, jurisdiction: Bytes)
    returns (added: bool, revoked: bool, count: Uint64, stored: Option<Bytes>)
    requires PyTealRegistry.ValidName(name) && PyTealRegistry.ValidateUrl(url) == Some(true)
    ensures added && revoked && count == 1
    ensures stored == Some(IssuerRecord(t1, t2, 1, admin).Encode())
  {
    var registry := new PyTealRegistry.IssuerRegistry(admin);
    added := registry.AddIssuer(admin, t1, x, name, fullName, url, organizationType, jurisdiction);
    MetaKeyNotIssuerKey(x);
    assert Btoi([1]) == 1;
    revoked := registry.RevokeIssuer(admin, t2, x, [1]);
    count := registry.issuerCount;
    stored := registry.QueryIssuer(x);
    PyTealRegistry.RevokeEncoded(IssuerRecord(t1, 0, 0, admin), t2, 1);
  }

  /** PyTeal: a two-byte name is refused; no issuer box appears and the count stays 0. */
  method ShortNameRefused(admin: Address, y: Bytes, t: Uint64, url: Bytes,
                          fullName: Bytes, organizationType: Bytes, jurisdiction: Bytes)
    returns (added: bool, count: Uint64, issuer: Option<Bytes>, metadata: Option<Bytes>)
    ensures !added && count == 0 && issuer.None? && metadata.None?
  {
    var registry := new PyTealRegistry.IssuerRegistry(admin);
    added := registry.AddIssuer(admin, t, y, ShortName, fullName, url, organizationType, jurisdiction);
    count := registry.issuerCount;
    issuer := registry.QueryIssuer(y);
    metadata := registry.QueryMetadata(y);
  }

  /**
   * PyTeal: adding an address twice fails the second time and leaves the
   * first record and the count as they were.
   */
  method SecondAddRefused(admin: Address, x: Bytes, t1: Uint64, t2: Uint64, name: Bytes, url: Bytes,
                          fullName: Bytes, organizationType: Bytes, jurisdiction: Bytes)
    returns (first: bool, second: bool, count: Uint64, issuer: Option<Bytes>)
    requires PyTealRegistry.ValidName(name) && PyTealRegistry.ValidateUrl(url) == Some(true)
    ensures first && !second && count == 1
    ensures issuer == Some(NewIssuerRecord(t1, admin))
  {
    var registry := new PyTealRegistry.IssuerRegistry(admin);
    first := registry.AddIssuer(admin, t1, x, name, fullName, url, organizationType, jurisdiction);
    MetaKeyNotIssuerKey(x);
    second := registry.AddIssuer(admin, t2, x, name, fullName, url, organizationType, jurisdiction);
    count := registry.issuerCount;
    issuer := registry.QueryIssuer(x);
  }

  /**
   * PyTeal: an issuer the admin added can itself add a new issuer, and is
   * recorded as that issuer's voucher.
   */
  method IssuerVouchesForIssuer(admin: Address, x: Address, y: Bytes, t1: Uint64, t2: Uint64,
                                name: Bytes, url: Bytes, fullName: Bytes, organizationType: Bytes, jurisdiction: Bytes)
    returns (byAdmin: bool, byIssuer: bool, vouched: Option<Bytes>)
    requires PyTealRegistry.ValidName(name) && PyTealRegistry.ValidateUrl(url) == Some(true)
    requires x != admin && y != x && y != MetaKey(x)
    ensures byAdmin && byIssuer
    ensures vouched == Some(IssuerRecord(t2, 0, 0, x).Encode())
  {
    var registry := new PyTealRegistry.IssuerRegistry(admin);
    var record := IssuerRecord(t1, 0, 0, admin);
    byAdmin := registry.AddIssuer(admin, t1, x, name, fullName, url, organizationType, jurisdiction);
    MetaKeyNotIssuerKey(x);
    var afterAdd := registry.boxes;
    assert x in afterAdd && afterAdd[x] == record.Encode();
    PyTealRegistry.ActiveIffNotRevoked(afterAdd, x, record);
    byIssuer := registry.AddIssuer(x, t2, y, name, fullName, url, organizationType, jurisdiction);
    vouched := registry.QueryIssuer(y);
  }

  /**
   * PyTeal: once the admin revokes an issuer at a nonzero time, that
   * issuer can no longer add issuers.
   */
  method RevokedIssuerCannotVouch(admin: Address, x: Address, z: Bytes, t1: Uint64, t2: Uint64,
                                  name: Bytes, url: Bytes, fullName: Bytes, organizationType: Bytes, jurisdiction: Bytes)
    returns (added: bool, revoked: bool, byRevoked: bool)
    requires PyTealRegistry.ValidName(name) && PyTealRegistry.ValidateUrl(url) == Some(true)
    requires x != admin && t2 > 0
    ensures added && revoked && !byRevoked
  {
    var registry := new PyTealRegistry.IssuerRegistry(admin);
    var record := IssuerRecord(t1, 0, 0, admin);
    added := registry.AddIssuer(admin, t1, x, name, fullName, url, organizationType, jurisdiction);
    MetaKeyNotIssuerKey(x);
    revoked := registry.RevokeIssuer(admin, t2, x, []);
    PyTealRegistry.RevokeEncoded(record, t2, 0);
    var afterRevoke := registry.boxes;
    assert x in afterRevoke && afterRevoke[x] == record.(revokedAt := t2).Encode();
    PyTealRegistry.ActiveIffNotRevoked(afterRevoke, x, record.(revokedAt := t2));
    byRevoked := registry.AddIssuer(x, t2, z, name, fullName, url, organizationType, jurisdiction);
  }

  /**
   * PyTeal: reinstating a revoked issuer restarts authorized_at at the
   * reinstatement time, clears revoked_at and the flag, and keeps the voucher.
   */
  method ReinstateRestartsAuthorization(admin: Address, x: Bytes, t1: Uint64, t2: Uint64, t3: Uint64,
                                        name: Bytes, url: Bytes,
                                        fullName: Bytes, organizationType: Bytes, jurisdiction: Bytes)
    returns (ok: bool, stored: Option<Bytes>)
    requires PyTealRegistry.ValidName(name) && PyTealRegistry.ValidateUrl(url) == Some(true)
    ensures ok && stored == Some(IssuerRecord(t3, 0, 0, admin).Encode())
  {
    var registry := new PyTealRegistry.IssuerRegistry(admin);
    var added := registry.AddIssuer(admin, t1, x, name, fullName, url, organizationType, jurisdiction);
    MetaKeyNotIssuerKey(x);
    assert Btoi([1]) == 1;
    var revoked := registry.RevokeIssuer(admin, t2, x, [1]);
    PyTealRegistry.RevokeEncoded(IssuerRecord(t1, 0, 0, admin), t2, 1);
    ok := registry.ReinstateIssuer(admin, t3, x);
    PyTealRegistry.ReinstateEncoded(IssuerRecord(t1, t2, 1, admin), t3);
    ok := ok && added && revoked;
    stored := registry.QueryIssuer(x);
  }

  /**
   * PyTeal: while timestamps do not go backwards, an issuer record that is
   * added, revoked, reinstated and revoked again has revoked_at no earlier
   * than authorized_at. The ordering is read off the registry invariant.
   */
  method OrderedWhileTimeAdvances(admin: Address, x: Bytes, t1: Uint64, t2: Uint64, t3: Uint64, t4: Uint64,
                                  name: Bytes, url: Bytes,
                                  fullName: Bytes, organizationType: Bytes, jurisdiction: Bytes)
    returns (ok: bool, ordered: bool)
    requires PyTealRegistry.ValidName(name) && PyTealRegistry.ValidateUrl(url) == Some(true)
    requires t1 <= t2 <= t3 <= t4
    ensures ok && ordered
  {
    var registry := new PyTealRegistry.IssuerRegistry(admin);
    var added := registry.AddIssuer(admin, t1, x, name, fullName, url, organizationType, jurisdiction);
    MetaKeyNotIssuerKey(x);
    var revoked := registry.RevokeIssuer(admin, t2, x, []);
    var reinstated := registry.ReinstateIssuer(admin, t3, x);
    var revokedAgain := registry.RevokeIssuer(admin, t4, x, []);
    ok := added && revoked && reinstated && revokedAgain;
    assert registry.inOrder;
    assert x in registry.issuerKeys;
    assert PyTealRegistry.IssuerRecordAt(registry.boxes, x, true);
    var v := registry.boxes[x];
    ordered := |v| >= 16 && RevocationOrdered(v);
  }

  /**
   * PyTeal: a revoke presented with a timestamp earlier than the add's
   * leaves revoked_at before authorized_at, so the ordering needs time to
   * move forward.
   */
  method BackwardsRevokeUnordered(admin: Address, x: Bytes, t1: Uint64, t2: Uint64, name: Bytes, url: Bytes,
                                  fullName: Bytes, organizationType: Bytes, jurisdiction: Bytes)
    returns (ok: bool, ordered: bool)
    requires PyTealRegistry.ValidName(name) && PyTealRegistry.ValidateUrl(url) == Some(true)
    requires 0 < t2 < t1
    ensures ok && !ordered
  {
    var registry := new PyTealRegistry.IssuerRegistry(admin);
    var added := registry.AddIssuer(admin, t1, x, name, fullName, url, organizationType, jurisdiction);
    MetaKeyNotIssuerKey(x);
    var revoked := registry.RevokeIssuer(admin, t2, x, []);
    ok := added && revoked;
    var v := registry.boxes[x];
    PyTealRegistry.RevokeEncoded(IssuerRecord(t1, 0, 0, admin), t2, 0);
    IssuerStampsReadable(IssuerRecord(t1, t2, 0, admin));
    ordered := |v| >= 16 && RevocationOrdered(v);
  }

  /**
   * PyTeal: a non-admin caller cannot revoke, update metadata or revoke a
   * credential, and the store is left exactly as it was.
   */
  method NonAdminRefused(admin: Address, other: Address, x: Bytes, id: Bytes, t1: Uint64, t2: Uint64,
                         name: Bytes, url: Bytes, fullName: Bytes, organizationType: Bytes, jurisdiction: Bytes)
    returns (revoked: bool, updated: bool, credential: bool, storeKept: bool)
    requires other != admin
    ensures !revoked && !updated && !credential && storeKept
  {
    var registry := new PyTealRegistry.IssuerRegistry(admin);
    var added := registry.AddIssuer(admin, t1, x, name, fullName, url, organizationType, jurisdiction);
    var before := registry.boxes;
    revoked := registry.RevokeIssuer(other, t2, x, [1]);
    updated := registry.UpdateMetadata(other, t2, x, name, fullName, url, organizationType, jurisdiction);
    credential := registry.RevokeCredential(other, t2, id, x);
    storeKept := registry.boxes == before;
  }

  /**
   * PyTeal: a revoked credential reads back as revoked_at ++ issuer
   * address; revoking it again later overwrites the timestamp.
   */
  method CredentialRevocationOverwrites(admin: Address, id: Bytes, x: Bytes, t1: Uint64, t2: Uint64)
    returns (first: Option<CredentialRecord>, second: Option<CredentialRecord>)
    ensures first == Some(CredentialRecord(t1, x))
    ensures second == Some(CredentialRecord(t2, x))
  {
    var registry := new PyTealRegistry.IssuerRegistry(admin);
    var ok1 := registry.RevokeCredential(admin, t1, id, x);
    var q1 := registry.QueryCredential(id);
    var ok2 := registry.RevokeCredential(admin, t2, id, x);
    var q2 := registry.QueryCredential(id);
    DecodeEncodeCredential(CredentialRecord(t1, x));
    DecodeEncodeCredential(CredentialRecord(t2, x));
    first := DecodeCredential(q1.value);
    second := DecodeCredential(q2.value);
  }

  /** Beaker: revoke followed by reinstate gives back the issuer record's exact bytes. */
  method BeakerRevokeThenReinstate(admin: Address, x: Address, t1: Uint64, t2: Uint64,
                                   name: Bytes, fullName: Bytes, url: Bytes, organizationType: Bytes, jurisdiction: Bytes)
    returns (before: Bytes, during: Bytes, after: Bytes)
    ensures before == after == IssuerRecord(t1, 0, 0, admin).Encode()
    ensures during == IssuerRecord(t1, t2, 0, admin).Encode()
  {
    var registry := new BeakerRegistry.IssuerRegistry(admin);
    var added := registry.AddIssuer(admin, t1, x, name, fullName, url, organizationType, jurisdiction);
    MetaKeyNotIssuerKey(x);
    before := registry.QueryIssuer(x);
    var revoked := registry.RevokeIssuer(admin, t2, x);
    BeakerRegistry.RevokeEncoded(IssuerRecord(t1, 0, 0, admin), t2);
    during := registry.QueryIssuer(x);
    var reinstated := registry.ReinstateIssuer(admin, x);
    BeakerRegistry.ReinstateEncoded(IssuerRecord(t1, t2, 0, admin));
    after := registry.QueryIssuer(x);
  }

  /**
   * Beaker: while timestamps do not go backwards, an issuer record that is
   * revoked, reinstated and revoked again has revoked_at no earlier than
   * authorized_at and a zero flag. Both are read off the registry invariant.
   */
  method BeakerOrderedWhileTimeAdvances(admin: Address, x: Address, t1: Uint64, t2: Uint64, t3: Uint64,
                                        name: Bytes, fullName: Bytes, url: Bytes, organizationType: Bytes, jurisdiction: Bytes)
    returns (ok: bool, ordered: bool, flagZero: bool)
    requires t1 <= t2 <= t3
    ensures ok && ordered && flagZero
  {
    var registry := new BeakerRegistry.IssuerRegistry(admin);
    var added := registry.AddIssuer(admin, t1, x, name, fullName, url, organizationType, jurisdiction);
    MetaKeyNotIssuerKey(x);
    var revoked := registry.RevokeIssuer(admin, t2, x);
    var reinstated := registry.ReinstateIssuer(admin, x);
    var revokedAgain := registry.RevokeIssuer(admin, t3, x);
    ok := added && revoked && reinstated && revokedAgain;
    var v := registry.boxes[x];
    assert BeakerRegistry.IssuerShaped(registry.boxes, x);
    assert BeakerRegistry.IssuerRecordAt(v, true);
    ordered := |v| >= 16 && RevocationOrdered(v);
    flagZero := |v| >= 24 && v[16..24] == Itob(0);
  }

  /**
   * Beaker: adding the same address twice succeeds both times, counts
   * twice, and leaves the record of the second add.
   */
  method BeakerReAddCountsTwice(admin: Address, x: Address, t1: Uint64, t2: Uint64,
                                name: Bytes, fullName: Bytes, url: Bytes, organizationType: Bytes, jurisdiction: Bytes)
    returns (first: bool, second: bool, count: Uint64, record: Bytes)
    ensures first && second && count == 2
    ensures record == NewIssuerRecord(t2, admin)
  {
    var registry := new BeakerRegistry.IssuerRegistry(admin);
    first := registry.AddIssuer(admin, t1, x, name, fullName, url, organizationType, jurisdiction);
    second := registry.AddIssuer(admin, t2, x, name, fullName, url, organizationType, jurisdiction);
    MetaKeyNotIssuerKey(x);
    count := registry.issuerCount;
    record := registry.QueryIssuer(x);
  }

  /**
   * Beaker: metadata can be written for an address that was never added;
   * its issuer query still answers empty.
   */
  method BeakerMetadataWithoutIssuer(admin: Address, x: Address, t: Uint64,
                                     name: Bytes, fullName: Bytes, url: Bytes, organizationType: Bytes, jurisdiction: Bytes)
    returns (updated: bool, metadata: Bytes, issuer: Bytes, count: Uint64)
    ensures updated && issuer == [] && count == 0
    ensures metadata == MetadataRecord(t, name, fullName, url, organizationType, jurisdiction).Encode()
  {
    var registry := new BeakerRegistry.IssuerRegistry(admin);
    updated := registry.UpdateMetadata(admin, t, x, name, fullName, url, organizationType, jurisdiction);
    MetaKeyNotIssuerKey(x);
    metadata := registry.QueryMetadata(x);
    issuer := registry.QueryIssuer(x);
    count := registry.issuerCount;
  }
}
