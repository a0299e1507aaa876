/*
 * The Beaker issuer registry. The same logic appears three times:
 * algokit-project/smart_contracts/issuer_registry/contract.py and
 * issuer_registry/contract_orig.py (a class IssuerRegistry with an
 * IssuerRegistryState) and app/contracts/issuer-registry-beaker.py
 * (module-level app.state). Only the admin may add; add neither validates
 * nor checks for an existing issuer; revoke and reinstate rewrite only
 * revoked_at; update_metadata needs no issuer; queries answer with the
 * empty byte string when the box is absent.
 *
 * Issuer addresses are abi.Address values, so issuer keys are always 32
 * bytes and metadata keys 37 bytes. A rejected call changes nothing.
 */
module BeakerRegistry {
  import opened Codec

  /** Value written back by revoke_issuer: only bytes 8..16 become Itob(now). */
  function RevokedRecord(v: Bytes, now: Uint64): (w: Bytes)
    requires |v| >= IssuerRecordLength
    ensures |w| == IssuerRecordLength
  {
    v[0..8] + Itob(now) + v[16..24] + v[24..56]
  }

  /** Value written back by reinstate_issuer: only bytes 8..16 become Itob(0). */
  function ReinstatedRecord(v: Bytes): (w: Bytes)
    requires |v| >= IssuerRecordLength
    ensures |w| == IssuerRecordLength
  {
    v[0..8] + Itob(0) + v[16..24] + v[24..56]
  }

  /** Revocation changes revoked_at and nothing else. */
  lemma RevokeSetsOnlyRevokedAt(v: Bytes, now: Uint64)
    requires |v| >= IssuerRecordLength
    ensures DecodeIssuer(RevokedRecord(v, now)) == Some(DecodeIssuer(v).value.(revokedAt := now))
  {
    var w := RevokedRecord(v, now);
    var r := DecodeIssuer(v).value;
    assert w[0..8] == v[0..8] && w[8..16] == Itob(now) && w[16..24] == v[16..24] && w[24..56] == v[24..56];
    BtoiItob(now);
  }

  /** Reinstatement clears revoked_at and keeps authorized_at, the flag and vouched_by. */
  lemma ReinstateClearsOnlyRevokedAt(v: Bytes)
    requires |v| >= IssuerRecordLength
    ensures DecodeIssuer(ReinstatedRecord(v)) == Some(DecodeIssuer(v).value.(revokedAt := 0))
  {
    var w := ReinstatedRecord(v);
    assert w[0..8] == v[0..8] && w[8..16] == Itob(0) && w[16..24] == v[16..24] && w[24..56] == v[24..56];
    BtoiItob(0);
  }

  /** Revoking an encoded record gives the encoding of the record with revoked_at = now. */
  lemma RevokeEncoded(r: IssuerRecord, now: Uint64)
    ensures RevokedRecord(r.Encode(), now) == r.(revokedAt := now).Encode()
  {
    var v := r.Encode();
    assert v[0..8] == Itob(r.authorizedAt) && v[16..24] == Itob(r.revokeAllPrior) && v[24..56] == r.vouchedBy;
  }

  /** Reinstating an encoded record gives the encoding of the record with revoked_at = 0. */
  lemma ReinstateEncoded(r: IssuerRecord)
    ensures ReinstatedRecord(r.Encode()) == r.(revokedAt := 0).Encode()
  {
    var v := r.Encode();
    assert v[0..8] == Itob(r.authorizedAt) && v[16..24] == Itob(r.revokeAllPrior) && v[24..56] == r.vouchedBy;
  }

  /** A 56-byte value is the concatenation of its four fields. */
  lemma SplitIssuerRecord(v: Bytes)
    requires |v| == IssuerRecordLength
    ensures v == v[0..8] + v[8..16] + v[16..24] + v[24..56]
  {
  }

  /** Reinstating an active record that was just revoked gives back its exact bytes. */
  lemma ReinstateUndoesRevoke(v: Bytes, now: Uint64)
    requires |v| == IssuerRecordLength && FieldAt(v, 8) == 0
    ensures ReinstatedRecord(RevokedRecord(v, now)) == v
  {
    ItobBtoi(v[8..16]);
    var once := RevokedRecord(v, now);
    assert once[0..8] == v[0..8];
    assert once[16..24] == v[16..24];
    assert once[24..56] == v[24..56];
    calc {
      ReinstatedRecord(once);
      once[0..8] + Itob(0) + once[16..24] + once[24..56];
      v[0..8] + v[8..16] + v[16..24] + v[24..56];
      { SplitIssuerRecord(v); }
      v;
    }
  }

  /** Revoking a revoked record again only moves revoked_at to the new time. */
  lemma RevokeTwiceIsLastRevoke(v: Bytes, t1: Uint64, t2: Uint64)
    requires |v| >= IssuerRecordLength
    ensures RevokedRecord(RevokedRecord(v, t1), t2) == RevokedRecord(v, t2)
  {
    var once := RevokedRecord(v, t1);
    assert once[0..8] == v[0..8] && once[16..24] == v[16..24] && once[24..56] == v[24..56];
  }

  /** Revoking at a time not before authorized_at keeps revoked_at >= authorized_at. */
  lemma RevokeKeepsOrder(v: Bytes, now: Uint64)
    requires |v| >= IssuerRecordLength && FieldAt(v, 0) <= now
    ensures RevocationOrdered(RevokedRecord(v, now))
  {
    RevokeSetsOnlyRevokedAt(v, now);
  }

  /** An issuer record with a zero revoke_all_prior slice keeps it through revoke and reinstate. */
  lemma FlagOnlyCopied(v: Bytes, now: Uint64)
    requires |v| >= IssuerRecordLength && v[16..24] == Itob(0)
    ensures RevokedRecord(v, now)[16..24] == Itob(0)
    ensures ReinstatedRecord(v)[16..24] == Itob(0)
    ensures FieldAt(RevokedRecord(v, now), 16) == 0 && FieldAt(ReinstatedRecord(v), 16) == 0
  {
    var w1, w2 := RevokedRecord(v, now), ReinstatedRecord(v);
    assert w1[16..24] == v[16..24] && w2[16..24] == v[16..24];
    BtoiItob(0);
  }

  /** A value at a 32-byte key long enough to be read as an issuer record. */
  predicate IssuerShaped(boxes: map<Bytes, Bytes>, k: Bytes)
  {
    k in boxes && |k| == AddressLength && |boxes[k]| >= IssuerRecordLength
  }

  /**
   * An issuer record as add, revoke and reinstate leave it: 56 bytes, a
   * zero revoke_all_prior field, and ordered while timestamps have not
   * gone backwards.
   */
  ghost predicate IssuerRecordAt(v: Bytes, inOrder: bool)
  {
    |v| == IssuerRecordLength && v[16..24] == Itob(0) && (inOrder ==> RevocationOrdered(v))
  }

  /**
   * The registry invariant on its store: every value starts with a
   * timestamp no later than `clock`, and every value that can be read as
   * an issuer record is one.
   */
  ghost predicate Consistent(boxes: map<Bytes, Bytes>, clock: nat, inOrder: bool)
  {
    && (forall k {:trigger StampedBy(boxes[k], clock)} :: k in boxes ==> StampedBy(boxes[k], clock))
    && (forall k {:trigger IssuerShaped(boxes, k)} :: IssuerShaped(boxes, k) ==> IssuerRecordAt(boxes[k], inOrder))
  }

  /**
   * Writing a value stamped no later than the new clock keeps the
   * invariant, provided it is an issuer record whenever it can be read as one.
   */
  lemma PutKeepsConsistent(boxes: map<Bytes, Bytes>, clock: nat, inOrder: bool,
                           newClock: nat, newInOrder: bool, k: Bytes, v: Bytes)
    requires Consistent(boxes, clock, inOrder)
    requires clock <= newClock && (newInOrder ==> inOrder)
    requires StampedBy(v, newClock)
    requires |k| == AddressLength && |v| >= IssuerRecordLength ==> IssuerRecordAt(v, newInOrder)
    ensures Consistent(boxes[k := v], newClock, newInOrder)
  {
    var after := boxes[k := v];
    forall j | j in after ensures StampedBy(after[j], newClock) {
      if j != k {
        assert StampedBy(boxes[j], clock);
      }
    }
    forall j | IssuerShaped(after, j) ensures IssuerRecordAt(after[j], newInOrder) {
      if j != k {
        assert IssuerShaped(boxes, j);
      }
    }
  }

  class IssuerRegistry {
    /** IssuerRegistryState.admin, defaulting to the creator address. */
    var admin: Address
    /** IssuerRegistryState.issuer_count, defaulting to 0. */
    var issuerCount: Uint64
    /** The box store, shared by issuer, "meta:" and "cred:" keys. */
    var boxes: map<Bytes, Bytes>

    /** The latest timestamp a successful call has presented. */
    ghost var clock: nat
    /** No successful call so far presented a timestamp earlier than a previous one. */
    ghost var inOrder: bool

    ghost predicate Valid()
      reads this
    {
      Consistent(boxes, clock, inOrder)
    }

    /** Application creation: global state takes its declared defaults. */
    constructor (creator: Address)
      ensures Valid()
      ensures admin == creator && issuerCount == 0 && boxes == map[]
      ensures clock == 0 && inOrder
    {
      admin := creator;
      issuerCount := 0;
      boxes := map[];
      clock := 0;
      inOrder := true;
    }

    /** Ghost bookkeeping of a successful call at time `now`. */
    ghost method Tick(now: Uint64)
      modifies this`clock, this`inOrder
      ensures inOrder == (old(inOrder) && now >= old(clock))
      ensures clock == if now > old(clock) then now else old(clock)
    {
      inOrder := inOrder && now >= clock;
      clock := if now > clock then now else clock;
    }

    method AddIssuer(sender: Address, now: Uint64, issuerAddress: Address, name: Bytes, fullName: Bytes,
                     websiteUrl: Bytes, organizationType: Bytes, jurisdiction: Bytes) returns (ok: bool)
      requires Valid()
      modifies this`boxes, this`issuerCount, this`clock, this`inOrder
      ensures Valid()
      ensures ok <==> sender == admin && old(issuerCount) + 1 < Uint64Bound
      ensures ok ==> boxes == old(boxes)[issuerAddress := NewIssuerRecord(now, sender)]
                                        [MetaKey(issuerAddress) := MetadataRecord(now, name, fullName, websiteUrl, organizationType, jurisdiction).Encode()]
      ensures ok ==> issuerCount == old(issuerCount) + 1
      ensures !ok ==> boxes == old(boxes) && issuerCount == old(issuerCount)
      ensures ok ==> inOrder == (old(inOrder) && now >= old(clock))
      ensures ok ==> clock == if now > old(clock) then now else old(clock)
      ensures !ok ==> inOrder == old(inOrder) && clock == old(clock)
    {
      ok := false;
      if sender != admin || issuerCount + 1 >= Uint64Bound {
        return;
      }
      var metaKey := MetaKey(issuerAddress);
      var meta := MetadataRecord(now, name, fullName, websiteUrl, organizationType, jurisdiction);
      var record := NewIssuerRecord(now, sender);
      IssuerStampsReadable(IssuerRecord(now, 0, 0, sender));
      MetadataStampReadable(meta);
      assert record[16..24] == Itob(0);
      ghost var oldClock, oldInOrder := clock, inOrder;
      Tick(now);
      PutKeepsConsistent(boxes, oldClock, oldInOrder, clock, inOrder, issuerAddress, record);
      PutKeepsConsistent(boxes[issuerAddress := record], clock, inOrder, clock, inOrder, metaKey, meta.Encode());
      boxes := boxes[issuerAddress := record][metaKey := meta.Encode()];
      issuerCount := issuerCount + 1;
      ok := true;
    }

    method RevokeIssuer(sender: Address, now: Uint64, issuerAddress: Address) returns (ok: bool)
      requires Valid()
      modifies this`boxes, this`clock, this`inOrder
      ensures Valid()
      ensures ok <==>
                && sender == admin
                && issuerAddress in old(boxes)
                && |old(boxes)[issuerAddress]| >= IssuerRecordLength
      ensures ok ==> boxes == old(boxes)[issuerAddress := RevokedRecord(old(boxes)[issuerAddress], now)]
      ensures !ok ==> boxes == old(boxes)
      ensures ok ==> inOrder == (old(inOrder) && now >= old(clock))
      ensures ok ==> clock == if now > old(clock) then now else old(clock)
      ensures !ok ==> inOrder == old(inOrder) && clock == old(clock)
    {
      ok := false;
      if sender != admin || issuerAddress !in boxes || |boxes[issuerAddress]| < IssuerRecordLength {
        return;
      }
      var v := boxes[issuerAddress];
      var revoked := RevokedRecord(v, now);
      assert IssuerShaped(boxes, issuerAddress) && StampedBy(v, clock);
      RevokeSetsOnlyRevokedAt(v, now);
      FlagOnlyCopied(v, now);
      ghost var oldClock, oldInOrder := clock, inOrder;
      Tick(now);
      if inOrder {
        RevokeKeepsOrder(v, now);
      }
      assert StampedBy(revoked, clock);
      PutKeepsConsistent(boxes, oldClock, oldInOrder, clock, inOrder, issuerAddress, revoked);
      boxes := boxes[issuerAddress := revoked];
      ok := true;
    }

    /** reinstate_issuer takes no timestamp: it reads no clock. */
    method ReinstateIssuer(sender: Address, issuerAddress: Address) returns (ok: bool)
      requires Valid()
      modifies this`boxes
      ensures Valid()
      ensures ok <==>
                && sender == admin
                && issuerAddress in old(boxes)
                && |old(boxes)[issuerAddress]| >= IssuerRecordLength
      ensures ok ==> boxes == old(boxes)[issuerAddress := ReinstatedRecord(old(boxes)[issuerAddress])]
      ensures !ok ==> boxes == old(boxes)
    {
      ok := false;
      if sender != admin || issuerAddress !in boxes || |boxes[issuerAddress]| < IssuerRecordLength {
        return;
      }
      var v := boxes[issuerAddress];
      var reinstated := ReinstatedRecord(v);
      assert IssuerShaped(boxes, issuerAddress) && StampedBy(v, clock);
      ReinstateClearsOnlyRevokedAt(v);
      FlagOnlyCopied(v, 0);
      assert StampedBy(reinstated, clock);
      PutKeepsConsistent(boxes, clock, inOrder, clock, inOrder, issuerAddress, reinstated);
      boxes := boxes[issuerAddress := reinstated];
      ok := true;
    }

    method RevokeCredential(sender: Address, now: Uint64, credentialId: Bytes, issuerAddress: Address) returns (ok: bool)
      requires Valid()
      modifies this`boxes, this`clock, this`inOrder
      ensures Valid()
      ensures ok <==> sender == admin
      ensures ok ==> boxes == old(boxes)[CredKey(credentialId) := CredentialRecord(now, issuerAddress).Encode()]
      ensures !ok ==> boxes == old(boxes)
      ensures ok ==> inOrder == (old(inOrder) && now >= old(clock))
      ensures ok ==> clock == if now > old(clock) then now else old(clock)
      ensures !ok ==> inOrder == old(inOrder) && clock == old(clock)
    {
      ok := false;
      if sender != admin {
        return;
      }
      var key := CredKey(credentialId);
      var record := CredentialRecord(now, issuerAddress).Encode();
      FieldAtItobPrefix(now, issuerAddress);
      ghost var oldClock, oldInOrder := clock, inOrder;
      Tick(now);
      PutKeepsConsistent(boxes, oldClock, oldInOrder, clock, inOrder, key, record);
      boxes := boxes[key := record];
      ok := true;
    }

    method UpdateMetadata(sender: Address, now: Uint64, issuerAddress: Address, name: Bytes, fullName: Bytes,
                          websiteUrl: Bytes, organizationType: Bytes, jurisdiction: Bytes) returns (ok: bool)
      requires Valid()
      modifies this`boxes, this`clock, this`inOrder
      ensures Valid()
      ensures ok <==> sender == admin
      ensures ok ==> boxes == old(boxes)[MetaKey(issuerAddress) :=
                                         MetadataRecord(now, name, fullName, websiteUrl, organizationType, jurisdiction).Encode()]
      ensures !ok ==> boxes == old(boxes)
      ensures ok ==> inOrder == (old(inOrder) && now >= old(clock))
      ensures ok ==> clock == if now > old(clock) then now else old(clock)
      ensures !ok ==> inOrder == old(inOrder) && clock == old(clock)
    {
      ok := false;
      if sender != admin {
        return;
      }
      var key := MetaKey(issuerAddress);
      var meta := MetadataRecord(now, name, fullName, websiteUrl, organizationType, jurisdiction);
      MetadataStampReadable(meta);
      ghost var oldClock, oldInOrder := clock, inOrder;
      Tick(now);
      PutKeepsConsistent(boxes, oldClock, oldInOrder, clock, inOrder, key, meta.Encode());
      boxes := boxes[key := meta.Encode()];
      ok := true;
    }

    /**
     * query_issuer: the stored bytes, or the empty string when there is no
     * box. Stored values are never empty, so the empty answer means absent.
     * A record read back always has a zero revoke_all_prior field.
     */
    method QueryIssuer(issuerAddress: Address) returns (r: Bytes)
      requires Valid()
      ensures issuerAddress in boxes ==> r == boxes[issuerAddress]
      ensures r == [] <==> issuerAddress !in boxes
      ensures |r| >= IssuerRecordLength ==> r[16..24] == Itob(0)
    {
      if issuerAddress in boxes {
        r := boxes[issuerAddress];
        assert StampedBy(r, clock);
        if |r| >= IssuerRecordLength {
          assert IssuerShaped(boxes, issuerAddress);
        }
      } else {
        r := [];
      }
    }

    /** query_credential: the stored credential record, or the empty string. */
    method QueryCredential(credentialId: Bytes) returns (r: Bytes)
      requires Valid()
      ensures CredKey(credentialId) in boxes ==> r == boxes[CredKey(credentialId)]
      ensures r == [] <==> CredKey(credentialId) !in boxes
    {
      var key := CredKey(credentialId);
      if key in boxes {
        r := boxes[key];
        assert StampedBy(r, clock);
      } else {
        r := [];
      }
    }

    /** query_metadata: the stored metadata record, or the empty string. */
    method QueryMetadata(issuerAddress: Address) returns (r: Bytes)
      requires Valid()
      ensures MetaKey(issuerAddress) in boxes ==> r == boxes[MetaKey(issuerAddress)]
      ensures r == [] <==> MetaKey(issuerAddress) !in boxes
    {
      var key := MetaKey(issuerAddress);
      if key in boxes {
        r := boxes[key];
        assert StampedBy(r, clock);
      } else {
        r := [];
      }
    }
  }
}
