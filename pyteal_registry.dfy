/*
 * The PyTeal issuer registry (app/contracts/issuer-registry.py): metadata
 * validation, vouching by the admin or an active issuer, add-once issuers,
 * revocation with a caller-supplied revoke_all_prior value, and
 * reinstatement that restarts authorized_at. Queries reject when the box
 * is absent.
 *
 * A call that fails an Assert, or that makes the program fail (Extract or
 * Substring past the end of a value, btoi of more than 8 bytes, uint64
 * overflow), is rejected as a whole: the method returns false and nothing
 * changes.
 */
module PyTealRegistry {
  import opened Codec

  /** "http://" */
  const HttpPrefix: Bytes := [104, 116, 116, 112, 58, 47, 47]
  /** "https://" */
  const HttpsPrefix: Bytes := [104, 116, 116, 112, 115, 58, 47, 47]

  /** validate_name: the name's byte length is within [3, 64]. */
  predicate ValidName(name: Bytes)
  {
    3 <= |name| <= 64
  }

  /** TEAL `substring`: fails when the range runs past the end of `s`. */
  function Substring(s: Bytes, start: nat, end: nat): Option<Bytes>
  {
    if start <= end <= |s| then Some(s[start..end]) else None
  }

  /**
   * validate_url. Both prefix tests are evaluated, so a URL shorter than
   * 8 bytes makes the program fail (None) rather than return false.
   */
  function ValidateUrl(url: Bytes): (r: Option<bool>)
    ensures r.None? <==> |url| < 8
    ensures r == Some(true) <==>
              && 10 <= |url| <= 256
              && (url[..7] == HttpPrefix || url[..8] == HttpsPrefix)
  {
    var http := Substring(url, 0, 7);
    var https := Substring(url, 0, 8);
    if http.None? || https.None? then None
    else Some((http.value == HttpPrefix || https.value == HttpsPrefix) && 10 <= |url| && |url| <= 256)
  }

  /**
   * is_active_issuer: false when no box exists at `address`; otherwise
   * whether bytes 8..16 (revoked_at) are zero. Reading them fails the
   * program (None) when the stored value is shorter than 16 bytes.
   */
  function IsActiveIssuer(boxes: map<Bytes, Bytes>, address: Bytes): (r: Option<bool>)
    ensures r.None? <==> address in boxes && |boxes[address]| < 16
    ensures address !in boxes ==> r == Some(false)
  {
    if address !in boxes then Some(false)
    else if |boxes[address]| < 16 then None
    else Some(FieldAt(boxes[address], 8) == 0)
  }

  /** For a box holding a full issuer record, is_active_issuer answers the decoded record's IsActive. */
  lemma ActiveMatchesDecoded(boxes: map<Bytes, Bytes>, address: Bytes)
    requires address in boxes && |boxes[address]| >= IssuerRecordLength
    ensures IsActiveIssuer(boxes, address) == Some(DecodeIssuer(boxes[address]).value.IsActive())
  {
  }

  /** On a stored issuer record, is_active_issuer answers whether its revoked_at is 0. */
  lemma ActiveIffNotRevoked(boxes: map<Bytes, Bytes>, address: Bytes, r: IssuerRecord)
    requires address in boxes && boxes[address] == r.Encode()
    ensures IsActiveIssuer(boxes, address) == Some(r.revokedAt == 0)
  {
    DecodeEncodeIssuer(r);
    ActiveMatchesDecoded(boxes, address);
  }

  /** A box whose revoked_at bytes are zero makes is_active_issuer true, whatever else it holds. */
  lemma ZeroRevokedAtIsActive(boxes: map<Bytes, Bytes>, address: Bytes)
    requires address in boxes && |boxes[address]| >= 16 && boxes[address][8..16] == Itob(0)
    ensures IsActiveIssuer(boxes, address) == Some(true)
  {
    BtoiItob(0);
  }

  /** Value written back by revoke_issuer: bytes 0..8 and 24..56 of the old value kept. */
  function RevokedRecord(v: Bytes, now: Uint64, revokeAllPrior: Uint64): (w: Bytes)
    requires |v| >= IssuerRecordLength
    ensures |w| == IssuerRecordLength
  {
    v[0..8] + Itob(now) + Itob(revokeAllPrior) + v[24..56]
  }

  /** Value written back by reinstate_issuer: only bytes 24..56 (vouched_by) kept. */
  function ReinstatedRecord(v: Bytes, now: Uint64): (w: Bytes)
    requires |v| >= IssuerRecordLength
    ensures |w| == IssuerRecordLength
  {
    Itob(now) + Itob(0) + Itob(0) + v[24..56]
  }

  /** Revocation keeps authorized_at and vouched_by, and sets revoked_at and the flag. */
  lemma RevokeRewritesFields(v: Bytes, now: Uint64, revokeAllPrior: Uint64)
    requires |v| >= IssuerRecordLength
    ensures RevokedRecord(v, now, revokeAllPrior)[0..8] == v[0..8]
    ensures RevokedRecord(v, now, revokeAllPrior)[24..56] == v[24..56]
    ensures DecodeIssuer(RevokedRecord(v, now, revokeAllPrior))
         == Some(DecodeIssuer(v).value.(revokedAt := now, revokeAllPrior := revokeAllPrior))
  {
    var w := RevokedRecord(v, now, revokeAllPrior);
    var old_ := DecodeIssuer(v).value;
    assert w[0..8] == v[0..8] && w[8..16] == Itob(now) && w[16..24] == Itob(revokeAllPrior);
    assert w[24..56] == v[24..56];
    BtoiItob(now);
    BtoiItob(revokeAllPrior);
    assert w == old_.(revokedAt := now, revokeAllPrior := revokeAllPrior).Encode() by {
      ItobBtoi(v[0..8]);
    }
    DecodeEncodeIssuer(old_.(revokedAt := now, revokeAllPrior := revokeAllPrior));
  }

  /**
   * The flag argument is stored as Itob(Btoi(arg)): an 8-byte argument is
   * stored verbatim, so any value, not just 0 or 1, can end up in the record.
   */
  lemma RevokeFlagNotClamped(v: Bytes, now: Uint64, arg: Bytes)
    requires |v| >= IssuerRecordLength && |arg| == 8
    ensures RevokedRecord(v, now, Btoi(arg))[16..24] == arg
  {
    ItobBtoi(arg);
  }

  /** Reinstatement resets authorized_at to now and clears revoked_at and the flag. */
  lemma ReinstateRewritesFields(v: Bytes, now: Uint64)
    requires |v| >= IssuerRecordLength
    ensures ReinstatedRecord(v, now)[24..56] == v[24..56]
    ensures DecodeIssuer(ReinstatedRecord(v, now))
         == Some(DecodeIssuer(v).value.(authorizedAt := now, revokedAt := 0, revokeAllPrior := 0))
  {
    DecodeEncodeIssuer(IssuerRecord(now, 0, 0, v[24..56]));
  }

  /** After reinstate_issuer rewrites the box, is_active_issuer holds for that address. */
  lemma ReinstatedIsActive(boxes: map<Bytes, Bytes>, address: Bytes, now: Uint64)
    requires address in boxes && |boxes[address]| >= IssuerRecordLength
    ensures IsActiveIssuer(boxes[address := ReinstatedRecord(boxes[address], now)], address) == Some(true)
  {
    var w := ReinstatedRecord(boxes[address], now);
    assert w[8..16] == Itob(0);
    ZeroRevokedAtIsActive(boxes[address := w], address);
  }

  /** Revoking an encoded record gives the encoding of the record with the new revoked_at and flag. */
  lemma RevokeEncoded(r: IssuerRecord, now: Uint64, revokeAllPrior: Uint64)
    ensures RevokedRecord(r.Encode(), now, revokeAllPrior) == r.(revokedAt := now, revokeAllPrior := revokeAllPrior).Encode()
  {
    var v := r.Encode();
    assert v[0..8] == Itob(r.authorizedAt) && v[24..56] == r.vouchedBy;
  }

  /** Reinstating an encoded record gives the encoding of the record authorized anew at `now`. */
  lemma ReinstateEncoded(r: IssuerRecord, now: Uint64)
    ensures ReinstatedRecord(r.Encode(), now) == r.(authorizedAt := now, revokedAt := 0, revokeAllPrior := 0).Encode()
  {
    var v := r.Encode();
    assert v[24..56] == r.vouchedBy;
  }

  /** Revoking at a time not before authorized_at keeps revoked_at >= authorized_at. */
  lemma RevokeKeepsOrder(v: Bytes, now: Uint64, revokeAllPrior: Uint64)
    requires |v| >= IssuerRecordLength && FieldAt(v, 0) <= now
    ensures RevocationOrdered(RevokedRecord(v, now, revokeAllPrior))
  {
    RevokeRewritesFields(v, now, revokeAllPrior);
  }

  /**
   * The ordering is not strict: revoking in the same second as the add
   * gives revoked_at == authorized_at.
   */
  lemma SameInstantRevokeTies(now: Uint64, sender: Address, revokeAllPrior: Uint64)
    requires now > 0
    ensures var w := RevokedRecord(NewIssuerRecord(now, sender), now, revokeAllPrior);
            FieldAt(w, 8) == FieldAt(w, 0) == now
  {
    var v := NewIssuerRecord(now, sender);
    RevokeRewritesFields(v, now, revokeAllPrior);
    DecodeEncodeIssuer(IssuerRecord(now, 0, 0, sender));
  }

  /**
   * The shared namespace: a credential record whose key is a 32-byte
   * address makes that address an active issuer for vouching when the
   * first 8 bytes of the recorded issuer address are zero.
   */
  lemma CredentialBoxCanVouch(boxes: map<Bytes, Bytes>, credentialId: Bytes, now: Uint64, issuerAddress: Bytes)
    requires |credentialId| == 27 && |issuerAddress| >= 8 && issuerAddress[..8] == Itob(0)
    ensures var key := CredKey(credentialId);
            |key| == AddressLength
            && IsActiveIssuer(boxes[key := CredentialRecord(now, issuerAddress).Encode()], key) == Some(true)
  {
    var w := CredentialRecord(now, issuerAddress).Encode();
    assert w[8..16] == issuerAddress[..8];
    BtoiItob(0);
  }

  /** An issuer record at `k`: 56 bytes, and ordered while timestamps have not gone backwards. */
  ghost predicate IssuerRecordAt(boxes: map<Bytes, Bytes>, k: Bytes, inOrder: bool)
    requires k in boxes
  {
    |boxes[k]| == IssuerRecordLength && (inOrder ==> RevocationOrdered(boxes[k]))
  }

  /**
   * The registry invariant on its store: every value starts with a
   * timestamp no later than `clock`, and every key in `issuerKeys` holds
   * an issuer record.
   */
  ghost predicate Consistent(boxes: map<Bytes, Bytes>, clock: nat, inOrder: bool, issuerKeys: set<Bytes>)
  {
    && issuerKeys <= boxes.Keys
    && (forall k {:trigger StampedBy(boxes[k], clock)} :: k in boxes ==> StampedBy(boxes[k], clock))
    && (forall k {:trigger IssuerRecordAt(boxes, k, inOrder)} :: k in issuerKeys ==> IssuerRecordAt(boxes, k, inOrder))
  }

  /**
   * Writing an issuer record stamped no later than the new clock keeps the
   * invariant, and its key joins the issuer keys.
   */
  lemma PutIssuerRecordKeepsConsistent(boxes: map<Bytes, Bytes>, clock: nat, inOrder: bool, issuerKeys: set<Bytes>,
                                       newClock: nat, newInOrder: bool, k: Bytes, v: Bytes)
    requires Consistent(boxes, clock, inOrder, issuerKeys)
    requires clock <= newClock && (newInOrder ==> inOrder)
    requires StampedBy(v, newClock) && |v| == IssuerRecordLength && (newInOrder ==> RevocationOrdered(v))
    ensures Consistent(boxes[k := v], newClock, newInOrder, issuerKeys + {k})
  {
    var after := boxes[k := v];
    forall j | j in after ensures StampedBy(after[j], newClock) {
      if j != k {
        assert StampedBy(boxes[j], clock);
      }
    }
    forall j | j in issuerKeys + {k} ensures IssuerRecordAt(after, j, newInOrder) {
      if j != k {
        assert IssuerRecordAt(boxes, j, inOrder);
      }
    }
  }

  /** The two writes of add_issuer, at time `now`, keep the invariant. */
  lemma AddKeepsConsistent(boxes: map<Bytes, Bytes>, clock: nat, inOrder: bool, issuerKeys: set<Bytes>,
                           now: Uint64, sender: Address, k: Bytes, meta: MetadataRecord)
    requires Consistent(boxes, clock, inOrder, issuerKeys)
    requires meta.updatedAt == now
    ensures var newClock := if now > clock then now else clock;
            Consistent(boxes[k := NewIssuerRecord(now, sender)][MetaKey(k) := meta.Encode()],
                       newClock, inOrder && now >= clock, (issuerKeys + {k}) - {MetaKey(k)})
  {
    var newClock := if now > clock then now else clock;
    var record := NewIssuerRecord(now, sender);
    IssuerStampsReadable(IssuerRecord(now, 0, 0, sender));
    MetadataStampReadable(meta);
    PutIssuerRecordKeepsConsistent(boxes, clock, inOrder, issuerKeys, newClock, inOrder && now >= clock, k, record);
    PutOtherKeepsConsistent(boxes[k := record], newClock, inOrder && now >= clock, issuerKeys + {k},
                            newClock, inOrder && now >= clock, MetaKey(k), meta.Encode());
  }

  /**
   * Writing any other value stamped no later than the new clock keeps the
   * invariant, and its key stops being an issuer key.
   */
  lemma PutOtherKeepsConsistent(boxes: map<Bytes, Bytes>, clock: nat, inOrder: bool, issuerKeys: set<Bytes>,
                                newClock: nat, newInOrder: bool, k: Bytes, v: Bytes)
    requires Consistent(boxes, clock, inOrder, issuerKeys)
    requires clock <= newClock && (newInOrder ==> inOrder)
    requires StampedBy(v, newClock)
    ensures Consistent(boxes[k := v], newClock, newInOrder, issuerKeys - {k})
  {
    var after := boxes[k := v];
    forall j | j in after ensures StampedBy(after[j], newClock) {
      if j != k {
        assert StampedBy(boxes[j], clock);
      }
    }
    forall j | j in issuerKeys - {k} ensures IssuerRecordAt(after, j, newInOrder) {
      assert IssuerRecordAt(boxes, j, inOrder);
    }
  }

  class IssuerRegistry {
    /** Global state "admin": the creator, never rewritten. */
    var admin: Address
    /** Global state "issuer_count". */
    var issuerCount: Uint64
    /** The box store, shared by issuer, "meta:" and "cred:" keys. */
    var boxes: map<Bytes, Bytes>

    /** The latest timestamp a successful call has presented. */
    ghost var clock: nat
    /** No successful call so far presented a timestamp earlier than a previous one. */
    ghost var inOrder: bool
    /** Keys whose value was last written by add, revoke or reinstate. */
    ghost var issuerKeys: set<Bytes>

    ghost predicate Valid()
      reads this
    {
      Consistent(boxes, clock, inOrder, issuerKeys)
    }

    /** on_create: the sender becomes admin and issuer_count starts at 0. */
    constructor (creator: Address)
      ensures Valid()
      ensures admin == creator && issuerCount == 0 && boxes == map[]
      ensures clock == 0 && inOrder && issuerKeys == {}
    {
      admin := creator;
      issuerCount := 0;
      boxes := map[];
      clock := 0;
      inOrder := true;
      issuerKeys := {};
    }

    /** Ghost bookkeeping of a successful call at time `now`. */
    ghost method Tick(now: Uint64)
      modifies this`clock, this`inOrder
      ensures inOrder == (old(inOrder) && now >= old(clock))
      ensures clock == if now > old(clock) then now else old(clock)
    {
      inOrder := inOrder && now >= clock;
      clock := if now > clock then now else clock;
    }

    method AddIssuer(sender: Address, now: Uint64, issuerAddress: Bytes, name: Bytes, fullName: Bytes,
                     websiteUrl: Bytes, organizationType: Bytes, jurisdiction: Bytes) returns (ok: bool)
      requires Valid()
      modifies this`boxes, this`issuerCount, this`clock, this`inOrder, this`issuerKeys
      ensures Valid()
      ensures ok <==>
                && ValidName(name)
                && ValidateUrl(websiteUrl) == Some(true)
                && IsActiveIssuer(old(boxes), sender).Some?
                && (sender == admin || IsActiveIssuer(old(boxes), sender) == Some(true))
                && issuerAddress !in old(boxes)
                && old(issuerCount) + 1 < Uint64Bound
      ensures ok ==> boxes == old(boxes)[issuerAddress := NewIssuerRecord(now, sender)]
                                        [MetaKey(issuerAddress) := MetadataRecord(now, name, fullName, websiteUrl, organizationType, jurisdiction).Encode()]
      ensures ok ==> issuerCount == old(issuerCount) + 1
      ensures !ok ==> boxes == old(boxes) && issuerCount == old(issuerCount)
      ensures ok ==> inOrder == (old(inOrder) && now >= old(clock))
      ensures ok ==> clock == if now > old(clock) then now else old(clock)
      ensures ok ==> issuerKeys == (old(issuerKeys) + {issuerAddress}) - {MetaKey(issuerAddress)}
      ensures !ok ==> inOrder == old(inOrder) && clock == old(clock) && issuerKeys == old(issuerKeys)
    {
      ok := false;
      if !ValidName(name) || ValidateUrl(websiteUrl) != Some(true) {
        return;
      }
      var active := IsActiveIssuer(boxes, sender);
      if active.None? || !(sender == admin || active.value) {
        return;
      }
      if issuerAddress in boxes || issuerCount + 1 >= Uint64Bound {
        return;
      }
      var record := NewIssuerRecord(now, sender);
      var meta := MetadataRecord(now, name, fullName, websiteUrl, organizationType, jurisdiction);
      var metaKey := MetaKey(issuerAddress);
      AddKeepsConsistent(boxes, clock, inOrder, issuerKeys, now, sender, issuerAddress, meta);
      Tick(now);
      boxes := boxes[issuerAddress := record][metaKey := meta.Encode()];
      issuerCount := issuerCount + 1;
      issuerKeys := (issuerKeys + {issuerAddress}) - {metaKey};
      ok := true;
    }

    method RevokeIssuer(sender: Address, now: Uint64, issuerAddress: Bytes, revokeAllPrior: Bytes) returns (ok: bool)
      requires Valid()
      modifies this`boxes, this`clock, this`inOrder, this`issuerKeys
      ensures Valid()
      ensures ok <==>
                && sender == admin
                && issuerAddress in old(boxes)
                && |old(boxes)[issuerAddress]| >= IssuerRecordLength
                && |revokeAllPrior| <= 8
      ensures ok ==> boxes == old(boxes)[issuerAddress := RevokedRecord(old(boxes)[issuerAddress], now, Btoi(revokeAllPrior))]
      ensures !ok ==> boxes == old(boxes)
      ensures ok ==> inOrder == (old(inOrder) && now >= old(clock))
      ensures ok ==> clock == if now > old(clock) then now else old(clock)
      ensures ok ==> issuerKeys == old(issuerKeys) + {issuerAddress}
      ensures !ok ==> inOrder == old(inOrder) && clock == old(clock) && issuerKeys == old(issuerKeys)
    {
      ok := false;
      if sender != admin || issuerAddress !in boxes || |boxes[issuerAddress]| < IssuerRecordLength
         || |revokeAllPrior| > 8 {
        return;
      }
      var v := boxes[issuerAddress];
      var flag := Btoi(revokeAllPrior);
      var revoked := RevokedRecord(v, now, flag);
      RevokeRewritesFields(v, now, flag);
      assert StampedBy(v, clock);
      ghost var oldClock, oldInOrder := clock, inOrder;
      Tick(now);
      if inOrder {
        RevokeKeepsOrder(v, now, flag);
      }
      assert StampedBy(revoked, clock);
      PutIssuerRecordKeepsConsistent(boxes, oldClock, oldInOrder, issuerKeys, clock, inOrder, issuerAddress, revoked);
      boxes := boxes[issuerAddress := revoked];
      issuerKeys := issuerKeys + {issuerAddress};
      ok := true;
    }

    method ReinstateIssuer(sender: Address, now: Uint64, issuerAddress: Bytes) returns (ok: bool)
      requires Valid()
      modifies this`boxes, this`clock, this`inOrder, this`issuerKeys
      ensures Valid()
      ensures ok <==>
                && sender == admin
                && issuerAddress in old(boxes)
                && |old(boxes)[issuerAddress]| >= IssuerRecordLength
      ensures ok ==> boxes == old(boxes)[issuerAddress := ReinstatedRecord(old(boxes)[issuerAddress], now)]
      ensures ok ==> boxes[issuerAddress][8..16] == Itob(0)
      ensures !ok ==> boxes == old(boxes)
      ensures ok ==> inOrder == (old(inOrder) && now >= old(clock))
      ensures ok ==> clock == if now > old(clock) then now else old(clock)
      ensures ok ==> issuerKeys == old(issuerKeys) + {issuerAddress}
      ensures !ok ==> inOrder == old(inOrder) && clock == old(clock) && issuerKeys == old(issuerKeys)
    {
      ok := false;
      if sender != admin || issuerAddress !in boxes || |boxes[issuerAddress]| < IssuerRecordLength {
        return;
      }
      var v := boxes[issuerAddress];
      var reinstated := ReinstatedRecord(v, now);
      ReinstateRewritesFields(v, now);
      assert reinstated[8..16] == Itob(0);
      ghost var oldClock, oldInOrder := clock, inOrder;
      Tick(now);
      assert StampedBy(reinstated, clock);
      PutIssuerRecordKeepsConsistent(boxes, oldClock, oldInOrder, issuerKeys, clock, inOrder, issuerAddress, reinstated);
      boxes := boxes[issuerAddress := reinstated];
      issuerKeys := issuerKeys + {issuerAddress};
      ok := true;
    }

    method RevokeCredential(sender: Address, now: Uint64, credentialId: Bytes, issuerAddress: Bytes) returns (ok: bool)
      requires Valid()
      modifies this`boxes, this`clock, this`inOrder, this`issuerKeys
      ensures Valid()
      ensures ok <==> sender == admin
      ensures ok ==> boxes == old(boxes)[CredKey(credentialId) := CredentialRecord(now, issuerAddress).Encode()]
      ensures !ok ==> boxes == old(boxes)
      ensures ok ==> inOrder == (old(inOrder) && now >= old(clock))
      ensures ok ==> clock == if now > old(clock) then now else old(clock)
      ensures ok ==> issuerKeys == old(issuerKeys) - {CredKey(credentialId)}
      ensures !ok ==> inOrder == old(inOrder) && clock == old(clock) && issuerKeys == old(issuerKeys)
    {
      ok := false;
      if sender != admin {
        return;
      }
      var key := CredKey(credentialId);
      var record := CredentialRecord(now, issuerAddress).Encode();
      FieldAtItobPrefix(now, issuerAddress);
      ghost var oldClock, oldInOrder := clock, inOrder;
      Tick(now);
      PutOtherKeepsConsistent(boxes, oldClock, oldInOrder, issuerKeys, clock, inOrder, key, record);
      boxes := boxes[key := record];
      issuerKeys := issuerKeys - {key};
      ok := true;
    }

    method UpdateMetadata(sender: Address, now: Uint64, issuerAddress: Bytes, name: Bytes, fullName: Bytes,
                          websiteUrl: Bytes, organizationType: Bytes, jurisdiction: Bytes) returns (ok: bool)
      requires Valid()
      modifies this`boxes, this`clock, this`inOrder, this`issuerKeys
      ensures Valid()
      ensures ok <==>
                && sender == admin
                && ValidName(name)
                && ValidateUrl(websiteUrl) == Some(true)
                && issuerAddress in old(boxes)
      ensures ok ==> boxes == old(boxes)[MetaKey(issuerAddress) :=
                                         MetadataRecord(now, name, fullName, websiteUrl, organizationType, jurisdiction).Encode()]
      ensures !ok ==> boxes == old(boxes)
      ensures ok ==> inOrder == (old(inOrder) && now >= old(clock))
      ensures ok ==> clock == if now > old(clock) then now else old(clock)
      ensures ok ==> issuerKeys == old(issuerKeys) - {MetaKey(issuerAddress)}
      ensures !ok ==> inOrder == old(inOrder) && clock == old(clock) && issuerKeys == old(issuerKeys)
    {
      ok := false;
      if sender != admin || !ValidName(name) || ValidateUrl(websiteUrl) != Some(true) || issuerAddress !in boxes {
        return;
      }
      var key := MetaKey(issuerAddress);
      var meta := MetadataRecord(now, name, fullName, websiteUrl, organizationType, jurisdiction);
      MetadataStampReadable(meta);
      ghost var oldClock, oldInOrder := clock, inOrder;
      Tick(now);
      PutOtherKeepsConsistent(boxes, oldClock, oldInOrder, issuerKeys, clock, inOrder, key, meta.Encode());
      boxes := boxes[key := meta.Encode()];
      issuerKeys := issuerKeys - {key};
      ok := true;
    }

    /** query_issuer: the stored bytes, or a rejection (None) when there is no box. */
    method QueryIssuer(issuerAddress: Bytes) returns (r: Option<Bytes>)
      ensures r.Some? <==> issuerAddress in boxes
      ensures r.Some? ==> r.value == boxes[issuerAddress]
    {
      r := if issuerAddress in boxes then Some(boxes[issuerAddress]) else None;
    }

    /** query_credential: the stored credential record, or a rejection. */
    method QueryCredential(credentialId: Bytes) returns (r: Option<Bytes>)
      ensures r.Some? <==> CredKey(credentialId) in boxes
      ensures r.Some? ==> r.value == boxes[CredKey(credentialId)]
    {
      var key := CredKey(credentialId);
      r := if key in boxes then Some(boxes[key]) else None;
    }

    /** query_metadata: the stored metadata record, or a rejection. */
    method QueryMetadata(issuerAddress: Bytes) returns (r: Option<Bytes>)
      ensures r.Some? <==> MetaKey(issuerAddress) in boxes
      ensures r.Some? ==> r.value == boxes[MetaKey(issuerAddress)]
    {
      var key := MetaKey(issuerAddress);
      r := if key in boxes then Some(boxes[key]) else None;
    }
  }
}
