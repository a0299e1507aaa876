# Credential-issuer registry, modelled in Dafny

The registry is an Algorand application that records which parties may
issue verifiable credentials. Its state is an `admin` address, an
`issuer_count` and one byte-keyed box store that holds three kinds of
record under one key convention:

- the raw issuer address holds the 56-byte issuer record
  `authorized_at (8) ++ revoked_at (8) ++ revoke_all_prior (8) ++ vouched_by (32)`;
- `"meta:" ++ address` holds `updated_at (8) ++ name ++ full_name ++ url ++ organization_type ++ jurisdiction`;
- `"cred:" ++ credential_id` holds `revoked_at (8) ++ issuer_address`.

Two implementations with different behaviour exist, and the model keeps
them apart:

- `PyTealRegistry.IssuerRegistry` models `app/contracts/issuer-registry.py`.
  It validates names and URLs. The admin or any active issuer may add
  (vouching). An add on an existing address is refused. Revoke stores a
  caller-chosen `revoke_all_prior` value. Reinstate restarts
  `authorized_at`. Updating metadata needs an existing issuer. Queries
  reject when the box is absent.
- `BeakerRegistry.IssuerRegistry` models the Beaker contract. The same
  code appears three times: `algokit-project/smart_contracts/issuer_registry/contract.py`,
  `issuer_registry/contract_orig.py` (identical to it, same line numbers)
  and `app/contracts/issuer-registry-beaker.py` (module-level `app.state`,
  each external about 6 lines earlier). Only the admin may add. Add does
  no existence or format check. Revoke and reinstate rewrite only
  `revoked_at`. Metadata can be written for any address. Queries answer
  with the empty string when the box is absent.

Both classes share the `Codec` module. It holds TEAL's `itob`/`btoi`
(8-byte big-endian), the record layouts with decoders and round-trip
lemmas, and the key constructors.

Modelling conventions:

- Bytes are integers 0..255 and timestamps are `Uint64`.
- `Txn.sender()` and `Global.latest_timestamp()` become the parameters
  `sender` and `now`.
- A failed `Assert` rejects the whole call, and so does a program failure:
  `Extract` or `Substring` past the end of a value, `btoi` of more than 8
  bytes, or `issuer_count + 1` overflowing 64 bits. Each mutating method
  returns `ok` and, when it is false, leaves every field unchanged.
- Every mutator states its exact new store as an update of the old map.
  Its `modifies` clause names the fields it may touch. Only `AddIssuer`
  may change `issuerCount`, and no method changes `admin`.

Ghost state carries the invariants:

- `clock` is the latest timestamp seen.
- `inOrder` says that no call so far went back in time.
- `issuerKeys` (PyTeal only) lists the keys whose value was last written
  as an issuer record.

`Valid()` is the module-level predicate `Consistent` applied to the
store and the ghost fields. It says three things. Every box starts with a
timestamp no later than `clock`. Every issuer record is 56 bytes. While
timestamps have never gone backwards, every issuer record has
`revoked_at == 0 || revoked_at >= authorized_at`. The Beaker `Valid()`
also says that the `revoke_all_prior` slice of every issuer record is
zero. Each mutator states how `clock`, `inOrder` and `issuerKeys` move,
so a caller can read the ordering off `Valid()` after any call sequence
whose timestamps never decrease.

`Scenarios` states call sequences on new registries whose outcomes are
proved from the contracts alone. The sequences follow the behaviour the
contracts promise: add then revoke, a refused short name, a refused
second add, vouching and its end at revocation, reinstatement, the
ordering while time moves forward and its loss when it does not,
non-admin refusal, credential overwrite, and the Beaker round trips.

Where the documented behaviour and the code differ, the model follows the code:

- The documented ordering is `revoked_at > authorized_at`. The code gives
  `revoked_at >= authorized_at`, not the strict order. A revoke in the same second as the add gives equality
  (`PyTealRegistry.SameInstantRevokeTies`). A revoke at time 0 writes
  `revoked_at = 0`, which reads as active.
- `revoke_all_prior` is not a 0/1 boolean in the PyTeal variant. It is
  `Itob(Btoi(arg))`, so any 64-bit value can be stored
  (`PyTealRegistry.RevokeFlagNotClamped`).
- The Beaker reinstate keeps `revoke_all_prior` and `authorized_at`. It
  clears only `revoked_at`.
- There is no error taxonomy. Every failure is a plain rejection.
- PyTeal queries reject on absence rather than returning "not found".
- The three namespaces are not disjoint.
  - A `"cred:"` key built from a 27-byte id is a 32-byte address
    (`PyTealRegistry.CredentialBoxCanVouch`).
  - In the PyTeal variant, issuer addresses are arbitrary bytes, so a
    metadata or credential write can land on an issuer key. `issuerKeys`
    tracks exactly which keys still hold issuer records.

## Model

| member | source | states |
|---|---|---|
| `Codec.BtoiItob` | app/contracts/issuer-registry.py:132 | `btoi` of an `itob`-encoded timestamp gives it back, for every 64-bit value |
| `Codec.ItobBtoi` | app/contracts/issuer-registry.py:248 | every 8-byte string is the `itob` of the integer `btoi` reads from it |
| `Codec.ItobInjective` | app/contracts/issuer-registry.py:186-188 | two timestamps are stored as the same 8 bytes exactly when they are equal |
| `Codec.DecodeEncodeIssuer` | app/contracts/issuer-registry.py:183-190 | reading the four fixed-offset slices of an encoded issuer record gives back its four fields |
| `Codec.IssuerStampsReadable` | app/contracts/issuer-registry.py:183-190 | `authorized_at` and `revoked_at` read back from an encoded issuer record as the values written |
| `Codec.EncodeDecodeIssuer` | app/contracts/issuer-registry.py:245-250 | every 56-byte value is the encoding of the record its slices decode to |
| `Codec.DecodeEncodeCredential` | app/contracts/issuer-registry.py:286-290 | a credential record reads back as its revocation time and issuer address |
| `Codec.EncodeDecodeCredential` | app/contracts/issuer-registry.py:286-290 | every value of at least 8 bytes is the encoding of the credential record it decodes to |
| `Codec.MetadataStampReadable` | app/contracts/issuer-registry.py:195-203 | the first 8 bytes of a metadata value decode to its `updated_at` |
| `Codec.MetadataEncodingAmbiguous` | app/contracts/issuer-registry.py:196-203 | two different metadata records can have identical stored bytes, because the text fields have no delimiters |
| `Codec.MetaKeyInjective` | app/contracts/issuer-registry.py:193 | distinct addresses have distinct `"meta:"` keys |
| `Codec.CredKeyInjective` | app/contracts/issuer-registry.py:284 | distinct credential ids have distinct `"cred:"` keys |
| `Codec.MetaCredDisjoint` | app/contracts/issuer-registry.py:193 | a `"meta:"` key never equals a `"cred:"` key |
| `Codec.MetaKeyNotIssuerKey` | app/contracts/issuer-registry.py:181-193 | an address's metadata key is never the address itself, so add's two writes never clash |
| `PyTealRegistry.ValidName` | app/contracts/issuer-registry.py:138-147 | accepts exactly names whose byte length is 3..64 |
| `PyTealRegistry.ValidateUrl` | app/contracts/issuer-registry.py:150-167 | accepts exactly URLs of length 10..256 that start with `http://` or `https://`; fails outright on fewer than 8 bytes, so anything shorter than 10 is never accepted |
| `PyTealRegistry.IsActiveIssuer` | app/contracts/issuer-registry.py:123-135 | false when no box exists; for a box holding an issuer record, whether its `revoked_at` is 0; fails when the box is shorter than 16 bytes |
| `PyTealRegistry.ActiveMatchesDecoded` | app/contracts/issuer-registry.py:123-135 | on a box of at least 56 bytes, `is_active_issuer` agrees with the decoded record's `revoked_at == 0` |
| `PyTealRegistry.ActiveIffNotRevoked` | app/contracts/issuer-registry.py:123-135 | on a box holding an encoded issuer record, `is_active_issuer` is true exactly when that record's `revoked_at` is 0 |
| `PyTealRegistry.ZeroRevokedAtIsActive` | app/contracts/issuer-registry.py:123-135 | any box of at least 16 bytes whose bytes 8..16 are `itob(0)` reads as active, whatever the rest holds |
| `PyTealRegistry.RevokeRewritesFields` | app/contracts/issuer-registry.py:245-250 | revoke keeps bytes 0..8 and 24..56, and the record now has `revoked_at = now` and the given flag |
| `PyTealRegistry.RevokeFlagNotClamped` | app/contracts/issuer-registry.py:235-248 | an 8-byte flag argument is stored verbatim, so the flag is not limited to 0 or 1 |
| `PyTealRegistry.ReinstateRewritesFields` | app/contracts/issuer-registry.py:266-272 | reinstate sets `authorized_at = now`, `revoked_at = 0` and flag 0, and keeps `vouched_by` (bytes 24..56) |
| `PyTealRegistry.ReinstatedIsActive` | app/contracts/issuer-registry.py:262-273 | after reinstate rewrites an address's box, `is_active_issuer` holds for that address |
| `PyTealRegistry.RevokeEncoded` | app/contracts/issuer-registry.py:245-250 | revoking an encoded record gives the encoding of the same record with the new `revoked_at` and flag |
| `PyTealRegistry.ReinstateEncoded` | app/contracts/issuer-registry.py:266-272 | reinstating an encoded record gives the encoding of the record authorized anew at `now`, not revoked, flag 0, same voucher |
| `PyTealRegistry.RevokeKeepsOrder` | app/contracts/issuer-registry.py:245-248 | revoking at a time not before `authorized_at` leaves `revoked_at >= authorized_at` |
| `PyTealRegistry.SameInstantRevokeTies` | app/contracts/issuer-registry.py:185-190 | a revoke at the add's timestamp gives `revoked_at == authorized_at`: the order is not strict |
| `PyTealRegistry.CredentialBoxCanVouch` | app/contracts/issuer-registry.py:283-290 | a credential box at a 27-byte id is a 32-byte address key that `is_active_issuer` reads as active when the recorded address starts with 8 zero bytes |
| `PyTealRegistry.PutIssuerRecordKeepsConsistent` | app/contracts/issuer-registry.py:183-190 | writing a 56-byte record stamped no later than the new clock, and ordered while time has not gone back, keeps the invariant and makes its key an issuer key |
| `PyTealRegistry.PutOtherKeepsConsistent` | app/contracts/issuer-registry.py:193-203 | writing any other value stamped no later than the new clock keeps the invariant and removes its key from the issuer keys |
| `PyTealRegistry.AddKeepsConsistent` | app/contracts/issuer-registry.py:183-203 | add's two writes at time `now` keep the invariant, with the clock advanced to `now`, the order kept only if `now` is not earlier, and the issuer key added |
| `PyTealRegistry.IssuerRegistry.constructor` | app/contracts/issuer-registry.py:113-120 | admin is the creator, the count is 0, the store is empty, and the invariant holds with clock 0, in order and no issuer keys |
| `PyTealRegistry.IssuerRegistry.AddIssuer` | app/contracts/issuer-registry.py:170-229 | succeeds iff name length is in 3..64, the URL is valid, the caller is admin or an active issuer, no box exists at the address, and the count can grow. On success it writes the issuer record and the metadata box and adds 1 to the count, the clock moves to `now` if later, the order survives only if `now` is not earlier, and the address becomes an issuer key. On failure nothing changes, ghost state included. The invariant is kept |
| `PyTealRegistry.IssuerRegistry.RevokeIssuer` | app/contracts/issuer-registry.py:232-252 | succeeds iff the caller is admin, the box exists and has at least 56 bytes, and the flag argument has at most 8 bytes. Only that box changes, to the revoked record. Metadata and the count are untouched. The clock, order and issuer keys move as for add, and on failure nothing changes. The ordering invariant is kept |
| `PyTealRegistry.IssuerRegistry.ReinstateIssuer` | app/contracts/issuer-registry.py:255-274 | succeeds iff the caller is admin and the box exists with at least 56 bytes. Only that box changes, and its `revoked_at` bytes become `itob(0)`, so `is_active_issuer` holds for the address (`ReinstatedIsActive`). The clock, order and issuer keys move as for revoke |
| `PyTealRegistry.IssuerRegistry.RevokeCredential` | app/contracts/issuer-registry.py:277-296 | succeeds iff the caller is admin, with no issuer check. `"cred:"+id` is overwritten with `itob(now) ++ issuer_address` and nothing else changes |
| `PyTealRegistry.IssuerRegistry.UpdateMetadata` | app/contracts/issuer-registry.py:335-368 | succeeds iff the caller is admin, name and URL are valid, and an issuer box exists. Only the `"meta:"` box changes |
| `PyTealRegistry.IssuerRegistry.QueryIssuer` | app/contracts/issuer-registry.py:299-314 | returns the stored bytes unchanged when the box exists, otherwise rejects; no state change |
| `PyTealRegistry.IssuerRegistry.QueryCredential` | app/contracts/issuer-registry.py:317-332 | returns the stored `"cred:"` bytes when present, otherwise rejects; no state change |
| `PyTealRegistry.IssuerRegistry.QueryMetadata` | app/contracts/issuer-registry.py:371-386 | returns the stored `"meta:"` bytes when present, otherwise rejects; no state change |
| `BeakerRegistry.RevokeSetsOnlyRevokedAt` | issuer_registry/contract_orig.py:104-112 | revoke changes `revoked_at` to `now` and keeps `authorized_at`, the flag and `vouched_by` |
| `BeakerRegistry.ReinstateClearsOnlyRevokedAt` | issuer_registry/contract_orig.py:137-145 | reinstate sets `revoked_at` to 0 and keeps the other three fields, `authorized_at` included |
| `BeakerRegistry.RevokeEncoded` | app/contracts/issuer-registry-beaker.py:97-105 | revoking an encoded record gives the encoding of the same record with `revoked_at = now` |
| `BeakerRegistry.ReinstateEncoded` | app/contracts/issuer-registry-beaker.py:129-137 | reinstating an encoded record gives the encoding of the same record with `revoked_at = 0` |
| `BeakerRegistry.ReinstateUndoesRevoke` | app/contracts/issuer-registry-beaker.py:97-137 | on an active 56-byte record, reinstate after revoke restores the original bytes exactly |
| `BeakerRegistry.RevokeTwiceIsLastRevoke` | app/contracts/issuer-registry-beaker.py:97-105 | revoking twice is the same as revoking once, at the later time |
| `BeakerRegistry.RevokeKeepsOrder` | app/contracts/issuer-registry-beaker.py:100-101 | revoking at a time not before `authorized_at` leaves `revoked_at >= authorized_at` |
| `BeakerRegistry.FlagOnlyCopied` | issuer_registry/contract_orig.py:109-142 | a zero `revoke_all_prior` slice stays zero through revoke and reinstate, which only copy it |
| `BeakerRegistry.PutKeepsConsistent` | algokit-project/smart_contracts/issuer_registry/contract.py:47-82 | writing a value stamped no later than the new clock keeps the invariant, provided that a value readable as an issuer record at an address key is one |
| `BeakerRegistry.IssuerRegistry.constructor` | algokit-project/smart_contracts/issuer_registry/contract.py:10-21 | admin defaults to the creator and the count to 0; the store is empty and the invariant holds with clock 0 and in order |
| `BeakerRegistry.IssuerRegistry.AddIssuer` | algokit-project/smart_contracts/issuer_registry/contract.py:47-82 | succeeds iff the caller is admin and the count can grow, with no existence or format check. It overwrites the issuer and metadata boxes and adds 1 to the count, so a re-add counts again. It keeps every issuer record's flag zero. The clock and order move as in the PyTeal variant |
| `BeakerRegistry.IssuerRegistry.RevokeIssuer` | algokit-project/smart_contracts/issuer_registry/contract.py:92-116 | succeeds iff the caller is admin and the box exists with at least 56 bytes. Only bytes 8..16 of that box change, to `itob(now)` |
| `BeakerRegistry.IssuerRegistry.ReinstateIssuer` | algokit-project/smart_contracts/issuer_registry/contract.py:126-149 | succeeds iff the caller is admin and the box exists with at least 56 bytes. Only bytes 8..16 change, to `itob(0)` |
| `BeakerRegistry.IssuerRegistry.RevokeCredential` | algokit-project/smart_contracts/issuer_registry/contract.py:160-177 | succeeds iff the caller is admin, and overwrites `"cred:"+id` with `itob(now) ++ issuer_address` |
| `BeakerRegistry.IssuerRegistry.UpdateMetadata` | algokit-project/smart_contracts/issuer_registry/contract.py:228-249 | succeeds iff the caller is admin, with no issuer or format check. Only the `"meta:"` box changes; issuer boxes and the count are untouched |
| `BeakerRegistry.IssuerRegistry.QueryIssuer` | algokit-project/smart_contracts/issuer_registry/contract.py:187-195 | returns the stored bytes, or the empty string exactly when the box is absent. Any issuer record returned has `revoke_all_prior` bytes (16..24) equal to `itob(0)`. Never rejects |
| `BeakerRegistry.IssuerRegistry.QueryCredential` | algokit-project/smart_contracts/issuer_registry/contract.py:205-213 | returns the stored `"cred:"` bytes, or the empty string exactly when absent; never rejects |
| `BeakerRegistry.IssuerRegistry.QueryMetadata` | algokit-project/smart_contracts/issuer_registry/contract.py:259-267 | returns the stored `"meta:"` bytes, or the empty string exactly when absent; never rejects |
| `Scenarios.AddThenRevokeWithFlag` | app/contracts/issuer-registry.py:205-250 | for any valid name and URL, after add at t1 and revoke with flag 1 at t2, the count is 1 and the stored bytes are the encoding of `(t1, t2, 1, admin)` |
| `Scenarios.ShortNameRefused` | app/contracts/issuer-registry.py:138-147 | a 2-byte name is refused; neither issuer nor metadata box exists and the count stays 0 |
| `Scenarios.SecondAddRefused` | app/contracts/issuer-registry.py:217-219 | a second add of the same address is refused and the first record and count stay |
| `Scenarios.IssuerVouchesForIssuer` | app/contracts/issuer-registry.py:210-216 | an issuer the admin added can add another issuer, whose stored record is the encoding of `(t2, 0, 0, voucher)` |
| `Scenarios.RevokedIssuerCannotVouch` | app/contracts/issuer-registry.py:210-216 | once the admin revokes an issuer at a nonzero time, that issuer's add is refused |
| `Scenarios.ReinstateRestartsAuthorization` | app/contracts/issuer-registry.py:266-272 | after revoke and reinstate at t3 the stored bytes are the encoding of `(t3, 0, 0, voucher)` |
| `Scenarios.OrderedWhileTimeAdvances` | app/contracts/issuer-registry.py:183-272 | add, revoke, reinstate and revoke at non-decreasing times all succeed and leave `revoked_at >= authorized_at`, read off `Valid()` |
| `Scenarios.BackwardsRevokeUnordered` | app/contracts/issuer-registry.py:245-250 | a revoke at a nonzero time earlier than the add's succeeds and leaves `revoked_at < authorized_at` |
| `Scenarios.NonAdminRefused` | app/contracts/issuer-registry.py:109 | a non-admin's revoke, metadata update and credential revocation are all refused and the store is byte-for-byte unchanged |
| `Scenarios.CredentialRevocationOverwrites` | app/contracts/issuer-registry.py:278-332 | query after revoke_credential returns `(t, issuer)`, and a later revoke_credential overwrites the time |
| `Scenarios.BeakerRevokeThenReinstate` | app/contracts/issuer-registry-beaker.py:88-137 | add, revoke at t2, then reinstate: the query reads the encoding of `(t1, t2, 0, admin)` in between, and the final bytes equal the bytes after add, `(t1, 0, 0, admin)` |
| `Scenarios.BeakerOrderedWhileTimeAdvances` | app/contracts/issuer-registry-beaker.py:88-137 | add, revoke, reinstate and revoke at non-decreasing times all succeed and leave `revoked_at >= authorized_at` and a zero flag, read off `Valid()` |
| `Scenarios.BeakerReAddCountsTwice` | app/contracts/issuer-registry-beaker.py:44-72 | two adds of one address both succeed, the count is 2 and the record is the second add's |
| `Scenarios.BeakerMetadataWithoutIssuer` | app/contracts/issuer-registry-beaker.py:219-233 | metadata written for an unregistered address is stored while its issuer query stays empty and the count 0 |

## Left out

- The router (`Cond` over `application_args[0]`), the OnComplete handlers
  (delete and update are admin-gated, opt-in and close-out always
  approve) and Beaker's ABI dispatch and argument decoding are not
  modelled. The model takes decoded arguments. For Beaker, `abi.Address`
  becomes a 32-byte `Address` and `abi.String` becomes its content bytes.
- The `ABI_METHODS` table is tooling metadata. It lists one argument for
  `revoke_issuer`, but the code reads `application_args[2]`. The model
  follows the code.
- Not modelled: compiling, `app.build()` and writing the JSON artifacts.
- The return encoding is not modelled: `Log`, and `output.set(Itob(1))` on
  success. Mutators return `ok`, and queries return the value.
- AVM box rules beyond get and put are not modelled. In the AVM, a
  `box_put` to an existing box of a different length fails. Box names must
  be 1..64 bytes, values are limited in size, and boxes need
  minimum-balance funding. The model's store replaces a value of any
  length with a value of any length, so the overwrite properties
  (metadata update, Beaker re-add, credential overwrite) hold here even
  when the new length differs.
- TEAL's 4096-byte limit on byte strings and the transaction's argument
  size limits are not modelled.
- The "is this credential trusted at time T" rule is not modelled, because
  no contract implements it.
- `issuer_registry/contract-scaffold.py` and `issuer_registry/contract.py`
  are not part of this model. They only return canned strings, and the
  latter only has a `bootstrap` that sets two globals.
