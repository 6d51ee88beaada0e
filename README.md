# casper-erc-721 registry core in Dafny

This project models the core of an ERC-721-style NFT registry written as a
Casper smart contract in Rust. All of the registry's state lives in the host's
string-keyed persistent store. Two source files make up the core:

- `contract/src/utils/mappings.rs` is the keyed storage adapter.
  - `get_key` reads the value behind a named key, or the type's default when
    the name is unbound.
  - `set_key` writes through the slot (URef) already bound to a name, or
    allocates a fresh slot and binds the name to it.
  - Four key functions build the storage names of the registry's four
    mappings: balances, owners, per-token approvals and operator approvals.
- `contract/src/utils/helper_methods.rs` is the registry logic.
  - Queries: `_exists`, `_is_approved_for_all`, `_is_approved_or_owner`.
  - State changes: `_approve`, `_set_approval_for_all`, `_transfer`, `_mint`,
    `_burn` and their `_safe_*` wrappers. Each is a sequence of
    read-modify-writes through the adapter, with early-return guards.
  - `_encode_packed` and `_base_uri`, which build token URIs.

Files:

- `encoding.dfy` (module `Encoding`): lowercase hex digits, the numerals that
  `format!` prints for a number (`{}` decimal, `{:x}` hex), and a local
  stand-in for `hex::encode`. Each encoder has a decoder and a round-trip
  lemma.
- `mappings.dfy` (module `Mappings`):
  - the value types and the four key functions;
  - a `Key` datatype naming one entry of one mapping, and `Parse`, which
    inverts the key functions;
  - the `Store` class. Its fields are the host's named-key table (`named`),
    its slots (`heap`) and the slot allocator. `Get` is `get_key` and `Set`
    is `set_key`;
  - `Decode`, which views the store's named values as the four mappings.
- `ledger.dfy` (module `Ledger`):
  - pure accessors over the four mappings;
  - a reference definition (`After*`) of each state change;
  - the balance invariant `Consistent` and the lemmas that every state change
    keeps it;
  - the total-supply lemma and a mint, transfer, approve and burn lifecycle.
- `helper_methods.dfy` (module `HelperMethods`): the Rust functions as Dafny
  methods and functions over a `Store`.
  - They perform the same `get_key`/`set_key` calls in the same order as the
    source, including the reuse of `amount` in `_transfer`.
  - Each state change is proved to leave the four mappings exactly as its
    `Ledger` reference definition describes. It also leaves every other
    named key of the host unchanged, and it never gives an already-bound
    name a second slot. A guard that fails writes nothing at all.
    `Mappings.ContentsDetermined` shows that the four mappings and the
    other named keys together fix every named value, so each state change
    ends in exactly one set of named values. The slots behind them are not
    fixed by this: which fresh slot a new name gets is the host's choice.
  - Each query is proved to answer what `Ledger` computes.

`Fetch(store, k)` is `get_key(&key_fn(..))` and `Put(store, k, v)` is
`set_key(&key_fn(..), v)`. Here `Name(k)` is the string the key function of
entry `k` builds.

## Model

| member | source | states |
|---|---|---|
| Mappings.Default | contract/src/utils/mappings.rs:19-21 | the value of an unbound name has the requested type and is zero, the zero account or false |
| Mappings.Store.constructor | contract/src/utils/mappings.rs:19-40 | a fresh host has no named keys and satisfies the store invariant |
| Mappings.Store.Get | contract/src/utils/mappings.rs:19-27 | `get_key` returns the value stored behind a bound name and the type's default for an unbound one; the value always has the requested type |
| Mappings.Store.Set | contract/src/utils/mappings.rs:29-40 | `set_key` writes through the existing slot and adds no binding when the name is bound; when it is unbound it allocates one slot not in use and binds only that name; either way the name then reads `v`, every other name reads as before, and no two names share a slot |
| Mappings.LookupAfterSet | contract/src/utils/mappings.rs:19-40 | `get_key(name)` after `set_key(name, v)` returns `v`, and every other name reads as before |
| Mappings.SlotsUnshared | contract/src/utils/mappings.rs:35-38 | in a valid store, two distinct names are bound to distinct slots |
| Mappings.BalanceKey | contract/src/utils/mappings.rs:44-46 | the name is the `_balance_` prefix followed by the account's 64 hex digits; `ParseBalanceKey` shows it determines the account |
| Mappings.OwnerKey | contract/src/utils/mappings.rs:48-50 | the name is the `_owner_` prefix followed by a non-empty decimal numeral; `ParseOwnerKey` shows it determines the token id |
| Mappings.TokenApprovalKey | contract/src/utils/mappings.rs:52-54 | the name is the `_token_approvals_` prefix followed by a non-empty decimal numeral; `ParseTokenApprovalKey` shows it determines the token id |
| Mappings.OperatorApprovalsKey | contract/src/utils/mappings.rs:56-58 | the name is the `_operator_approvals_` prefix, the owner's 64 hex digits, `_`, then the operator's 64 hex digits; `ParseOperatorApprovalsKey` shows it determines both accounts, in order |
| Mappings.ParseBalanceKey | contract/src/utils/mappings.rs:44-46 | `balance_key(a)` parses back to the balance entry of `a` |
| Mappings.ParseOwnerKey | contract/src/utils/mappings.rs:48-50 | `owner_key(t)` parses back to the owner entry of `t` |
| Mappings.ParseTokenApprovalKey | contract/src/utils/mappings.rs:52-54 | `token_approval_key(t)` parses back to the approval entry of `t` |
| Mappings.ParseOperatorApprovalsKey | contract/src/utils/mappings.rs:56-58 | `operator_approvals_key(o, p)` parses back to the operator entry of `(o, p)` |
| Mappings.ParseName | contract/src/utils/mappings.rs:44-58 | every name a key function builds parses back to its entry, so the four prefixes never collide |
| Mappings.NameInjective | contract/src/utils/mappings.rs:44-58 | two entries of the mappings get the same storage name only if they are the same entry, across and within the four mappings |
| Mappings.OperatorKeyOrdered | contract/src/utils/mappings.rs:56-58 | `operator_approvals_key(a, b)` equals `operator_approvals_key(b, a)` exactly when `a == b` |
| Mappings.DecodeSet | contract/src/utils/mappings.rs:29-40 | writing the name of entry `k` changes entry `k` of the mappings and no other |
| Mappings.LookupName | contract/src/utils/mappings.rs:19-27 | reading an entry's name from the store gives that entry of the mappings, or its default |
| Mappings.UnregisteredSet | contract/src/utils/mappings.rs:29-40 | `set_key` on the name of a mapping entry leaves every named key outside the four mappings as it was |
| Mappings.ContentsDetermined | contract/src/utils/mappings.rs:19-40 | two hosts that agree on the four mappings and on every other named key agree on every named value |
| Mappings.Write | contract/src/utils/mappings.rs:29-40 | a written entry reads back as written, every other entry reads as before, and the mappings stay well typed |
| Encoding.Numeral | contract/src/utils/mappings.rs:48-54 | `format!("{}", n)` (base 10) and `format!("{:x}", n)` (base 16): a non-empty string of lowercase digits; `NumeralRoundTrip` shows it reads back as `n` |
| Encoding.HexEncode | contract/src/utils/helper_methods.rs:161 | `hex::encode`: two lowercase hex digits per byte; `HexRoundTrip` shows it decodes back to the bytes |
| Encoding.NumeralRoundTrip | contract/src/utils/mappings.rs:48-54 | the numeral `format!` prints for a number reads back as that number, in base 10 and in base 16 |
| Encoding.NumeralInjective | contract/src/utils/mappings.rs:48-54 | distinct numbers print as distinct numerals |
| Encoding.HexRoundTrip | contract/src/utils/helper_methods.rs:161 | the two-digits-per-byte hex encoding decodes back to its bytes |
| HelperMethods.Fetch | contract/src/utils/mappings.rs:19-27 | `get_key(&key_fn(..))` returns the entry's value, or its default, with the entry's type |
| HelperMethods.Put | contract/src/utils/mappings.rs:29-40 | `set_key(&key_fn(..), v)` changes the named values at the entry's name only, so that entry reads `v`, every other entry and every other named key is kept, no bound name is rebound, only the slot bound to the name is written, a new name gets a slot not in use, and the store invariant holds |
| HelperMethods.BaseUri | contract/src/utils/helper_methods.rs:19-21 | the base URI is empty, so a packed token URI is "0x" followed by the token id in hex |
| HelperMethods.Approve | contract/src/utils/helper_methods.rs:23-25 | `_approve(to, t)` makes the approval of `t` equal `to`; every other mapping entry and every other named key is kept, and no name is rebound |
| HelperMethods.SetApprovalForAll | contract/src/utils/helper_methods.rs:27-29 | `_set_approval_for_all(o, p, b)` makes `operator(o, p)` equal `b`; every other mapping entry and every other named key is kept, and no name is rebound |
| HelperMethods.IsApprovedForAll | contract/src/utils/helper_methods.rs:31-34 | returns the stored operator flag, false when never set |
| HelperMethods.Exists | contract/src/utils/helper_methods.rs:36-41 | true exactly when the stored owner of the token is not the zero account |
| HelperMethods.IsApprovedOrOwner | contract/src/utils/helper_methods.rs:44-55 | true exactly when the spender is the owner, an operator of the owner, or the approved account; token existence is not consulted |
| HelperMethods.IsApprovedOrOwnerChecked | contract/src/utils/helper_methods.rs:43-55 | the query the comment describes: false for every token that does not exist, and equal to the unchecked query for existing tokens |
| HelperMethods.Transfer | contract/src/utils/helper_methods.rs:57-82 | the store is untouched unless `from` owns the token and `to` is not zero; otherwise the four mappings end exactly as `Ledger.AfterTransfer` describes (approval cleared, one unit of balance moved, `to` the owner, and for `from == to` the balance unchanged), every other named key is kept and no name is rebound |
| HelperMethods.TransferSequence | contract/src/utils/helper_methods.rs:72-81 | the three writes of `_transfer`, each balance read after the previous write, compose to `Ledger.AfterTransfer`, including when `from == to` |
| HelperMethods.SafeTransfer | contract/src/utils/helper_methods.rs:84-91 | the store effect is exactly that of `_transfer`: the same mappings, the same untouched store on a failed guard, the same frame |
| HelperMethods.Mint | contract/src/utils/helper_methods.rs:112-128 | the store is untouched when `to` is zero or the token exists; otherwise the four mappings end exactly as `Ledger.AfterMint` describes (`to` owns the token and gains one unit of balance, the approval untouched), every other named key is kept and no name is rebound |
| HelperMethods.MintSequence | contract/src/utils/helper_methods.rs:123-127 | the two writes of `_mint` compose to `Ledger.AfterMint` |
| HelperMethods.SafeMint | contract/src/utils/helper_methods.rs:93-108 | the store effect is exactly that of `_mint`, with or without data: the same mappings, the same untouched store on a failed guard, the same frame |
| HelperMethods.Burn | contract/src/utils/helper_methods.rs:131-143 | the four mappings end exactly as `Ledger.AfterBurn` describes (approval and owner become `zero_addr`, `owner` loses one unit of balance), every other named key is kept and no name is rebound |
| HelperMethods.BurnSequence | contract/src/utils/helper_methods.rs:135-142 | the writes of `_burn`, its balance read after the approval is cleared, compose to `Ledger.AfterBurn` |
| HelperMethods.BeforeTokenTransfer | contract/src/utils/helper_methods.rs:146-147 | the hook is empty: it has no `modifies` clause, so it changes no state |
| HelperMethods.CheckOnErc721Received | contract/src/utils/helper_methods.rs:149-153 | the receiver check accepts every receiver |
| HelperMethods.PackedText | contract/src/utils/helper_methods.rs:155-165 | the packed text is "0x" followed by lowercase hex digits only, two per base-URI byte plus the token id's hex numeral |
| HelperMethods.EncodePacked | contract/src/utils/helper_methods.rs:155-165 | the result is "0x", then the hex encoding of the base URI's bytes, then the token id as a lowercase hex numeral |
| HelperMethods.PackedTextRoundTrip | contract/src/utils/helper_methods.rs:155-165 | given the base URI's length, the packed text splits back into the "0x" prefix, the base URI and the token id |
| HelperMethods.PackedTextInjective | contract/src/utils/helper_methods.rs:155-165 | under one base URI, distinct tokens get distinct packed texts |
| HelperMethods.PackedTextAmbiguous | contract/src/utils/helper_methods.rs:155-165 | across base URIs the packed text is ambiguous: base 0x12 with token 3 and the empty base with token 0x123 give the same text |
| Ledger.AfterApprove | contract/src/utils/helper_methods.rs:23-25 | the approval of `t` becomes `to` and every other entry reads as before |
| Ledger.AfterSetApprovalForAll | contract/src/utils/helper_methods.rs:27-29 | `operator(o, p)` becomes the flag and every other entry reads as before |
| Ledger.AfterTransfer | contract/src/utils/helper_methods.rs:57-82 | no change when the guard fails; otherwise owner `to`, approval zero, `from` down one, `to` up one (neither when `from == to`), and every other entry as before |
| Ledger.AfterMint | contract/src/utils/helper_methods.rs:112-128 | no change when `to` is zero or the token exists; otherwise owner `to`, `to` up one, and every other entry, the approval included, as before |
| Ledger.AfterBurn | contract/src/utils/helper_methods.rs:131-143 | owner and approval become `zero_addr`, `owner` down one, and every other entry as before |
| Ledger.ApproveGrants | contract/src/utils/helper_methods.rs:23-25 | after `_approve(to, t)` the account `to` passes `_is_approved_or_owner` for `t` |
| Ledger.TransferResetsManagers | contract/src/utils/helper_methods.rs:72-81 | after a transfer, exactly the new owner, its operators and the zero account may manage the token; the previous approval is gone |
| Ledger.MintTwice | contract/src/utils/helper_methods.rs:119-121 | minting a token that exists changes nothing, so a second mint never changes the owner |
| Ledger.ZeroSpenderManagesMissingToken | contract/src/utils/helper_methods.rs:44-55 | as written, the zero account passes `_is_approved_or_owner` for every token that does not exist |
| Ledger.ZeroManagesUnapprovedToken | contract/src/utils/helper_methods.rs:44-55 | even with the existence check, the zero account manages every existing token whose approval is the zero account (never set, or cleared by a transfer) |
| Ledger.ExistingCheckCloses | contract/src/utils/helper_methods.rs:43-55 | the existence-checked query refuses every spender for a missing token and agrees with the unchecked query on existing tokens |
| Ledger.EmptyConsistent | contract/src/utils/mappings.rs:19-21 | an empty store satisfies the balance invariant with no tokens |
| Ledger.OwnerHasBalance | contract/src/utils/helper_methods.rs:75-76 | under the balance invariant, the owner of an existing token has a positive balance, so its transfer or burn does not underflow |
| Ledger.ApprovePreserves | contract/src/utils/helper_methods.rs:23-25 | `_approve` keeps the balance invariant |
| Ledger.SetApprovalForAllPreserves | contract/src/utils/helper_methods.rs:27-29 | `_set_approval_for_all` keeps the balance invariant |
| Ledger.TransferPreserves | contract/src/utils/helper_methods.rs:57-82 | every non-aborting `_transfer` keeps the balance invariant |
| Ledger.MintPreserves | contract/src/utils/helper_methods.rs:112-128 | every `_mint` keeps the balance invariant once the minted id is counted |
| Ledger.BurnPreserves | contract/src/utils/helper_methods.rs:131-143 | `_burn` by the token's true owner with the zero account keeps the balance invariant |
| Ledger.BurnByNonOwnerBreaks | contract/src/utils/helper_methods.rs:131-143 | `_burn` with an `owner` argument that does not own the token breaks the balance invariant |
| Ledger.SumBalancesCountsOwned | contract/src/utils/helper_methods.rs:112-143 | the balances of distinct accounts add up to the number of existing tokens they own |
| Ledger.TotalSupply | contract/src/utils/helper_methods.rs:112-143 | when the accounts list every owner once, their balances add up to the number of existing tokens, and every other account has a zero balance |
| Ledger.Lifecycle | contract/src/utils/helper_methods.rs:57-143 | mint to A, transfer to B, approve C, burn: each step gives the owners, balances and approvals the registry promises |

## Left out

- `ret` (`contract/src/utils/helper_methods.rs:168-170`) only hands a value to the host runtime. That is a foreign boundary with no registry logic.
- The host's `runtime` and `storage` calls are modelled by the `Store` class. Their `unwrap_or_revert` aborts are not modelled as behaviour: a bound URef with nothing stored behind it (`storage::read` returning `None`) is excluded by the store invariant `Valid` (every bound slot is in `heap`), and a slot holding a value of another type is excluded by the well-typed mappings in `Ready`. A name bound to something other than a URef cannot arise, because `named` maps names only to slots.
- `AccountHash::from_formatted_str` of the all-zero account string is modelled as the constant `Mappings.Zero`, the 32 zero bytes, which is what the string denotes.
- `Display` of `AccountHash` inside `format!` is assumed to print 64 lowercase hex digits. `Display` of `U256` prints the decimal numeral. Only the injectivity of these renderings matters to the model.
- U256 is modelled as `nat`. The source's U256 `amount + 1` aborts on overflow at 2^256, just as `amount - 1` aborts below zero. That overflow abort is not modelled, and neither are token ids of 2^256 or more.
- Transfer: a zero balance of `from` when the guard holds makes `amount - 1` abort. It is a precondition, not modelled behaviour.
- Burn: a zero balance of `owner` makes `amount - 1` abort. It is a precondition, not modelled behaviour.
- The base URI is a `String`; the model takes its UTF-8 bytes (`as_bytes`) as the input of `EncodePacked`, and does not model UTF-8 encoding itself.
- `hex::encode` is an external crate; `Encoding.HexEncode` is a local definition of its output (two lowercase hex digits per byte, high nibble first).
- `_before_token_transfer` is an empty hook and `_check_on_erc721_received` always returns true. Both are modelled as such. The empty failure branches after the receiver check do nothing and are not modelled.

## Findings

| source | as written | input that shows it | evidently intended | confidence | as-written member | corrected member |
|---|---|---|---|---|---|---|
| contract/src/utils/helper_methods.rs:44-55 | `_is_approved_or_owner` does not check that the token exists; for a token never minted the owner read is the zero account, so the zero spender passes the `owner == spender` test (and the default approval, also zero, matches it too) | an empty store, spender = the zero account, any token id | the comment at line 46: a token that does not exist matches none of the conditions, so nobody may manage it | not executed | Ledger.ZeroSpenderManagesMissingToken | HelperMethods.IsApprovedOrOwnerChecked |

The corrected query shuts the zero account out of missing tokens only. On an existing token whose approval is unset or was cleared, the approval is the zero account, so the zero account still passes (`Ledger.ZeroManagesUnapprovedToken`, and `Ledger.TransferResetsManagers` after every transfer). This follows the usual ERC-721 pattern, and it is harmless as long as no caller ever acts as the zero account.
