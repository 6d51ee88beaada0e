/** The registry operations of contract/src/utils/helper_methods.rs, run
    against the host store one `get_key`/`set_key` at a time, in the order
    the source performs them.  Each state change is proved to leave the
    mappings exactly as the matching reference definition of `Ledger` says,
    and each query to answer what `Ledger` computes from the mappings. */
module HelperMethods {
  import opened Encoding
  import opened Mappings
  import Ledger

  /** The four mappings as the registry sees them in `store`. */
  ghost function State(store: Store): map<Key, Value>
    reads store
    requires store.Valid()
  {
    Decode(store.Contents())
  }

  /** What every operation asks of the store: the host invariant, and every
      mapping entry holding its mapping's type. */
  ghost predicate Ready(store: Store)
    reads store
  {
    store.Valid() && WellTyped(State(store))
  }

  /** `_base_uri()`: the empty string, as bytes, so a token's packed URI
      is "0x" followed by its id in hex and nothing else. */
  function BaseUri(): (uri: seq<Byte>)
    ensures forall t: nat :: PackedText(uri, t) == "0x" + Numeral(t, 16)
  {
    []
  }

  /** `get_key(&key_fn(..))` for one entry of the mappings: `Name(k)` is the
      string the entry's key function builds. */
  function Fetch(store: Store, k: Key): (v: Value)
    reads store
    requires Ready(store)
    ensures HasKind(v, KindOf(k))
    ensures v == Read(State(store), k)
  {
    LookupName(store.Contents(), k);
    store.Get(Name(k), KindOf(k))
  }

  /** `set_key(&key_fn(..), v)` for one entry of the mappings: that entry
      reads `v` afterwards, every other entry is as it was, the host's
      other named keys keep their values and no bound name gets a second
      slot. */
  method Put(store: Store, k: Key, v: Value)
    requires Ready(store) && HasKind(v, KindOf(k))
    modifies store
    ensures Ready(store)
    ensures store.Contents() == old(store.Contents())[Name(k) := v]
    ensures State(store) == Write(old(State(store)), k, v)
    ensures Unregistered(store.Contents()) == Unregistered(old(store.Contents()))
    ensures BindingsKept(old(store.named), store.named)
    // only the slot bound to the name is written; a new name gets a slot not in use
    ensures store.heap == old(store.heap)[store.named[Name(k)] := v]
    ensures Name(k) !in old(store.named) ==> store.named[Name(k)] !in old(store.heap)
  {
    ghost var c := store.Contents();
    ghost var m := Write(Decode(c), k, v);
    store.Set(Name(k), v);
    DecodeSet(c, k, v);
    UnregisteredSet(c, k, v);
    assert State(store) == m;
  }

  /** `_exists(t)`. */
  function Exists(store: Store, tokenId: nat): (r: bool)
    reads store
    requires Ready(store)
    ensures r <==> Ledger.Owner(State(store), tokenId) != Zero
  {
    var owner := Fetch(store, OwnerOf(tokenId)).account;
    owner != Zero
  }

  /** `_is_approved_for_all(owner, operator)`. */
  function IsApprovedForAll(store: Store, owner: AccountHash, operator: AccountHash): (r: bool)
    reads store
    requires Ready(store)
    ensures r == Ledger.IsOperator(State(store), owner, operator)
  {
    Fetch(store, OperatorApprovalOf(owner, operator)).b
  }

  /** `_is_approved_or_owner(spender, t)`, which does not ask whether the
      token exists. */
  function IsApprovedOrOwner(store: Store, spender: AccountHash, tokenId: nat): (r: bool)
    reads store
    requires Ready(store)
    ensures r <==>
      || Ledger.Owner(State(store), tokenId) == spender
      || Ledger.IsOperator(State(store), Ledger.Owner(State(store), tokenId), spender)
      || Ledger.Approval(State(store), tokenId) == spender
  {
    var owner := Fetch(store, OwnerOf(tokenId)).account;
    var isApprovedForAll := Fetch(store, OperatorApprovalOf(owner, spender)).b;
    var approvedAccount := Fetch(store, TokenApprovalOf(tokenId)).account;
    owner == spender || isApprovedForAll || approvedAccount == spender
  }

  /** `_is_approved_or_owner` with the existence check its comment relies
      on: no spender may manage a token that does not exist.  The zero
      account still manages every existing token whose approval is unset
      or was cleared by a transfer, since the cleared approval is the zero
      account (`Ledger.ZeroManagesUnapprovedToken`). */
  function IsApprovedOrOwnerChecked(store: Store, spender: AccountHash, tokenId: nat): (r: bool)
    reads store
    requires Ready(store)
    ensures r <==> Ledger.ApprovedOrOwnerOfExisting(State(store), spender, tokenId)
    ensures !Ledger.Exists(State(store), tokenId) ==> !r
  {
    Exists(store, tokenId) && IsApprovedOrOwner(store, spender, tokenId)
  }

  /** `_approve(to, t)`. */
  method Approve(store: Store, to: AccountHash, tokenId: nat)
    requires Ready(store)
    modifies store
    ensures Ready(store)
    ensures State(store) == Ledger.AfterApprove(old(State(store)), to, tokenId)
    ensures Unregistered(store.Contents()) == Unregistered(old(store.Contents()))
    ensures BindingsKept(old(store.named), store.named)
  {
    Put(store, TokenApprovalOf(tokenId), Acct(to));
  }

  /** `_set_approval_for_all(owner, operator, approve)`. */
  method SetApprovalForAll(store: Store, owner: AccountHash, operator: AccountHash, approve: bool)
    requires Ready(store)
    modifies store
    ensures Ready(store)
    ensures State(store) == Ledger.AfterSetApprovalForAll(old(State(store)), owner, operator, approve)
    ensures Unregistered(store.Contents()) == Unregistered(old(store.Contents()))
    ensures BindingsKept(old(store.named), store.named)
  {
    Put(store, OperatorApprovalOf(owner, operator), Flag(approve));
  }

  /** `_before_token_transfer`: a hook with nothing in it. */
  method BeforeTokenTransfer(from: AccountHash, to: AccountHash, tokenId: nat) {
  }

  /** `_check_on_erc721_received`: accepts every receiver. */
  function CheckOnErc721Received(from: AccountHash, to: AccountHash, tokenId: nat, data: seq<Byte>): (accepted: bool)
    ensures accepted
  {
    true
  }

  /** `_transfer(from, to, t)`.  When `from == to` the second read sees the
      decremented balance, so the balance ends where it began.  A zero
      balance of `from` would abort the subtraction; the requires excludes
      it. */
  method Transfer(store: Store, from: AccountHash, to: AccountHash, tokenId: nat)
    requires Ready(store)
    requires Ledger.TransferAllowed(State(store), from, to, tokenId) ==> Ledger.Balance(State(store), from) >= 1
    modifies store
    ensures Ready(store)
    ensures State(store) == Ledger.AfterTransfer(old(State(store)), from, to, tokenId)
    ensures Unregistered(store.Contents()) == Unregistered(old(store.Contents()))
    ensures BindingsKept(old(store.named), store.named)
    // a guard that fails returns before any write
    ensures !Ledger.TransferAllowed(old(State(store)), from, to, tokenId) ==> unchanged(store)
  {
    ghost var c := State(store);
    var owner := Fetch(store, OwnerOf(tokenId)).account;
    var zeroAddr := Zero;
    if owner != from {
      return;
    }
    if to == zeroAddr {
      return;
    }
    ghost var b0 := store.named;
    BeforeTokenTransfer(from, to, tokenId);
    Approve(store, zeroAddr, tokenId);
    ghost var c1 := State(store);
    ghost var b1 := store.named;
    var amount := Fetch(store, BalanceOf(from)).n;
    ghost var debit := amount;
    Put(store, BalanceOf(from), Num(amount - 1));
    ghost var c2 := State(store);
    BindingsKeptTrans(b0, b1, store.named);
    ghost var b2 := store.named;
    amount := Fetch(store, BalanceOf(to)).n;
    Put(store, BalanceOf(to), Num(amount + 1));
    ghost var c3 := State(store);
    BindingsKeptTrans(b0, b2, store.named);
    ghost var b3 := store.named;
    Put(store, OwnerOf(tokenId), Acct(to));
    BindingsKeptTrans(b0, b3, store.named);
    TransferSequence(c, c1, c2, c3, State(store), from, to, tokenId, debit, amount);
  }

  /** The writes `_transfer` makes once its guard holds, each balance read
      from the state the previous write left, end in the state
      `Ledger.AfterTransfer` describes.  For `from == to` the second read
      sees the decremented balance and the increment restores it. */
  lemma TransferSequence(c: map<Key, Value>, c1: map<Key, Value>, c2: map<Key, Value>, c3: map<Key, Value>,
                         c4: map<Key, Value>, from: AccountHash, to: AccountHash, tokenId: nat, debit: nat, credit: nat)
    requires WellTyped(c) && Ledger.TransferAllowed(c, from, to, tokenId)
    requires c1 == Ledger.AfterApprove(c, Zero, tokenId)
    requires debit == Ledger.Balance(c1, from) && debit >= 1
    requires c2 == Write(c1, BalanceOf(from), Num(debit - 1))
    requires credit == Ledger.Balance(c2, to)
    requires c3 == Write(c2, BalanceOf(to), Num(credit + 1))
    requires c4 == Write(c3, OwnerOf(tokenId), Acct(to))
    ensures c4 == Ledger.AfterTransfer(c, from, to, tokenId)
  {
    assert Ledger.Balance(c, from) == debit;
    if from == to {
      assert BalanceOf(from) in c1;
      assert c3 == c1;
    } else {
      assert Ledger.Balance(c, to) == credit;
    }
  }

  /** `_safe_transfer(from, to, t, data)`: the receiver check accepts
      every receiver and its failure branch is empty, so the store ends as
      after `_transfer`. */
  method SafeTransfer(store: Store, from: AccountHash, to: AccountHash, tokenId: nat, data: seq<Byte>)
    requires Ready(store)
    requires Ledger.TransferAllowed(State(store), from, to, tokenId) ==> Ledger.Balance(State(store), from) >= 1
    modifies store
    ensures Ready(store)
    ensures State(store) == Ledger.AfterTransfer(old(State(store)), from, to, tokenId)
    ensures Unregistered(store.Contents()) == Unregistered(old(store.Contents()))
    ensures BindingsKept(old(store.named), store.named)
    // a guard that fails returns before any write
    ensures !Ledger.TransferAllowed(old(State(store)), from, to, tokenId) ==> unchanged(store)
  {
    Transfer(store, from, to, tokenId);
    var received := CheckOnErc721Received(from, to, tokenId, data);
  }

  /** `_mint(to, t)`. */
  method Mint(store: Store, to: AccountHash, tokenId: nat)
    requires Ready(store)
    modifies store
    ensures Ready(store)
    ensures State(store) == Ledger.AfterMint(old(State(store)), to, tokenId)
    ensures Unregistered(store.Contents()) == Unregistered(old(store.Contents()))
    ensures BindingsKept(old(store.named), store.named)
    // a guard that fails returns before any write
    ensures to == Zero || Ledger.Exists(old(State(store)), tokenId) ==> unchanged(store)
  {
    var zeroAddr := Zero;
    if to == zeroAddr {
      return;
    }
    if Exists(store, tokenId) {
      return;
    }
    ghost var c := State(store);
    ghost var b0 := store.named;
    BeforeTokenTransfer(zeroAddr, to, tokenId);
    var amount := Fetch(store, BalanceOf(to)).n;
    Put(store, BalanceOf(to), Num(amount + 1));
    ghost var c1 := State(store);
    ghost var b1 := store.named;
    Put(store, OwnerOf(tokenId), Acct(to));
    BindingsKeptTrans(b0, b1, store.named);
    MintSequence(c, c1, State(store), to, tokenId, amount);
  }

  /** The two writes `_mint` makes once its guards pass end in the state
      `Ledger.AfterMint` describes. */
  lemma MintSequence(c: map<Key, Value>, c1: map<Key, Value>, c2: map<Key, Value>,
                     to: AccountHash, tokenId: nat, amount: nat)
    requires WellTyped(c) && to != Zero && !Ledger.Exists(c, tokenId)
    requires amount == Ledger.Balance(c, to)
    requires c1 == Write(c, BalanceOf(to), Num(amount + 1))
    requires c2 == Write(c1, OwnerOf(tokenId), Acct(to))
    ensures c2 == Ledger.AfterMint(c, to, tokenId)
  {
  }

  /** `_safe_mint(to, t, data)`: the receiver check runs only when data is
      given, accepts every receiver and has an empty failure branch, so the
      store ends as after `_mint`. */
  method SafeMint(store: Store, to: AccountHash, tokenId: nat, data: Option<seq<Byte>>)
    requires Ready(store)
    modifies store
    ensures Ready(store)
    ensures State(store) == Ledger.AfterMint(old(State(store)), to, tokenId)
    ensures Unregistered(store.Contents()) == Unregistered(old(store.Contents()))
    ensures BindingsKept(old(store.named), store.named)
    // a guard that fails returns before any write
    ensures to == Zero || Ledger.Exists(old(State(store)), tokenId) ==> unchanged(store)
  {
    Mint(store, to, tokenId);
    match data {
      case Some(val) =>
        var zeroAddr := Zero;
        var received := CheckOnErc721Received(zeroAddr, to, tokenId, val);
      case None =>
        return;
    }
  }

  /** `_burn(t, owner, zero_addr)`: trusts `owner` to be the token's owner
      (see `Ledger.BurnByNonOwnerBreaks`); a zero balance of `owner` would
      abort the subtraction, which the requires excludes. */
  method Burn(store: Store, tokenId: nat, owner: AccountHash, zeroAddr: AccountHash)
    requires Ready(store)
    requires Ledger.Balance(State(store), owner) >= 1
    modifies store
    ensures Ready(store)
    ensures State(store) == Ledger.AfterBurn(old(State(store)), tokenId, owner, zeroAddr)
    ensures Unregistered(store.Contents()) == Unregistered(old(store.Contents()))
    ensures BindingsKept(old(store.named), store.named)
  {
    ghost var c := State(store);
    ghost var b0 := store.named;
    BeforeTokenTransfer(owner, zeroAddr, tokenId);
    Approve(store, zeroAddr, tokenId);
    ghost var c1 := State(store);
    ghost var b1 := store.named;
    var amount := Fetch(store, BalanceOf(owner)).n;
    Put(store, BalanceOf(owner), Num(amount - 1));
    ghost var c2 := State(store);
    BindingsKeptTrans(b0, b1, store.named);
    ghost var b2 := store.named;
    Put(store, OwnerOf(tokenId), Acct(zeroAddr));
    BindingsKeptTrans(b0, b2, store.named);
    BurnSequence(c, c1, c2, State(store), tokenId, owner, zeroAddr, amount);
  }

  /** The writes `_burn` makes, its balance read after the approval is
      cleared, end in the state `Ledger.AfterBurn` describes. */
  lemma BurnSequence(c: map<Key, Value>, c1: map<Key, Value>, c2: map<Key, Value>, c3: map<Key, Value>,
                     tokenId: nat, owner: AccountHash, zeroAddr: AccountHash, amount: nat)
    requires WellTyped(c) && Ledger.Balance(c, owner) >= 1
    requires c1 == Ledger.AfterApprove(c, zeroAddr, tokenId)
    requires amount == Ledger.Balance(c1, owner) && amount >= 1
    requires c2 == Write(c1, BalanceOf(owner), Num(amount - 1))
    requires c3 == Write(c2, OwnerOf(tokenId), Acct(zeroAddr))
    ensures c3 == Ledger.AfterBurn(c, tokenId, owner, zeroAddr)
  {
    assert Ledger.Balance(c, owner) == amount;
  }

  // ---------------------------------------------------------------------
  // Token URIs

  /** The text `_encode_packed` builds: "0x", the hex encoding of the base
      URI's bytes, then the token id as a lowercase hex numeral. */
  function PackedText(baseUri: seq<Byte>, tokenId: nat): (s: string)
    ensures |s| == 2 + 2 * |baseUri| + |Numeral(tokenId, 16)|
    ensures HasPrefix(s, "0x") && forall i :: 2 <= i < |s| ==> IsHexChar(s[i])
  {
    "0x" + HexEncode(baseUri) + Numeral(tokenId, 16)
  }

  /** `_encode_packed(base_uri, t)`, pushing onto and inserting into one
      mutable string as the source does. */
  method EncodePacked(baseUri: seq<Byte>, tokenId: nat) returns (result: string)
    ensures result == PackedText(baseUri, tokenId)
  {
    var token := Numeral(tokenId, 16);
    result := "";
    result := result + HexEncode(baseUri);
    result := result + token;
    result := "0x" + result;
    assert result == "0x" + (HexEncode(baseUri) + token);
  }

  /** The parts of a packed text decode back to the base URI and the token
      id, once the length of the base URI is known. */
  lemma PackedTextRoundTrip(baseUri: seq<Byte>, tokenId: nat)
    ensures var s := PackedText(baseUri, tokenId);
      && |s| == 2 + 2 * |baseUri| + |Numeral(tokenId, 16)|
      && s[..2] == "0x"
      && HexDecode(s[2..2 + 2 * |baseUri|]) == baseUri
      && NumeralValue(s[2 + 2 * |baseUri|..], 16) == tokenId
  {
    var s := PackedText(baseUri, tokenId);
    assert s[2..2 + 2 * |baseUri|] == HexEncode(baseUri);
    assert s[2 + 2 * |baseUri|..] == Numeral(tokenId, 16);
    HexRoundTrip(baseUri);
    NumeralRoundTrip(tokenId, 16);
  }

  /** Under one base URI, distinct tokens get distinct texts. */
  lemma PackedTextInjective(baseUri: seq<Byte>, t1: nat, t2: nat)
    ensures PackedText(baseUri, t1) == PackedText(baseUri, t2) <==> t1 == t2
  {
    PackedTextRoundTrip(baseUri, t1);
    PackedTextRoundTrip(baseUri, t2);
  }

  /** Across base URIs the text is ambiguous: the base URI 0x12 with token
      3 and the empty base URI with token 0x123 both give "0x123". */
  lemma PackedTextAmbiguous()
    ensures PackedText([0x12], 3) == PackedText([], 0x123)
  {
  }
}
