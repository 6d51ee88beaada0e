/** The registry's state as the mappings of contract/src/utils/helper_methods.rs
    see it, read from the named values of the store, and a reference
    definition of every state change the file makes.  The lemmas here state
    what each change does to the four mappings and that the balance invariant
    survives every change. */
module Ledger {
  import opened Mappings

  /** `get_key(&owner_key(t))`: the zero account for a token never minted. */
  function Owner(c: map<Key, Value>, tokenId: nat): AccountHash
    requires WellTyped(c)
  {
    Read(c, OwnerOf(tokenId)).account
  }

  /** `get_key(&balance_key(a))`. */
  function Balance(c: map<Key, Value>, account: AccountHash): nat
    requires WellTyped(c)
  {
    Read(c, BalanceOf(account)).n
  }

  /** `get_key(&token_approval_key(t))`. */
  function Approval(c: map<Key, Value>, tokenId: nat): AccountHash
    requires WellTyped(c)
  {
    Read(c, TokenApprovalOf(tokenId)).account
  }

  /** `get_key(&operator_approvals_key(owner, operator))`. */
  function IsOperator(c: map<Key, Value>, owner: AccountHash, operator: AccountHash): bool
    requires WellTyped(c)
  {
    Read(c, OperatorApprovalOf(owner, operator)).b
  }

  /** A token exists when its owner is not the zero account. */
  predicate Exists(c: map<Key, Value>, tokenId: nat)
    requires WellTyped(c)
  {
    Owner(c, tokenId) != Zero
  }

  /** Whether `spender` may manage the token: it is the owner, an operator of
      the owner, or the token's approved account. */
  predicate ApprovedOrOwner(c: map<Key, Value>, spender: AccountHash, tokenId: nat)
    requires WellTyped(c)
  {
    var owner := Owner(c, tokenId);
    owner == spender || IsOperator(c, owner, spender) || Approval(c, tokenId) == spender
  }

  /** What the comment on `_is_approved_or_owner` promises: a token that does
      not exist is managed by nobody.  As written, the function does not ask
      whether the token exists, so the zero account passes the owner test
      for every token never minted (see `ZeroSpenderManagesMissingToken`). */
  predicate ApprovedOrOwnerOfExisting(c: map<Key, Value>, spender: AccountHash, tokenId: nat)
    requires WellTyped(c)
  {
    Exists(c, tokenId) && ApprovedOrOwner(c, spender, tokenId)
  }

  /** The unchecked query grants the zero account every token that does
      not exist, however the store looks otherwise. */
  lemma ZeroSpenderManagesMissingToken(c: map<Key, Value>, tokenId: nat)
    requires WellTyped(c) && !Exists(c, tokenId)
    ensures ApprovedOrOwner(c, Zero, tokenId)
  {
  }

  /** The checked query refuses every spender for a missing token and agrees
      with the unchecked one on existing tokens. */
  lemma ExistingCheckCloses(c: map<Key, Value>, spender: AccountHash, tokenId: nat)
    requires WellTyped(c)
    ensures !Exists(c, tokenId) ==> !ApprovedOrOwnerOfExisting(c, spender, tokenId)
    ensures Exists(c, tokenId) ==>
      (ApprovedOrOwnerOfExisting(c, spender, tokenId) <==> ApprovedOrOwner(c, spender, tokenId))
  {
  }

  /** The existence check does not shut the zero account out: an existing
      token whose approval is the zero account, because it was never set or
      a transfer or burn cleared it, is managed by the zero account. */
  lemma ZeroManagesUnapprovedToken(c: map<Key, Value>, tokenId: nat)
    requires WellTyped(c) && Exists(c, tokenId) && Approval(c, tokenId) == Zero
    ensures ApprovedOrOwnerOfExisting(c, Zero, tokenId)
  {
  }

  /** `_approve(to, t)`. */
  function AfterApprove(c: map<Key, Value>, to: AccountHash, tokenId: nat): (c': map<Key, Value>)
    requires WellTyped(c)
    ensures WellTyped(c')
    ensures Approval(c', tokenId) == to
    ensures forall k :: k != TokenApprovalOf(tokenId) ==> Read(c', k) == Read(c, k)
  {
    Write(c, TokenApprovalOf(tokenId), Acct(to))
  }

  /** `_set_approval_for_all(owner, operator, approved)`. */
  function AfterSetApprovalForAll(c: map<Key, Value>, owner: AccountHash, operator: AccountHash, approved: bool)
    : (c': map<Key, Value>)
    requires WellTyped(c)
    ensures WellTyped(c')
    ensures IsOperator(c', owner, operator) == approved
    ensures forall k :: k != OperatorApprovalOf(owner, operator) ==> Read(c', k) == Read(c, k)
  {
    Write(c, OperatorApprovalOf(owner, operator), Flag(approved))
  }

  /** The guard of `_transfer`: `from` owns the token and `to` is not zero. */
  predicate TransferAllowed(c: map<Key, Value>, from: AccountHash, to: AccountHash, tokenId: nat)
    requires WellTyped(c)
  {
    Owner(c, tokenId) == from && to != Zero
  }

  /** `_transfer(from, to, t)`: a no-op unless the guard holds; otherwise the
      approval is cleared, one unit of balance moves from `from` to `to` and
      `to` becomes the owner.  Balances are read in the state before the
      call, so a transfer to oneself leaves the balance as it was.  A
      transfer whose guard holds but whose sender has a zero balance aborts
      on the U256 subtraction; the requires excludes it. */
  function AfterTransfer(c: map<Key, Value>, from: AccountHash, to: AccountHash, tokenId: nat)
    : (c': map<Key, Value>)
    requires WellTyped(c)
    requires TransferAllowed(c, from, to, tokenId) ==> Balance(c, from) >= 1
    ensures WellTyped(c')
    ensures !TransferAllowed(c, from, to, tokenId) ==> c' == c
    ensures TransferAllowed(c, from, to, tokenId) ==>
      && Owner(c', tokenId) == to
      && Approval(c', tokenId) == Zero
      && Balance(c', from) == (if from == to then Balance(c, from) else Balance(c, from) - 1)
      && Balance(c', to) == (if from == to then Balance(c, to) else Balance(c, to) + 1)
      && forall k :: k !in {TokenApprovalOf(tokenId), BalanceOf(from), BalanceOf(to), OwnerOf(tokenId)} ==>
           Read(c', k) == Read(c, k)
  {
    if !TransferAllowed(c, from, to, tokenId) then c
    else
      var cleared := Write(c, TokenApprovalOf(tokenId), Acct(Zero));
      var moved :=
        if from == to then cleared
        else Write(Write(cleared, BalanceOf(from), Num(Balance(c, from) - 1)), BalanceOf(to), Num(Balance(c, to) + 1));
      Write(moved, OwnerOf(tokenId), Acct(to))
  }

  /** `_mint(to, t)`: a no-op when `to` is zero or the token exists;
      otherwise `to` gains one unit of balance and becomes the owner.  The
      token's approval is left as it was. */
  function AfterMint(c: map<Key, Value>, to: AccountHash, tokenId: nat): (c': map<Key, Value>)
    requires WellTyped(c)
    ensures WellTyped(c')
    ensures to == Zero || Exists(c, tokenId) ==> c' == c
    ensures to != Zero && !Exists(c, tokenId) ==>
      && Owner(c', tokenId) == to
      && Balance(c', to) == Balance(c, to) + 1
      && forall k :: k !in {BalanceOf(to), OwnerOf(tokenId)} ==> Read(c', k) == Read(c, k)
  {
    if to == Zero || Exists(c, tokenId) then c
    else Write(Write(c, BalanceOf(to), Num(Balance(c, to) + 1)), OwnerOf(tokenId), Acct(to))
  }

  /** `_burn(t, owner, zero_addr)`: the approval and the owner of the token
      become `zeroAddr` and `owner` loses one unit of balance.  Nothing
      checks that `owner` owns the token; a zero balance aborts on the U256
      subtraction, which the requires excludes. */
  function AfterBurn(c: map<Key, Value>, tokenId: nat, owner: AccountHash, zeroAddr: AccountHash)
    : (c': map<Key, Value>)
    requires WellTyped(c)
    requires Balance(c, owner) >= 1
    ensures WellTyped(c')
    ensures Owner(c', tokenId) == zeroAddr
    ensures Approval(c', tokenId) == zeroAddr
    ensures Balance(c', owner) == Balance(c, owner) - 1
    ensures forall k :: k !in {TokenApprovalOf(tokenId), BalanceOf(owner), OwnerOf(tokenId)} ==>
      Read(c', k) == Read(c, k)
  {
    var cleared := Write(c, TokenApprovalOf(tokenId), Acct(zeroAddr));
    Write(Write(cleared, BalanceOf(owner), Num(Balance(c, owner) - 1)), OwnerOf(tokenId), Acct(zeroAddr))
  }

  /** After `_approve(to, t)` the account `to` may manage `t`. */
  lemma ApproveGrants(c: map<Key, Value>, to: AccountHash, tokenId: nat)
    requires WellTyped(c)
    ensures ApprovedOrOwner(AfterApprove(c, to, tokenId), to, tokenId)
  {
  }

  /** After a transfer whose guard holds, exactly the new owner, its
      operators and the zero account (through the cleared approval) may
      manage the token: the previous owner's approval does not survive. */
  lemma TransferResetsManagers(c: map<Key, Value>, from: AccountHash, to: AccountHash, tokenId: nat, spender: AccountHash)
    requires WellTyped(c)
    requires TransferAllowed(c, from, to, tokenId) && Balance(c, from) >= 1
    ensures ApprovedOrOwner(AfterTransfer(c, from, to, tokenId), spender, tokenId)
      <==> spender == to || IsOperator(c, to, spender) || spender == Zero
  {
    var c' := AfterTransfer(c, from, to, tokenId);
    assert Read(c', OperatorApprovalOf(to, spender)) == Read(c, OperatorApprovalOf(to, spender));
  }

  /** Minting a token that exists changes nothing, so the first successful
      mint of a token fixes its owner against every later mint. */
  lemma MintTwice(c: map<Key, Value>, first: AccountHash, second: AccountHash, tokenId: nat)
    requires WellTyped(c)
    requires first != Zero
    ensures var once := AfterMint(c, first, tokenId);
      && AfterMint(once, second, tokenId) == once
      && Owner(once, tokenId) == (if Exists(c, tokenId) then Owner(c, tokenId) else first)
  {
  }

  // ---------------------------------------------------------------------
  // The balance invariant

  /** The tokens among `tokens` that `account` owns. */
  ghost function OwnedBy(c: map<Key, Value>, tokens: set<nat>, account: AccountHash): set<nat>
    requires WellTyped(c)
  {
    set t | t in tokens && Owner(c, t) == account
  }

  /** The tokens among `tokens` that exist. */
  ghost function Live(c: map<Key, Value>, tokens: set<nat>): set<nat>
    requires WellTyped(c)
  {
    set t | t in tokens && Owner(c, t) != Zero
  }

  /** The registry is consistent with the finite set `tokens` of token ids
      ever minted: every existing token is in `tokens`, the zero account has
      no balance, and every other account's balance is the number of tokens
      it owns. */
  ghost predicate Consistent(c: map<Key, Value>, tokens: set<nat>) {
    && WellTyped(c)
    && (forall t :: Owner(c, t) != Zero ==> t in tokens)
    && Balance(c, Zero) == 0
    && (forall a :: a != Zero ==> Balance(c, a) == |OwnedBy(c, tokens, a)|)
  }

  /** An empty store is consistent with no tokens. */
  lemma EmptyConsistent()
    ensures WellTyped(map[]) && Consistent(map[], {})
  {
    var c: map<Key, Value> := map[];
    forall a | a != Zero ensures Balance(c, a) == |OwnedBy(c, {}, a)| {
      assert OwnedBy(c, {}, a) == {};
    }
  }

  /** In a consistent state the owner of a token has a positive balance, so
      neither `_transfer` nor `_burn` by the true owner underflows. */
  lemma OwnerHasBalance(c: map<Key, Value>, tokens: set<nat>, tokenId: nat)
    requires Consistent(c, tokens)
    requires Exists(c, tokenId)
    ensures Balance(c, Owner(c, tokenId)) >= 1
  {
    assert tokenId in OwnedBy(c, tokens, Owner(c, tokenId));
  }

  /** `_approve` and `_set_approval_for_all` leave owners and balances, and
      so the invariant, untouched. */
  lemma ApprovePreserves(c: map<Key, Value>, tokens: set<nat>, to: AccountHash, tokenId: nat)
    requires Consistent(c, tokens)
    ensures Consistent(AfterApprove(c, to, tokenId), tokens)
  {
    var c' := AfterApprove(c, to, tokenId);
    forall t ensures Owner(c', t) == Owner(c, t) {
      assert Read(c', OwnerOf(t)) == Read(c, OwnerOf(t));
    }
    forall a ensures Balance(c', a) == Balance(c, a) {
      assert Read(c', BalanceOf(a)) == Read(c, BalanceOf(a));
    }
    forall a | a != Zero ensures Balance(c', a) == |OwnedBy(c', tokens, a)| {
      assert OwnedBy(c', tokens, a) == OwnedBy(c, tokens, a);
    }
  }

  lemma SetApprovalForAllPreserves(c: map<Key, Value>, tokens: set<nat>, owner: AccountHash, operator: AccountHash, approved: bool)
    requires Consistent(c, tokens)
    ensures Consistent(AfterSetApprovalForAll(c, owner, operator, approved), tokens)
  {
    var c' := AfterSetApprovalForAll(c, owner, operator, approved);
    forall t ensures Owner(c', t) == Owner(c, t) {
      assert Read(c', OwnerOf(t)) == Read(c, OwnerOf(t));
    }
    forall a ensures Balance(c', a) == Balance(c, a) {
      assert Read(c', BalanceOf(a)) == Read(c, BalanceOf(a));
    }
    forall a | a != Zero ensures Balance(c', a) == |OwnedBy(c', tokens, a)| {
      assert OwnedBy(c', tokens, a) == OwnedBy(c, tokens, a);
    }
  }

  /** Two sets that agree everywhere except at `x` differ in size by how
      many of them hold `x`. */
  lemma SetsAgreeingOffOne(s: set<nat>, s': set<nat>, x: nat)
    requires s - {x} == s' - {x}
    ensures |s'| + (if x in s then 1 else 0) == |s| + (if x in s' then 1 else 0)
  {
    var rest := s - {x};
    if x in s { assert s == rest + {x}; } else { assert s == rest; }
    if x in s' { assert s' == rest + {x}; } else { assert s' == rest; }
  }

  /** One account's share of `MoveKeeps`: its tokens change at most by
      `tokenId`, and its balance changes with them. */
  lemma MoveKeepsAt(c: map<Key, Value>, c': map<Key, Value>, tokens: set<nat>, tokenId: nat, a: AccountHash)
    requires WellTyped(c) && WellTyped(c')
    requires tokenId in tokens
    requires forall t :: t != tokenId ==> Owner(c', t) == Owner(c, t)
    requires Balance(c, a) == |OwnedBy(c, tokens, a)|
    requires Balance(c', a) + (if Owner(c, tokenId) == a then 1 else 0)
      == Balance(c, a) + (if Owner(c', tokenId) == a then 1 else 0)
    ensures Balance(c', a) == |OwnedBy(c', tokens, a)|
  {
    var s, s' := OwnedBy(c, tokens, a), OwnedBy(c', tokens, a);
    assert s - {tokenId} == s' - {tokenId};
    SetsAgreeingOffOne(s, s', tokenId);
  }

  /** A change that moves at most the token `tokenId` from one owner to
      another, and moves one unit of balance with it, keeps the invariant. */
  lemma MoveKeeps(c: map<Key, Value>, c': map<Key, Value>, tokens: set<nat>, tokenId: nat)
    requires Consistent(c, tokens) && WellTyped(c')
    requires tokenId in tokens
    requires forall t :: t != tokenId ==> Owner(c', t) == Owner(c, t)
    requires Balance(c', Zero) == 0
    requires forall a :: a != Zero ==>
      Balance(c', a) + (if Owner(c, tokenId) == a then 1 else 0)
        == Balance(c, a) + (if Owner(c', tokenId) == a then 1 else 0)
    ensures Consistent(c', tokens)
  {
    forall a | a != Zero ensures Balance(c', a) == |OwnedBy(c', tokens, a)| {
      MoveKeepsAt(c, c', tokens, tokenId, a);
    }
  }

  /** Every transfer that does not abort keeps the invariant. */
  lemma TransferPreserves(c: map<Key, Value>, tokens: set<nat>, from: AccountHash, to: AccountHash, tokenId: nat)
    requires Consistent(c, tokens)
    requires TransferAllowed(c, from, to, tokenId) ==> Balance(c, from) >= 1
    ensures Consistent(AfterTransfer(c, from, to, tokenId), tokens)
  {
    if TransferAllowed(c, from, to, tokenId) {
      var c' := AfterTransfer(c, from, to, tokenId);
      assert from != Zero;
      forall t | t != tokenId ensures Owner(c', t) == Owner(c, t) {
        assert Read(c', OwnerOf(t)) == Read(c, OwnerOf(t));
      }
      forall a | a != from && a != to ensures Balance(c', a) == Balance(c, a) {
        assert Read(c', BalanceOf(a)) == Read(c, BalanceOf(a));
      }
      MoveKeeps(c, c', tokens, tokenId);
    }
  }

  /** Counting a token that does not exist changes no account's tokens. */
  lemma AddMissingToken(c: map<Key, Value>, tokens: set<nat>, tokenId: nat)
    requires Consistent(c, tokens)
    requires !Exists(c, tokenId)
    ensures Consistent(c, tokens + {tokenId})
  {
    forall a | a != Zero ensures Balance(c, a) == |OwnedBy(c, tokens + {tokenId}, a)| {
      assert OwnedBy(c, tokens + {tokenId}, a) == OwnedBy(c, tokens, a);
    }
  }

  /** Every mint keeps the invariant, once the minted id is counted among
      the tokens. */
  lemma MintPreserves(c: map<Key, Value>, tokens: set<nat>, to: AccountHash, tokenId: nat)
    requires Consistent(c, tokens)
    ensures Consistent(AfterMint(c, to, tokenId), tokens + {tokenId})
  {
    if Exists(c, tokenId) {
      assert tokens + {tokenId} == tokens;
    } else {
      AddMissingToken(c, tokens, tokenId);
      if to != Zero {
        var c' := AfterMint(c, to, tokenId);
        forall t | t != tokenId ensures Owner(c', t) == Owner(c, t) {
          assert Read(c', OwnerOf(t)) == Read(c, OwnerOf(t));
        }
        forall a | a != to ensures Balance(c', a) == Balance(c, a) {
          assert Read(c', BalanceOf(a)) == Read(c, BalanceOf(a));
        }
        MoveKeeps(c, c', tokens + {tokenId}, tokenId);
      }
    }
  }

  /** Burning a token with its true owner and the zero account keeps the
      invariant. */
  lemma BurnPreserves(c: map<Key, Value>, tokens: set<nat>, tokenId: nat, owner: AccountHash)
    requires Consistent(c, tokens)
    requires owner != Zero && Owner(c, tokenId) == owner
    requires Balance(c, owner) >= 1
    ensures Consistent(AfterBurn(c, tokenId, owner, Zero), tokens)
  {
    var c' := AfterBurn(c, tokenId, owner, Zero);
    forall t | t != tokenId ensures Owner(c', t) == Owner(c, t) {
      assert Read(c', OwnerOf(t)) == Read(c, OwnerOf(t));
    }
    forall a | a != owner ensures Balance(c', a) == Balance(c, a) {
      assert Read(c', BalanceOf(a)) == Read(c, BalanceOf(a));
    }
    MoveKeeps(c, c', tokens, tokenId);
  }

  /** `_burn` trusts its `owner` argument: burning a token with an account
      that does not own it (a second burn of the same token, say) takes one
      unit from that account's balance while it keeps every token it owns,
      and the invariant is broken. */
  lemma BurnByNonOwnerBreaks(c: map<Key, Value>, tokens: set<nat>, tokenId: nat, owner: AccountHash)
    requires Consistent(c, tokens)
    requires owner != Zero && Owner(c, tokenId) != owner
    requires Balance(c, owner) >= 1
    ensures !Consistent(AfterBurn(c, tokenId, owner, Zero), tokens)
  {
    var c' := AfterBurn(c, tokenId, owner, Zero);
    forall t | t != tokenId ensures Owner(c', t) == Owner(c, t) {
      assert Read(c', OwnerOf(t)) == Read(c, OwnerOf(t));
    }
    assert OwnedBy(c', tokens, owner) == OwnedBy(c, tokens, owner);
  }

  /** The balances of a list of accounts, added up. */
  function SumBalances(c: map<Key, Value>, accounts: seq<AccountHash>): nat
    requires WellTyped(c)
  {
    if accounts == [] then 0 else Balance(c, accounts[0]) + SumBalances(c, accounts[1..])
  }

  predicate Distinct(accounts: seq<AccountHash>) {
    forall i, j :: 0 <= i < j < |accounts| ==> accounts[i] != accounts[j]
  }

  /** The existing tokens among `tokens` whose owner is listed in
      `accounts`. */
  ghost function OwnedByAny(c: map<Key, Value>, tokens: set<nat>, accounts: seq<AccountHash>): set<nat>
    requires WellTyped(c)
  {
    set t | t in Live(c, tokens) && Owner(c, t) in accounts
  }

  /** Splitting the first account off the list splits the tokens they own
      into two disjoint parts. */
  lemma OwnedByAnySplit(c: map<Key, Value>, tokens: set<nat>, accounts: seq<AccountHash>)
    requires WellTyped(c)
    requires Distinct(accounts) && accounts != []
    ensures var here := set t | t in Live(c, tokens) && Owner(c, t) == accounts[0];
      && OwnedByAny(c, tokens, accounts) == here + OwnedByAny(c, tokens, accounts[1..])
      && here !! OwnedByAny(c, tokens, accounts[1..])
  {
    var rest := accounts[1..];
    forall i | 0 <= i < |rest| ensures rest[i] != accounts[0] {
      assert rest[i] == accounts[i + 1];
    }
    forall a | a in accounts ensures a == accounts[0] || a in rest {
      var i :| 0 <= i < |accounts| && accounts[i] == a;
      if i > 0 { assert rest[i - 1] == a; }
    }
  }

  lemma DistinctTail(accounts: seq<AccountHash>)
    requires Distinct(accounts) && accounts != []
    ensures Distinct(accounts[1..])
  {
    var rest := accounts[1..];
    forall i, j | 0 <= i < j < |rest| ensures rest[i] != rest[j] {
      assert rest[i] == accounts[i + 1] && rest[j] == accounts[j + 1];
    }
  }

  /** The balances of distinct accounts add up to the number of existing
      tokens those accounts own. */
  lemma {:induction false} SumBalancesCountsOwned(c: map<Key, Value>, tokens: set<nat>, accounts: seq<AccountHash>)
    requires Consistent(c, tokens)
    requires Distinct(accounts)
    ensures SumBalances(c, accounts) == |OwnedByAny(c, tokens, accounts)|
  {
    if accounts == [] {
      assert OwnedByAny(c, tokens, accounts) == {};
    } else {
      var a := accounts[0];
      DistinctTail(accounts);
      SumBalancesCountsOwned(c, tokens, accounts[1..]);
      OwnedByAnySplit(c, tokens, accounts);
      LiveOwnedBy(c, tokens, a);
    }
  }

  /** The existing tokens an account owns are all its tokens, or none for
      the zero account. */
  lemma LiveOwnedBy(c: map<Key, Value>, tokens: set<nat>, a: AccountHash)
    requires WellTyped(c)
    ensures (set t | t in Live(c, tokens) && Owner(c, t) == a) == (if a == Zero then {} else OwnedBy(c, tokens, a))
  {
  }

  /** The balance invariant: when `accounts` lists every owner once, the
      balances add up to the number of existing tokens, and every account
      outside the list has a zero balance. */
  lemma TotalSupply(c: map<Key, Value>, tokens: set<nat>, accounts: seq<AccountHash>)
    requires Consistent(c, tokens)
    requires Distinct(accounts)
    requires forall t :: t in tokens && Owner(c, t) != Zero ==> Owner(c, t) in accounts
    ensures SumBalances(c, accounts) == |Live(c, tokens)|
    ensures forall a :: a !in accounts ==> Balance(c, a) == 0
  {
    SumBalancesCountsOwned(c, tokens, accounts);
    assert OwnedByAny(c, tokens, accounts) == Live(c, tokens);
    forall a | a !in accounts ensures Balance(c, a) == 0 {
      if a != Zero {
        assert OwnedBy(c, tokens, a) == {};
      }
    }
  }

  /** Mint token 1 to A, transfer it to B, approve C for it, then burn it. */
  lemma Lifecycle(a: AccountHash, b: AccountHash, approved: AccountHash)
    requires a != Zero && b != Zero && approved != Zero && a != b
    ensures
      var c0: map<Key, Value> := map[];
      && WellTyped(c0)
      && var c1 := AfterMint(c0, a, 1);
      && Owner(c1, 1) == a && Balance(c1, a) == 1
      && var c2 := AfterTransfer(c1, a, b, 1);
      && Owner(c2, 1) == b && Balance(c2, a) == 0 && Balance(c2, b) == 1 && Approval(c2, 1) == Zero
      && var c3 := AfterApprove(c2, approved, 1);
      && Approval(c3, 1) == approved && ApprovedOrOwner(c3, approved, 1)
      && Balance(c3, b) == 1
      && var c4 := AfterBurn(c3, 1, b, Zero);
      && Owner(c4, 1) == Zero && Balance(c4, b) == 0
  {
    var c0: map<Key, Value> := map[];
    var c1 := AfterMint(c0, a, 1);
    var c2 := AfterTransfer(c1, a, b, 1);
    var c3 := AfterApprove(c2, approved, 1);
    assert Read(c3, OwnerOf(1)) == Read(c2, OwnerOf(1));
    assert Read(c3, BalanceOf(b)) == Read(c2, BalanceOf(b));
  }
}
