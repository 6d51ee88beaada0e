/** The keyed storage adapter of contract/src/utils/mappings.rs.

    The host keeps a table of named keys, each bound to a storage slot (a
    URef), and a heap from slots to stored values.  `get_key` reads the value
    behind a name, or the type's default when the name is unbound; `set_key`
    writes through the slot already bound to a name, or allocates a fresh slot
    and binds the name to it.  Four key functions derive the names of the
    registry's four mappings from a fixed prefix and the formatted
    identifiers. */
module Mappings {
  import opened Encoding

  datatype Option<T> = None | Some(value: T)

  /** A 32-byte account hash, as `AccountHash([u8; 32])`. */
  type Hash = s: seq<Byte> | |s| == 32 witness ZeroBytes

  const ZeroBytes: seq<Byte> := [0, 0, 0, 0, 0, 0, 0, 0, 0, 0, 0, 0, 0, 0, 0, 0, 0, 0, 0, 0, 0, 0, 0, 0, 0, 0, 0, 0, 0, 0, 0, 0]

  datatype AccountHash = AccountHash(bytes: Hash)

  /** The all-zero account hash, used as "no account". */
  const Zero: AccountHash := AccountHash(ZeroBytes)

  /** A value held in a slot: a `U256`, an `AccountHash` or a `bool`. */
  datatype Value = Num(n: nat) | Acct(account: AccountHash) | Flag(b: bool)

  /** The type a read asks for (the `T` of `get_key::<T>`). */
  datatype Kind = NumKind | AcctKind | FlagKind

  predicate HasKind(v: Value, kind: Kind) {
    match kind
    case NumKind => v.Num?
    case AcctKind => v.Acct?
    case FlagKind => v.Flag?
  }

  /** `T::default()`: zero, the zero account, false. */
  function Default(kind: Kind): (v: Value)
    ensures HasKind(v, kind)
    ensures v == Num(0) || v == Acct(Zero) || v == Flag(false)
  {
    match kind
    case NumKind => Num(0)
    case AcctKind => Acct(Zero)
    case FlagKind => Flag(false)
  }

  /** How an account hash is rendered inside a key: 64 lowercase hex digits. */
  function AccountText(a: AccountHash): (s: string)
    ensures |s| == 64
  {
    HexEncode(a.bytes)
  }

  /** How a token id is rendered inside a key: its decimal numeral. */
  function TokenText(tokenId: nat): (s: string)
    ensures |s| > 0
  {
    Numeral(tokenId, 10)
  }

  /** `balance_key(account)`: the prefix, then the account's 64 digits. */
  function BalanceKey(account: AccountHash): (s: string)
    ensures |s| == 73 && HasPrefix(s, "_balance_")
  {
    "_balance_" + AccountText(account)
  }

  /** `owner_key(t)`: the prefix, then the id's decimal numeral. */
  function OwnerKey(tokenId: nat): (s: string)
    ensures |s| > 7 && HasPrefix(s, "_owner_")
  {
    "_owner_" + TokenText(tokenId)
  }

  /** `token_approval_key(t)`: the prefix, then the id's decimal numeral. */
  function TokenApprovalKey(tokenId: nat): (s: string)
    ensures |s| > 17 && HasPrefix(s, "_token_approvals_")
  {
    "_token_approvals_" + TokenText(tokenId)
  }

  /** `operator_approvals_key(owner, operator)`: the prefix, the owner's 64
      digits, an underscore, then the operator's 64 digits. */
  function OperatorApprovalsKey(owner: AccountHash, operator: AccountHash): (s: string)
    ensures |s| == 149 && HasPrefix(s, "_operator_approvals_") && s[84] == '_'
  {
    "_operator_approvals_" + AccountText(owner) + "_" + AccountText(operator)
  }

  /** The entry of one of the four mappings that a key names. */
  datatype Key =
    | BalanceOf(account: AccountHash)
    | OwnerOf(tokenId: nat)
    | TokenApprovalOf(tokenId: nat)
    | OperatorApprovalOf(owner: AccountHash, operator: AccountHash)

  /** The storage name of a key, built by the key function of its mapping. */
  function Name(k: Key): string {
    match k
    case BalanceOf(a) => BalanceKey(a)
    case OwnerOf(t) => OwnerKey(t)
    case TokenApprovalOf(t) => TokenApprovalKey(t)
    case OperatorApprovalOf(o, p) => OperatorApprovalsKey(o, p)
  }

  /** The type of value each mapping stores. */
  function KindOf(k: Key): Kind {
    match k
    case BalanceOf(_) => NumKind
    case OwnerOf(_) => AcctKind
    case TokenApprovalOf(_) => AcctKind
    case OperatorApprovalOf(_, _) => FlagKind
  }

  predicate HasPrefix(s: string, prefix: string) {
    |prefix| <= |s| && s[..|prefix|] == prefix
  }

  /** Recovers the key from a storage name; the inverse of `Name`. */
  function Parse(s: string): Option<Key> {
    if HasPrefix(s, "_balance_") && |s| == 73 then
      Some(BalanceOf(AccountHash(HexDecode(s[9..]))))
    else if HasPrefix(s, "_owner_") then
      Some(OwnerOf(NumeralValue(s[7..], 10)))
    else if HasPrefix(s, "_token_approvals_") then
      Some(TokenApprovalOf(NumeralValue(s[17..], 10)))
    else if HasPrefix(s, "_operator_approvals_") && |s| == 149 then
      Some(OperatorApprovalOf(AccountHash(HexDecode(s[20..84])), AccountHash(HexDecode(s[85..]))))
    else None
  }

  /** A string that differs from `prefix` at some position does not start
      with it. */
  lemma NotPrefix(s: string, prefix: string, i: nat)
    requires i < |prefix| && i < |s| && s[i] != prefix[i]
    ensures !HasPrefix(s, prefix)
  {
  }

  lemma ParseBalanceKey(a: AccountHash)
    ensures Parse(BalanceKey(a)) == Some(BalanceOf(a))
  {
    var s := BalanceKey(a);
    assert s[..9] == "_balance_";
    assert s[9..] == HexEncode(a.bytes);
    HexRoundTrip(a.bytes);
  }

  lemma ParseOwnerKey(t: nat)
    ensures Parse(OwnerKey(t)) == Some(OwnerOf(t))
  {
    var s := OwnerKey(t);
    NotPrefix(s, "_balance_", 1);
    assert s[..7] == "_owner_";
    assert s[7..] == Numeral(t, 10);
    NumeralRoundTrip(t, 10);
  }

  lemma ParseTokenApprovalKey(t: nat)
    ensures Parse(TokenApprovalKey(t)) == Some(TokenApprovalOf(t))
  {
    var s := TokenApprovalKey(t);
    NotPrefix(s, "_balance_", 1);
    NotPrefix(s, "_owner_", 1);
    assert s[..17] == "_token_approvals_";
    assert s[17..] == Numeral(t, 10);
    NumeralRoundTrip(t, 10);
  }

  lemma ParseOperatorApprovalsKey(o: AccountHash, p: AccountHash)
    ensures Parse(OperatorApprovalsKey(o, p)) == Some(OperatorApprovalOf(o, p))
  {
    var s := OperatorApprovalsKey(o, p);
    NotPrefix(s, "_balance_", 1);
    NotPrefix(s, "_owner_", 2);
    NotPrefix(s, "_token_approvals_", 1);
    assert s[..20] == "_operator_approvals_";
    assert s[20..84] == HexEncode(o.bytes);
    assert s[85..] == HexEncode(p.bytes);
    HexRoundTrip(o.bytes);
    HexRoundTrip(p.bytes);
  }

  /** Every name a key function builds parses back to its key: the prefixes
      are pairwise distinct and the renderings are injective. */
  lemma ParseName(k: Key)
    ensures Parse(Name(k)) == Some(k)
  {
    match k
    case BalanceOf(a) => ParseBalanceKey(a);
    case OwnerOf(t) => ParseOwnerKey(t);
    case TokenApprovalOf(t) => ParseTokenApprovalKey(t);
    case OperatorApprovalOf(o, p) => ParseOperatorApprovalsKey(o, p);
  }

  /** Distinct entries of the four mappings never share a storage name. */
  lemma NameInjective(k1: Key, k2: Key)
    ensures Name(k1) == Name(k2) ==> k1 == k2
  {
    ParseName(k1);
    ParseName(k2);
  }

  /** `operator_approvals_key` puts the owner first: swapping two distinct
      accounts gives another name. */
  lemma OperatorKeyOrdered(a: AccountHash, b: AccountHash)
    ensures OperatorApprovalsKey(a, b) == OperatorApprovalsKey(b, a) <==> a == b
  {
    NameInjective(OperatorApprovalOf(a, b), OperatorApprovalOf(b, a));
  }

  /** A storage name that some key function builds. */
  predicate IsKeyName(n: string) {
    Parse(n).Some? && Name(Parse(n).value) == n
  }

  /** The registry's four mappings as stored under the names of `c`: the
      entry `k` is present exactly when `Name(k)` is bound, with its value. */
  ghost function Decode(c: map<string, Value>): (m: map<Key, Value>)
    ensures forall k :: k in m <==> Name(k) in c
    ensures forall k :: k in m ==> m[k] == c[Name(k)]
  {
    var m := map n | n in c && IsKeyName(n) :: Parse(n).value := c[n];
    DecodeEntries(c, m);
    m
  }

  lemma DecodeEntries(c: map<string, Value>, m: map<Key, Value>)
    requires m == map n | n in c && IsKeyName(n) :: Parse(n).value := c[n]
    ensures forall k :: k in m <==> Name(k) in c
    ensures forall k :: k in m ==> m[k] == c[Name(k)]
  {
    forall k ensures k in m <==> Name(k) in c {
      ParseName(k);
      if Name(k) in c {
        assert IsKeyName(Name(k)) && Parse(Name(k)).value == k;
      }
    }
    forall k | k in m ensures m[k] == c[Name(k)] {
      var n :| n in c && IsKeyName(n) && Parse(n).value == k;
    }
  }

  /** `set_key(name(k), v)` changes the entry `k` of the mappings and no
      other. */
  lemma DecodeSet(c: map<string, Value>, k: Key, v: Value)
    ensures Decode(c[Name(k) := v]) == Decode(c)[k := v]
  {
    var c' := c[Name(k) := v];
    forall k' ensures k' in Decode(c') <==> k' in Decode(c)[k := v] {
      NameInjective(k', k);
    }
    forall k' | k' in Decode(c') ensures Decode(c')[k'] == Decode(c)[k := v][k'] {
      NameInjective(k', k);
    }
  }

  /** The host's named values that are no entry of the four mappings: the
      contract's other named keys. */
  function Unregistered(c: map<string, Value>): map<string, Value> {
    map n | n in c && !IsKeyName(n) :: c[n]
  }

  /** `set_key(name(k), v)` leaves every name outside the four mappings as
      it was. */
  lemma UnregisteredSet(c: map<string, Value>, k: Key, v: Value)
    ensures Unregistered(c[Name(k) := v]) == Unregistered(c)
  {
    ParseName(k);
  }

  /** The four mappings and the other named values together make up the
      whole of the named values: two stores agreeing on both agree on
      every name. */
  lemma ContentsDetermined(c: map<string, Value>, c': map<string, Value>)
    requires Decode(c) == Decode(c') && Unregistered(c) == Unregistered(c')
    ensures c == c'
  {
    forall n | IsKeyName(n) ensures (n in c <==> n in c') && (n in c ==> c[n] == c'[n]) {
      var k := Parse(n).value;
      assert Name(k) == n;
      assert k in Decode(c) <==> k in Decode(c');
    }
    forall n | !IsKeyName(n) ensures (n in c <==> n in c') && (n in c ==> c[n] == c'[n]) {
      assert n in c <==> n in Unregistered(c);
      assert n in c' <==> n in Unregistered(c');
    }
  }

  /** `get_key` after `set_key(name, v)`: the name reads back `v`, and
      every other name reads as before. */
  lemma LookupAfterSet(c: map<string, Value>, name: string, v: Value, other: string, kind: Kind)
    ensures Lookup(c[name := v], name, kind) == v
    ensures other != name ==> Lookup(c[name := v], other, kind) == Lookup(c, other, kind)
  {
  }

  /** Each mapping's entries hold values of that mapping's type, so no read
      of the registry ever fails to deserialize. */
  ghost predicate WellTyped(m: map<Key, Value>) {
    forall k :: k in m ==> HasKind(m[k], KindOf(k))
  }

  /** `get_key::<T>(name)` over the named values `c`. */
  function Lookup(c: map<string, Value>, name: string, kind: Kind): Value {
    if name in c then c[name] else Default(kind)
  }

  /** The value of one mapping entry: the stored value, or the default of
      the mapping's type when the entry was never written. */
  function Read(m: map<Key, Value>, k: Key): (v: Value)
    requires WellTyped(m)
    ensures HasKind(v, KindOf(k))
    ensures k !in m ==> v == Default(KindOf(k))
  {
    if k in m then m[k] else Default(KindOf(k))
  }

  /** Reading a key's name from the store reads that entry of the mappings,
      and a stored value has the type the read asks for. */
  lemma LookupName(c: map<string, Value>, k: Key)
    requires WellTyped(Decode(c))
    ensures Name(k) in c ==> HasKind(c[Name(k)], KindOf(k))
    ensures Lookup(c, Name(k), KindOf(k)) == Read(Decode(c), k)
  {
  }

  /** Writing an entry: it then reads back as written, every other entry
      reads as before, and the mappings stay well typed. */
  function Write(m: map<Key, Value>, k: Key, v: Value): (m': map<Key, Value>)
    requires WellTyped(m) && HasKind(v, KindOf(k))
    ensures WellTyped(m')
    ensures Read(m', k) == v
    ensures forall k' :: k' != k ==> Read(m', k') == Read(m, k')
  {
    m[k := v]
  }

  /** A storage slot (the address of a URef). */
  type Slot = nat

  /** Every name bound in `before` is still bound, to the same slot, in
      `after`: no name is ever given a second slot. */
  ghost predicate BindingsKept(before: map<string, Slot>, after: map<string, Slot>) {
    forall n :: n in before ==> n in after && after[n] == before[n]
  }

  /** Bindings kept across two steps are kept across both. */
  lemma BindingsKeptTrans(a: map<string, Slot>, b: map<string, Slot>, c: map<string, Slot>)
    requires BindingsKept(a, b) && BindingsKept(b, c)
    ensures BindingsKept(a, c)
  {
  }

  /** The host's storage as the contract sees it: the named-key table and
      the slots behind it. */
  class Store {
    var named: map<string, Slot>
    var heap: map<Slot, Value>
    /** The next address the host hands out for a new slot. */
    var nextSlot: Slot
    /** The name bound to each slot, kept to state that no two names share
        a slot. */
    ghost var nameOf: map<Slot, string>

    /** Every bound name points at a live slot that is bound to no other
        name, and the allocator is past every live slot. */
    ghost predicate Valid()
      reads this
    {
      && (forall n :: n in named ==> named[n] in heap && named[n] in nameOf && nameOf[named[n]] == n)
      && (forall s :: s in heap ==> s < nextSlot)
    }

    /** The value behind every bound name. */
    ghost function Contents(): map<string, Value>
      reads this
      requires Valid()
    {
      map n | n in named :: heap[named[n]]
    }

    /** A host with no named keys. */
    constructor ()
      ensures Valid() && Contents() == map[]
    {
      named, heap, nextSlot, nameOf := map[], map[], 0, map[];
    }

    /** `get_key::<T>(name)`: the stored value, or `T::default()` for an
        unbound name.  A stored value of another type would abort the call;
        the requires rules that out. */
    function Get(name: string, kind: Kind): (v: Value)
      reads this
      requires Valid()
      requires name in Contents() ==> HasKind(Contents()[name], kind)
      ensures HasKind(v, kind)
      ensures name !in Contents() ==> v == Default(kind)
      ensures v == Lookup(Contents(), name, kind)
    {
      if name in named then heap[named[name]] else Default(kind)
    }

    /** `set_key(name, v)`. */
    method Set(name: string, v: Value)
      requires Valid()
      modifies this
      ensures Valid()
      ensures name in named && Contents() == old(Contents())[name := v]
      ensures BindingsKept(old(named), named)
      // a bound name is written through its own slot; no binding is added
      ensures name in old(named) ==> named == old(named) && heap == old(heap)[named[name] := v]
      // an unbound name gets exactly one fresh slot
      ensures name !in old(named) ==>
        && named[name] !in old(heap)
        && named == old(named)[name := named[name]]
        && heap == old(heap)[named[name] := v]
    {
      if name in named {
        heap := heap[named[name] := v];
      } else {
        var slot := nextSlot;
        heap := heap[slot := v];
        nextSlot := nextSlot + 1;
        named := named[name := slot];
        nameOf := nameOf[slot := name];
      }
      assert Contents() == old(Contents())[name := v];
    }
  }

  /** No two names of a valid store share a slot. */
  lemma SlotsUnshared(store: Store, n: string, m: string)
    requires store.Valid()
    requires n in store.named && m in store.named && n != m
    ensures store.named[n] != store.named[m]
  {
  }
}
