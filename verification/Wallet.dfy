/** The wallet: an array of accounts with a map from lower-cased addresses to array positions. */
module Wallet {
  import opened Wrappers
  import opened HexText
  import opened Numerals

  datatype Account = Account(address: string, privateKey: string)

  function Key(address: string): string {
    LowerAll(address)
  }

  /** The same character but for the case of a letter. */
  predicate SameLetter(c: char, d: char) {
    || c == d
    || ('A' <= c <= 'Z' && 'a' <= d <= 'z' && d - 'a' == c - 'A')
    || ('a' <= c <= 'z' && 'A' <= d <= 'Z' && c - 'a' == d - 'A')
  }

  /** Two addresses have one key exactly if they differ in the case of letters only; a key has no capitals. */
  lemma {:induction false} KeyIsCaseless(a: string, b: string)
    ensures Key(a) == Key(b) <==> |a| == |b| && forall i :: 0 <= i < |a| ==> SameLetter(a[i], b[i])
    ensures forall i :: 0 <= i < |Key(a)| ==> !('A' <= Key(a)[i] <= 'Z')
  {
    assert Key(a) == Key(b) ==> forall i :: 0 <= i < |a| ==> Key(a)[i] == Lower(a[i]) == Lower(b[i]);
    assert |a| == |b| && (forall i :: 0 <= i < |a| ==> Lower(a[i]) == Lower(b[i])) ==> Key(a) == Key(b);
    hide Key;
    assert forall c, d :: SameLetter(c, d) <==> Lower(c) == Lower(d);
  }

  datatype State = State(accounts: seq<Account>, index: map<string, nat>)

  const EMPTY := State([], map[])

  /** The map and the array agree: positions and lower-cased addresses correspond one to one. */
  predicate Agree(w: State) {
    && (forall k :: k in w.index ==> w.index[k] < |w.accounts| && Key(w.accounts[w.index[k]].address) == k)
    && (forall i :: 0 <= i < |w.accounts| ==>
          Key(w.accounts[i].address) in w.index && w.index[Key(w.accounts[i].address)] == i)
  }

  // The code, on any state.

  function ByAddress(w: State, address: string): Option<Account> {
    var k := Key(address);
    if k in w.index && w.index[k] < |w.accounts| then Some(w.accounts[w.index[k]]) else None
  }

  function AddTo(w: State, account: Account): State {
    var k := Key(account.address);
    var i := if ByAddress(w, account.address).Some? then w.index[k] else |w.accounts|;
    State(if i < |w.accounts| then w.accounts[i := account] else w.accounts + [account], w.index[k := i])
  }

  function Splice(accounts: seq<Account>, i: nat): seq<Account> {
    if i < |accounts| then accounts[..i] + accounts[i + 1..] else accounts
  }

  function RemoveAddress(w: State, address: string): State {
    var k := Key(address);
    if k !in w.index then w else State(Splice(w.accounts, w.index[k]), w.index - {k})
  }

  /** Removal by position leaves the map as it is. */
  function RemoveIndex(w: State, i: int): State {
    if 0 <= i < |w.accounts| then w.(accounts := Splice(w.accounts, i)) else w
  }

  function AddAll(w: State, accounts: seq<Account>): State {
    if accounts == [] then w else AddTo(AddAll(w, accounts[..|accounts| - 1]), accounts[|accounts| - 1])
  }

  class Wallet {
    var accounts: seq<Account>
    var addressMap: map<string, nat>

    function View(): State
      reads this
    {
      State(accounts, addressMap)
    }

    constructor ()
      ensures View() == EMPTY
    {
      accounts := [];
      addressMap := map[];
    }

    method Get(address: string) returns (account: Option<Account>)
      ensures account == ByAddress(View(), address)
    {
      var k := Key(address);
      if k in addressMap {
        var i := addressMap[k];
        return if i < |accounts| then Some(accounts[i]) else None;
      }
      return None;
    }

    method Add(account: Account)
      modifies this
      ensures View() == AddTo(old(View()), account)
    {
      var i := |accounts|;
      var existing := Get(account.address);
      if existing.Some? {
        i := addressMap[Key(account.address)];
      }
      addressMap := addressMap[Key(account.address) := i];
      if i < |accounts| {
        accounts := accounts[i := account];
      } else {
        accounts := accounts + [account];
      }
    }

    /** `create` and `decrypt`: the provider's accounts are added one by one. */
    method AddProvided(provided: seq<Account>)
      modifies this
      ensures View() == AddAll(old(View()), provided)
    {
      for i := 0 to |provided|
        invariant View() == AddAll(old(View()), provided[..i])
      {
        Add(provided[i]);
        assert provided[..i + 1][..i] == provided[..i];
      }
      assert provided[..|provided|] == provided;
    }

    method Remove(address: string) returns (removed: bool)
      modifies this
      ensures View() == RemoveAddress(old(View()), address)
      ensures removed <==> Key(address) in old(addressMap)
    {
      var k := Key(address);
      if k !in addressMap {
        return false;
      }
      var i := addressMap[k];
      addressMap := addressMap - {k};
      accounts := Splice(accounts, i);
      return true;
    }

    method RemoveAt(i: int) returns (removed: bool)
      modifies this
      ensures View() == RemoveIndex(old(View()), i)
      ensures removed <==> 0 <= i < |old(accounts)|
    {
      if 0 <= i < |accounts| {
        accounts := Splice(accounts, i);
        return true;
      }
      return false;
    }

    method Clear()
      modifies this
      ensures View() == EMPTY
    {
      addressMap := map[];
      accounts := [];
    }
  }

  // The reference: a dictionary in insertion order, where a present key keeps its place.

  predicate Dictionary(d: seq<Account>) {
    forall i, j :: 0 <= i < j < |d| ==> Key(d[i].address) != Key(d[j].address)
  }

  function Put(d: seq<Account>, account: Account): seq<Account> {
    if d == [] then [account]
    else if Key(d[0].address) == Key(account.address) then [account] + d[1..]
    else [d[0]] + Put(d[1..], account)
  }

  function Lookup(d: seq<Account>, address: string): Option<Account> {
    if d == [] then None
    else if Key(d[0].address) == Key(address) then Some(d[0])
    else Lookup(d[1..], address)
  }

  function Without(d: seq<Account>, address: string): seq<Account> {
    if d == [] then []
    else if Key(d[0].address) == Key(address) then Without(d[1..], address)
    else [d[0]] + Without(d[1..], address)
  }

  lemma {:induction false} PutSpec(d: seq<Account>, account: Account, i: nat)
    requires i <= |d| && (forall k :: 0 <= k < i ==> Key(d[k].address) != Key(account.address))
    requires i < |d| ==> Key(d[i].address) == Key(account.address)
    ensures Put(d, account) == if i < |d| then d[i := account] else d + [account]
    decreases |d|
  {
    if i > 0 {
      PutSpec(d[1..], account, i - 1);
      if i < |d| {
        assert [d[0]] + d[1..][i - 1 := account] == d[i := account];
      } else {
        assert [d[0]] + (d[1..] + [account]) == d + [account];
      }
    } else if d != [] {
      assert [account] + d[1..] == d[0 := account];
    }
  }

  lemma {:induction false} LookupSpec(d: seq<Account>, address: string, i: nat)
    requires i <= |d| && (forall k :: 0 <= k < i ==> Key(d[k].address) != Key(address))
    requires i < |d| ==> Key(d[i].address) == Key(address)
    ensures Lookup(d, address) == if i < |d| then Some(d[i]) else None
    decreases |d|
  {
    if i > 0 { LookupSpec(d[1..], address, i - 1); }
  }

  lemma {:induction false} WithoutSpec(d: seq<Account>, address: string, i: nat)
    requires i <= |d| && (forall k :: 0 <= k < |d| && k != i ==> Key(d[k].address) != Key(address))
    requires i < |d| ==> Key(d[i].address) == Key(address)
    ensures Without(d, address) == Splice(d, i)
    decreases |d|
  {
    if d != [] {
      var rest := d[1..];
      if i == 0 {
        WithoutSpec(rest, address, |rest|);
        assert d[..0] + d[1..] == rest;
      } else {
        WithoutSpec(rest, address, i - 1);
        assert [d[0]] + Splice(rest, i - 1) == Splice(d, i);
      }
    }
  }

  /** The place of an address in an agreeing wallet. */
  function PlaceOf(w: State, address: string): (i: nat)
    requires Agree(w)
    ensures i <= |w.accounts| && (i < |w.accounts| <==> Key(address) in w.index)
    ensures i < |w.accounts| ==> Key(w.accounts[i].address) == Key(address)
    ensures forall k :: 0 <= k < |w.accounts| && k != i ==> Key(w.accounts[k].address) != Key(address)
  {
    if Key(address) in w.index then w.index[Key(address)] else |w.accounts|
  }

  lemma {:induction false} AddRefines(w: State, account: Account)
    requires Agree(w)
    ensures Agree(AddTo(w, account)) && AddTo(w, account).accounts == Put(w.accounts, account)
  {
    hide Key, Put;
    var i := PlaceOf(w, account.address);
    PutSpec(w.accounts, account, i);
    hide PlaceOf;
    PutAgrees(w, account, i);
    assert i < |w.accounts| ==> w.index[Key(account.address)] == i;
  }

  lemma {:induction false} PutAgrees(w: State, account: Account, i: nat)
    requires Agree(w) && i <= |w.accounts| && (i < |w.accounts| <==> Key(account.address) in w.index)
    requires i < |w.accounts| ==> Key(w.accounts[i].address) == Key(account.address)
    ensures var accounts := if i < |w.accounts| then w.accounts[i := account] else w.accounts + [account];
            Agree(State(accounts, w.index[Key(account.address) := i]))
  {
    hide Key;
    var accounts := if i < |w.accounts| then w.accounts[i := account] else w.accounts + [account];
    assert forall k :: 0 <= k < |accounts| && k != i ==> accounts[k] == w.accounts[k];
    assert accounts[i] == account;
  }

  lemma {:induction false} GetRefines(w: State, address: string)
    requires Agree(w)
    ensures ByAddress(w, address) == Lookup(w.accounts, address)
  {
    LookupSpec(w.accounts, address, PlaceOf(w, address));
  }

  lemma {:induction false} AddAllRefines(w: State, accounts: seq<Account>)
    requires Agree(w)
    ensures Agree(AddAll(w, accounts)) && AddAll(w, accounts).accounts == PutAll(w.accounts, accounts)
  {
    if accounts != [] {
      AddAllRefines(w, accounts[..|accounts| - 1]);
      AddRefines(AddAll(w, accounts[..|accounts| - 1]), accounts[|accounts| - 1]);
    }
  }

  function PutAll(d: seq<Account>, accounts: seq<Account>): seq<Account> {
    if accounts == [] then d else Put(PutAll(d, accounts[..|accounts| - 1]), accounts[|accounts| - 1])
  }

  /** Removing by address takes out the right account, and keeps the agreement exactly if it is the last one. */
  lemma {:induction false} RemoveAddressExactly(w: State, address: string)
    requires Agree(w)
    ensures RemoveAddress(w, address).accounts == Without(w.accounts, address)
    ensures Agree(RemoveAddress(w, address)) <==> PlaceOf(w, address) >= |w.accounts| - 1
  {
    var i := PlaceOf(w, address);
    WithoutSpec(w.accounts, address, i);
    hide Key, Without;
    if i < |w.accounts| - 1 {
      RemovedEarlier(w, address, i);
    } else if i == |w.accounts| - 1 {
      RemovedLast(w, address, i);
    }
  }

  lemma {:induction false} RemovedEarlier(w: State, address: string, i: nat)
    requires Agree(w) && i < |w.accounts| - 1 && Key(w.accounts[i].address) == Key(address)
    ensures RemoveAddress(w, address).accounts == Splice(w.accounts, i) && !Agree(RemoveAddress(w, address))
  {
    hide Key;
    var w', k := RemoveAddress(w, address), Key(w.accounts[i + 1].address);
    assert w.index[Key(w.accounts[i].address)] == i && w.index[k] == i + 1;
    assert k in w'.index && w'.index[k] == i + 1;
    assert w'.accounts[i] == w.accounts[i + 1];
  }

  lemma {:induction false} RemovedLast(w: State, address: string, i: nat)
    requires Agree(w) && i == |w.accounts| - 1 && Key(w.accounts[i].address) == Key(address)
    ensures RemoveAddress(w, address).accounts == Splice(w.accounts, i) && Agree(RemoveAddress(w, address))
  {
    hide Key;
    var w' := RemoveAddress(w, address);
    assert w.index[Key(w.accounts[i].address)] == i;
    assert w'.accounts == w.accounts[..i];
    assert forall k :: k in w'.index ==> k in w.index && w.index[k] != i;
  }

  /** Removing by position always breaks the agreement. */
  lemma {:induction false} RemoveIndexBreaks(w: State, i: nat)
    requires Agree(w) && i < |w.accounts|
    ensures !Agree(RemoveIndex(w, i))
  {
    var w' := RemoveIndex(w, i);
    var k := Key(w.accounts[|w.accounts| - 1].address);
    assert w'.index[k] == |w.accounts| - 1 && |w'.accounts| == |w.accounts| - 1;
  }

  datatype Call = Add(account: Account) | AddProvided(accounts: seq<Account>) | Remove(address: string) | Clear

  function Step(w: State, c: Call): State {
    match c
    case Add(a) => AddTo(w, a)
    case AddProvided(accounts) => AddAll(w, accounts)
    case Remove(address) => RemoveAddress(w, address)
    case Clear => EMPTY
  }

  function DictionaryStep(d: seq<Account>, c: Call): seq<Account> {
    match c
    case Add(a) => Put(d, a)
    case AddProvided(accounts) => PutAll(d, accounts)
    case Remove(address) => Without(d, address)
    case Clear => []
  }

  function Run(w: State, calls: seq<Call>): State {
    if calls == [] then w else Step(Run(w, calls[..|calls| - 1]), calls[|calls| - 1])
  }

  function DictionaryRun(d: seq<Account>, calls: seq<Call>): seq<Account> {
    if calls == [] then d else DictionaryStep(DictionaryRun(d, calls[..|calls| - 1]), calls[|calls| - 1])
  }

  /** Every removal of the run is of an address that is not there or belongs to the last account then. */
  predicate RemovesOnlyLast(calls: seq<Call>) {
    forall i :: 0 <= i < |calls| && calls[i].Remove? ==> RemovesLast(DictionaryRun([], calls[..i]), calls[i].address)
  }

  predicate RemovesLast(d: seq<Account>, address: string) {
    forall k :: 0 <= k < |d| - 1 ==> Key(d[k].address) != Key(address)
  }

  /** Over every such run the wallet is the dictionary, and its map agrees with its array. */
  lemma {:induction false} RunRefines(calls: seq<Call>)
    requires RemovesOnlyLast(calls)
    ensures Agree(Run(EMPTY, calls)) && Run(EMPTY, calls).accounts == DictionaryRun([], calls)
    ensures Dictionary(DictionaryRun([], calls))
    decreases |calls|
  {
    if calls != [] {
      var before, c := calls[..|calls| - 1], calls[|calls| - 1];
      assert forall i :: 0 <= i < |before| ==> before[i] == calls[i] && before[..i] == calls[..i];
      RunRefines(before);
      var w := Run(EMPTY, before);
      match c
      case Add(a) => AddRefines(w, a);
      case AddProvided(accounts) => AddAllRefines(w, accounts);
      case Remove(address) =>
        assert RemovesLast(DictionaryRun([], before), address);
        RemoveAddressExactly(w, address);
      case Clear =>
    }
    AgreeIsDictionary(Run(EMPTY, calls));
  }

  lemma {:induction false} AgreeIsDictionary(w: State)
    requires Agree(w)
    ensures Dictionary(w.accounts)
  {}
}
