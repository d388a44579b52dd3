/**
 The account ledger. `LedgerState` is the mutable object; the functions above it are its
 specification, and the lemmas below it are about whole runs of that specification.
 */
module Ledger {
  import opened Prelude
  import opened Sequences
  import opened Containers

  type Account = string

  datatype Transaction = Transaction(from: Account, to: Account, amount: u64, nonce: u64, memo: Option<string>)

  datatype SignedTransaction = SignedTransaction(
    transaction: Transaction,
    signerId: ValidatorId,
    signature: TypedSignature,
    txHash: HashBytes,
    submittedAt: u64
  )

  /** The header fields the ledger reads. */
  datatype BlockHeader = BlockHeader(blockNumber: u64, slot: u64, stateRoot: HashBytes)

  datatype Block = Block(header: BlockHeader, transactions: seq<SignedTransaction>, blockHash: HashBytes)

  datatype Accounts = Accounts(balances: map<Account, u64>, nonces: map<Account, u64>)

  datatype Snapshot = Snapshot(accounts: Accounts, tipHash: HashBytes, height: u64, lastSlot: u64)

  datatype LedgerError =
    | HashMismatch
    | SourceMismatch
    | VerifierFailed(reason: string)
    | BadSignature
    | InsufficientBalance
    | UnexpectedNonce
    | InsufficientDuringApply
    | StateRootMismatch

  /** The hashes, the account naming and the signature verifier the ledger calls. */
  datatype Crypto = Crypto(
    txHash: Transaction -> HashBytes,
    stateHash: (map<Account, u64>, map<Account, u64>) -> HashBytes,
    validatorAccount: ValidatorId -> Account,
    verify: (ValidatorId, HashBytes, TypedSignature) -> Result<bool, string>
  )

  // ---- Specification ----

  function Get(m: map<Account, u64>, a: Account): u64 {
    if a in m then m[a] else 0
  }

  function BalanceOf(acc: Accounts, a: Account): u64 { Get(acc.balances, a) }

  function NonceOf(acc: Accounts, a: Account): u64 { Get(acc.nonces, a) }

  function StateRoot(crypto: Crypto, acc: Accounts): HashBytes {
    crypto.stateHash(acc.balances, acc.nonces)
  }

  /** The first check of `validate_tx` that fails. */
  function ValidationError(crypto: Crypto, acc: Accounts, tx: SignedTransaction): Option<LedgerError> {
    var t := tx.transaction;
    if crypto.txHash(t) != tx.txHash then Some(HashMismatch)
    else if t.from != crypto.validatorAccount(tx.signerId) then Some(SourceMismatch)
    else match crypto.verify(tx.signerId, tx.txHash, tx.signature)
      case Err(reason) => Some(VerifierFailed(reason))
      case Ok(verified) =>
        if !verified then Some(BadSignature)
        else if BalanceOf(acc, t.from) < t.amount then Some(InsufficientBalance)
        else if NonceOf(acc, t.from) != t.nonce then Some(UnexpectedNonce)
        else None
  }

  /** Both balances are read before either is written, so a self-transfer nets +amount. */
  function Transfer(acc: Accounts, t: Transaction): Accounts
    requires BalanceOf(acc, t.from) >= t.amount
  {
    var debited := acc.balances[t.from := BalanceOf(acc, t.from) - t.amount];
    Accounts(
      debited[t.to := Wrap(BalanceOf(acc, t.to) + t.amount)],
      acc.nonces[t.from := Wrap(NonceOf(acc, t.from) + 1)])
  }

  datatype Execution = Execution(accounts: Accounts, applied: nat, error: Option<LedgerError>)

  /** Validate and apply each transaction in turn, stopping at the first that fails. */
  function Execute(crypto: Crypto, acc: Accounts, txs: seq<SignedTransaction>): (run: Execution)
    ensures run.applied <= |txs| && (run.error.None? ==> run.applied == |txs|)
    decreases |txs|
  {
    if txs == [] then Execution(acc, 0, None)
    else match ValidationError(crypto, acc, txs[0])
      case Some(e) => Execution(acc, 0, Some(e))
      case None =>
        var rest := Execute(crypto, Transfer(acc, txs[0].transaction), txs[1..]);
        rest.(applied := rest.applied + 1)
  }

  lemma NoTransaction(crypto: Crypto, acc: Accounts)
    ensures Execute(crypto, acc, []) == Execution(acc, 0, None)
  {
  }

  /** A run of at least one transaction, one transaction on. */
  lemma OneTransaction(crypto: Crypto, acc: Accounts, txs: seq<SignedTransaction>)
    requires txs != []
    ensures var t, error := txs[0].transaction, ValidationError(crypto, acc, txs[0]);
            if error.Some? then Execute(crypto, acc, txs) == Execution(acc, 0, error)
            else
              && BalanceOf(acc, t.from) >= t.amount && NonceOf(acc, t.from) == t.nonce
              && var rest := Execute(crypto, Transfer(acc, t), txs[1..]);
                 Execute(crypto, acc, txs) == rest.(applied := rest.applied + 1)
  {
    hide Transfer;
  }

  predicate Succeeds(crypto: Crypto, acc: Accounts, txs: seq<SignedTransaction>) {
    Execute(crypto, acc, txs).error.None?
  }

  function Final(crypto: Crypto, acc: Accounts, txs: seq<SignedTransaction>): Accounts {
    Execute(crypto, acc, txs).accounts
  }

  /** The state after `apply_block`, and its error. */
  function BlockOutcome(crypto: Crypto, s: Snapshot, b: Block): (Snapshot, Option<LedgerError>) {
    var run := Execute(crypto, s.accounts, b.transactions);
    if run.error.Some? then (s.(accounts := run.accounts), run.error)
    else if StateRoot(crypto, run.accounts) != b.header.stateRoot then
      (s.(accounts := run.accounts), Some(StateRootMismatch))
    else (Snapshot(run.accounts, b.blockHash, b.header.blockNumber, b.header.slot), None)
  }

  function Replay(crypto: Crypto, s: Snapshot, blocks: seq<Block>): Result<Snapshot, LedgerError>
    decreases |blocks|
  {
    if blocks == [] then Ok(s)
    else
      var (next, error) := BlockOutcome(crypto, s, blocks[0]);
      if error.Some? then Err(error.value) else Replay(crypto, next, blocks[1..])
  }

  function Genesis(initial: map<Account, u64>): Snapshot {
    Snapshot(Accounts(initial, map[]), seq(32, _ => 0), 0, 0)
  }

  function Flatten(blocks: seq<Block>): seq<SignedTransaction> {
    if blocks == [] then [] else blocks[0].transactions + Flatten(blocks[1..])
  }

  // ---- The mutable ledger ----

  class LedgerState {
    var balances: map<Account, u64>
    var nonces: map<Account, u64>
    var tipHash: HashBytes
    var height: u64
    var lastSlot: u64

    ghost function View(): Snapshot
      reads this
    {
      Snapshot(Accounts(balances, nonces), tipHash, height, lastSlot)
    }

    constructor FromGenesis(initial: map<Account, u64>)
      ensures View() == Genesis(initial)
      ensures balances == initial && nonces == map[] && height == 0 && lastSlot == 0
      ensures forall i :: 0 <= i < 32 ==> tipHash[i] == 0
    {
      balances := initial;
      nonces := map[];
      tipHash := seq(32, _ => 0);
      height := 0;
      lastSlot := 0;
    }

    method ValidateTx(tx: SignedTransaction, crypto: Crypto) returns (error: Option<LedgerError>)
      ensures error == ValidationError(crypto, View().accounts, tx)
    {
      var t := tx.transaction;
      if crypto.txHash(t) != tx.txHash {
        return Some(HashMismatch);
      }
      if t.from != crypto.validatorAccount(tx.signerId) {
        return Some(SourceMismatch);
      }
      var verified := crypto.verify(tx.signerId, tx.txHash, tx.signature);
      if verified.Err? {
        return Some(VerifierFailed(verified.error));
      }
      if !verified.value {
        return Some(BadSignature);
      }
      if Get(balances, t.from) < t.amount {
        return Some(InsufficientBalance);
      }
      if Get(nonces, t.from) != t.nonce {
        return Some(UnexpectedNonce);
      }
      return None;
    }

    method ApplyTransaction(tx: SignedTransaction) returns (error: Option<LedgerError>)
      modifies this`balances, this`nonces
      ensures error == if BalanceOf(old(View().accounts), tx.transaction.from) < tx.transaction.amount
                       then Some(InsufficientDuringApply) else None
      ensures error.None? ==> View().accounts == Transfer(old(View().accounts), tx.transaction)
      ensures error.Some? ==> View() == old(View())
    {
      var t := tx.transaction;
      var fromBalance := Get(balances, t.from);
      if fromBalance < t.amount {
        return Some(InsufficientDuringApply);
      }
      var toBalance := Get(balances, t.to);
      balances := balances[t.from := fromBalance - t.amount];
      balances := balances[t.to := Wrap(toBalance + t.amount)];
      nonces := nonces[t.from := Wrap(Get(nonces, t.from) + 1)];
      return None;
    }

    /** On failure the accounts keep every transaction applied so far, and nothing else moves. */
    method ApplyBlock(block: Block, crypto: Crypto) returns (error: Option<LedgerError>)
      modifies this
      ensures (View(), error) == BlockOutcome(crypto, old(View()), block)
      ensures error.Some? ==> tipHash == old(tipHash) && height == old(height) && lastSlot == old(lastSlot)
    {
      hide Execute, Transfer, ValidationError, BalanceOf, Get;
      ghost var run := Execute(crypto, View().accounts, block.transactions);
      assert block.transactions[0..] == block.transactions;
      var i := 0;
      while i < |block.transactions|
        invariant 0 <= i <= |block.transactions|
        invariant View() == old(View()).(accounts := View().accounts)
        invariant Execute(crypto, View().accounts, block.transactions[i..]).accounts == run.accounts
        invariant Execute(crypto, View().accounts, block.transactions[i..]).error == run.error
      {
        ghost var rest := block.transactions[i..];
        assert rest[0] == block.transactions[i] && rest[1..] == block.transactions[i + 1..];
        OneTransaction(crypto, View().accounts, rest);
        error := ValidateTx(block.transactions[i], crypto);
        if error.Some? {
          return;
        }
        error := ApplyTransaction(block.transactions[i]);
        if error.Some? {
          return;
        }
        i := i + 1;
      }
      NoTransaction(crypto, View().accounts);
      if crypto.stateHash(balances, nonces) != block.header.stateRoot {
        return Some(StateRootMismatch);
      }
      tipHash := block.blockHash;
      height := block.header.blockNumber;
      lastSlot := block.header.slot;
      return None;
    }

    static method ReplayBlocks(initial: map<Account, u64>, blocks: seq<Block>, crypto: Crypto)
      returns (r: Result<LedgerState, LedgerError>)
      ensures r.Ok? ==> fresh(r.value) && Replay(crypto, Genesis(initial), blocks) == Ok(r.value.View())
      ensures r.Err? ==> Replay(crypto, Genesis(initial), blocks) == Err(r.error)
    {
      var state := new LedgerState.FromGenesis(initial);
      var i := 0;
      while i < |blocks|
        invariant 0 <= i <= |blocks|
        invariant fresh(state)
        invariant Replay(crypto, state.View(), blocks[i..]) == Replay(crypto, Genesis(initial), blocks)
      {
        assert blocks[i..][1..] == blocks[i + 1..];
        var error := state.ApplyBlock(blocks[i], crypto);
        if error.Some? {
          return Err(error.value);
        }
        i := i + 1;
      }
      return Ok(state);
    }
  }

  // ---- Runs compose ----

  /** Executing a + b is executing b from where a ended; a failure in a hides b. */
  lemma {:induction false} ExecuteConcat(
    crypto: Crypto, acc: Accounts, a: seq<SignedTransaction>, b: seq<SignedTransaction>
  )
    ensures Execute(crypto, acc, a + b) ==
            var first := Execute(crypto, acc, a);
            if first.error.Some? then first
            else var second := Execute(crypto, first.accounts, b); second.(applied := |a| + second.applied)
    decreases |a|
  {
    if a == [] {
      assert a + b == b;
    } else {
      assert (a + b)[1..] == a[1..] + b;
      if ValidationError(crypto, acc, a[0]).None? {
        ExecuteConcat(crypto, Transfer(acc, a[0].transaction), a[1..], b);
      }
    }
  }

  /** Where a run stops: the longest prefix whose transactions all validate, and why the next did not. */
  lemma {:induction false} LongestValidPrefix(crypto: Crypto, acc: Accounts, txs: seq<SignedTransaction>, m: nat)
    requires m <= |txs|
    ensures var run := Execute(crypto, acc, txs);
            && (Succeeds(crypto, acc, txs[..m]) <==> m <= run.applied)
            && Final(crypto, acc, txs[..run.applied]) == run.accounts
            && run.error == if run.applied == |txs| then None
                            else ValidationError(crypto, run.accounts, txs[run.applied])
    decreases |txs|
  {
    hide Execute, Transfer, ValidationError, BalanceOf, NonceOf;
    NoTransaction(crypto, acc);
    if txs != [] {
      OneTransaction(crypto, acc, txs);
    }
    if m > 0 {
      OneTransaction(crypto, acc, txs[..m]);
    }
    if txs != [] && ValidationError(crypto, acc, txs[0]).None? {
      var next := Transfer(acc, txs[0].transaction);
      var n := Execute(crypto, next, txs[1..]).applied;
      LongestValidPrefix(crypto, next, txs[1..], if m == 0 then 0 else m - 1);
      assert txs[..n + 1][1..] == txs[1..][..n];
      OneTransaction(crypto, acc, txs[..n + 1]);
      if m > 0 {
        assert txs[..m][1..] == txs[1..][..m - 1];
      }
    } else if m > 0 {
      assert txs[..m][0] == txs[0];
    }
  }

  /** A failing block changes the accounts as its longest valid prefix does, and nothing else. */
  lemma FailedBlockKeepsTip(crypto: Crypto, s: Snapshot, b: Block)
    requires BlockOutcome(crypto, s, b).1.Some?
    ensures var run := Execute(crypto, s.accounts, b.transactions);
            && BlockOutcome(crypto, s, b).0 == s.(accounts := Final(crypto, s.accounts, b.transactions[..run.applied]))
            && (forall m | run.applied < m <= |b.transactions| :: !Succeeds(crypto, s.accounts, b.transactions[..m]))
            && BlockOutcome(crypto, s, b).1 == (if run.error.Some? then run.error else Some(StateRootMismatch))
            && (run.error.None? ==> crypto.stateHash(run.accounts.balances, run.accounts.nonces) != b.header.stateRoot)
  {
    var run := Execute(crypto, s.accounts, b.transactions);
    LongestValidPrefix(crypto, s.accounts, b.transactions, 0);
    forall m | run.applied < m <= |b.transactions|
      ensures !Succeeds(crypto, s.accounts, b.transactions[..m])
    {
      LongestValidPrefix(crypto, s.accounts, b.transactions, m);
    }
  }

  lemma {:induction false} ReplayConcat(crypto: Crypto, s: Snapshot, a: seq<Block>, b: seq<Block>)
    ensures Replay(crypto, s, a + b) ==
            match Replay(crypto, s, a)
            case Err(e) => Err(e)
            case Ok(middle) => Replay(crypto, middle, b)
    decreases |a|
  {
    if a == [] {
      assert a + b == b;
    } else {
      assert (a + b)[1..] == a[1..] + b;
      ReplayConcat(crypto, BlockOutcome(crypto, s, a[0]).0, a[1..], b);
    }
  }

  /** A replayed chain is one execution of all its transactions; block boundaries leave no trace in the accounts. */
  lemma {:induction false} ReplayIsExecution(crypto: Crypto, s: Snapshot, blocks: seq<Block>)
    requires Replay(crypto, s, blocks).Ok?
    ensures Succeeds(crypto, s.accounts, Flatten(blocks))
    ensures Replay(crypto, s, blocks).value.accounts == Final(crypto, s.accounts, Flatten(blocks))
    decreases |blocks|
  {
    if blocks != [] {
      var next := BlockOutcome(crypto, s, blocks[0]).0;
      ReplayIsExecution(crypto, next, blocks[1..]);
      ExecuteConcat(crypto, s.accounts, blocks[0].transactions, Flatten(blocks[1..]));
    }
  }

  /** Every header of a replayed chain commits to the accounts at that point, and the tip is the last block's. */
  lemma {:induction false} ReplayedHeaders(crypto: Crypto, s: Snapshot, blocks: seq<Block>, k: nat)
    requires Replay(crypto, s, blocks).Ok? && k < |blocks|
    ensures Replay(crypto, s, blocks[..k + 1]).Ok?
    ensures var here := Replay(crypto, s, blocks[..k + 1]).value;
            && blocks[k].header.stateRoot == crypto.stateHash(here.accounts.balances, here.accounts.nonces)
            && here.accounts == Final(crypto, s.accounts, Flatten(blocks[..k + 1]))
            && here.tipHash == blocks[k].blockHash
            && here.height == blocks[k].header.blockNumber && here.lastSlot == blocks[k].header.slot
  {
    hide Replay, BlockOutcome, Final, Flatten, Execute;
    TakeSnoc(blocks, k);
    SplitSlices(blocks, k + 1);
    ReplayConcat(crypto, s, blocks[..k + 1], blocks[k + 1..]);
    ReplayConcat(crypto, s, blocks[..k], [blocks[k]]);
    ReplayIsExecution(crypto, s, blocks[..k + 1]);
    OneBlockReplay(crypto, Replay(crypto, s, blocks[..k]).value, blocks[k]);
  }

  lemma OneBlockReplay(crypto: Crypto, s: Snapshot, b: Block)
    ensures var r := Replay(crypto, s, [b]);
            r.Ok? ==>
              && b.header.stateRoot == StateRoot(crypto, r.value.accounts)
              && r.value.tipHash == b.blockHash
              && r.value.height == b.header.blockNumber && r.value.lastSlot == b.header.slot
  {
    hide Execute;
    assert [b][1..] == [];
  }

  lemma EmptyRun(crypto: Crypto, acc: Accounts)
    ensures Succeeds(crypto, acc, []) && Final(crypto, acc, []) == acc
  {
  }

  /** The first transaction of a successful run, and the run that follows it. */
  lemma FirstOfRun(crypto: Crypto, acc: Accounts, txs: seq<SignedTransaction>)
    requires txs != []
    ensures Succeeds(crypto, acc, txs) ==>
              && ValidationError(crypto, acc, txs[0]).None?
              && BalanceOf(acc, txs[0].transaction.from) >= txs[0].transaction.amount
              && NonceOf(acc, txs[0].transaction.from) == txs[0].transaction.nonce
              && Succeeds(crypto, Transfer(acc, txs[0].transaction), txs[1..])
              && Final(crypto, acc, txs) == Final(crypto, Transfer(acc, txs[0].transaction), txs[1..])
  {
    hide Transfer;
  }

  /** Every transaction of a replayed chain was signed by the owner of its source account, over its own hash. */
  lemma ReplayedAreAuthorized(crypto: Crypto, initial: map<Account, u64>, blocks: seq<Block>, i: nat)
    requires Replay(crypto, Genesis(initial), blocks).Ok? && i < |Flatten(blocks)|
    ensures var tx := Flatten(blocks)[i];
            && tx.txHash == crypto.txHash(tx.transaction)
            && tx.transaction.from == crypto.validatorAccount(tx.signerId)
            && crypto.verify(tx.signerId, tx.txHash, tx.signature) == Ok(true)
            && tx.transaction.amount <=
               BalanceOf(Final(crypto, Genesis(initial).accounts, Flatten(blocks)[..i]), tx.transaction.from)
  {
    hide Execute, Flatten, Replay, BalanceOf, Succeeds;
    var txs := Flatten(blocks);
    ReplayIsExecution(crypto, Genesis(initial), blocks);
    SplitRun(crypto, Genesis(initial).accounts, txs, i);
    FirstOfRun(crypto, Final(crypto, Genesis(initial).accounts, txs[..i]), txs[i..]);
    assert txs[i..][0] == txs[i];
  }

  // ---- Closed form and schedule independence ----

  function Credit(a: Account): SignedTransaction -> int {
    (tx: SignedTransaction) => if tx.transaction.to == a then tx.transaction.amount else 0
  }

  function Debit(a: Account): SignedTransaction -> int {
    (tx: SignedTransaction) =>
      if tx.transaction.from == a && tx.transaction.to != a then tx.transaction.amount else 0
  }

  function Sent(a: Account): SignedTransaction -> int {
    (tx: SignedTransaction) => if tx.transaction.from == a then 1 else 0
  }

  /** Two wrapped steps are one wrapped step. */
  lemma WrapChain(x: int, y: int, middle: u64, end: u64)
    requires middle == Wrap(x) && end == Wrap(middle + y)
    ensures end == Wrap(x + y)
  {
  }

  lemma WrapOnce(x: int)
    requires 0 <= x < 2 * U64_MODULUS
    ensures Wrap(x) == if x > U64_MAX then x - U64_MODULUS else x
  {
  }

  function Net(a: Account): SignedTransaction -> int {
    (tx: SignedTransaction) => Credit(a)(tx) - Debit(a)(tx)
  }

  lemma TransferEffect(acc: Accounts, tx: SignedTransaction, a: Account)
    requires BalanceOf(acc, tx.transaction.from) >= tx.transaction.amount
    ensures var next := Transfer(acc, tx.transaction);
            && BalanceOf(next, a) == Wrap(BalanceOf(acc, a) + Net(a)(tx))
            && NonceOf(next, a) == Wrap(NonceOf(acc, a) + Sent(a)(tx))
  {
    hide Wrap;
    assert Net(a)(tx) == Credit(a)(tx) - Debit(a)(tx);
    Unwrapped(BalanceOf(acc, a));
    Unwrapped(NonceOf(acc, a));
    Unwrapped(BalanceOf(acc, a) - tx.transaction.amount);
  }

  lemma Unwrapped(x: int)
    ensures 0 <= x <= U64_MAX ==> Wrap(x) == x
  {
  }

  lemma {:induction false} NetSplits(a: Account, txs: seq<SignedTransaction>)
    ensures SumBy(Net(a), txs) == SumBy(Credit(a), txs) - SumBy(Debit(a), txs)
  {
    if txs != [] {
      NetSplits(a, txs[1..]);
    }
  }

  lemma {:induction false} FinalBalance(crypto: Crypto, acc: Accounts, txs: seq<SignedTransaction>, a: Account)
    requires Succeeds(crypto, acc, txs)
    ensures BalanceOf(Final(crypto, acc, txs), a) == Wrap(BalanceOf(acc, a) + SumBy(Net(a), txs))
    decreases |txs|
  {
    hide Wrap, BalanceOf, Net, Transfer, Succeeds, Final, Execute, ValidationError;
    if txs == [] {
      EmptyRun(crypto, acc);
      Unwrapped(BalanceOf(acc, a));
    } else {
      FirstOfRun(crypto, acc, txs);
      var next := Transfer(acc, txs[0].transaction);
      TransferEffect(acc, txs[0], a);
      FinalBalance(crypto, next, txs[1..], a);
      WrapChain(BalanceOf(acc, a) + Net(a)(txs[0]), SumBy(Net(a), txs[1..]),
                BalanceOf(next, a), BalanceOf(Final(crypto, acc, txs), a));
    }
  }

  lemma {:induction false} FinalNonce(crypto: Crypto, acc: Accounts, txs: seq<SignedTransaction>, a: Account)
    requires Succeeds(crypto, acc, txs)
    ensures NonceOf(Final(crypto, acc, txs), a) == Wrap(NonceOf(acc, a) + SumBy(Sent(a), txs))
    decreases |txs|
  {
    hide Wrap, BalanceOf, NonceOf, Sent, Transfer, Succeeds, Final, Execute, ValidationError;
    if txs == [] {
      EmptyRun(crypto, acc);
      Unwrapped(NonceOf(acc, a));
    } else {
      FirstOfRun(crypto, acc, txs);
      var next := Transfer(acc, txs[0].transaction);
      TransferEffect(acc, txs[0], a);
      FinalNonce(crypto, next, txs[1..], a);
      WrapChain(NonceOf(acc, a) + Sent(a)(txs[0]), SumBy(Sent(a), txs[1..]),
                NonceOf(next, a), NonceOf(Final(crypto, acc, txs), a));
    }
  }

  /** Final balances and nonces of a successful run, account by account, without running it. */
  lemma ClosedForm(crypto: Crypto, acc: Accounts, txs: seq<SignedTransaction>, a: Account)
    requires Succeeds(crypto, acc, txs)
    ensures var end := Final(crypto, acc, txs);
            && BalanceOf(end, a) == Wrap(BalanceOf(acc, a) + SumBy(Credit(a), txs) - SumBy(Debit(a), txs))
            && NonceOf(end, a) == Wrap(NonceOf(acc, a) + SumBy(Sent(a), txs))
  {
    NetSplits(a, txs);
    FinalBalance(crypto, acc, txs, a);
    FinalNonce(crypto, acc, txs, a);
  }

  ghost predicate Touches(txs: seq<SignedTransaction>, a: Account) {
    exists tx :: tx in txs && (tx.transaction.from == a || tx.transaction.to == a)
  }

  ghost predicate Sends(txs: seq<SignedTransaction>, a: Account) {
    exists tx :: tx in txs && tx.transaction.from == a
  }

  /** The accounts on record after a successful run. */
  lemma {:induction false} RecordedAccounts(crypto: Crypto, acc: Accounts, txs: seq<SignedTransaction>, a: Account)
    requires Succeeds(crypto, acc, txs)
    ensures a in Final(crypto, acc, txs).balances <==> a in acc.balances || Touches(txs, a)
    ensures a in Final(crypto, acc, txs).nonces <==> a in acc.nonces || Sends(txs, a)
    decreases |txs|
  {
    if txs != [] {
      RecordedAccounts(crypto, Transfer(acc, txs[0].transaction), txs[1..], a);
      assert forall tx :: tx in txs <==> tx == txs[0] || tx in txs[1..];
    }
  }

  lemma SameFinalAmounts(
    crypto: Crypto, acc: Accounts, a: seq<SignedTransaction>, b: seq<SignedTransaction>, x: Account
  )
    requires Succeeds(crypto, acc, a) && Succeeds(crypto, acc, b)
    requires multiset(a) == multiset(b)
    ensures BalanceOf(Final(crypto, acc, a), x) == BalanceOf(Final(crypto, acc, b), x)
    ensures NonceOf(Final(crypto, acc, a), x) == NonceOf(Final(crypto, acc, b), x)
  {
    hide *;
    FinalBalance(crypto, acc, a, x);
    FinalBalance(crypto, acc, b, x);
    FinalNonce(crypto, acc, a, x);
    FinalNonce(crypto, acc, b, x);
    SumPermutation(Net(x), a, b);
    SumPermutation(Sent(x), a, b);
  }

  lemma SameRecordedAccounts(
    crypto: Crypto, acc: Accounts, a: seq<SignedTransaction>, b: seq<SignedTransaction>, x: Account
  )
    requires Succeeds(crypto, acc, a) && Succeeds(crypto, acc, b)
    requires multiset(a) == multiset(b)
    ensures x in Final(crypto, acc, a).balances <==> x in Final(crypto, acc, b).balances
    ensures x in Final(crypto, acc, a).nonces <==> x in Final(crypto, acc, b).nonces
  {
    RecordedAccounts(crypto, acc, a, x);
    RecordedAccounts(crypto, acc, b, x);
    assert forall tx :: tx in a <==> tx in multiset(a);
    assert forall tx :: tx in b <==> tx in multiset(b);
  }

  /** Equal transaction multisets lead to equal accounts. */
  lemma OrderIndependence(crypto: Crypto, acc: Accounts, a: seq<SignedTransaction>, b: seq<SignedTransaction>)
    requires Succeeds(crypto, acc, a) && Succeeds(crypto, acc, b)
    requires multiset(a) == multiset(b)
    ensures Final(crypto, acc, a) == Final(crypto, acc, b)
  {
    var endA, endB := Final(crypto, acc, a), Final(crypto, acc, b);
    forall x: Account
      ensures (x in endA.balances <==> x in endB.balances) && Get(endA.balances, x) == Get(endB.balances, x)
      ensures (x in endA.nonces <==> x in endB.nonces) && Get(endA.nonces, x) == Get(endB.nonces, x)
    {
      SameRecordedAccounts(crypto, acc, a, b, x);
      SameFinalAmounts(crypto, acc, a, b, x);
    }
    MapsAgree(endA.balances, endB.balances);
    MapsAgree(endA.nonces, endB.nonces);
  }

  lemma MapsAgree(m: map<Account, u64>, n: map<Account, u64>)
    requires forall x: Account :: (x in m <==> x in n) && Get(m, x) == Get(n, x)
    ensures m == n
  {
    forall x | x in m ensures m[x] == n[x] {
      assert Get(m, x) == Get(n, x);
    }
  }

  /** Two chains from one genesis that carry the same transactions end in the same state root. */
  lemma ScheduleIndependence(crypto: Crypto, initial: map<Account, u64>, a: seq<Block>, b: seq<Block>)
    requires Replay(crypto, Genesis(initial), a).Ok? && Replay(crypto, Genesis(initial), b).Ok?
    requires multiset(Flatten(a)) == multiset(Flatten(b))
    ensures var endA, endB := Replay(crypto, Genesis(initial), a).value, Replay(crypto, Genesis(initial), b).value;
            endA.accounts == endB.accounts && StateRoot(crypto, endA.accounts) == StateRoot(crypto, endB.accounts)
  {
    ReplayIsExecution(crypto, Genesis(initial), a);
    ReplayIsExecution(crypto, Genesis(initial), b);
    OrderIndependence(crypto, Genesis(initial).accounts, Flatten(a), Flatten(b));
  }

  // ---- Nonces ----

  /** The transaction at position i carries its sender's start nonce plus the number it sent before. */
  lemma NonceAtPosition(crypto: Crypto, acc: Accounts, txs: seq<SignedTransaction>, i: nat)
    requires Succeeds(crypto, acc, txs) && i < |txs|
    ensures var a := txs[i].transaction.from;
            txs[i].transaction.nonce == Wrap(NonceOf(acc, a) + SumBy(Sent(a), txs[..i]))
  {
    hide *;
    SplitRun(crypto, acc, txs, i);
    FirstOfRun(crypto, Final(crypto, acc, txs[..i]), txs[i..]);
    FinalNonce(crypto, acc, txs[..i], txs[i].transaction.from);
    assert txs[i..][0] == txs[i];
  }

  /** Both parts of a successful run succeed, the second from where the first ended. */
  lemma SplitRun(crypto: Crypto, acc: Accounts, txs: seq<SignedTransaction>, i: nat)
    requires Succeeds(crypto, acc, txs) && i <= |txs|
    ensures Succeeds(crypto, acc, txs[..i]) && Succeeds(crypto, Final(crypto, acc, txs[..i]), txs[i..])
  {
    hide Execute;
    SplitSlices(txs, i);
    ExecuteConcat(crypto, acc, txs[..i], txs[i..]);
  }

  /** From genesis every account's accepted nonces are 0, 1, 2, ... and the stored nonce is their number. */
  lemma NonceContiguity(crypto: Crypto, initial: map<Account, u64>, blocks: seq<Block>, a: Account, i: nat)
    requires Replay(crypto, Genesis(initial), blocks).Ok?
    ensures var txs := Flatten(blocks);
            && NonceOf(Replay(crypto, Genesis(initial), blocks).value.accounts, a) == Wrap(SumBy(Sent(a), txs))
            && (i < |txs| && txs[i].transaction.from == a ==>
                  txs[i].transaction.nonce == Wrap(SumBy(Sent(a), txs[..i])))
  {
    hide Wrap, Sent, Flatten, Execute;
    var txs := Flatten(blocks);
    ReplayIsExecution(crypto, Genesis(initial), blocks);
    ClosedForm(crypto, Genesis(initial).accounts, txs, a);
    if i < |txs| && txs[i].transaction.from == a {
      NonceAtPosition(crypto, Genesis(initial).accounts, txs, i);
    }
  }

  lemma {:induction false} SentBounds(a: Account, txs: seq<SignedTransaction>)
    ensures 0 <= SumBy(Sent(a), txs) <= |txs|
  {
    if txs != [] {
      SentBounds(a, txs[1..]);
    }
  }

  lemma SentGrows(a: Account, txs: seq<SignedTransaction>, i: nat, j: nat)
    requires i < j <= |txs| && txs[i].transaction.from == a
    ensures 0 <= SumBy(Sent(a), txs[..i]) < SumBy(Sent(a), txs[..j]) <= j
  {
    assert txs[..j] == (txs[..i] + [txs[i]]) + txs[i + 1..j];
    SumConcat(Sent(a), txs[..i] + [txs[i]], txs[i + 1..j]);
    SumSnoc(Sent(a), txs[..i], txs[i]);
    SentBounds(a, txs[..i]);
    SentBounds(a, txs[..j]);
    SentBounds(a, txs[i + 1..j]);
  }

  /** No (sender, nonce) pair is accepted twice, on any chain short enough for nonces not to wrap. */
  lemma NoNonceReuse(crypto: Crypto, initial: map<Account, u64>, blocks: seq<Block>, i: nat, j: nat)
    requires Replay(crypto, Genesis(initial), blocks).Ok?
    requires i < j < |Flatten(blocks)| <= U64_MODULUS
    requires Flatten(blocks)[i].transaction.from == Flatten(blocks)[j].transaction.from
    ensures Flatten(blocks)[i].transaction.nonce != Flatten(blocks)[j].transaction.nonce
  {
    var txs := Flatten(blocks);
    var a := txs[i].transaction.from;
    NonceContiguity(crypto, initial, blocks, a, i);
    NonceContiguity(crypto, initial, blocks, a, j);
    SentGrows(a, txs, i, j);
    WrapOnce(SumBy(Sent(a), txs[..i]));
    WrapOnce(SumBy(Sent(a), txs[..j]));
  }

  // ---- When execution and replay succeed ----

  /**
   The transaction at a position carries its own hash, comes from its signer's account, bears a verified
   signature, the sender's next nonce, and no more than the sender's balance at that point.
   */
  ghost predicate Acceptable(crypto: Crypto, acc: Accounts, txs: seq<SignedTransaction>, i: nat)
    requires i < |txs|
  {
    var tx, t := txs[i], txs[i].transaction;
    && crypto.txHash(t) == tx.txHash
    && t.from == crypto.validatorAccount(tx.signerId)
    && crypto.verify(tx.signerId, tx.txHash, tx.signature) == Ok(true)
    && t.nonce == Wrap(NonceOf(acc, t.from) + SumBy(Sent(t.from), txs[..i]))
    && t.amount <= Wrap(BalanceOf(acc, t.from) + SumBy(Net(t.from), txs[..i]))
  }

  lemma ValidIff(crypto: Crypto, acc: Accounts, tx: SignedTransaction)
    ensures ValidationError(crypto, acc, tx).None? <==>
            && crypto.txHash(tx.transaction) == tx.txHash
            && tx.transaction.from == crypto.validatorAccount(tx.signerId)
            && crypto.verify(tx.signerId, tx.txHash, tx.signature) == Ok(true)
            && tx.transaction.nonce == NonceOf(acc, tx.transaction.from)
            && tx.transaction.amount <= BalanceOf(acc, tx.transaction.from)
  {
    hide BalanceOf, NonceOf;
  }

  /** A run with one transaction more succeeds when it did before and that transaction is acceptable. */
  lemma SucceedsSnoc(crypto: Crypto, acc: Accounts, front: seq<SignedTransaction>, tx: SignedTransaction)
    ensures Succeeds(crypto, acc, front + [tx]) <==>
            Succeeds(crypto, acc, front) && Acceptable(crypto, acc, front + [tx], |front|)
  {
    hide Transfer, ValidationError, BalanceOf, NonceOf, Wrap, Net, Sent;
    ExecuteConcat(crypto, acc, front, [tx]);
    assert (front + [tx])[..|front|] == front && [tx][1..] == [];
    if Succeeds(crypto, acc, front) {
      var a := tx.transaction.from;
      ValidIff(crypto, Final(crypto, acc, front), tx);
      OneTransaction(crypto, Final(crypto, acc, front), [tx]);
      NoTransaction(crypto, Final(crypto, acc, front));
      if ValidationError(crypto, Final(crypto, acc, front), tx).None? {
        NoTransaction(crypto, Transfer(Final(crypto, acc, front), tx.transaction));
      }
      FinalBalance(crypto, acc, front, a);
      FinalNonce(crypto, acc, front, a);
    }
  }

  lemma AcceptableInFront(crypto: Crypto, acc: Accounts, txs: seq<SignedTransaction>, n: nat, i: nat)
    requires i < n <= |txs|
    ensures Acceptable(crypto, acc, txs[..n], i) <==> Acceptable(crypto, acc, txs, i)
  {
    hide Wrap, Net, Sent, NonceOf, BalanceOf;
    assert txs[..n][..i] == txs[..i];
  }

  /** Execution succeeds exactly when every transaction is acceptable where it stands. */
  lemma {:induction false} SucceedsIff(crypto: Crypto, acc: Accounts, txs: seq<SignedTransaction>)
    ensures Succeeds(crypto, acc, txs) <==> forall i :: 0 <= i < |txs| ==> Acceptable(crypto, acc, txs, i)
    decreases |txs|
  {
    hide Acceptable, Succeeds;
    if txs == [] {
      EmptyRun(crypto, acc);
    } else {
      var n := |txs| - 1;
      TakeSnoc(txs, n);
      assert txs[..n + 1] == txs;
      SucceedsIff(crypto, acc, txs[..n]);
      SucceedsSnoc(crypto, acc, txs[..n], txs[n]);
      forall i: nat | i < n ensures Acceptable(crypto, acc, txs[..n], i) <==> Acceptable(crypto, acc, txs, i) {
        AcceptableInFront(crypto, acc, txs, n, i);
      }
    }
  }

  /** The header of block k commits to the accounts after it. */
  ghost predicate RootMatches(crypto: Crypto, s: Snapshot, blocks: seq<Block>, k: nat)
    requires k < |blocks|
  {
    var end := Final(crypto, s.accounts, Flatten(blocks[..k + 1]));
    crypto.stateHash(end.balances, end.nonces) == blocks[k].header.stateRoot
  }

  lemma {:induction false} FlattenSnoc(blocks: seq<Block>, b: Block)
    ensures Flatten(blocks + [b]) == Flatten(blocks) + b.transactions
  {
    if blocks == [] {
      assert [b] == [] + [b] && [b][1..] == [];
      assert Flatten([b]) == b.transactions + Flatten([]);
    } else {
      assert (blocks + [b])[1..] == blocks[1..] + [b];
      FlattenSnoc(blocks[1..], b);
    }
  }

  lemma BlockAppliesIff(crypto: Crypto, s: Snapshot, b: Block)
    ensures Replay(crypto, s, [b]).Ok? <==>
            && Succeeds(crypto, s.accounts, b.transactions)
            && var end := Final(crypto, s.accounts, b.transactions);
               crypto.stateHash(end.balances, end.nonces) == b.header.stateRoot
  {
    hide Execute;
    assert [b][1..] == [];
  }

  lemma ReplaySnoc(crypto: Crypto, s: Snapshot, front: seq<Block>, b: Block)
    ensures Replay(crypto, s, front + [b]).Ok? <==>
            && Replay(crypto, s, front).Ok?
            && Succeeds(crypto, s.accounts, Flatten(front + [b]))
            && RootMatches(crypto, s, front + [b], |front|)
  {
    hide Replay, Execute, Flatten, BlockOutcome;
    ReplayConcat(crypto, s, front, [b]);
    FlattenSnoc(front, b);
    assert (front + [b])[..|front| + 1] == front + [b];
    if Replay(crypto, s, front).Ok? {
      ReplayIsExecution(crypto, s, front);
      ExecuteConcat(crypto, s.accounts, Flatten(front), b.transactions);
      BlockAppliesIff(crypto, Replay(crypto, s, front).value, b);
    }
  }

  lemma {:induction false} ReplaySucceeds(crypto: Crypto, s: Snapshot, blocks: seq<Block>)
    ensures Replay(crypto, s, blocks).Ok? <==>
            && Succeeds(crypto, s.accounts, Flatten(blocks))
            && forall k :: 0 <= k < |blocks| ==> RootMatches(crypto, s, blocks, k)
    decreases |blocks|
  {
    hide Execute, RootMatches, Succeeds;
    if blocks == [] {
      EmptyRun(crypto, s.accounts);
    } else {
      var n := |blocks| - 1;
      TakeSnoc(blocks, n);
      assert blocks[..n + 1] == blocks;
      ReplaySucceeds(crypto, s, blocks[..n]);
      ReplaySnoc(crypto, s, blocks[..n], blocks[n]);
      FlattenSnoc(blocks[..n], blocks[n]);
      PrefixSucceeds(crypto, s.accounts, Flatten(blocks[..n]), blocks[n].transactions);
      forall k: nat | k < n ensures RootMatches(crypto, s, blocks[..n], k) <==> RootMatches(crypto, s, blocks, k) {
        RootInFront(crypto, s, blocks, n, k);
      }
    }
  }

  lemma RootInFront(crypto: Crypto, s: Snapshot, blocks: seq<Block>, n: nat, k: nat)
    requires k < n <= |blocks|
    ensures RootMatches(crypto, s, blocks[..n], k) <==> RootMatches(crypto, s, blocks, k)
  {
    hide Final, Flatten;
    assert blocks[..n][..k + 1] == blocks[..k + 1];
  }

  lemma PrefixSucceeds(crypto: Crypto, acc: Accounts, a: seq<SignedTransaction>, b: seq<SignedTransaction>)
    ensures Succeeds(crypto, acc, a + b) ==> Succeeds(crypto, acc, a)
  {
    hide Execute;
    ExecuteConcat(crypto, acc, a, b);
  }

  /**
   A chain replays exactly when every transaction, in the order of the whole chain, is acceptable, and
   every header holds the state hash of the accounts after its block.
   */
  lemma ReplaySucceedsIff(crypto: Crypto, initial: map<Account, u64>, blocks: seq<Block>)
    ensures var txs := Flatten(blocks);
            Replay(crypto, Genesis(initial), blocks).Ok? <==>
            && (forall i :: 0 <= i < |txs| ==> Acceptable(crypto, Accounts(initial, map[]), txs, i))
            && forall k :: 0 <= k < |blocks| ==> RootMatches(crypto, Genesis(initial), blocks, k)
  {
    hide Replay, Succeeds, Acceptable, RootMatches, Flatten;
    ReplaySucceeds(crypto, Genesis(initial), blocks);
    SucceedsIff(crypto, Accounts(initial, map[]), Flatten(blocks));
  }

  /** Which error a refused transaction gets: that of the first check it fails, in the order of the source. */
  lemma FirstFailingCheck(crypto: Crypto, acc: Accounts, tx: SignedTransaction)
    ensures var t, error := tx.transaction, ValidationError(crypto, acc, tx);
            var hashed := crypto.txHash(t) == tx.txHash;
            var sourced := hashed && t.from == crypto.validatorAccount(tx.signerId);
            var verdict := crypto.verify(tx.signerId, tx.txHash, tx.signature);
            var signed := sourced && verdict == Ok(true);
            var funded := signed && t.amount <= Get(acc.balances, t.from);
            && (error == Some(HashMismatch) <==> !hashed)
            && (error == Some(SourceMismatch) <==> hashed && !sourced)
            && (forall reason :: error == Some(VerifierFailed(reason)) <==> sourced && verdict == Err(reason))
            && (error == Some(BadSignature) <==> sourced && verdict == Ok(false))
            && (error == Some(InsufficientBalance) <==> signed && !funded)
            && (error == Some(UnexpectedNonce) <==> funded && t.nonce != Get(acc.nonces, t.from))
            && (error.None? <==> funded && t.nonce == Get(acc.nonces, t.from))
  {
  }

  /** A chain that does not replay stops at its first failing block, with that block's error. */
  lemma {:induction false} FirstFailingBlock(crypto: Crypto, s: Snapshot, blocks: seq<Block>, k: nat, e: LedgerError)
    requires k < |blocks| && Replay(crypto, s, blocks[..k]).Ok?
    requires BlockOutcome(crypto, Replay(crypto, s, blocks[..k]).value, blocks[k]).1 == Some(e)
    ensures Replay(crypto, s, blocks) == Err(e)
  {
    hide BlockOutcome;
    SplitSlices(blocks, k);
    ReplayConcat(crypto, s, blocks[..k], blocks[k..]);
    assert blocks[k..][0] == blocks[k];
  }

  // ---- Supply ----

  ghost function Total(m: map<Account, u64>): nat {
    if m == map[] then 0 else var a :| a in m; m[a] + Total(m - {a})
  }

  lemma {:induction false} TotalRemove(m: map<Account, u64>, a: Account)
    requires a in m
    ensures Total(m) == m[a] + Total(m - {a})
    decreases m.Keys
  {
    var b :| b in m && Total(m) == m[b] + Total(m - {b});
    if a != b {
      TotalRemove(m - {b}, a);
      TotalRemove(m - {a}, b);
      assert (m - {b}) - {a} == (m - {a}) - {b};
    }
  }

  lemma TotalUpdate(m: map<Account, u64>, a: Account, v: u64)
    ensures Total(m[a := v]) == Total(m) - Get(m, a) + v
    ensures Get(m, a) <= Total(m)
  {
    TotalRemove(m[a := v], a);
    assert m[a := v] - {a} == m - {a};
    if a in m {
      TotalRemove(m, a);
    } else {
      assert m - {a} == m;
    }
  }

  predicate Overflows(acc: Accounts, t: Transaction) {
    BalanceOf(acc, t.to) + t.amount > U64_MAX
  }

  function Minted(): SignedTransaction -> int {
    (tx: SignedTransaction) =>
      if tx.transaction.from == tx.transaction.to then tx.transaction.amount else 0
  }

  /** Balance additions of a run that exceeded 64 bits. */
  function Overflowing(crypto: Crypto, acc: Accounts, txs: seq<SignedTransaction>): nat
    decreases |txs|
  {
    if txs == [] || ValidationError(crypto, acc, txs[0]).Some? then 0
    else (if Overflows(acc, txs[0].transaction) then 1 else 0)
         + Overflowing(crypto, Transfer(acc, txs[0].transaction), txs[1..])
  }

  lemma TransferTotal(acc: Accounts, t: Transaction)
    requires BalanceOf(acc, t.from) >= t.amount
    ensures Total(Transfer(acc, t).balances) ==
            Total(acc.balances) + (if t.from == t.to then t.amount else 0)
            - (if Overflows(acc, t) then U64_MODULUS else 0)
  {
    hide Wrap, Total;
    var debit := BalanceOf(acc, t.from) - t.amount;
    var debited := acc.balances[t.from := debit];
    var received := Wrap(BalanceOf(acc, t.to) + t.amount);
    WrapOnce(BalanceOf(acc, t.to) + t.amount);
    TotalUpdate(acc.balances, t.from, debit);
    TotalUpdate(debited, t.to, received);
  }

  lemma TwoBalances(m: map<Account, u64>, a: Account, b: Account)
    requires a != b
    ensures Get(m, a) + Get(m, b) <= Total(m)
  {
    TotalUpdate(m, a, 0);
    TotalUpdate(m[a := 0], b, 0);
  }

  lemma OverflowNeedsSupply(acc: Accounts, t: Transaction)
    requires BalanceOf(acc, t.from) >= t.amount && Overflows(acc, t)
    ensures Total(acc.balances) + (if t.from == t.to then t.amount else 0) > U64_MAX
  {
    if t.from == t.to {
      TotalUpdate(acc.balances, t.to, 0);
    } else {
      TwoBalances(acc.balances, t.from, t.to);
    }
  }

  /** Supply moves by exactly the self-transfers, less 2^64 for every addition that overflowed. */
  lemma {:induction false} ExactSupply(crypto: Crypto, acc: Accounts, txs: seq<SignedTransaction>)
    requires Succeeds(crypto, acc, txs)
    ensures Total(Final(crypto, acc, txs).balances) + U64_MODULUS * Overflowing(crypto, acc, txs) ==
            Total(acc.balances) + SumBy(Minted(), txs)
    decreases |txs|
  {
    if txs != [] {
      TransferTotal(acc, txs[0].transaction);
      ExactSupply(crypto, Transfer(acc, txs[0].transaction), txs[1..]);
    }
  }

  /** Below 2^64 - 1 units, self-transfers counted, no balance addition of the run overflows. */
  lemma {:induction false} NoOverflow(crypto: Crypto, acc: Accounts, txs: seq<SignedTransaction>)
    requires Succeeds(crypto, acc, txs)
    requires Total(acc.balances) + SumBy(Minted(), txs) <= U64_MAX
    ensures Overflowing(crypto, acc, txs) == 0
    decreases |txs|
  {
    if txs != [] {
      TransferTotal(acc, txs[0].transaction);
      if Overflows(acc, txs[0].transaction) {
        OverflowNeedsSupply(acc, txs[0].transaction);
      }
      SumNonNegative(Minted(), txs[1..]);
      NoOverflow(crypto, Transfer(acc, txs[0].transaction), txs[1..]);
    }
  }

  lemma {:induction false} MintedZero(txs: seq<SignedTransaction>)
    ensures SumBy(Minted(), txs) >= 0
    ensures SumBy(Minted(), txs) == 0 <==>
            forall tx :: tx in txs && tx.transaction.from == tx.transaction.to ==> tx.transaction.amount == 0
  {
    if txs != [] {
      MintedZero(txs[1..]);
      assert forall tx :: tx in txs <==> tx == txs[0] || tx in txs[1..];
    }
  }

  /**
   A chain conserves supply exactly when its self-transfers make up for what overflowed: when they fit
   64 bits together with the supply, exactly when it holds no self-transfer of a positive amount.
   */
  lemma ConservationIffNoSelfTransfer(crypto: Crypto, initial: map<Account, u64>, blocks: seq<Block>)
    requires Replay(crypto, Genesis(initial), blocks).Ok?
    ensures var txs := Flatten(blocks);
            var conserved := Total(Replay(crypto, Genesis(initial), blocks).value.accounts.balances) == Total(initial);
            && (conserved <==>
                SumBy(Minted(), txs) == U64_MODULUS * Overflowing(crypto, Genesis(initial).accounts, txs))
            && (Total(initial) + SumBy(Minted(), txs) <= U64_MAX ==>
                  (conserved <==>
                   forall tx :: tx in txs && tx.transaction.from == tx.transaction.to ==> tx.transaction.amount == 0))
  {
    hide Execute, Overflowing;
    var txs := Flatten(blocks);
    ReplayIsExecution(crypto, Genesis(initial), blocks);
    ExactSupply(crypto, Genesis(initial).accounts, txs);
    if Total(initial) + SumBy(Minted(), txs) <= U64_MAX {
      NoOverflow(crypto, Genesis(initial).accounts, txs);
      MintedZero(txs);
    }
  }

  /** A block whose only transaction moves an account's whole balance to itself. */
  function SelfTransferBlock(crypto: Crypto, id: ValidatorId, amount: u64, signature: TypedSignature): Block
    requires 2 * amount <= U64_MAX
  {
    var a := crypto.validatorAccount(id);
    var t := Transaction(a, a, amount, 0, None);
    var root := crypto.stateHash(map[a := 2 * amount], map[a := 1]);
    Block(BlockHeader(1, 1, root), [SignedTransaction(t, id, signature, crypto.txHash(t), 0)], root)
  }

  /** The failing case: a chain that replays, after which the one account holds twice the supply. */
  lemma SelfTransferDoubles(crypto: Crypto, id: ValidatorId, amount: u64, signature: TypedSignature)
    requires 2 * amount <= U64_MAX
    requires var tx := SelfTransferBlock(crypto, id, amount, signature).transactions[0];
             crypto.verify(id, tx.txHash, signature) == Ok(true)
    ensures var initial := map[crypto.validatorAccount(id) := amount];
            var end := Replay(crypto, Genesis(initial), [SelfTransferBlock(crypto, id, amount, signature)]);
            && end.Ok? && Total(initial) == amount
            && end.value.accounts.balances == map[crypto.validatorAccount(id) := 2 * amount]
            && Total(end.value.accounts.balances) == 2 * amount
  {
    var a, b := crypto.validatorAccount(id), SelfTransferBlock(crypto, id, amount, signature);
    var start := Genesis(map[a := amount]);
    SingleTotal(a, amount);
    SingleTotal(a, 2 * amount);
    var after := Transfer(start.accounts, b.transactions[0].transaction);
    assert after == Accounts(map[a := 2 * amount], map[a := 1]);
    assert Execute(crypto, after, b.transactions[1..]) == Execution(after, 0, None);
    assert BlockOutcome(crypto, start, b).1.None?;
    assert Replay(crypto, BlockOutcome(crypto, start, b).0, [b][1..]).Ok?;
  }

  lemma SingleTotal(a: Account, amount: u64)
    ensures Total(map[a := amount]) == amount
  {
    var m := map[a := amount];
    TotalRemove(m, a);
    assert m - {a} == map[];
  }
}
