/** The mock sBTC token: SIP-010 transfers with allowances. */
module Token {
  import opened Constants

  type Principal = string

  type Uint = x: nat | x < TWO_TO_THE_128

  /** The contract's error codes, the ones of Clarity's ft functions, and a runtime abort. */
  datatype Outcome = Done | NotAuthorized | NonPositiveAmount | SenderIsRecipient | NotEnoughBalance | Overflow

  datatype Ledger = Ledger(balances: map<Principal, Uint>, supply: Uint, allowances: map<(Principal, Principal), Uint>)

  function Balance(balances: map<Principal, Uint>, p: Principal): Uint {
    if p in balances then balances[p] else 0
  }

  function Allowance(allowances: map<(Principal, Principal), Uint>, owner: Principal, spender: Principal): Uint {
    if (owner, spender) in allowances then allowances[(owner, spender)] else 0
  }

  datatype Call =
    | Mint(caller: Principal, amount: Uint, to: Principal)
    | Transfer(txSender: Principal, contractCaller: Principal, amount: Uint, sender: Principal, recipient: Principal)
    | Approve(approver: Principal, spender: Principal, allowance: Uint)

  /** Neither the transaction's sender nor the calling contract is the account that pays. */
  predicate ThirdParty(c: Call)
    requires c.Transfer?
  {
    c.txSender != c.sender && c.contractCaller != c.sender
  }

  /** Clarity's ft-transfer?. */
  function FtTransfer(balances: map<Principal, Uint>, amount: Uint, sender: Principal, recipient: Principal)
    : (map<Principal, Uint>, Outcome)
  {
    if amount == 0 then (balances, NonPositiveAmount)
    else if sender == recipient then (balances, SenderIsRecipient)
    else if Balance(balances, sender) < amount then (balances, NotEnoughBalance)
    else if Balance(balances, recipient) + amount >= TWO_TO_THE_128 then (balances, Overflow)
    else
      var debited := balances[sender := Balance(balances, sender) - amount];
      (debited[recipient := Balance(balances, recipient) + amount], Done)
  }

  /** What a call leaves behind. Clarity undoes everything a failing call did. */
  function Apply(contractOwner: Principal, l: Ledger, c: Call): (Ledger, Outcome) {
    match c
    case Mint(caller, amount, to) =>
      if caller != contractOwner then (l, NotAuthorized)
      else if amount == 0 then (l, NonPositiveAmount)
      else if l.supply + amount >= TWO_TO_THE_128 || Balance(l.balances, to) + amount >= TWO_TO_THE_128 then
        (l, Overflow)
      else (l.(balances := l.balances[to := Balance(l.balances, to) + amount], supply := l.supply + amount), Done)
    case Transfer(txSender, contractCaller, amount, sender, recipient) =>
      var current := Allowance(l.allowances, sender, txSender);
      if ThirdParty(c) && current < amount then (l, NotAuthorized)
      else
        var (balances, outcome) := FtTransfer(l.balances, amount, sender, recipient);
        if outcome != Done then (l, outcome)
        else
          var allowances :=
            if ThirdParty(c) then l.allowances[(sender, txSender) := current - amount] else l.allowances;
          (l.(balances := balances, allowances := allowances), Done)
    case Approve(approver, spender, allowance) =>
      (l.(allowances := l.allowances[(approver, spender) := allowance]), Done)
  }

  class SbtcToken {
    const contractOwner: Principal
    var balances: map<Principal, Uint>
    var supply: Uint
    var allowances: map<(Principal, Principal), Uint>

    function View(): Ledger
      reads this
    {
      Ledger(balances, supply, allowances)
    }

    constructor (contractOwner: Principal)
      ensures this.contractOwner == contractOwner && View() == Ledger(map[], 0, map[])
    {
      this.contractOwner := contractOwner;
      balances, supply, allowances := map[], 0, map[];
    }

    method MintTo(caller: Principal, amount: Uint, to: Principal) returns (r: Outcome)
      modifies this
      ensures (View(), r) == Apply(contractOwner, old(View()), Mint(caller, amount, to))
    {
      if caller != contractOwner {
        return NotAuthorized;
      }
      if amount == 0 {
        return NonPositiveAmount;
      }
      if supply + amount >= TWO_TO_THE_128 || Balance(balances, to) + amount >= TWO_TO_THE_128 {
        return Overflow;
      }
      supply := supply + amount;
      balances := balances[to := Balance(balances, to) + amount];
      r := Done;
    }

    /** The allowance is lowered before the tokens move; when they do not move, the call's effects are rolled back. */
    method TransferTokens(txSender: Principal, contractCaller: Principal, amount: Uint, sender: Principal,
                          recipient: Principal)
      returns (r: Outcome)
      modifies this
      ensures var call := Transfer(txSender, contractCaller, amount, sender, recipient);
              (View(), r) == Apply(contractOwner, old(View()), call)
    {
      var currentAllowance := Allowance(allowances, sender, txSender);
      if !(txSender == sender || contractCaller == sender || currentAllowance >= amount) {
        return NotAuthorized;
      }
      var savedAllowances := allowances;
      if txSender != sender && contractCaller != sender {
        allowances := allowances[(sender, txSender) := currentAllowance - amount];
      }
      var (moved, outcome) := FtTransfer(balances, amount, sender, recipient);
      if outcome != Done {
        allowances := savedAllowances;
        return outcome;
      }
      balances := moved;
      r := Done;
    }

    method ApproveSpender(approver: Principal, spender: Principal, allowance: Uint) returns (r: Outcome)
      modifies this
      ensures (View(), r) == Apply(contractOwner, old(View()), Approve(approver, spender, allowance))
    {
      allowances := allowances[(approver, spender) := allowance];
      r := Done;
    }
  }

  // ------------------------------------------------------------------
  // Conservation
  // ------------------------------------------------------------------

  /** The sum of all balances. */
  ghost function Total(m: map<Principal, Uint>): nat
    decreases |m|
  {
    if m == map[] then 0
    else
      assert m.Keys != {};
      var p :| p in m;
      assert |m - {p}| < |m| by { assert (m - {p}).Keys == m.Keys - {p}; }
      m[p] + Total(m - {p})
  }

  lemma {:induction false} TotalPick(m: map<Principal, Uint>, p: Principal)
    requires p in m
    ensures Total(m) == m[p] + Total(m - {p})
    decreases |m|
  {
    var q :| q in m && Total(m) == m[q] + Total(m - {q});
    if q != p {
      assert (m - {q}).Keys == m.Keys - {q};
      assert (m - {p}).Keys == m.Keys - {p};
      TotalPick(m - {q}, p);
      TotalPick(m - {p}, q);
      assert m - {q} - {p} == m - {p} - {q};
    }
  }

  lemma TotalUpdate(m: map<Principal, Uint>, p: Principal, v: Uint)
    ensures Total(m[p := v]) == Total(m) - Balance(m, p) + v
  {
    TotalPick(m[p := v], p);
    assert m[p := v] - {p} == m - {p};
    if p in m {
      TotalPick(m, p);
    } else {
      assert m - {p} == m;
    }
  }

  lemma {:induction false} BalanceWithinTotal(m: map<Principal, Uint>, p: Principal)
    ensures Balance(m, p) <= Total(m)
  {
    if p in m { TotalPick(m, p); }
  }

  /** Every balance is accounted for by the supply. */
  ghost predicate Conserved(l: Ledger) {
    Total(l.balances) == l.supply
  }

  lemma MovesConserve(balances: map<Principal, Uint>, amount: Uint, sender: Principal, recipient: Principal)
    ensures Total(FtTransfer(balances, amount, sender, recipient).0) == Total(balances)
  {
    hide Total;
    if FtTransfer(balances, amount, sender, recipient).1 == Done {
      var debited := balances[sender := Balance(balances, sender) - amount];
      TotalUpdate(balances, sender, Balance(balances, sender) - amount);
      TotalUpdate(debited, recipient, Balance(debited, recipient) + amount);
    }
  }

  lemma ApplyConserves(contractOwner: Principal, l: Ledger, c: Call)
    requires Conserved(l)
    ensures Conserved(Apply(contractOwner, l, c).0)
  {
    hide Total, FtTransfer;
    match c {
      case Mint(_, amount, to) =>
        if Apply(contractOwner, l, c).1 == Done {
          TotalUpdate(l.balances, to, Balance(l.balances, to) + amount);
        }
      case Transfer(_, _, amount, sender, recipient) => MovesConserve(l.balances, amount, sender, recipient);
      case Approve(_, _, _) =>
    }
  }

  /** The ledger after a run of calls by anyone, from an empty contract. */
  function Run(contractOwner: Principal, start: Ledger, calls: seq<Call>): Ledger {
    if calls == [] then start
    else Apply(contractOwner, Run(contractOwner, start, calls[..|calls| - 1]), calls[|calls| - 1]).0
  }

  /** In every run the balances sum to the supply, and no balance exceeds it. */
  lemma {:induction false} RunConserves(contractOwner: Principal, calls: seq<Call>, p: Principal)
    ensures var l := Run(contractOwner, Ledger(map[], 0, map[]), calls);
            Conserved(l) && Balance(l.balances, p) <= l.supply
  {
    var start := Ledger(map[], 0, map[]);
    if calls == [] {
      assert Conserved(start);
    } else {
      RunConserves(contractOwner, calls[..|calls| - 1], p);
      ApplyConserves(contractOwner, Run(contractOwner, start, calls[..|calls| - 1]), calls[|calls| - 1]);
    }
    BalanceWithinTotal(Run(contractOwner, start, calls).balances, p);
  }

  /** Since balances sum to the supply, a transfer never meets Clarity's overflow. */
  lemma TransfersDoNotOverflow(contractOwner: Principal, l: Ledger, c: Call)
    requires Conserved(l) && c.Transfer?
    ensures Apply(contractOwner, l, c).1 != Overflow
  {
    if c.sender != c.recipient && c.sender in l.balances && c.recipient in l.balances {
      TotalPick(l.balances, c.sender);
      TotalPick(l.balances - {c.sender}, c.recipient);
    } else if c.sender in l.balances {
      TotalPick(l.balances, c.sender);
    }
  }

  /** In a conserving ledger, exactly the authorised, positive, covered transfers to someone else succeed. */
  lemma TransferSucceedsIff(contractOwner: Principal, l: Ledger, c: Call)
    requires Conserved(l) && c.Transfer?
    ensures Apply(contractOwner, l, c).1 == Done
            <==> (&& (ThirdParty(c) ==> Allowance(l.allowances, c.sender, c.txSender) >= c.amount)
                  && 0 < c.amount <= Balance(l.balances, c.sender)
                  && c.sender != c.recipient)
  {
    TransfersDoNotOverflow(contractOwner, l, c);
  }

  /** Exactly the owner's positive mints that keep the supply a uint succeed. */
  lemma MintSucceedsIff(contractOwner: Principal, l: Ledger, c: Call)
    requires Conserved(l) && c.Mint?
    ensures Apply(contractOwner, l, c).1 == Done
            <==> c.caller == contractOwner && c.amount > 0 && l.supply + c.amount < TWO_TO_THE_128
  {
    BalanceWithinTotal(l.balances, c.to);
  }

  /** Exactly mints by others and transfers on too small an allowance are refused as not authorised. */
  lemma RefusedIff(contractOwner: Principal, l: Ledger, c: Call)
    ensures Apply(contractOwner, l, c).1 == NotAuthorized
            <==> || (c.Mint? && c.caller != contractOwner)
                 || (c.Transfer? && c.txSender != c.sender && c.contractCaller != c.sender
                     && Allowance(l.allowances, c.sender, c.txSender) < c.amount)
  {
  }

  /** What the owner's mint added to the supply. */
  function Minted(contractOwner: Principal, l: Ledger, c: Call): nat {
    if c.Mint? && c.caller == contractOwner && Apply(contractOwner, l, c).1 == Done then c.amount else 0
  }

  function RunMinted(contractOwner: Principal, l: Ledger, calls: seq<Call>): nat {
    if calls == [] then 0
    else
      var front := calls[..|calls| - 1];
      RunMinted(contractOwner, l, front) + Minted(contractOwner, Run(contractOwner, l, front), calls[|calls| - 1])
  }

  /** In every run, the supply grows by the owner's successful mints and by nothing else. */
  lemma {:induction false} SupplyIsMinted(contractOwner: Principal, l: Ledger, calls: seq<Call>)
    ensures Run(contractOwner, l, calls).supply == l.supply + RunMinted(contractOwner, l, calls)
  {
    if calls != [] {
      SupplyIsMinted(contractOwner, l, calls[..|calls| - 1]);
    }
  }

  lemma {:induction false} NothingMinted(contractOwner: Principal, l: Ledger, calls: seq<Call>)
    requires forall i :: 0 <= i < |calls| ==> !(calls[i].Mint? && calls[i].caller == contractOwner)
    ensures RunMinted(contractOwner, l, calls) == 0
  {
    if calls != [] {
      NothingMinted(contractOwner, l, calls[..|calls| - 1]);
    }
  }

  /** Without a mint by the owner, the supply stays what it was. */
  lemma {:induction false} OnlyTheOwnerMints(contractOwner: Principal, l: Ledger, calls: seq<Call>)
    requires forall i :: 0 <= i < |calls| ==> !(calls[i].Mint? && calls[i].caller == contractOwner)
    ensures Run(contractOwner, l, calls).supply == l.supply
  {
    SupplyIsMinted(contractOwner, l, calls);
    NothingMinted(contractOwner, l, calls);
  }

  // ------------------------------------------------------------------
  // Every account's books
  // ------------------------------------------------------------------

  /** What a call that succeeded brings to p. */
  function Credit(contractOwner: Principal, l: Ledger, c: Call, p: Principal): nat {
    if Apply(contractOwner, l, c).1 != Done then 0
    else match c
      case Mint(_, amount, to) => if to == p then amount else 0
      case Transfer(_, _, amount, _, recipient) => if recipient == p then amount else 0
      case Approve(_, _, _) => 0
  }

  /** What a call that succeeded takes from p. */
  function Debit(contractOwner: Principal, l: Ledger, c: Call, p: Principal): nat {
    if c.Transfer? && c.sender == p && Apply(contractOwner, l, c).1 == Done then c.amount else 0
  }

  function RunCredits(contractOwner: Principal, l: Ledger, calls: seq<Call>, p: Principal): nat {
    if calls == [] then 0
    else
      var front := calls[..|calls| - 1];
      RunCredits(contractOwner, l, front, p)
      + Credit(contractOwner, Run(contractOwner, l, front), calls[|calls| - 1], p)
  }

  function RunDebits(contractOwner: Principal, l: Ledger, calls: seq<Call>, p: Principal): nat {
    if calls == [] then 0
    else
      var front := calls[..|calls| - 1];
      RunDebits(contractOwner, l, front, p)
      + Debit(contractOwner, Run(contractOwner, l, front), calls[|calls| - 1], p)
  }

  lemma CallBalances(contractOwner: Principal, l: Ledger, c: Call, p: Principal)
    ensures Balance(Apply(contractOwner, l, c).0.balances, p) + Debit(contractOwner, l, c, p)
            == Balance(l.balances, p) + Credit(contractOwner, l, c, p)
  {
  }

  /** In every run, an account's balance is what it had plus what it received minus what it sent. */
  lemma {:induction false} BooksBalance(contractOwner: Principal, l: Ledger, calls: seq<Call>, p: Principal)
    ensures Balance(Run(contractOwner, l, calls).balances, p) + RunDebits(contractOwner, l, calls, p)
            == Balance(l.balances, p) + RunCredits(contractOwner, l, calls, p)
  {
    hide Apply, Credit, Debit;
    if calls != [] {
      var front := calls[..|calls| - 1];
      BooksBalance(contractOwner, l, front, p);
      CallBalances(contractOwner, Run(contractOwner, l, front), calls[|calls| - 1], p);
    }
  }

  // ------------------------------------------------------------------
  // Who may move what
  // ------------------------------------------------------------------

  /** A balance falls only by a transfer from it that its owner, a contract it is, or a sufficient allowance made. */
  lemma DebitsAreAuthorised(contractOwner: Principal, l: Ledger, c: Call, p: Principal)
    requires Balance(Apply(contractOwner, l, c).0.balances, p) < Balance(l.balances, p)
    ensures c.Transfer? && c.sender == p
    ensures p == c.txSender || p == c.contractCaller || Allowance(l.allowances, p, c.txSender) >= c.amount
    ensures Balance(Apply(contractOwner, l, c).0.balances, p) == Balance(l.balances, p) - c.amount
  {
  }

  /** A call that does not succeed changes nothing. */
  lemma FailureChangesNothing(contractOwner: Principal, l: Ledger, c: Call)
    requires Apply(contractOwner, l, c).1 != Done
    ensures Apply(contractOwner, l, c).0 == l
  {
  }

  /** What a successful call moves out of owner's account on spender's allowance. */
  function Spent(contractOwner: Principal, l: Ledger, c: Call, owner: Principal, spender: Principal): nat {
    if c.Transfer? && c.sender == owner && c.txSender == spender && ThirdParty(c)
            && Apply(contractOwner, l, c).1 == Done
    then c.amount else 0
  }

  function RunSpent(contractOwner: Principal, l: Ledger, calls: seq<Call>, owner: Principal, spender: Principal): nat {
    if calls == [] then 0
    else
      var front := calls[..|calls| - 1];
      RunSpent(contractOwner, l, front, owner, spender)
      + Spent(contractOwner, Run(contractOwner, l, front), calls[|calls| - 1], owner, spender)
  }

  function Approved(calls: seq<Call>, owner: Principal, spender: Principal): nat {
    if calls == [] then 0
    else
      var c := calls[|calls| - 1];
      Approved(calls[..|calls| - 1], owner, spender)
      + if c.Approve? && c.approver == owner && c.spender == spender then c.allowance else 0
  }

  predicate IsApproval(c: Call, owner: Principal, spender: Principal) {
    c.Approve? && c.approver == owner && c.spender == spender
  }

  /** One call: the allowance falls by exactly what was spent on it, and changes otherwise only by its own approval. */
  lemma AllowanceStep(contractOwner: Principal, l: Ledger, c: Call, owner: Principal, spender: Principal)
    ensures var after := Allowance(Apply(contractOwner, l, c).0.allowances, owner, spender);
            if IsApproval(c, owner, spender)
            then after == c.allowance && Spent(contractOwner, l, c, owner, spender) == 0
            else after + Spent(contractOwner, l, c, owner, spender) == Allowance(l.allowances, owner, spender)
  {
  }

  /** In every run, a spender moves no more than the allowance it started with plus everything approved since. */
  lemma {:induction false} AllowanceBudget(contractOwner: Principal, l: Ledger, calls: seq<Call>, owner: Principal,
                                           spender: Principal)
    ensures RunSpent(contractOwner, l, calls, owner, spender)
            + Allowance(Run(contractOwner, l, calls).allowances, owner, spender)
            <= Allowance(l.allowances, owner, spender) + Approved(calls, owner, spender)
    ensures (forall i :: 0 <= i < |calls| ==> !IsApproval(calls[i], owner, spender)) ==>
              RunSpent(contractOwner, l, calls, owner, spender)
              + Allowance(Run(contractOwner, l, calls).allowances, owner, spender)
              == Allowance(l.allowances, owner, spender)
  {
    if calls != [] {
      hide Apply, Spent;
      var n := |calls| - 1;
      AllowanceBudget(contractOwner, l, calls[..n], owner, spender);
      AllowanceStep(contractOwner, Run(contractOwner, l, calls[..n]), calls[n], owner, spender);
    }
  }
}
