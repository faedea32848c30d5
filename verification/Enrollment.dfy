/** Device enrollment under concurrency.

    A pairing moves pending, approved, redeemed or withdrawn by single conditional
    writes; the service calls around those writes are several separate statements,
    and any number of calls interleave. A call that crashed is a call that never
    moves again. Redeeming issues a lineage first, then consumes the pairing, and
    revokes the lineage when the consume was refused. */
module Enrollment {
  import opened Common
  import opened Scopes

  datatype PairingStatus = Pending | Approved | Redeemed | Withdrawn

  datatype Pairing = Pairing(owner: string, codeHash: Bytes, scopes: seq<Scope>, expiresAt: int,
                             status: PairingStatus, lineage: string)

  /** A rotation lineage: whom it speaks for, the pairing whose redemption issued it,
      and whether it still has an active credential. */
  datatype Line = Line(owner: string, bornOf: string, active: bool)

  /** A service call in flight, by the statement it has finished. */
  datatype Call =
    | Authenticated(id: string)                               // Redeem: device code accepted
    | Resolved(id: string, owner: string)                     // Redeem: link and owner accepted
    | Fetched(id: string, owner: string)                      // Redeem: owner-scoped row agreed
    | Minted(id: string, owner: string, lineage: string)      // Redeem: lineage issued
    | Losing(id: string, owner: string, lineage: string)      // Redeem: consume refused
    | Found(id: string, owner: string)                        // Approve: row was pending
    | Bound(id: string, owner: string)                        // Approve or Mint: owner written, link missing
    | Viewed(id: string, owner: string, lineage: string)      // Revoke: row read
    | Withdrawing(id: string, owner: string, lineage: string) // Revoke: row withdrawn, lineage not yet revoked

  datatype Consent = Consent(id: string, owner: string)

  datatype Receipt = Receipt(id: string, lineage: string, owner: string)

  /** consents records which owner approved or minted which pairing; returned records
      each redemption that handed out tokens. */
  datatype State = State(
    pairings: map<string, Pairing>,
    links: map<string, string>,
    lines: map<string, Line>,
    calls: map<nat, Call>,
    consents: set<Consent>,
    returned: seq<Receipt>)

  const INITIAL := State(map[], map[], map[], map[], {}, [])

  datatype Event =
    | StartGrant(id: string, codeHash: Bytes, scopes: seq<Scope>, now: int)
    | MintCreate(call: nat, id: string, owner: string, codeHash: Bytes, scopes: seq<Scope>, now: int)
    | ApproveFind(call: nat, id: string, owner: string, now: int)
    | ApproveWrite(call: nat)
    | LinkWrite(call: nat)
    | RedeemAuthenticate(call: nat, id: string, codeHash: Bytes, now: int)
    | RedeemResolve(call: nat, ownerActive: bool)
    | RedeemFetch(call: nat)
    | RedeemIssue(call: nat, lineage: string)
    | RedeemConsume(call: nat, ackLost: bool)
    | RedeemCompensate(call: nat)
    | RevokeView(call: nat, id: string, owner: string)
    | RevokeWrite(call: nat)
    | RevokeLine(call: nat)
    | LineDies(lineage: string)
    | Denied(call: nat)

  const PAIRING_LIFETIME := 10 * MINUTE

  // ---------------------------------------------------------------------
  // The conditional row writes
  // ---------------------------------------------------------------------

  predicate CanApprove(p: Pairing) { p.status == Pending }

  predicate CanRedeem(p: Pairing, owner: string) { p.status == Approved && p.owner == owner }

  /** Whether the store withdraws a redeemed pairing is a property of the adapter:
      the SQL adapters do not, the condition of their update names only the pending
      and approved states. */
  predicate CanWithdraw(p: Pairing, owner: string, redeemedToo: bool) {
    p.owner == owner && (p.status == Pending || p.status == Approved || (redeemedToo && p.status == Redeemed))
  }

  function Kill(lines: map<string, Line>, lineage: string): map<string, Line> {
    if lineage in lines then lines[lineage := lines[lineage].(active := false)] else lines
  }

  ghost predicate FreshLineage(s: State, lineage: string) {
    lineage != "" && lineage !in s.lines
  }

  /** One statement of one call; an event that does not apply changes nothing, and a
      refused condition ends its call. */
  ghost function Step(s: State, e: Event, redeemedToo: bool): State {
    match e
    case StartGrant(id, codeHash, scopes, now) =>
      if id != "" && id !in s.pairings && Grantable(scopes) then
        s.(pairings := s.pairings[id := Pairing("", codeHash, scopes, now + PAIRING_LIFETIME, Pending, "")])
      else s
    case MintCreate(call, id, owner, codeHash, scopes, now) =>
      if call !in s.calls && id != "" && id !in s.pairings && owner != "" && Grantable(scopes) then
        s.(pairings := s.pairings[id := Pairing(owner, codeHash, scopes, now + PAIRING_LIFETIME, Approved, "")],
           calls := s.calls[call := Bound(id, owner)], consents := s.consents + {Consent(id, owner)})
      else s
    case ApproveFind(call, id, owner, now) =>
      if call !in s.calls && owner != "" && id in s.pairings && s.pairings[id].status == Pending && now < s.pairings[id].expiresAt
      then s.(calls := s.calls[call := Found(id, owner)]) else s
    case ApproveWrite(call) =>
      if call in s.calls && s.calls[call].Found? then
        var id, owner := s.calls[call].id, s.calls[call].owner;
        if id in s.pairings && CanApprove(s.pairings[id]) then
          s.(pairings := s.pairings[id := s.pairings[id].(status := Approved, owner := owner)],
             calls := s.calls[call := Bound(id, owner)], consents := s.consents + {Consent(id, owner)})
        else s.(calls := s.calls - {call})
      else s
    case LinkWrite(call) =>
      if call in s.calls && s.calls[call].Bound? then
        var id, owner := s.calls[call].id, s.calls[call].owner;
        s.(links := if id in s.links then s.links else s.links[id := owner], calls := s.calls - {call})
      else s
    case RedeemAuthenticate(call, id, codeHash, now) =>
      if call !in s.calls && id in s.pairings && s.pairings[id].codeHash == codeHash
         && s.pairings[id].status == Approved && s.pairings[id].owner != "" && now < s.pairings[id].expiresAt
      then s.(calls := s.calls[call := Authenticated(id)]) else s
    case RedeemResolve(call, ownerActive) =>
      if call in s.calls && s.calls[call].Authenticated? then
        var id := s.calls[call].id;
        if id in s.links && s.links[id] != "" && ownerActive then s.(calls := s.calls[call := Resolved(id, s.links[id])])
        else s.(calls := s.calls - {call})
      else s
    case RedeemFetch(call) =>
      if call in s.calls && s.calls[call].Resolved? then
        var id, owner := s.calls[call].id, s.calls[call].owner;
        if id in s.pairings && s.pairings[id].owner == owner && Grantable(s.pairings[id].scopes)
        then s.(calls := s.calls[call := Fetched(id, owner)]) else s.(calls := s.calls - {call})
      else s
    case RedeemIssue(call, lineage) =>
      if call in s.calls && s.calls[call].Fetched? && FreshLineage(s, lineage) then
        var id, owner := s.calls[call].id, s.calls[call].owner;
        s.(lines := s.lines[lineage := Line(owner, id, true)], calls := s.calls[call := Minted(id, owner, lineage)])
      else s
    case RedeemConsume(call, ackLost) =>
      if call in s.calls && s.calls[call].Minted? then
        var id, owner, lineage := s.calls[call].id, s.calls[call].owner, s.calls[call].lineage;
        if id in s.pairings && CanRedeem(s.pairings[id], owner) then
          var consumed := s.(pairings := s.pairings[id := s.pairings[id].(status := Redeemed, lineage := lineage)]);
          if ackLost then consumed.(calls := s.calls[call := Losing(id, owner, lineage)])
          else consumed.(calls := s.calls - {call}, returned := s.returned + [Receipt(id, lineage, owner)])
        else s.(calls := s.calls[call := Losing(id, owner, lineage)])
      else s
    case RedeemCompensate(call) =>
      if call in s.calls && s.calls[call].Losing? then
        s.(lines := Kill(s.lines, s.calls[call].lineage), calls := s.calls - {call})
      else s
    case RevokeView(call, id, owner) =>
      if call !in s.calls && owner != "" && id in s.pairings && s.pairings[id].owner == owner
      then s.(calls := s.calls[call := Viewed(id, owner, s.pairings[id].lineage)]) else s
    case RevokeWrite(call) =>
      if call in s.calls && s.calls[call].Viewed? then
        var id, owner, lineage := s.calls[call].id, s.calls[call].owner, s.calls[call].lineage;
        if id in s.pairings && CanWithdraw(s.pairings[id], owner, redeemedToo) then
          s.(pairings := s.pairings[id := s.pairings[id].(status := Withdrawn)],
             calls := if lineage != "" then s.calls[call := Withdrawing(id, owner, lineage)] else s.calls - {call})
        else s.(calls := s.calls - {call})
      else s
    case RevokeLine(call) =>
      if call in s.calls && s.calls[call].Withdrawing? then
        s.(lines := Kill(s.lines, s.calls[call].lineage), calls := s.calls - {call})
      else s
    case LineDies(lineage) => s.(lines := Kill(s.lines, lineage))
    case Denied(call) =>
      if call in s.calls && !Owes(s.calls[call]) then s.(calls := s.calls - {call}) else s
  }

  /** The call still owes a compensation. */
  predicate Owes(c: Call) { c.Minted? || c.Losing? || c.Withdrawing? }

  ghost function Exec(s: State, events: seq<Event>, redeemedToo: bool): State
    decreases |events|
  {
    if events == [] then s else Exec(Step(s, events[0], redeemedToo), events[1..], redeemedToo)
  }

  // ---------------------------------------------------------------------
  // The invariant
  // ---------------------------------------------------------------------

  ghost predicate PairingOk(s: State, id: string)
    requires id in s.pairings
  {
    var p := s.pairings[id];
    && (p.status == Pending <==> p.owner == "")
    && (p.status == Pending || p.status == Approved ==> p.lineage == "")
    && (p.status == Redeemed ==> p.lineage != "")
    && (p.lineage != "" ==> p.lineage in s.lines && s.lines[p.lineage].bornOf == id)
  }

  /** The pairing is bound to this owner. */
  ghost predicate Owned(s: State, id: string, owner: string) {
    id in s.pairings && s.pairings[id].owner == owner && owner != ""
  }

  ghost predicate BornOf(s: State, lineage: string, id: string) {
    lineage != "" && lineage in s.lines && s.lines[lineage].bornOf == id
  }

  ghost predicate CallOk(s: State, c: Call) {
    match c
    case Authenticated(id) => id in s.pairings && s.pairings[id].owner != ""
    case Resolved(id, owner) => Owned(s, id, owner)
    case Fetched(id, owner) => Owned(s, id, owner)
    case Minted(id, owner, lineage) =>
      Owned(s, id, owner) && BornOf(s, lineage, id) && s.pairings[id].lineage != lineage
    case Losing(id, owner, lineage) => Owned(s, id, owner) && BornOf(s, lineage, id)
    case Found(_, owner) => owner != ""
    case Bound(id, owner) => Owned(s, id, owner)
    case Viewed(id, owner, lineage) => Owned(s, id, owner) && (lineage != "" ==> s.pairings[id].lineage == lineage)
    case Withdrawing(id, owner, lineage) =>
      Owned(s, id, owner) && s.pairings[id].status == Withdrawn && lineage != "" && s.pairings[id].lineage == lineage
  }

  /** The call has issued this lineage and not settled it yet. */
  predicate Carries(c: Call, lineage: string) {
    (c.Minted? || c.Losing?) && c.lineage == lineage
  }

  ghost predicate Carried(s: State, lineage: string) {
    exists k :: k in s.calls && Carries(s.calls[k], lineage)
  }

  ghost predicate LineOk(s: State, lineage: string)
    requires lineage in s.lines
  {
    var l := s.lines[lineage];
    && lineage != "" && Owned(s, l.bornOf, l.owner)
    && (l.active ==> s.pairings[l.bornOf].lineage == lineage || Carried(s, lineage))
  }

  ghost predicate CallsOk(s: State) {
    && (forall k :: k in s.calls ==> CallOk(s, s.calls[k]))
    && (forall k, m, l :: k in s.calls && m in s.calls && Carries(s.calls[k], l) && Carries(s.calls[m], l) ==> k == m)
  }

  /** The redemption that handed out tokens is the one the pairing records. */
  ghost predicate ReceiptOk(s: State, r: Receipt) {
    Owned(s, r.id, r.owner) && r.lineage != "" && s.pairings[r.id].lineage == r.lineage
  }

  ghost predicate ReturnedOk(s: State) {
    && (forall i :: 0 <= i < |s.returned| ==>
          ReceiptOk(s, s.returned[i]))
    && (forall i, j :: 0 <= i < j < |s.returned| ==> s.returned[i].id != s.returned[j].id)
  }

  ghost predicate OwnersOk(s: State) {
    && (forall id, owner :: Consent(id, owner) in s.consents <==> Owned(s, id, owner))
    && (forall id :: id in s.links ==> Owned(s, id, s.links[id]))
  }

  ghost predicate PairingsOk(s: State) {
    forall id :: id in s.pairings ==> PairingOk(s, id)
  }

  ghost predicate LinesOk(s: State) {
    forall l :: l in s.lines ==> LineOk(s, l)
  }

  ghost predicate Inv(s: State) {
    PairingsOk(s) && CallsOk(s) && LinesOk(s) && ReturnedOk(s) && OwnersOk(s)
  }

  // ---------------------------------------------------------------------
  // What no statement ever changes
  // ---------------------------------------------------------------------

  /** Owner, recorded lineage and withdrawal of a pairing are final. */
  ghost predicate PairingEvolves(p: Pairing, p': Pairing) {
    && (p.owner != "" ==> p'.owner == p.owner)
    && (p.lineage != "" ==> p'.lineage == p.lineage)
    && (p.status == Withdrawn ==> p'.status == Withdrawn)
  }

  /** A lineage keeps its origin and never comes back to life. */
  ghost predicate LineEvolves(l: Line, l': Line) {
    l'.owner == l.owner && l'.bornOf == l.bornOf && (l'.active ==> l.active)
  }

  ghost predicate Evolves(s: State, s': State) {
    && (forall id :: id in s.pairings ==> id in s'.pairings && PairingEvolves(s.pairings[id], s'.pairings[id]))
    && (forall l :: l in s.lines ==> l in s'.lines && LineEvolves(s.lines[l], s'.lines[l]))
  }

  /** The statements that write a pairing's row. */
  predicate WritesRow(e: Event) {
    e.StartGrant? || e.MintCreate? || e.ApproveWrite? || e.RedeemConsume? || e.RevokeWrite?
  }

  lemma {:induction false} RowsStay(s: State, e: Event, redeemedToo: bool)
    requires !WritesRow(e)
    ensures var s' := Step(s, e, redeemedToo);
            s'.pairings == s.pairings && s'.consents == s.consents && s'.returned == s.returned
  {
  }

  lemma {:induction false} WriteEvolvesPairing(s: State, e: Event, redeemedToo: bool, id: string)
    requires WritesRow(e) && id in s.pairings && PairingOk(s, id)
    ensures var s' := Step(s, e, redeemedToo);
            id in s'.pairings && PairingEvolves(s.pairings[id], s'.pairings[id])
  {
    if e.StartGrant? || e.MintCreate? {
      CreateEvolvesPairing(s, e, redeemedToo, id);
    } else {
      UpdateEvolvesPairing(s, e, redeemedToo, id);
    }
  }

  lemma {:induction false} CreateEvolvesPairing(s: State, e: Event, redeemedToo: bool, id: string)
    requires (e.StartGrant? || e.MintCreate?) && id in s.pairings && PairingOk(s, id)
    ensures var s' := Step(s, e, redeemedToo);
            id in s'.pairings && PairingEvolves(s.pairings[id], s'.pairings[id])
  {
  }

  lemma {:induction false} UpdateEvolvesPairing(s: State, e: Event, redeemedToo: bool, id: string)
    requires (e.ApproveWrite? || e.RedeemConsume? || e.RevokeWrite?) && id in s.pairings && PairingOk(s, id)
    ensures var s' := Step(s, e, redeemedToo);
            id in s'.pairings && PairingEvolves(s.pairings[id], s'.pairings[id])
  {
    match e
    case ApproveWrite(_) => ApproveEvolvesPairing(s, e, redeemedToo, id);
    case RedeemConsume(_, _) => ConsumeEvolvesPairing(s, e, redeemedToo, id);
    case RevokeWrite(_) => WithdrawEvolvesPairing(s, e, redeemedToo, id);
  }

  lemma {:induction false} ApproveEvolvesPairing(s: State, e: Event, redeemedToo: bool, id: string)
    requires e.ApproveWrite? && id in s.pairings && PairingOk(s, id)
    ensures var s' := Step(s, e, redeemedToo);
            id in s'.pairings && PairingEvolves(s.pairings[id], s'.pairings[id])
  {
  }

  lemma {:induction false} ConsumeEvolvesPairing(s: State, e: Event, redeemedToo: bool, id: string)
    requires e.RedeemConsume? && id in s.pairings && PairingOk(s, id)
    ensures var s' := Step(s, e, redeemedToo);
            id in s'.pairings && PairingEvolves(s.pairings[id], s'.pairings[id])
  {
  }

  lemma {:induction false} WithdrawEvolvesPairing(s: State, e: Event, redeemedToo: bool, id: string)
    requires e.RevokeWrite? && id in s.pairings && PairingOk(s, id)
    ensures var s' := Step(s, e, redeemedToo);
            id in s'.pairings && PairingEvolves(s.pairings[id], s'.pairings[id])
  {
  }

  lemma {:induction false} StepEvolvesPairing(s: State, e: Event, redeemedToo: bool, id: string)
    requires id in s.pairings && PairingOk(s, id)
    ensures var s' := Step(s, e, redeemedToo);
            id in s'.pairings && PairingEvolves(s.pairings[id], s'.pairings[id])
  {
    if WritesRow(e) {
      WriteEvolvesPairing(s, e, redeemedToo, id);
    } else {
      RowsStay(s, e, redeemedToo);
    }
  }

  lemma {:induction false} StepEvolvesLine(s: State, e: Event, redeemedToo: bool, l: string)
    requires l in s.lines
    ensures var s' := Step(s, e, redeemedToo);
            l in s'.lines && LineEvolves(s.lines[l], s'.lines[l])
  {
  }

  lemma {:induction false} StepEvolves(s: State, e: Event, redeemedToo: bool)
    requires PairingsOk(s)
    ensures Evolves(s, Step(s, e, redeemedToo))
  {
    var s' := Step(s, e, redeemedToo);
    forall id | id in s.pairings
      ensures id in s'.pairings && PairingEvolves(s.pairings[id], s'.pairings[id])
    {
      StepEvolvesPairing(s, e, redeemedToo, id);
    }
    forall l | l in s.lines
      ensures l in s'.lines && LineEvolves(s.lines[l], s'.lines[l])
    {
      StepEvolvesLine(s, e, redeemedToo, l);
    }
  }

  lemma {:induction false} CallStays(s: State, s': State, c: Call)
    requires Evolves(s, s') && CallOk(s, c)
    requires c.Minted? ==> c.id in s'.pairings && s'.pairings[c.id].lineage != c.lineage
    ensures CallOk(s', c)
  {
  }

  /** A consume records only the lineage its own call carries. */
  lemma {:induction false} OtherLineagesUnrecorded(s: State, e: Event, redeemedToo: bool, k: nat)
    requires CallsOk(s) && PairingsOk(s) && k in s.calls && s.calls[k].Minted? && k in Step(s, e, redeemedToo).calls
             && Step(s, e, redeemedToo).calls[k] == s.calls[k]
    ensures s.calls[k].id in Step(s, e, redeemedToo).pairings
            && Step(s, e, redeemedToo).pairings[s.calls[k].id].lineage != s.calls[k].lineage
  {
    assert CallOk(s, s.calls[k]);
    assert Carries(s.calls[k], s.calls[k].lineage);
    if e.RedeemConsume? {
      assert e.call in s.calls && s.calls[e.call].Minted? ==> Carries(s.calls[e.call], s.calls[e.call].lineage);
    } else {
      LineageUnwritten(s, e, redeemedToo, s.calls[k].id);
    }
  }

  /** Only a consume writes a pairing's lineage. */
  lemma {:induction false} LineageUnwritten(s: State, e: Event, redeemedToo: bool, id: string)
    requires id in s.pairings && !e.RedeemConsume?
    ensures id in Step(s, e, redeemedToo).pairings && Step(s, e, redeemedToo).pairings[id].lineage == s.pairings[id].lineage
  {
  }

  // ---------------------------------------------------------------------
  // Every statement keeps the invariant
  // ---------------------------------------------------------------------

  lemma {:induction false} StepKeepsPairings(s: State, e: Event, redeemedToo: bool)
    requires PairingsOk(s) && CallsOk(s)
    ensures PairingsOk(Step(s, e, redeemedToo))
  {
    var s' := Step(s, e, redeemedToo);
    forall id | id in s'.pairings
      ensures PairingOk(s', id)
    {
      StepKeepsPairing(s, e, redeemedToo, id);
    }
  }

  lemma {:induction false} StepKeepsPairing(s: State, e: Event, redeemedToo: bool, id: string)
    requires id in Step(s, e, redeemedToo).pairings
    requires id in s.pairings ==> PairingOk(s, id)
    requires forall k :: k in s.calls ==> CallOk(s, s.calls[k])
    ensures PairingOk(Step(s, e, redeemedToo), id)
  {
    if WritesRow(e) {
      assert !e.StartGrant? && e.call in s.calls ==> CallOk(s, s.calls[e.call]);
      WriteKeepsPairing(s, e, redeemedToo, id);
    } else {
      RowsStay(s, e, redeemedToo);
      PairingKept(s, Step(s, e, redeemedToo), id);
      if s.pairings[id].lineage != "" {
        StepEvolvesLine(s, e, redeemedToo, s.pairings[id].lineage);
      }
    }
  }

  /** An unwritten row stays sound as long as its lineage keeps its origin. */
  lemma {:induction false} PairingKept(s: State, s': State, id: string)
    requires id in s.pairings && PairingOk(s, id) && s'.pairings == s.pairings
    ensures var l := s.pairings[id].lineage;
            (l != "" ==> l in s'.lines && s'.lines[l].bornOf == s.lines[l].bornOf) ==> PairingOk(s', id)
  {
  }

  lemma {:induction false} WriteKeepsPairing(s: State, e: Event, redeemedToo: bool, id: string)
    requires WritesRow(e) && id in Step(s, e, redeemedToo).pairings
    requires id in s.pairings ==> PairingOk(s, id)
    requires !e.StartGrant? && e.call in s.calls ==> CallOk(s, s.calls[e.call])
    ensures PairingOk(Step(s, e, redeemedToo), id)
  {
    if e.StartGrant? || e.MintCreate? {
      CreateKeepsPairing(s, e, redeemedToo, id);
    } else {
      UpdateKeepsPairing(s, e, redeemedToo, id);
    }
  }

  lemma {:induction false} CreateKeepsPairing(s: State, e: Event, redeemedToo: bool, id: string)
    requires (e.StartGrant? || e.MintCreate?) && id in Step(s, e, redeemedToo).pairings
    requires id in s.pairings ==> PairingOk(s, id)
    requires !e.StartGrant? && e.call in s.calls ==> CallOk(s, s.calls[e.call])
    ensures PairingOk(Step(s, e, redeemedToo), id)
  {
  }

  lemma {:induction false} UpdateKeepsPairing(s: State, e: Event, redeemedToo: bool, id: string)
    requires (e.ApproveWrite? || e.RedeemConsume? || e.RevokeWrite?) && id in Step(s, e, redeemedToo).pairings
    requires id in s.pairings ==> PairingOk(s, id)
    requires !e.StartGrant? && e.call in s.calls ==> CallOk(s, s.calls[e.call])
    ensures PairingOk(Step(s, e, redeemedToo), id)
  {
    match e
    case ApproveWrite(_) => ApproveKeepsPairing(s, e, redeemedToo, id);
    case RedeemConsume(_, _) => ConsumeKeepsPairing(s, e, redeemedToo, id);
    case RevokeWrite(_) => WithdrawKeepsPairing(s, e, redeemedToo, id);
  }

  lemma {:induction false} ApproveKeepsPairing(s: State, e: Event, redeemedToo: bool, id: string)
    requires e.ApproveWrite? && id in Step(s, e, redeemedToo).pairings
    requires id in s.pairings ==> PairingOk(s, id)
    requires !e.StartGrant? && e.call in s.calls ==> CallOk(s, s.calls[e.call])
    ensures PairingOk(Step(s, e, redeemedToo), id)
  {
  }

  lemma {:induction false} ConsumeKeepsPairing(s: State, e: Event, redeemedToo: bool, id: string)
    requires e.RedeemConsume? && id in Step(s, e, redeemedToo).pairings
    requires id in s.pairings ==> PairingOk(s, id)
    requires !e.StartGrant? && e.call in s.calls ==> CallOk(s, s.calls[e.call])
    ensures PairingOk(Step(s, e, redeemedToo), id)
  {
  }

  lemma {:induction false} WithdrawKeepsPairing(s: State, e: Event, redeemedToo: bool, id: string)
    requires e.RevokeWrite? && id in Step(s, e, redeemedToo).pairings
    requires id in s.pairings ==> PairingOk(s, id)
    requires !e.StartGrant? && e.call in s.calls ==> CallOk(s, s.calls[e.call])
    ensures PairingOk(Step(s, e, redeemedToo), id)
  {
  }

  /** A redemption's own call, in its new phase. */
  lemma {:induction false} RedeemMoves(s: State, e: Event, redeemedToo: bool, k: nat)
    requires PairingsOk(s) && (k in s.calls ==> CallOk(s, s.calls[k]))
    requires forall id :: id in s.links ==> Owned(s, id, s.links[id])
    requires IsRedeem(e) && k in Step(s, e, redeemedToo).calls
    requires k !in s.calls || Step(s, e, redeemedToo).calls[k] != s.calls[k]
    ensures CallOk(Step(s, e, redeemedToo), Step(s, e, redeemedToo).calls[k])
  {
    MovesItself(s, e, redeemedToo, k);
    if k in s.calls {
      assert PairingOk(s, s.calls[k].id);
    }
    if e.RedeemIssue? || e.RedeemConsume? {
      RedeemWrites(s, e, redeemedToo, k);
    } else {
      RedeemReads(s, e, redeemedToo, k);
    }
  }

  lemma {:induction false} MovesItself(s: State, e: Event, redeemedToo: bool, k: nat)
    requires IsRedeem(e) && k in Step(s, e, redeemedToo).calls
    requires k !in s.calls || Step(s, e, redeemedToo).calls[k] != s.calls[k]
    ensures e.call == k && (k in s.calls || e.RedeemAuthenticate?)
  {
  }

  /** The reading statements of a redemption. */
  lemma {:induction false} RedeemReads(s: State, e: Event, redeemedToo: bool, k: nat)
    requires k in s.calls ==> CallOk(s, s.calls[k])
    requires forall id :: id in s.links ==> Owned(s, id, s.links[id])
    requires (e.RedeemAuthenticate? || e.RedeemResolve? || e.RedeemFetch?) && e.call == k
    requires k in Step(s, e, redeemedToo).calls
    ensures CallOk(Step(s, e, redeemedToo), Step(s, e, redeemedToo).calls[k])
  {
  }

  /** The writing statements of a redemption. */
  lemma {:induction false} RedeemWrites(s: State, e: Event, redeemedToo: bool, k: nat)
    requires k in s.calls && CallOk(s, s.calls[k]) && (s.calls[k].id in s.pairings ==> PairingOk(s, s.calls[k].id))
    requires (e.RedeemIssue? || e.RedeemConsume?) && e.call == k
    requires k in Step(s, e, redeemedToo).calls && Step(s, e, redeemedToo).calls[k] != s.calls[k]
    ensures CallOk(Step(s, e, redeemedToo), Step(s, e, redeemedToo).calls[k])
  {
  }

  predicate IsRedeem(e: Event) {
    e.RedeemAuthenticate? || e.RedeemResolve? || e.RedeemFetch? || e.RedeemIssue? || e.RedeemConsume?
  }

  /** Any other statement's own call, in its new phase. */
  lemma {:induction false} OtherMoves(s: State, e: Event, redeemedToo: bool, k: nat)
    requires PairingsOk(s) && (k in s.calls ==> CallOk(s, s.calls[k]))
    requires !IsRedeem(e) && k in Step(s, e, redeemedToo).calls
    requires k !in s.calls || Step(s, e, redeemedToo).calls[k] != s.calls[k]
    ensures CallOk(Step(s, e, redeemedToo), Step(s, e, redeemedToo).calls[k])
  {
    OnlyFiveMove(s, e, redeemedToo, k);
    match e
    case ApproveWrite(_) =>
      ApproveMoves(s, e, redeemedToo, k);
    case RevokeWrite(_) =>
      assert PairingOk(s, s.calls[k].id);
      WithdrawMoves(s, e, redeemedToo, k);
    case _ =>
      OpeningMoves(s, e, redeemedToo, k);
  }

  lemma {:induction false} OnlyFiveMove(s: State, e: Event, redeemedToo: bool, k: nat)
    requires !IsRedeem(e) && k in Step(s, e, redeemedToo).calls
    requires k !in s.calls || Step(s, e, redeemedToo).calls[k] != s.calls[k]
    ensures (e.MintCreate? || e.ApproveFind? || e.ApproveWrite? || e.RevokeView? || e.RevokeWrite?) && e.call == k
    ensures e.ApproveWrite? || e.RevokeWrite? <==> k in s.calls
  {
  }

  lemma {:induction false} ApproveMoves(s: State, e: Event, redeemedToo: bool, k: nat)
    requires e.ApproveWrite? && e.call == k && k in s.calls && CallOk(s, s.calls[k])
    requires k in Step(s, e, redeemedToo).calls && Step(s, e, redeemedToo).calls[k] != s.calls[k]
    ensures CallOk(Step(s, e, redeemedToo), Step(s, e, redeemedToo).calls[k])
  {
  }

  lemma {:induction false} WithdrawMoves(s: State, e: Event, redeemedToo: bool, k: nat)
    requires e.RevokeWrite? && e.call == k && k in s.calls && CallOk(s, s.calls[k])
    requires s.calls[k].id in s.pairings ==> PairingOk(s, s.calls[k].id)
    requires k in Step(s, e, redeemedToo).calls && Step(s, e, redeemedToo).calls[k] != s.calls[k]
    ensures CallOk(Step(s, e, redeemedToo), Step(s, e, redeemedToo).calls[k])
  {
  }

  /** The statements that open a call. */
  lemma {:induction false} OpeningMoves(s: State, e: Event, redeemedToo: bool, k: nat)
    requires (e.MintCreate? || e.ApproveFind? || e.RevokeView?) && e.call == k
    requires k !in s.calls && k in Step(s, e, redeemedToo).calls
    ensures CallOk(Step(s, e, redeemedToo), Step(s, e, redeemedToo).calls[k])
  {
  }

  lemma {:induction false} StepKeepsCallOk(s: State, e: Event, redeemedToo: bool, k: nat)
    requires Inv(s) && k in Step(s, e, redeemedToo).calls
    ensures CallOk(Step(s, e, redeemedToo), Step(s, e, redeemedToo).calls[k])
  {
    var s' := Step(s, e, redeemedToo);
    if k in s.calls && s'.calls[k] == s.calls[k] {
      StepEvolves(s, e, redeemedToo);
      assert CallOk(s, s.calls[k]);
      if s.calls[k].Minted? {
        OtherLineagesUnrecorded(s, e, redeemedToo, k);
      }
      CallStays(s, s', s.calls[k]);
    } else {
      assert k in s.calls ==> CallOk(s, s.calls[k]);
      if IsRedeem(e) {
        RedeemMoves(s, e, redeemedToo, k);
      } else {
        OtherMoves(s, e, redeemedToo, k);
      }
    }
  }

  /** A statement carries a lineage only if its call did, or it has just issued it. */
  lemma {:induction false} CarriesKept(s: State, e: Event, redeemedToo: bool, k: nat, l: string)
    requires k in Step(s, e, redeemedToo).calls && Carries(Step(s, e, redeemedToo).calls[k], l)
    ensures (k in s.calls && Carries(s.calls[k], l)) || (l !in s.lines && e.RedeemIssue? && e.call == k)
  {
  }

  lemma {:induction false} StepKeepsCalls(s: State, e: Event, redeemedToo: bool)
    requires Inv(s)
    ensures CallsOk(Step(s, e, redeemedToo))
  {
    var s' := Step(s, e, redeemedToo);
    forall k | k in s'.calls
      ensures CallOk(s', s'.calls[k])
    {
      StepKeepsCallOk(s, e, redeemedToo, k);
    }
    forall k, m, l | k in s'.calls && m in s'.calls && Carries(s'.calls[k], l) && Carries(s'.calls[m], l)
      ensures k == m
    {
      OneCarrier(s, e, redeemedToo, k, m, l);
    }
  }

  lemma {:induction false} OneCarrier(s: State, e: Event, redeemedToo: bool, k: nat, m: nat, l: string)
    requires CallsOk(s) && k in Step(s, e, redeemedToo).calls && m in Step(s, e, redeemedToo).calls
    requires Carries(Step(s, e, redeemedToo).calls[k], l) && Carries(Step(s, e, redeemedToo).calls[m], l)
    ensures k == m
  {
    CarriesKept(s, e, redeemedToo, k, l);
    CarriesKept(s, e, redeemedToo, m, l);
    assert k in s.calls ==> CallOk(s, s.calls[k]);
    assert m in s.calls ==> CallOk(s, s.calls[m]);
  }

  /** The event is a statement of this call. */
  predicate Concerns(e: Event, k: nat) {
    !e.StartGrant? && !e.LineDies? && e.call == k
  }

  lemma {:induction false} OthersCallsStay(s: State, e: Event, redeemedToo: bool, k: nat)
    requires k in s.calls && !Concerns(e, k)
    ensures k in Step(s, e, redeemedToo).calls && Step(s, e, redeemedToo).calls[k] == s.calls[k]
  {
  }

  /** An unsettled lineage stays carried, or becomes the recorded one, or dies. */
  lemma {:induction false} CarriedKept(s: State, e: Event, redeemedToo: bool, l: string, k: nat)
    requires l in s.lines && k in s.calls && Carries(s.calls[k], l) && CallOk(s, s.calls[k])
    ensures var s' := Step(s, e, redeemedToo);
            l in s'.lines
            && (|| (k in s'.calls && Carries(s'.calls[k], l))
                || !s'.lines[l].active
                || (s.lines[l].bornOf in s'.pairings && s'.pairings[s.lines[l].bornOf].lineage == l))
  {
    StepEvolvesLine(s, e, redeemedToo, l);
    if !Concerns(e, k) {
      OthersCallsStay(s, e, redeemedToo, k);
    }
  }

  lemma {:induction false} StepKeepsLine(s: State, e: Event, redeemedToo: bool, l: string)
    requires Evolves(s, Step(s, e, redeemedToo)) && l in s.lines && LineOk(s, l)
    requires forall k :: k in s.calls ==> CallOk(s, s.calls[k])
    ensures LineOk(Step(s, e, redeemedToo), l)
  {
    var s' := Step(s, e, redeemedToo);
    if Carried(s, l) {
      var k :| k in s.calls && Carries(s.calls[k], l);
      CarriedKept(s, e, redeemedToo, l, k);
    }
    LineKept(s, s', l);
  }

  /** A lineage stays sound if, when it was carried, it still is, or died, or was
      recorded. */
  lemma {:induction false} LineKept(s: State, s': State, l: string)
    requires Evolves(s, s') && l in s.lines && LineOk(s, l) && l in s'.lines
    requires Carried(s, l) ==>
               Carried(s', l) || !s'.lines[l].active || (s.lines[l].bornOf in s'.pairings && s'.pairings[s.lines[l].bornOf].lineage == l)
    ensures LineOk(s', l)
  {
    var id := s.lines[l].bornOf;
    assert id in s'.pairings && PairingEvolves(s.pairings[id], s'.pairings[id]);
    assert LineEvolves(s.lines[l], s'.lines[l]);
  }

  lemma {:induction false} IssuedLineOk(s: State, e: Event, redeemedToo: bool, l: string)
    requires l !in s.lines && l in Step(s, e, redeemedToo).lines
    requires forall k :: k in s.calls ==> CallOk(s, s.calls[k])
    ensures LineOk(Step(s, e, redeemedToo), l)
  {
    assert CallOk(s, s.calls[e.call]);
    assert Carries(Step(s, e, redeemedToo).calls[e.call], l);
  }

  lemma {:induction false} StepKeepsLines(s: State, e: Event, redeemedToo: bool)
    requires PairingsOk(s) && CallsOk(s) && LinesOk(s)
    ensures LinesOk(Step(s, e, redeemedToo))
  {
    StepEvolves(s, e, redeemedToo);
    forall l | l in Step(s, e, redeemedToo).lines
      ensures LineOk(Step(s, e, redeemedToo), l)
    {
      if l in s.lines {
        StepKeepsLine(s, e, redeemedToo, l);
      } else {
        IssuedLineOk(s, e, redeemedToo, l);
      }
    }
  }

  lemma {:induction false} StepKeepsReturned(s: State, e: Event, redeemedToo: bool)
    requires PairingsOk(s) && CallsOk(s) && ReturnedOk(s)
    ensures ReturnedOk(Step(s, e, redeemedToo))
  {
    var s' := Step(s, e, redeemedToo);
    StepEvolves(s, e, redeemedToo);
    OneReceipt(s, e, redeemedToo);
    ReceiptsStay(s, s');
    if s'.returned != s.returned {
      var c := s.calls[e.call];
      assert CallOk(s, c) && PairingOk(s, c.id);
      NewReceipt(s, s', Receipt(c.id, c.lineage, c.owner));
    }
  }

  /** A receipt for a pairing that had none. */
  lemma {:induction false} NewReceipt(s: State, s': State, r: Receipt)
    requires ReturnedOk(s) && s'.returned == s.returned + [r] && ReceiptOk(s', r)
    requires forall i :: 0 <= i < |s.returned| ==> ReceiptOk(s', s.returned[i])
    requires r.id in s.pairings && s.pairings[r.id].lineage == ""
    ensures ReturnedOk(s')
  {
    forall i | 0 <= i < |s.returned|
      ensures s.returned[i].id != r.id
    {
      assert ReceiptOk(s, s.returned[i]);
    }
  }

  lemma {:induction false} ReceiptsStay(s: State, s': State)
    requires Evolves(s, s') && ReturnedOk(s)
    ensures forall i :: 0 <= i < |s.returned| ==> ReceiptOk(s', s.returned[i])
  {
    forall i | 0 <= i < |s.returned|
      ensures ReceiptOk(s', s.returned[i])
    {
      assert ReceiptOk(s, s.returned[i]);
    }
  }

  /** A receipt is written only by the consume that recorded its lineage. */
  lemma {:induction false} OneReceipt(s: State, e: Event, redeemedToo: bool)
    ensures var s' := Step(s, e, redeemedToo);
            || s'.returned == s.returned
            || (&& e.RedeemConsume? && e.call in s.calls && s.calls[e.call].Minted?
                && var c := s.calls[e.call];
                   && s'.returned == s.returned + [Receipt(c.id, c.lineage, c.owner)]
                   && c.id in s.pairings && CanRedeem(s.pairings[c.id], c.owner)
                   && c.id in s'.pairings && s'.pairings[c.id].lineage == c.lineage && s'.pairings[c.id].owner == c.owner)
  {
  }

  lemma {:induction false} StepKeepsConsent(s: State, e: Event, redeemedToo: bool, id: string, owner: string)
    requires PairingsOk(s) && (forall k :: k in s.calls ==> CallOk(s, s.calls[k]))
    requires Consent(id, owner) in s.consents <==> Owned(s, id, owner)
    ensures Consent(id, owner) in Step(s, e, redeemedToo).consents <==> Owned(Step(s, e, redeemedToo), id, owner)
  {
    if WritesRow(e) {
      assert id in s.pairings ==> PairingOk(s, id);
      assert !e.StartGrant? && e.call in s.calls ==> CallOk(s, s.calls[e.call]);
      WriteKeepsConsent(s, e, redeemedToo, id, owner);
    } else {
      RowsStay(s, e, redeemedToo);
    }
  }

  lemma {:induction false} WriteKeepsConsent(s: State, e: Event, redeemedToo: bool, id: string, owner: string)
    requires WritesRow(e) && (id in s.pairings ==> PairingOk(s, id))
    requires !e.StartGrant? && e.call in s.calls ==> CallOk(s, s.calls[e.call])
    requires Consent(id, owner) in s.consents <==> Owned(s, id, owner)
    ensures Consent(id, owner) in Step(s, e, redeemedToo).consents <==> Owned(Step(s, e, redeemedToo), id, owner)
  {
    if e.StartGrant? || e.MintCreate? {
      CreateKeepsConsent(s, e, redeemedToo, id, owner);
    } else {
      UpdateKeepsConsent(s, e, redeemedToo, id, owner);
    }
  }

  lemma {:induction false} CreateKeepsConsent(s: State, e: Event, redeemedToo: bool, id: string, owner: string)
    requires (e.StartGrant? || e.MintCreate?) && (id in s.pairings ==> PairingOk(s, id))
    requires !e.StartGrant? && e.call in s.calls ==> CallOk(s, s.calls[e.call])
    requires Consent(id, owner) in s.consents <==> Owned(s, id, owner)
    ensures Consent(id, owner) in Step(s, e, redeemedToo).consents <==> Owned(Step(s, e, redeemedToo), id, owner)
  {
  }

  lemma {:induction false} UpdateKeepsConsent(s: State, e: Event, redeemedToo: bool, id: string, owner: string)
    requires (e.ApproveWrite? || e.RedeemConsume? || e.RevokeWrite?) && (id in s.pairings ==> PairingOk(s, id))
    requires !e.StartGrant? && e.call in s.calls ==> CallOk(s, s.calls[e.call])
    requires Consent(id, owner) in s.consents <==> Owned(s, id, owner)
    ensures Consent(id, owner) in Step(s, e, redeemedToo).consents <==> Owned(Step(s, e, redeemedToo), id, owner)
  {
  }

  /** A new link names the owner its call bound. */
  lemma {:induction false} LinkWritten(s: State, e: Event, redeemedToo: bool, id: string)
    requires id in Step(s, e, redeemedToo).links
    ensures var s' := Step(s, e, redeemedToo);
            if id in s.links then s'.links[id] == s.links[id]
            else e.LinkWrite? && e.call in s.calls && s.calls[e.call] == Bound(id, s'.links[id])
  {
  }

  lemma {:induction false} StepKeepsOwners(s: State, e: Event, redeemedToo: bool)
    requires PairingsOk(s) && CallsOk(s) && OwnersOk(s)
    ensures OwnersOk(Step(s, e, redeemedToo))
  {
    var s' := Step(s, e, redeemedToo);
    StepEvolves(s, e, redeemedToo);
    forall id | id in s'.links
      ensures Owned(s', id, s'.links[id])
    {
      LinkWritten(s, e, redeemedToo, id);
      assert id !in s.links ==> CallOk(s, s.calls[e.call]);
    }
    forall id, owner
      ensures Consent(id, owner) in s'.consents <==> Owned(s', id, owner)
    {
      StepKeepsConsent(s, e, redeemedToo, id, owner);
    }
  }

  lemma {:induction false} StepKeepsInv(s: State, e: Event, redeemedToo: bool)
    requires Inv(s)
    ensures Inv(Step(s, e, redeemedToo))
  {
    StepKeepsPairings(s, e, redeemedToo);
    StepKeepsCalls(s, e, redeemedToo);
    StepKeepsLines(s, e, redeemedToo);
    StepKeepsReturned(s, e, redeemedToo);
    StepKeepsOwners(s, e, redeemedToo);
  }

  lemma {:induction false} ExecKeepsInv(s: State, events: seq<Event>, redeemedToo: bool)
    requires Inv(s)
    ensures Inv(Exec(s, events, redeemedToo))
    decreases |events|
  {
    if events != [] {
      StepKeepsInv(s, events[0], redeemedToo);
      ExecKeepsInv(Step(s, events[0], redeemedToo), events[1..], redeemedToo);
    }
  }
}
