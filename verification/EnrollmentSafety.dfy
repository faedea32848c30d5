/** What enrollment guarantees over every run: single use, owner binding, and what a
    revocation of a pairing does and does not reach. */
module EnrollmentSafety {
  import opened Common
  import opened Scopes
  import opened Enrollment

  lemma {:induction false} Reachable(events: seq<Event>, redeemedToo: bool)
    ensures Inv(Exec(INITIAL, events, redeemedToo))
  {
    ExecKeepsInv(INITIAL, events, redeemedToo);
  }

  /** No redemption of the pairing owes a settlement. */
  ghost predicate Settled(s: State, id: string) {
    forall k :: k in s.calls && (s.calls[k].Minted? || s.calls[k].Losing?) ==> s.calls[k].id != id
  }

  /** Single use: at most one redemption of a pairing returns tokens, they speak for
      the one owner who approved or minted it, and they belong to the recorded
      lineage. */
  lemma {:induction false} PairingIsSingleUse(events: seq<Event>, redeemedToo: bool)
    ensures var s := Exec(INITIAL, events, redeemedToo);
            && (forall i, j :: 0 <= i < j < |s.returned| ==> s.returned[i].id != s.returned[j].id)
            && (forall i :: 0 <= i < |s.returned| ==>
                  var r := s.returned[i];
                  && r.id in s.pairings && s.pairings[r.id].lineage == r.lineage
                  && (forall owner :: Consent(r.id, owner) in s.consents <==> owner == r.owner))
  {
    Reachable(events, redeemedToo);
    var s := Exec(INITIAL, events, redeemedToo);
    assert forall i :: 0 <= i < |s.returned| ==> ReceiptOk(s, s.returned[i]);
  }

  /** Whenever no redemption of the pairing is in flight, no lineage born of it other
      than the recorded one has an active credential. */
  lemma {:induction false} OnlyRecordedLineageLives(events: seq<Event>, redeemedToo: bool, id: string, lineage: string)
    requires var s := Exec(INITIAL, events, redeemedToo);
             Settled(s, id) && lineage in s.lines && s.lines[lineage].bornOf == id && s.lines[lineage].active
    ensures var s := Exec(INITIAL, events, redeemedToo);
            id in s.pairings && s.pairings[id].lineage == lineage
  {
    Reachable(events, redeemedToo);
    var s := Exec(INITIAL, events, redeemedToo);
    SettledLines(s, id, lineage);
  }

  lemma {:induction false} SettledLines(s: State, id: string, lineage: string)
    requires LinesOk(s) && CallsOk(s) && Settled(s, id)
    requires lineage in s.lines && s.lines[lineage].bornOf == id && s.lines[lineage].active
    ensures id in s.pairings && s.pairings[id].lineage == lineage
  {
    assert LineOk(s, lineage);
    assert forall k :: k in s.calls && Carries(s.calls[k], lineage) ==> CallOk(s, s.calls[k]);
  }

  lemma {:induction false} ExecEvolves(s: State, events: seq<Event>, redeemedToo: bool)
    requires Inv(s)
    ensures Evolves(s, Exec(s, events, redeemedToo))
    decreases |events|
  {
    if events != [] {
      var next := Step(s, events[0], redeemedToo);
      StepEvolves(s, events[0], redeemedToo);
      StepKeepsInv(s, events[0], redeemedToo);
      ExecEvolves(next, events[1..], redeemedToo);
      EvolvesOn(s, next, Exec(next, events[1..], redeemedToo));
    }
  }

  lemma {:induction false} EvolvesOn(s: State, mid: State, end: State)
    requires Evolves(s, mid) && Evolves(mid, end)
    ensures Evolves(s, end)
  {
    forall id | id in s.pairings
      ensures id in end.pairings && PairingEvolves(s.pairings[id], end.pairings[id])
    {
      assert id in mid.pairings && PairingEvolves(mid.pairings[id], end.pairings[id]);
    }
    forall l | l in s.lines
      ensures l in end.lines && LineEvolves(s.lines[l], end.lines[l])
    {
      assert l in mid.lines && LineEvolves(mid.lines[l], end.lines[l]);
    }
  }

  /** Owner binding is write-once: once set, a pairing's owner never changes, and the
      link that resolves its device code always names that owner. */
  lemma {:induction false} OwnerIsWriteOnce(past: seq<Event>, future: seq<Event>, redeemedToo: bool, id: string)
    requires var s := Exec(INITIAL, past, redeemedToo); id in s.pairings && s.pairings[id].owner != ""
    ensures var s := Exec(INITIAL, past, redeemedToo);
            var end := Exec(s, future, redeemedToo);
            && id in end.pairings && end.pairings[id].owner == s.pairings[id].owner
            && (id in end.links ==> end.links[id] == s.pairings[id].owner)
  {
    Reachable(past, redeemedToo);
    var s := Exec(INITIAL, past, redeemedToo);
    ExecEvolves(s, future, redeemedToo);
    ExecKeepsInv(s, future, redeemedToo);
    var end := Exec(s, future, redeemedToo);
    assert id in end.links ==> Owned(end, id, end.links[id]);
  }

  /** The row is past every conditional write. */
  predicate Final(p: Pairing, redeemedToo: bool) {
    p.status == Withdrawn || (p.status == Redeemed && !redeemedToo)
  }

  /** Nothing changes a final row. */
  lemma {:induction false} FinalRowStays(s: State, e: Event, redeemedToo: bool, id: string)
    requires id in s.pairings && Final(s.pairings[id], redeemedToo)
    ensures var s' := Step(s, e, redeemedToo); id in s'.pairings && s'.pairings[id] == s.pairings[id]
  {
    if WritesRow(e) {
      WriteSparesFinal(s, e, redeemedToo, id);
    } else {
      RowsStay(s, e, redeemedToo);
    }
  }

  lemma {:induction false} WriteSparesFinal(s: State, e: Event, redeemedToo: bool, id: string)
    requires WritesRow(e) && id in s.pairings && Final(s.pairings[id], redeemedToo)
    ensures var s' := Step(s, e, redeemedToo); id in s'.pairings && s'.pairings[id] == s.pairings[id]
  {
  }

  lemma {:induction false} NoReceiptForWithdrawn(s: State, e: Event, redeemedToo: bool, id: string)
    requires id in s.pairings && s.pairings[id].status == Withdrawn
    ensures var s' := Step(s, e, redeemedToo);
            s.returned <= s'.returned && forall i :: |s.returned| <= i < |s'.returned| ==> s'.returned[i].id != id
  {
    OneReceipt(s, e, redeemedToo);
  }

  /** A withdrawn pairing stays withdrawn, and pays out nothing any more. */
  lemma {:induction false} WithdrawnPaysNothing(s: State, later: seq<Event>, redeemedToo: bool, id: string)
    requires id in s.pairings && s.pairings[id].status == Withdrawn
    ensures var end := Exec(s, later, redeemedToo);
            && id in end.pairings && end.pairings[id] == s.pairings[id]
            && s.returned <= end.returned
            && forall i :: |s.returned| <= i < |end.returned| ==> end.returned[i].id != id
    decreases |later|
  {
    if later != [] {
      FinalRowStays(s, later[0], redeemedToo, id);
      NoReceiptForWithdrawn(s, later[0], redeemedToo, id);
      WithdrawnPaysNothing(Step(s, later[0], redeemedToo), later[1..], redeemedToo, id);
    }
  }

  /** Late redemptions are compensated, over every continuation: from the withdrawal on
      no redemption of the pairing returns tokens, and once none is in flight every
      lineage born of it, before or after, is dead, except one that was already
      recorded when it was withdrawn. */
  lemma {:induction false} LateRedeemIsCompensated(s: State, later: seq<Event>, redeemedToo: bool, id: string)
    requires Inv(s) && id in s.pairings && s.pairings[id].status == Withdrawn
    ensures var end := Exec(s, later, redeemedToo);
            && s.returned <= end.returned
            && (forall i :: |s.returned| <= i < |end.returned| ==> end.returned[i].id != id)
            && (Settled(end, id) ==>
                  forall l :: l in end.lines && end.lines[l].bornOf == id && end.lines[l].active ==> l == s.pairings[id].lineage)
  {
    WithdrawnPaysNothing(s, later, redeemedToo, id);
    ExecKeepsInv(s, later, redeemedToo);
    var end := Exec(s, later, redeemedToo);
    if Settled(end, id) {
      forall l | l in end.lines && end.lines[l].bornOf == id && end.lines[l].active
        ensures l == s.pairings[id].lineage
      {
        SettledLines(end, id, l);
      }
    }
  }

  // ---------------------------------------------------------------------
  // What revoking a pairing reaches
  // ---------------------------------------------------------------------

  /** No active credential descends from the pairing. */
  ghost predicate NoLiveCredential(s: State, id: string) {
    forall l :: l in s.lines && s.lines[l].bornOf == id ==> !s.lines[l].active
  }

  /** Once settled, a pairing has a live credential exactly through its recorded
      lineage. */
  lemma {:induction false} LiveIffRecorded(s: State, id: string)
    requires Inv(s) && id in s.pairings && Settled(s, id)
    ensures NoLiveCredential(s, id) <==>
              s.pairings[id].lineage == "" || !s.lines[s.pairings[id].lineage].active
    ensures s.pairings[id].lineage != "" ==> s.pairings[id].lineage in s.lines
  {
    assert PairingOk(s, id);
    forall l | l in s.lines && s.lines[l].bornOf == id && s.lines[l].active
      ensures s.pairings[id].lineage == l && l != ""
    {
      assert LineOk(s, l);
      SettledLines(s, id, l);
    }
  }

  /** A withdrawal decides nothing about lineages; the write applies exactly to a
      pairing that is not yet redeemed, or also to a redeemed one where the adapter
      allows it. */
  lemma {:induction false} WithdrawalOutcome(s: State, call: nat, redeemedToo: bool)
    requires Inv(s) && call in s.calls && s.calls[call].Viewed?
    ensures var id := s.calls[call].id;
            var s' := Step(s, RevokeWrite(call), redeemedToo);
            && id in s.pairings && s'.lines == s.lines
            && (if s.pairings[id].status == Approved || (redeemedToo && s.pairings[id].status == Redeemed)
                then s'.pairings == s.pairings[id := s.pairings[id].(status := Withdrawn)]
                else s'.pairings == s.pairings)
  {
    assert CallOk(s, s.calls[call]);
    assert PairingOk(s, s.calls[call].id);
  }

  /** With the SQL adapters a redeemed pairing is final, a withdrawn one was never
      redeemed, and no revocation ever gets as far as a lineage. */
  ghost predicate SqlInv(s: State) {
    && (forall id :: id in s.pairings && s.pairings[id].status == Withdrawn ==> s.pairings[id].lineage == "")
    && (forall k :: k in s.calls ==> !s.calls[k].Withdrawing?)
  }

  lemma {:induction false} SqlStep(s: State, e: Event)
    requires PairingsOk(s) && CallsOk(s) && SqlInv(s)
    ensures SqlInv(Step(s, e, false))
  {
    var s' := Step(s, e, false);
    forall k | k in s'.calls
      ensures !s'.calls[k].Withdrawing?
    {
      SqlCall(s, e, k);
    }
    forall id | id in s'.pairings && s'.pairings[id].status == Withdrawn
      ensures s'.pairings[id].lineage == ""
    {
      assert id in s.pairings ==> PairingOk(s, id);
      SqlPairing(s, e, id);
    }
  }

  lemma {:induction false} SqlCall(s: State, e: Event, k: nat)
    requires PairingsOk(s) && CallsOk(s) && SqlInv(s) && k in Step(s, e, false).calls
    ensures !Step(s, e, false).calls[k].Withdrawing?
  {
    if e.RevokeWrite? {
      if e.call in s.calls && s.calls[e.call].Viewed? {
        assert CallOk(s, s.calls[e.call]);
        assert PairingOk(s, s.calls[e.call].id);
      }
    } else if Step(s, e, false).calls[k].Withdrawing? {
      WithdrawingNeedsWrite(s, e, k);
    }
  }

  lemma {:induction false} WithdrawingNeedsWrite(s: State, e: Event, k: nat)
    requires !e.RevokeWrite? && k in Step(s, e, false).calls && Step(s, e, false).calls[k].Withdrawing?
    ensures k in s.calls && s.calls[k].Withdrawing?
  {
  }

  lemma {:induction false} SqlPairing(s: State, e: Event, id: string)
    requires id in Step(s, e, false).pairings
    requires id in s.pairings ==> PairingOk(s, id) && (s.pairings[id].status == Withdrawn ==> s.pairings[id].lineage == "")
    ensures Step(s, e, false).pairings[id].status == Withdrawn ==> Step(s, e, false).pairings[id].lineage == ""
  {
  }

  /** The SQL adapters never change a redeemed pairing. */
  lemma {:induction false} RedeemedIsFinal(s: State, e: Event)
    ensures forall id :: id in s.pairings && s.pairings[id].status == Redeemed ==>
              id in Step(s, e, false).pairings && Step(s, e, false).pairings[id] == s.pairings[id]
  {
    forall id | id in s.pairings && s.pairings[id].status == Redeemed
      ensures id in Step(s, e, false).pairings && Step(s, e, false).pairings[id] == s.pairings[id]
    {
      FinalRowStays(s, e, false, id);
    }
  }

  lemma {:induction false} SqlRun(s: State, events: seq<Event>)
    requires Inv(s) && SqlInv(s)
    ensures SqlInv(Exec(s, events, false))
    ensures forall id :: id in s.pairings && s.pairings[id].status == Redeemed ==>
              id in Exec(s, events, false).pairings && Exec(s, events, false).pairings[id] == s.pairings[id]
    decreases |events|
  {
    if events != [] {
      SqlStep(s, events[0]);
      RedeemedIsFinal(s, events[0]);
      StepKeepsInv(s, events[0], false);
      SqlRun(Step(s, events[0], false), events[1..]);
    }
  }

  /** With the SQL adapters, a withdrawn pairing with no redemption in flight has no
      live credential: the revocation of an unredeemed pairing is complete. */
  lemma {:induction false} WithdrawnHasNoCredential(events: seq<Event>, id: string)
    requires var s := Exec(INITIAL, events, false);
             id in s.pairings && s.pairings[id].status == Withdrawn && Settled(s, id)
    ensures NoLiveCredential(Exec(INITIAL, events, false), id)
  {
    Reachable(events, false);
    SqlRun(INITIAL, events);
    LiveIffRecorded(Exec(INITIAL, events, false), id);
  }

  /** The exact reach of a revocation with the SQL adapters: after the write of a
      settled pairing's revocation, nothing descending from it is live if and only if
      it was not redeemed into a lineage that still is. The revocation of a redeemed
      pairing is refused and its lineage goes on. */
  lemma {:induction false} SqlRevokeReachesIff(events: seq<Event>, call: nat)
    requires var s := Exec(INITIAL, events, false);
             call in s.calls && s.calls[call].Viewed? && Settled(s, s.calls[call].id)
    ensures var s := Exec(INITIAL, events, false);
            var id := s.calls[call].id;
            var s' := Step(s, RevokeWrite(call), false);
            && id in s.pairings
            && (NoLiveCredential(s', id) <==>
                  !(s.pairings[id].status == Redeemed && s.pairings[id].lineage in s.lines && s.lines[s.pairings[id].lineage].active))
            && (s.pairings[id].status == Redeemed ==> s'.pairings == s.pairings && call !in s'.calls)
  {
    Reachable(events, false);
    SqlRun(INITIAL, events);
    SqlRevokeWrite(Exec(INITIAL, events, false), call);
  }

  lemma {:induction false} SqlRevokeWrite(s: State, call: nat)
    requires Inv(s) && SqlInv(s) && call in s.calls && s.calls[call].Viewed? && Settled(s, s.calls[call].id)
    ensures var id := s.calls[call].id;
            var s' := Step(s, RevokeWrite(call), false);
            && id in s.pairings
            && (NoLiveCredential(s', id) <==>
                  !(s.pairings[id].status == Redeemed && s.pairings[id].lineage in s.lines && s.lines[s.pairings[id].lineage].active))
            && (s.pairings[id].status == Redeemed ==> s'.pairings == s.pairings && call !in s'.calls)
  {
    var id := s.calls[call].id;
    assert CallOk(s, s.calls[call]);
    assert PairingOk(s, id);
    WithdrawalOutcome(s, call, false);
    LiveIffRecorded(s, id);
    var s' := Step(s, RevokeWrite(call), false);
    assert s'.lines == s.lines;
    assert NoLiveCredential(s', id) <==> NoLiveCredential(s, id);
  }

  /** Where the adapter does withdraw redeemed pairings, the revocation is complete
      exactly when no redemption was recorded between its read and its write. The
      lineage revocation it ends with is one step here: what it misses when it is not
      serialized is the subject of ReuseDetection. */
  lemma {:induction false} AdapterRevokeReachesIff(events: seq<Event>, call: nat)
    requires var s := Exec(INITIAL, events, true);
             && call in s.calls && s.calls[call].Viewed? && Settled(s, s.calls[call].id)
             && s.calls[call].id in s.pairings && s.pairings[s.calls[call].id].status == Redeemed
             && s.pairings[s.calls[call].id].lineage in s.lines && s.lines[s.pairings[s.calls[call].id].lineage].active
    ensures var s := Exec(INITIAL, events, true);
            var s' := Step(Step(s, RevokeWrite(call), true), RevokeLine(call), true);
            NoLiveCredential(s', s.calls[call].id) <==> s.calls[call].lineage == s.pairings[s.calls[call].id].lineage
  {
    Reachable(events, true);
    var s := Exec(INITIAL, events, true);
    assert CallOk(s, s.calls[call]);
    assert PairingOk(s, s.calls[call].id);
    WithdrawsRedeemed(s, call);
    KillReachesIff(s, s.calls[call].id, s.calls[call].lineage);
  }

  /** The two statements of a revocation that withdraws a redeemed pairing. */
  lemma {:induction false} WithdrawsRedeemed(s: State, call: nat)
    requires call in s.calls && s.calls[call].Viewed?
    requires var c := s.calls[call]; Owned(s, c.id, c.owner) && s.pairings[c.id].status == Redeemed
    ensures var s' := Step(Step(s, RevokeWrite(call), true), RevokeLine(call), true);
            s'.lines == if s.calls[call].lineage == "" then s.lines else Kill(s.lines, s.calls[call].lineage)
  {
  }

  /** Of a settled pairing only the recorded lineage lives, so killing a lineage reaches
      everything exactly when it is that one. */
  lemma {:induction false} KillReachesIff(s: State, id: string, seen: string)
    requires Inv(s) && Settled(s, id) && id in s.pairings
    requires var l := s.pairings[id].lineage; l != "" && l in s.lines && s.lines[l].bornOf == id && s.lines[l].active
    ensures var lines := if seen == "" then s.lines else Kill(s.lines, seen);
            (forall l :: l in lines && lines[l].bornOf == id ==> !lines[l].active) <==> seen == s.pairings[id].lineage
  {
    var recorded := s.pairings[id].lineage;
    forall l | l in s.lines && s.lines[l].bornOf == id && s.lines[l].active
      ensures l == recorded
    {
      SettledLines(s, id, l);
    }
    var lines := if seen == "" then s.lines else Kill(s.lines, seen);
    assert recorded in lines && lines[recorded].bornOf == id;
  }

  // ---------------------------------------------------------------------
  // A redeemed device, and the revocation that does not reach it
  // ---------------------------------------------------------------------

  lemma {:induction false} ExecSnoc(s: State, events: seq<Event>, e: Event)
    ensures Exec(s, events + [e], false) == Step(Exec(s, events, false), e, false)
    decreases |events|
  {
    if events == [] {
      assert events + [e] == [e] && [e][1..] == [];
      assert Exec(Step(s, e, false), [], false) == Step(s, e, false);
    } else {
      assert (events + [e])[1..] == events[1..] + [e];
      ExecSnoc(Step(s, events[0], false), events[1..], e);
    }
  }

  /** Some run with the SQL adapters reaches the state. */
  ghost predicate Reached(s: State) {
    exists events :: Exec(INITIAL, events, false) == s
  }

  lemma {:induction false} ReachNext(s: State, e: Event, next: State)
    requires Reached(s) && Step(s, e, false) == next
    ensures Reached(next)
  {
    var events :| Exec(INITIAL, events, false) == s;
    ExecSnoc(INITIAL, events, e);
  }

  const ROW := Pairing("owner", [1], FULL_GRANT, PAIRING_LIFETIME, Approved, "")
  const LINE := Line("owner", "p", true)

  function Staged(calls: map<nat, Call>, links: map<string, string>, lines: map<string, Line>): State {
    State(map["p" := ROW], links, lines, calls, {Consent("p", "owner")}, [])
  }

  /** A pairing minted by its owner, redeemed once, with nothing in flight. */
  const ENROLLED := State(map["p" := ROW.(status := Redeemed, lineage := "line")], map["p" := "owner"], map["line" := LINE],
                          map[], {Consent("p", "owner")}, [Receipt("p", "line", "owner")])

  lemma {:induction false} LinkedReached()
    ensures Reached(Staged(map[], map["p" := "owner"], map[]))
  {
    assert Exec(INITIAL, [], false) == INITIAL;
    FullGrantIsGrantable();
    var minted := Staged(map[0 := Bound("p", "owner")], map[], map[]);
    ReachNext(INITIAL, MintCreate(0, "p", "owner", [1], FULL_GRANT, 0), minted);
    assert minted.calls - {0} == map[];
    ReachNext(minted, LinkWrite(0), Staged(map[], map["p" := "owner"], map[]));
  }

  lemma {:induction false} AuthenticatedReached()
    ensures Reached(Staged(map[0 := Authenticated("p")], map["p" := "owner"], map[]))
  {
    LinkedReached();
    var link := map["p" := "owner"];
    ReachNext(Staged(map[], link, map[]), RedeemAuthenticate(0, "p", [1], 0), Staged(map[0 := Authenticated("p")], link, map[]));
  }

  lemma {:induction false} ResolvedReached()
    ensures Reached(Staged(map[0 := Resolved("p", "owner")], map["p" := "owner"], map[]))
  {
    AuthenticatedReached();
    var link := map["p" := "owner"];
    var authenticated := Staged(map[0 := Authenticated("p")], link, map[]);
    var resolved := Staged(map[0 := Resolved("p", "owner")], link, map[]);
    assert authenticated.calls[0 := Resolved("p", "owner")] == resolved.calls;
    ReachNext(authenticated, RedeemResolve(0, true), resolved);
  }

  lemma {:induction false} FetchedReached()
    ensures Reached(Staged(map[0 := Fetched("p", "owner")], map["p" := "owner"], map[]))
  {
    ResolvedReached();
    FullGrantIsGrantable();
    var link := map["p" := "owner"];
    var resolved := Staged(map[0 := Resolved("p", "owner")], link, map[]);
    var fetched := Staged(map[0 := Fetched("p", "owner")], link, map[]);
    assert resolved.calls[0 := Fetched("p", "owner")] == fetched.calls;
    ReachNext(resolved, RedeemFetch(0), fetched);
  }

  lemma {:induction false} EnrolledReached()
    ensures Reached(ENROLLED)
  {
    FetchedReached();
    var link := map["p" := "owner"];
    var fetched := Staged(map[0 := Fetched("p", "owner")], link, map[]);
    var issued := Staged(map[0 := Minted("p", "owner", "line")], link, map["line" := LINE]);
    assert fetched.calls[0 := Minted("p", "owner", "line")] == issued.calls;
    ReachNext(fetched, RedeemIssue(0, "line"), issued);
    ConsumesTheExample(issued);
    ReachNext(issued, RedeemConsume(0, false), ENROLLED);
  }

  lemma {:induction false} ConsumesTheExample(issued: State)
    requires issued == Staged(map[0 := Minted("p", "owner", "line")], map["p" := "owner"], map["line" := LINE])
    ensures Step(issued, RedeemConsume(0, false), false) == ENROLLED
  {
    assert issued.calls - {0} == map[];
  }

  /** With the SQL adapters the owner's revocation of a redeemed device is refused and
      the device keeps its live lineage. */
  lemma {:induction false} RedeemedOutlivesRevoke()
    ensures Reached(ENROLLED)
    ensures var viewed := Step(ENROLLED, RevokeView(1, "p", "owner"), false);
            && viewed.calls == map[1 := Viewed("p", "owner", "line")]
            && Step(viewed, RevokeWrite(1), false) == ENROLLED
            && !NoLiveCredential(ENROLLED, "p")
  {
    EnrolledReached();
    var viewed := Step(ENROLLED, RevokeView(1, "p", "owner"), false);
    assert viewed == ENROLLED.(calls := map[1 := Viewed("p", "owner", "line")]);
    assert viewed.calls - {1} == map[];
    assert ENROLLED.lines["line"].bornOf == "p";
  }
}
