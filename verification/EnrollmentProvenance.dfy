/** Whose doing an enrollment was: over every run, tokens come only of a device code
    presented with the right secret in time, and an owner only of a timely approval or
    of minting. */
module EnrollmentProvenance {
  import opened Common
  import opened Scopes
  import opened Enrollment

  /** The event creates the pairing with these contents, good for ten minutes. */
  predicate Creates(e: Event, id: string, p: Pairing) {
    && ((e.StartGrant? && e.id == id && e.codeHash == p.codeHash && e.scopes == p.scopes && p.expiresAt == e.now + 10 * MINUTE)
        || (e.MintCreate? && e.id == id && e.codeHash == p.codeHash && e.scopes == p.scopes && p.expiresAt == e.now + 10 * MINUTE))
  }

  /** The event presents the pairing's device code, with its secret and in time. */
  predicate PresentsCode(e: Event, id: string, p: Pairing) {
    e.RedeemAuthenticate? && e.id == id && e.codeHash == p.codeHash && e.now < p.expiresAt
  }

  /** The event binds the owner: by minting, or by an approval begun in time. */
  predicate Binds(e: Event, id: string, owner: string, p: Pairing) {
    || (e.MintCreate? && e.id == id && e.owner == owner)
    || (e.ApproveFind? && e.id == id && e.owner == owner && e.now < p.expiresAt)
  }

  ghost predicate Created(events: seq<Event>, id: string, p: Pairing) {
    exists i :: 0 <= i < |events| && Creates(events[i], id, p)
  }

  ghost predicate CodePresented(events: seq<Event>, id: string, p: Pairing) {
    exists i :: 0 <= i < |events| && PresentsCode(events[i], id, p)
  }

  ghost predicate OwnerBound(events: seq<Event>, id: string, owner: string, p: Pairing) {
    exists i :: 0 <= i < |events| && Binds(events[i], id, owner, p)
  }

  /** The call redeems the pairing. */
  predicate Redeems(c: Call) {
    c.Authenticated? || c.Resolved? || c.Fetched? || c.Minted? || c.Losing?
  }

  /** The redemption has found its owner. */
  predicate HasOwner(c: Call) {
    c.Resolved? || c.Fetched? || c.Minted? || c.Losing?
  }

  /** The call found its owner active. */
  ghost predicate OwnerFoundActive(events: seq<Event>, k: nat) {
    exists i :: 0 <= i < |events| && events[i] == RedeemResolve(k, true)
  }

  ghost predicate CallCaused(events: seq<Event>, s: State, k: nat, c: Call) {
    && (Redeems(c) ==> c.id in s.pairings && CodePresented(events, c.id, s.pairings[c.id]))
    && (HasOwner(c) ==> OwnerFoundActive(events, k))
    && (c.Found? ==> c.id in s.pairings && OwnerBound(events, c.id, c.owner, s.pairings[c.id]))
  }

  ghost predicate PairingCaused(events: seq<Event>, id: string, p: Pairing) {
    Created(events, id, p) && Grantable(p.scopes) && (p.owner != "" ==> OwnerBound(events, id, p.owner, p))
  }

  ghost predicate ReceiptCaused(events: seq<Event>, s: State, r: Receipt) {
    && r.id in s.pairings && CodePresented(events, r.id, s.pairings[r.id])
    && exists k :: OwnerFoundActive(events, k)
  }

  ghost predicate AllCaused(events: seq<Event>, s: State) {
    && (forall id :: id in s.pairings ==> PairingCaused(events, id, s.pairings[id]))
    && (forall k :: k in s.calls ==> CallCaused(events, s, k, s.calls[k]))
    && (forall i :: 0 <= i < |s.returned| ==> ReceiptCaused(events, s, s.returned[i]))
  }

  /** The contents a pairing keeps for life. */
  predicate SameContents(p: Pairing, q: Pairing) {
    p.codeHash == q.codeHash && p.expiresAt == q.expiresAt && p.scopes == q.scopes
  }

  // ---------------------------------------------------------------------
  // Causes stay
  // ---------------------------------------------------------------------

  lemma {:induction false} ContentsStay(s: State, e: Event, redeemedToo: bool, id: string)
    requires id in s.pairings
    ensures var s' := Step(s, e, redeemedToo); id in s'.pairings && SameContents(s.pairings[id], s'.pairings[id])
  {
    if WritesRow(e) {
      WriteKeepsContents(s, e, redeemedToo, id);
    } else {
      RowsStay(s, e, redeemedToo);
    }
  }

  lemma {:induction false} WriteKeepsContents(s: State, e: Event, redeemedToo: bool, id: string)
    requires WritesRow(e) && id in s.pairings
    ensures var s' := Step(s, e, redeemedToo); id in s'.pairings && SameContents(s.pairings[id], s'.pairings[id])
  {
  }

  lemma {:induction false} CodeStays(past: seq<Event>, e: Event, id: string, p: Pairing, q: Pairing)
    requires CodePresented(past, id, p) && SameContents(p, q)
    ensures CodePresented(past + [e], id, q)
  {
    var i :| 0 <= i < |past| && PresentsCode(past[i], id, p);
    assert PresentsCode((past + [e])[i], id, q);
  }

  lemma {:induction false} BindingStays(past: seq<Event>, e: Event, id: string, owner: string, p: Pairing, q: Pairing)
    requires OwnerBound(past, id, owner, p) && SameContents(p, q)
    ensures OwnerBound(past + [e], id, owner, q)
  {
    var i :| 0 <= i < |past| && Binds(past[i], id, owner, p);
    assert Binds((past + [e])[i], id, owner, q);
  }

  lemma {:induction false} CreationStays(past: seq<Event>, e: Event, id: string, p: Pairing, q: Pairing)
    requires Created(past, id, p) && SameContents(p, q)
    ensures Created(past + [e], id, q)
  {
    var i :| 0 <= i < |past| && Creates(past[i], id, p);
    assert Creates((past + [e])[i], id, q);
  }

  lemma {:induction false} ActiveStays(past: seq<Event>, e: Event, k: nat)
    requires OwnerFoundActive(past, k)
    ensures OwnerFoundActive(past + [e], k)
  {
    var i :| 0 <= i < |past| && past[i] == RedeemResolve(k, true);
    assert (past + [e])[i] == past[i];
  }

  lemma {:induction false} CallStaysCaused(past: seq<Event>, s: State, e: Event, redeemedToo: bool, k: nat, c: Call)
    requires CallCaused(past, s, k, c)
    ensures CallCaused(past + [e], Step(s, e, redeemedToo), k, c)
  {
    if Redeems(c) {
      ContentsStay(s, e, redeemedToo, c.id);
      CodeStays(past, e, c.id, s.pairings[c.id], Step(s, e, redeemedToo).pairings[c.id]);
    } else if c.Found? {
      ContentsStay(s, e, redeemedToo, c.id);
      BindingStays(past, e, c.id, c.owner, s.pairings[c.id], Step(s, e, redeemedToo).pairings[c.id]);
    }
    if HasOwner(c) {
      ActiveStays(past, e, k);
    }
  }

  // ---------------------------------------------------------------------
  // Every statement keeps its causes
  // ---------------------------------------------------------------------

  /** A pairing that is new was just created, an owner that is new was just bound. */
  lemma {:induction false} RowWritten(s: State, e: Event, redeemedToo: bool, id: string)
    requires id in Step(s, e, redeemedToo).pairings
    requires id !in s.pairings || Step(s, e, redeemedToo).pairings[id].owner != s.pairings[id].owner
    ensures var q := Step(s, e, redeemedToo).pairings[id];
            || (id !in s.pairings && Creates(e, id, q) && Grantable(q.scopes) && (q.owner != "" ==> Binds(e, id, q.owner, q)))
            || (id in s.pairings && e.ApproveWrite? && e.call in s.calls && s.calls[e.call] == Found(id, q.owner))
  {
    if !WritesRow(e) {
      RowsStay(s, e, redeemedToo);
    }
  }

  lemma {:induction false} PairingStaysCaused(past: seq<Event>, s: State, e: Event, redeemedToo: bool, id: string)
    requires AllCaused(past, s) && id in Step(s, e, redeemedToo).pairings
    ensures PairingCaused(past + [e], id, Step(s, e, redeemedToo).pairings[id])
  {
    var q := Step(s, e, redeemedToo).pairings[id];
    if id in s.pairings {
      var p := s.pairings[id];
      ContentsStay(s, e, redeemedToo, id);
      CreationStays(past, e, id, p, q);
      if q.owner == p.owner {
        if p.owner != "" {
          BindingStays(past, e, id, p.owner, p, q);
        }
      } else {
        RowWritten(s, e, redeemedToo, id);
        assert CallCaused(past, s, e.call, s.calls[e.call]);
        BindingStays(past, e, id, q.owner, p, q);
      }
    } else {
      RowWritten(s, e, redeemedToo, id);
      assert (past + [e])[|past|] == e;
    }
  }

  /** A call in a new phase: opened by this event, or moved on from a phase with the same
      cause. */
  lemma {:induction false} CallMoved(s: State, e: Event, redeemedToo: bool, k: nat)
    requires k in Step(s, e, redeemedToo).calls
    requires k !in s.calls || Step(s, e, redeemedToo).calls[k] != s.calls[k]
    ensures var c := Step(s, e, redeemedToo).calls[k];
            && (Redeems(c) ==>
                  || (c.id in s.pairings && PresentsCode(e, c.id, s.pairings[c.id]))
                  || (k in s.calls && Redeems(s.calls[k]) && s.calls[k].id == c.id))
            && (HasOwner(c) ==> e == RedeemResolve(k, true) || (k in s.calls && HasOwner(s.calls[k])))
            && (c.Found? ==> c.id in s.pairings && Binds(e, c.id, c.owner, s.pairings[c.id]))
  {
    if IsRedeem(e) {
      RedeemMoved(s, e, redeemedToo, k);
    } else {
      OtherMoved(s, e, redeemedToo, k);
    }
  }

  lemma {:induction false} RedeemMoved(s: State, e: Event, redeemedToo: bool, k: nat)
    requires IsRedeem(e) && k in Step(s, e, redeemedToo).calls
    requires k !in s.calls || Step(s, e, redeemedToo).calls[k] != s.calls[k]
    ensures var c := Step(s, e, redeemedToo).calls[k];
            && !c.Found?
            && (|| (c.id in s.pairings && PresentsCode(e, c.id, s.pairings[c.id]))
                || (k in s.calls && Redeems(s.calls[k]) && s.calls[k].id == c.id))
            && (HasOwner(c) ==> e == RedeemResolve(k, true) || (k in s.calls && HasOwner(s.calls[k])))
  {
  }

  lemma {:induction false} OtherMoved(s: State, e: Event, redeemedToo: bool, k: nat)
    requires !IsRedeem(e) && k in Step(s, e, redeemedToo).calls
    requires k !in s.calls || Step(s, e, redeemedToo).calls[k] != s.calls[k]
    ensures var c := Step(s, e, redeemedToo).calls[k];
            !Redeems(c) && (c.Found? ==> c.id in s.pairings && Binds(e, c.id, c.owner, s.pairings[c.id]))
  {
    OnlyFiveMove(s, e, redeemedToo, k);
  }

  lemma {:induction false} StepKeepsCallCaused(past: seq<Event>, s: State, e: Event, redeemedToo: bool, k: nat)
    requires AllCaused(past, s) && k in Step(s, e, redeemedToo).calls
    ensures CallCaused(past + [e], Step(s, e, redeemedToo), k, Step(s, e, redeemedToo).calls[k])
  {
    var c := Step(s, e, redeemedToo).calls[k];
    if k in s.calls && c == s.calls[k] {
      CallStaysCaused(past, s, e, redeemedToo, k, c);
    } else {
      CallMoved(s, e, redeemedToo, k);
      if k in s.calls {
        CallStaysCaused(past, s, e, redeemedToo, k, s.calls[k]);
      }
      MovedIsCaused(past, s, e, redeemedToo, k);
    }
  }

  lemma {:induction false} MovedIsCaused(past: seq<Event>, s: State, e: Event, redeemedToo: bool, k: nat)
    requires k in Step(s, e, redeemedToo).calls
    requires var c := Step(s, e, redeemedToo).calls[k];
             && (Redeems(c) ==>
                   || (c.id in s.pairings && PresentsCode(e, c.id, s.pairings[c.id]))
                   || (k in s.calls && Redeems(s.calls[k]) && s.calls[k].id == c.id))
             && (HasOwner(c) ==> e == RedeemResolve(k, true) || (k in s.calls && HasOwner(s.calls[k])))
             && (c.Found? ==> c.id in s.pairings && Binds(e, c.id, c.owner, s.pairings[c.id]))
    requires k in s.calls ==> CallCaused(past + [e], Step(s, e, redeemedToo), k, s.calls[k])
    ensures CallCaused(past + [e], Step(s, e, redeemedToo), k, Step(s, e, redeemedToo).calls[k])
  {
    var s' := Step(s, e, redeemedToo);
    var c := s'.calls[k];
    assert (past + [e])[|past|] == e;
    if (Redeems(c) || c.Found?) && c.id in s.pairings {
      ContentsStay(s, e, redeemedToo, c.id);
      assert PresentsCode(e, c.id, s.pairings[c.id]) ==> PresentsCode(e, c.id, s'.pairings[c.id]);
    }
  }

  lemma {:induction false} ReceiptStaysCaused(past: seq<Event>, s: State, e: Event, redeemedToo: bool, i: nat)
    requires AllCaused(past, s) && i < |Step(s, e, redeemedToo).returned|
    ensures ReceiptCaused(past + [e], Step(s, e, redeemedToo), Step(s, e, redeemedToo).returned[i])
  {
    var s' := Step(s, e, redeemedToo);
    var r := s'.returned[i];
    OneReceipt(s, e, redeemedToo);
    if i < |s.returned| {
      assert r == s.returned[i] && ReceiptCaused(past, s, r);
      var k :| OwnerFoundActive(past, k);
      ActiveStays(past, e, k);
    } else {
      assert CallCaused(past, s, e.call, s.calls[e.call]);
      ActiveStays(past, e, e.call);
    }
    ContentsStay(s, e, redeemedToo, r.id);
    CodeStays(past, e, r.id, s.pairings[r.id], s'.pairings[r.id]);
  }

  lemma {:induction false} StepKeepsCaused(past: seq<Event>, s: State, e: Event, redeemedToo: bool)
    requires AllCaused(past, s)
    ensures AllCaused(past + [e], Step(s, e, redeemedToo))
  {
    var s' := Step(s, e, redeemedToo);
    forall id | id in s'.pairings
      ensures PairingCaused(past + [e], id, s'.pairings[id])
    {
      PairingStaysCaused(past, s, e, redeemedToo, id);
    }
    forall k | k in s'.calls
      ensures CallCaused(past + [e], s', k, s'.calls[k])
    {
      StepKeepsCallCaused(past, s, e, redeemedToo, k);
    }
    forall i | 0 <= i < |s'.returned|
      ensures ReceiptCaused(past + [e], s', s'.returned[i])
    {
      ReceiptStaysCaused(past, s, e, redeemedToo, i);
    }
  }

  lemma {:induction false} RunIsCaused(past: seq<Event>, s: State, events: seq<Event>, redeemedToo: bool)
    requires AllCaused(past, s)
    ensures AllCaused(past + events, Exec(s, events, redeemedToo))
    decreases |events|
  {
    if events == [] {
      assert past + events == past;
    } else {
      StepKeepsCaused(past, s, events[0], redeemedToo);
      RunIsCaused(past + [events[0]], Step(s, events[0], redeemedToo), events[1..], redeemedToo);
      assert past + events == (past + [events[0]]) + events[1..];
    }
  }

  /** Tokens need the device code: over every run each receipt's pairing had its code
      presented with the digest its row holds, before the row expired, which is ten
      minutes after the event that created it with that digest and a grantable set of
      scopes; and some redemption found its owner active. */
  lemma {:induction false} ReceiptNeedsCode(events: seq<Event>, redeemedToo: bool, i: nat)
    requires i < |Exec(INITIAL, events, redeemedToo).returned|
    ensures var s := Exec(INITIAL, events, redeemedToo);
            var id := s.returned[i].id;
            && id in s.pairings
            && (exists j :: 0 <= j < |events| && PresentsCode(events[j], id, s.pairings[id]))
            && (exists j :: 0 <= j < |events| && Creates(events[j], id, s.pairings[id]))
            && Grantable(s.pairings[id].scopes)
            && (exists k :: OwnerFoundActive(events, k))
  {
    RunIsCaused([], INITIAL, events, redeemedToo);
    assert [] + events == events;
    var s := Exec(INITIAL, events, redeemedToo);
    assert ReceiptCaused(events, s, s.returned[i]);
    assert PairingCaused(events, s.returned[i].id, s.pairings[s.returned[i].id]);
  }

  /** An owner is bound only by minting, or by an approval of that owner begun before the
      pairing expired. */
  lemma {:induction false} OwnerNeedsConsent(events: seq<Event>, redeemedToo: bool, id: string)
    requires var s := Exec(INITIAL, events, redeemedToo); id in s.pairings && s.pairings[id].owner != ""
    ensures var s := Exec(INITIAL, events, redeemedToo);
            exists j :: 0 <= j < |events| && Binds(events[j], id, s.pairings[id].owner, s.pairings[id])
  {
    RunIsCaused([], INITIAL, events, redeemedToo);
    assert [] + events == events;
    var s := Exec(INITIAL, events, redeemedToo);
    assert PairingCaused(events, id, s.pairings[id]);
  }
}
