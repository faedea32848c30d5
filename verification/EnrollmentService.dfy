/** The enrollment calls as the service runs them, with one point of interference:
    what other callers did to the pairing between a call's read and its write. */
module EnrollmentService {
  import opened Common
  import opened Scopes
  import opened Enrollment
  import opened TokenFormat

  /** The row authenticates the device code. */
  predicate Recognized(pairings: map<string, Pairing>, id: string, codeHash: Bytes, now: int) {
    && id in pairings && pairings[id].codeHash == codeHash
    && pairings[id].status == Approved && pairings[id].owner != "" && now < pairings[id].expiresAt
  }

  /** The device code authenticates, and its link and its row name one active owner. */
  ghost predicate CanStart(pairings: map<string, Pairing>, links: map<string, string>, id: string, codeHash: Bytes,
                           ownerActive: bool, now: int)
  {
    && Recognized(pairings, id, codeHash, now)
    && id in links && links[id] != "" && ownerActive
    && pairings[id].owner == links[id] && Grantable(pairings[id].scopes)
  }

  class Service {
    var pairings: map<string, Pairing>
    var links: map<string, string>
    var lines: map<string, Line>
    /** SHA-256 of a device secret. */
    const digest: Bytes -> Bytes

    constructor (digest: Bytes -> Bytes)
      ensures pairings == map[] && links == map[] && lines == map[] && this.digest == digest
    {
      pairings, links, lines := map[], map[], map[];
      this.digest := digest;
    }

    /** A presented device code: anything that does not parse as one changes nothing and
        returns nothing, and what does parse is redeemed by its identifier and the
        digest of its secret. */
    method RedeemCode(presented: string, ownerActive: bool, now: int, lineage: string, seen: Pairing)
      returns (out: Option<string>)
      requires lineage != "" && lineage !in lines
      modifies this
      ensures links == old(links)
      ensures out.Some? ==> ParseDeviceCode(presented).Some? && out == Some(lineage)
      ensures out.Some? <==>
                && ParseDeviceCode(presented).Some?
                && var (id, secret) := ParseDeviceCode(presented).value;
                   old(Redeemable(id, digest(secret), ownerActive, now)) && CanRedeem(seen, links[id])
      ensures out.Some? ==>
                var id := ParseDeviceCode(presented).value.0;
                && pairings == old(pairings)[id := seen.(status := Redeemed, lineage := lineage)]
                && lines == old(lines)[lineage := Line(links[id], id, true)]
      ensures out.Some? ==>
                var (id, secret) := ParseDeviceCode(presented).value;
                && id in old(pairings) && old(pairings)[id].codeHash == digest(secret) && now < old(pairings)[id].expiresAt
                && old(pairings)[id].status == Approved && ownerActive
      ensures out.None? ==> lines == old(lines) || (lineage in lines && lines == old(lines)[lineage := lines[lineage]] && !lines[lineage].active)
    {
      var parsed := ParseDeviceCode(presented);
      if parsed.None? {
        return None;
      }
      out := Redeem(parsed.value.0, digest(parsed.value.1), ownerActive, now, lineage, seen);
    }

    /** The device code authenticates and resolves to the owner the row names. */
    ghost predicate Redeemable(id: string, codeHash: Bytes, ownerActive: bool, now: int)
      reads this
    {
      CanStart(pairings, links, id, codeHash, ownerActive, now)
    }

    /** Issue, then consume, then compensate. seen is the row as it stands when the
        consume runs. Tokens are returned exactly when the consume applies; otherwise
        the lineage just issued is left dead, so no second credential survives. */
    method Redeem(id: string, codeHash: Bytes, ownerActive: bool, now: int, lineage: string, seen: Pairing)
      returns (out: Option<string>)
      requires lineage != "" && lineage !in lines
      modifies this
      ensures links == old(links)
      ensures !old(Redeemable(id, codeHash, ownerActive, now)) ==>
                out == None && pairings == old(pairings) && lines == old(lines)
      ensures old(Redeemable(id, codeHash, ownerActive, now)) ==>
                var owner := links[id];
                if CanRedeem(seen, owner) then
                  && out == Some(lineage)
                  && pairings == old(pairings)[id := seen.(status := Redeemed, lineage := lineage)]
                  && lines == old(lines)[lineage := Line(owner, id, true)]
                else
                  && out == None && pairings == old(pairings)[id := seen]
                  && lines == old(lines)[lineage := Line(owner, id, false)]
      ensures out.Some? || lines != old(lines) ==>
                && id in old(pairings) && old(pairings)[id].codeHash == codeHash && now < old(pairings)[id].expiresAt
                && old(pairings)[id].status == Approved && ownerActive
                && id in links && links[id] == old(pairings)[id].owner && links[id] != ""
      ensures out.Some? ==> seen.status == Approved && seen.owner == links[id]
    {
      out := None;
      if id !in pairings || pairings[id].codeHash != codeHash {
        return;
      }
      var pairing := pairings[id];
      if pairing.status != Approved || pairing.owner == "" || now >= pairing.expiresAt {
        return;
      }
      if id !in links || links[id] == "" || !ownerActive {
        return;
      }
      var owner := links[id];
      if pairing.owner != owner {
        return;
      }
      var valid := ValidateScopes(pairing.scopes);
      if !valid {
        return;
      }
      lines := lines[lineage := Line(owner, id, true)];
      pairings := pairings[id := seen];
      if !CanRedeem(pairings[id], owner) {
        lines := Kill(lines, lineage);
        return;
      }
      pairings := pairings[id := pairings[id].(status := Redeemed, lineage := lineage)];
      out := Some(lineage);
    }

    /** Withdraw a pairing and kill the lineage its read showed. seen is the row as it
        stands when the write runs. A refused write changes nothing further: the
        lineage is revoked only after the row was withdrawn. */
    method Revoke(id: string, owner: string, seen: Pairing, redeemedToo: bool) returns (ok: bool)
      modifies this
      ensures links == old(links)
      ensures ok <==> owner != "" && id != "" && old(id in pairings && pairings[id].owner == owner)
                      && seen.owner == owner
                      && (seen.status == Pending || seen.status == Approved || (redeemedToo && seen.status == Redeemed))
      ensures ok ==> pairings == old(pairings)[id := seen.(status := Withdrawn)]
                     && lines == if old(pairings)[id].lineage == "" then old(lines) else Kill(old(lines), old(pairings)[id].lineage)
      ensures !ok ==> lines == old(lines)
      ensures !ok ==> pairings == old(pairings) || pairings == old(pairings)[id := seen]
    {
      if owner == "" || id == "" || id !in pairings || pairings[id].owner != owner {
        return false;
      }
      var lineage := pairings[id].lineage;
      pairings := pairings[id := seen];
      if !CanWithdraw(pairings[id], owner, redeemedToo) {
        return false;
      }
      pairings := pairings[id := pairings[id].(status := Withdrawn)];
      if lineage != "" {
        lines := Kill(lines, lineage);
      }
      return true;
    }
  }

  // ---------------------------------------------------------------------
  // The object and the interleaved machine
  // ---------------------------------------------------------------------

  /** The machine's state with one row as other callers left it. */
  function Interfered(s: State, id: string, seen: Pairing): State {
    s.(pairings := s.pairings[id := seen])
  }

  /** The machine up to the issue, for one call and no interference. */
  ghost function UpToIssue(s: State, call: nat, id: string, codeHash: Bytes, ownerActive: bool, now: int, lineage: string): State {
    var resolved := Step(Step(s, RedeemAuthenticate(call, id, codeHash, now), false), RedeemResolve(call, ownerActive), false);
    Step(Step(resolved, RedeemFetch(call), false), RedeemIssue(call, lineage), false)
  }

  lemma {:induction false} AuthenticateStep(s: State, call: nat, id: string, codeHash: Bytes, now: int)
    requires call !in s.calls
    ensures Step(s, RedeemAuthenticate(call, id, codeHash, now), false)
         == if Recognized(s.pairings, id, codeHash, now) then s.(calls := s.calls[call := Authenticated(id)]) else s
  {
  }

  lemma {:induction false} ResolveStep(s: State, call: nat, id: string, ownerActive: bool)
    requires call !in s.calls
    ensures Step(s.(calls := s.calls[call := Authenticated(id)]), RedeemResolve(call, ownerActive), false)
         == if id in s.links && s.links[id] != "" && ownerActive
            then s.(calls := s.calls[call := Resolved(id, s.links[id])]) else s
  {
    assert s.calls[call := Authenticated(id)] - {call} == s.calls;
    assert id in s.links ==> s.calls[call := Authenticated(id)][call := Resolved(id, s.links[id])] == s.calls[call := Resolved(id, s.links[id])];
  }

  lemma {:induction false} FetchStep(s: State, call: nat, id: string, owner: string)
    requires call !in s.calls
    ensures Step(s.(calls := s.calls[call := Resolved(id, owner)]), RedeemFetch(call), false)
         == if id in s.pairings && s.pairings[id].owner == owner && Grantable(s.pairings[id].scopes)
            then s.(calls := s.calls[call := Fetched(id, owner)]) else s
  {
    assert s.calls[call := Resolved(id, owner)] - {call} == s.calls;
    assert s.calls[call := Resolved(id, owner)][call := Fetched(id, owner)] == s.calls[call := Fetched(id, owner)];
  }

  lemma {:induction false} IssueStep(s: State, call: nat, id: string, owner: string, lineage: string)
    requires call !in s.calls && FreshLineage(s, lineage)
    ensures Step(s.(calls := s.calls[call := Fetched(id, owner)]), RedeemIssue(call, lineage), false)
         == s.(lines := s.lines[lineage := Line(owner, id, true)], calls := s.calls[call := Minted(id, owner, lineage)])
  {
    assert s.calls[call := Fetched(id, owner)][call := Minted(id, owner, lineage)] == s.calls[call := Minted(id, owner, lineage)];
  }

  /** A call that ended, or never began, has no further statement. */
  lemma {:induction false} NoCallNoStep(s: State, call: nat, e: Event)
    requires call !in s.calls
    requires e == RedeemFetch(call) || (e.RedeemResolve? && e.call == call) || (e.RedeemIssue? && e.call == call)
    ensures Step(s, e, false) == s
  {
  }

  lemma {:induction false} IssueReached(s: State, call: nat, id: string, codeHash: Bytes, ownerActive: bool, now: int, lineage: string)
    requires call !in s.calls && FreshLineage(s, lineage)
    ensures UpToIssue(s, call, id, codeHash, ownerActive, now, lineage)
         == if CanStart(s.pairings, s.links, id, codeHash, ownerActive, now)
            then s.(lines := s.lines[lineage := Line(s.links[id], id, true)], calls := s.calls[call := Minted(id, s.links[id], lineage)])
            else s
  {
    NoCallNoStep(s, call, RedeemResolve(call, ownerActive));
    NoCallNoStep(s, call, RedeemFetch(call));
    NoCallNoStep(s, call, RedeemIssue(call, lineage));
    AuthenticateStep(s, call, id, codeHash, now);
    ResolveStep(s, call, id, ownerActive);
    if id in s.links {
      FetchStep(s, call, id, s.links[id]);
      IssueStep(s, call, id, s.links[id], lineage);
    }
  }

  /** Service.Redeem is the machine's redemption with one interference, at the point
      where the row is consumed: same rows, same lineages, same answer, and no call
      left in flight. */
  lemma {:induction false} RedeemRefines(s: State, call: nat, id: string, codeHash: Bytes, ownerActive: bool, now: int, lineage: string, seen: Pairing)
    requires call !in s.calls && FreshLineage(s, lineage)
    ensures var issued := UpToIssue(s, call, id, codeHash, ownerActive, now, lineage);
            if !CanStart(s.pairings, s.links, id, codeHash, ownerActive, now) then issued == s
            else
              var owner := s.links[id];
              var consumed := Step(Interfered(issued, id, seen), RedeemConsume(call, false), false);
              var end := Step(consumed, RedeemCompensate(call), false);
              && end.calls == s.calls && end.links == s.links
              && (if CanRedeem(seen, owner) then
                    && end.pairings == s.pairings[id := seen.(status := Redeemed, lineage := lineage)]
                    && end.lines == s.lines[lineage := Line(owner, id, true)]
                    && end.returned == s.returned + [Receipt(id, lineage, owner)]
                  else
                    && end.pairings == s.pairings[id := seen]
                    && end.lines == s.lines[lineage := Line(owner, id, false)]
                    && end.returned == s.returned)
  {
    IssueReached(s, call, id, codeHash, ownerActive, now, lineage);
    if CanStart(s.pairings, s.links, id, codeHash, ownerActive, now) {
      ConsumeRefines(s, call, id, s.links[id], lineage, seen);
    }
  }

  lemma {:induction false} ConsumeRefines(s: State, call: nat, id: string, owner: string, lineage: string, seen: Pairing)
    requires call !in s.calls
    ensures var minted := s.(lines := s.lines[lineage := Line(owner, id, true)], calls := s.calls[call := Minted(id, owner, lineage)]);
            var consumed := Step(Interfered(minted, id, seen), RedeemConsume(call, false), false);
            var end := Step(consumed, RedeemCompensate(call), false);
            end == if CanRedeem(seen, owner) then
                     s.(pairings := s.pairings[id := seen.(status := Redeemed, lineage := lineage)],
                        lines := s.lines[lineage := Line(owner, id, true)], returned := s.returned + [Receipt(id, lineage, owner)])
                   else s.(pairings := s.pairings[id := seen], lines := s.lines[lineage := Line(owner, id, false)])
  {
    assert s.calls[call := Minted(id, owner, lineage)] - {call} == s.calls;
    assert s.calls[call := Losing(id, owner, lineage)] - {call} == s.calls;
    assert s.pairings[id := seen][id := seen.(status := Redeemed, lineage := lineage)]
        == s.pairings[id := seen.(status := Redeemed, lineage := lineage)];
    assert Kill(s.lines[lineage := Line(owner, id, true)], lineage) == s.lines[lineage := Line(owner, id, false)];
    if !CanRedeem(seen, owner) {
      var minted := s.(lines := s.lines[lineage := Line(owner, id, true)], calls := s.calls[call := Minted(id, owner, lineage)]);
      var refused := Step(Interfered(minted, id, seen), RedeemConsume(call, false), false);
      assert refused.calls == s.calls[call := Losing(id, owner, lineage)];
    }
  }

  /** Service.Revoke is the machine's revocation with one interference, between its read
      and its write. */
  lemma {:induction false} RevokeRefines(s: State, call: nat, id: string, owner: string, seen: Pairing, redeemedToo: bool)
    requires call !in s.calls && owner != "" && id in s.pairings && s.pairings[id].owner == owner
    ensures var viewed := Interfered(Step(s, RevokeView(call, id, owner), redeemedToo), id, seen);
            var end := Step(Step(viewed, RevokeWrite(call), redeemedToo), RevokeLine(call), redeemedToo);
            end == if !CanWithdraw(seen, owner, redeemedToo) then Interfered(s, id, seen)
                   else s.(pairings := s.pairings[id := seen.(status := Withdrawn)],
                           lines := if s.pairings[id].lineage == "" then s.lines else Kill(s.lines, s.pairings[id].lineage))
  {
    ViewStep(s, call, id, owner, redeemedToo);
    WithdrawStep(s, call, id, owner, s.pairings[id].lineage, seen, redeemedToo);
    KillStep(s, call, id, owner, s.pairings[id].lineage, seen, redeemedToo);
  }

  lemma {:induction false} ViewStep(s: State, call: nat, id: string, owner: string, redeemedToo: bool)
    requires call !in s.calls && owner != "" && id in s.pairings && s.pairings[id].owner == owner
    ensures Step(s, RevokeView(call, id, owner), redeemedToo)
         == s.(calls := s.calls[call := Viewed(id, owner, s.pairings[id].lineage)])
  {
  }

  lemma {:induction false} WithdrawStep(s: State, call: nat, id: string, owner: string, lineage: string, seen: Pairing, redeemedToo: bool)
    requires call !in s.calls
    ensures var viewed := Interfered(s.(calls := s.calls[call := Viewed(id, owner, lineage)]), id, seen);
            Step(viewed, RevokeWrite(call), redeemedToo)
            == if !CanWithdraw(seen, owner, redeemedToo) then Interfered(s, id, seen)
               else s.(pairings := s.pairings[id := seen.(status := Withdrawn)],
                       calls := if lineage == "" then s.calls else s.calls[call := Withdrawing(id, owner, lineage)])
  {
    assert s.calls[call := Viewed(id, owner, lineage)] - {call} == s.calls;
    assert s.calls[call := Viewed(id, owner, lineage)][call := Withdrawing(id, owner, lineage)]
        == s.calls[call := Withdrawing(id, owner, lineage)];
    assert s.pairings[id := seen][id := seen.(status := Withdrawn)] == s.pairings[id := seen.(status := Withdrawn)];
  }

  lemma {:induction false} KillStep(s: State, call: nat, id: string, owner: string, lineage: string, seen: Pairing, redeemedToo: bool)
    requires call !in s.calls
    ensures Step(Interfered(s, id, seen), RevokeLine(call), redeemedToo) == Interfered(s, id, seen)
    ensures var withdrawn := s.(pairings := s.pairings[id := seen.(status := Withdrawn)],
                                calls := if lineage == "" then s.calls else s.calls[call := Withdrawing(id, owner, lineage)]);
            Step(withdrawn, RevokeLine(call), redeemedToo)
            == s.(pairings := s.pairings[id := seen.(status := Withdrawn)],
                  lines := if lineage == "" then s.lines else Kill(s.lines, lineage))
  {
    assert s.calls[call := Withdrawing(id, owner, lineage)] - {call} == s.calls;
  }
}
