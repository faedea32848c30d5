/** Namecheap: the whole host set of a domain, replaced at once. */
module Namecheap {
  import opened DnsText
  import opened RecordSets

  const DEFAULT_MX_PREF := "10"
  const CHALLENGE_TTL := "60"

  datatype Host = Host(name: string, kind: string, address: string, mxPref: string, ttl: string)

  /** A published challenge: its host label and its value. */
  datatype Challenge = Challenge(host: string, value: string)

  predicate IsChallenge(h: Host, c: Challenge) {
    EqualFold(h.name, c.host) && EqualFold(h.kind, "TXT") && Content(h.address) == c.value
  }

  /** What is taken for the challenge: a TXT record at its host in any case, with its value
      quoted once or not at all. */
  lemma {:induction false} ChallengeIff(h: Host, c: Challenge)
    requires Content(c.value) == c.value
    ensures IsChallenge(h, c) <==>
              EqualFold(h.name, c.host) && EqualFold(h.kind, "TXT") && (h.address == c.value || h.address == "\"" + c.value + "\"")
  {
    SameContentIff(h.address, c.value);
  }

  /** Empty fields are sent with the documented defaults. */
  function FillDefaults(h: Host): Host {
    h.(mxPref := if h.mxPref == "" then DEFAULT_MX_PREF else h.mxPref,
       ttl := if h.ttl == "" then CHALLENGE_TTL else h.ttl)
  }

  /** Filling touches empty priorities and TTLs and nothing else. */
  lemma {:induction false} FillingKeepsTheRest(h: Host)
    ensures var f := FillDefaults(h);
            && f.name == h.name && f.kind == h.kind && f.address == h.address
            && f.mxPref == (if h.mxPref == "" then "10" else h.mxPref) && f.ttl == (if h.ttl == "" then "60" else h.ttl)
  {
  }

  function Record(c: Challenge): Host {
    Host(c.host, "TXT", c.value, DEFAULT_MX_PREF, CHALLENGE_TTL)
  }

  const API: Api<Host, Challenge> := Api((h, c) => IsChallenge(h, c), c => Record(c), h => FillDefaults(h))

  /** Published values are bare, and no two challenges differ in letter case alone. */
  predicate Distinguished(ours: set<Challenge>) {
    && (forall c :: c in ours ==> Content(c.value) == c.value)
    && (forall c, d :: c in ours && d in ours && EqualFold(c.host, d.host) && c.value == d.value ==> c == d)
  }

  lemma {:induction false} ApiIsSane(ours: set<Challenge>)
    requires Distinguished(ours)
    ensures Sane(API, ours)
  {
    forall h, c, d | c in ours && d in ours && IsChallenge(h, c) && IsChallenge(h, d)
      ensures c == d
    {
      assert EqualFold(c.host, d.host);
    }
  }

  class Domain {
    var hosts: seq<Host>
    var emailType: string
    var usingOurDNS: bool

    constructor (hosts: seq<Host>, emailType: string, usingOurDNS: bool)
      ensures this.hosts == hosts && this.emailType == emailType && this.usingOurDNS == usingOurDNS
    {
      this.hosts, this.emailType, this.usingOurDNS := hosts, emailType, usingOurDNS;
    }

    /** Replace the whole set; every record is re-sent with its fields filled. */
    method SetHosts(given: seq<Host>, outcome: Outcome)
      modifies this`hosts
      ensures hosts == if Took(outcome) then Filled(API, given) else old(hosts)
    {
      var sent: seq<Host> := [];
      for i := 0 to |given|
        invariant |sent| == i && hosts == old(hosts)
        invariant forall k :: 0 <= k < i ==> sent[k] == FillDefaults(given[k])
      {
        var h := given[i];
        var mxPref := h.mxPref;
        if mxPref == "" {
          mxPref := DEFAULT_MX_PREF;
        }
        var ttl := h.ttl;
        if ttl == "" {
          ttl := CHALLENGE_TTL;
        }
        sent := sent + [Host(h.name, h.kind, h.address, mxPref, ttl)];
      }
      if Took(outcome) {
        hosts := sent;
      }
    }

    /** A domain served elsewhere is never written to. */
    method Publish(c: Challenge, outcome: Outcome) returns (ok: bool, cleanup: bool)
      modifies this`hosts
      ensures hosts == After(API, old(hosts), Op.Present(c, usingOurDNS && Took(outcome)))
      ensures ok <==> usingOurDNS && outcome.Applied?
      ensures cleanup <==> usingOurDNS && !outcome.ReadFailed?
      ensures ok && !Holds(API, old(hosts), c) ==>
                |hosts| == |old(hosts)| + 1 && hosts[|old(hosts)|] == Host(c.host, "TXT", c.value, "10", "60")
    {
      if outcome.ReadFailed? || !usingOurDNS {
        return false, false;
      }
      var updated := hosts;
      var at := IndexOf(API, hosts, c);
      if at < 0 {
        updated := updated + [Record(c)];
      }
      SetHosts(updated, outcome);
      return outcome.Applied?, true;
    }

    method Withdraw(c: Challenge, outcome: Outcome) returns (ok: bool)
      modifies this`hosts
      ensures hosts == After(API, old(hosts), Op.Cleanup(c, usingOurDNS && Took(outcome)))
      ensures ok <==> !outcome.ReadFailed? && (!usingOurDNS || !Holds(API, old(hosts), c) || outcome.Applied?)
    {
      if outcome.ReadFailed? {
        return false;
      }
      if !usingOurDNS {
        return true;
      }
      var at := IndexOf(API, hosts, c);
      if at < 0 {
        return true;
      }
      SetHosts(hosts[..at] + hosts[at + 1..], outcome);
      return outcome.Applied?;
    }
  }

  /** Over any run for any challenges of the domain, every other record keeps its place,
      name, type and address; only empty priorities and TTLs are filled. */
  lemma {:induction false} ForeignHostsStay(hosts: seq<Host>, ops: seq<Op<Challenge>>, ours: set<Challenge>)
    requires Distinguished(ours) && Ours(ops, ours)
    ensures UpToFilling(API, Foreign(API, ours, hosts), Foreign(API, ours, Exec(API, hosts, ops)))
  {
    ApiIsSane(ours);
    RunKeepsForeign(API, ours, hosts, ops);
  }

  /** Not a TXT record, or at no host of ours, or of another value. */
  ghost predicate Unrelated(h: Host, ours: set<Challenge>) {
    forall c :: c in ours ==>
      !EqualFold(h.name, c.host) || !EqualFold(h.kind, "TXT") || (h.address != c.value && h.address != "\"" + c.value + "\"")
  }

  /** Such a record is there after any run, at most with its defaults filled. */
  lemma {:induction false} UnrelatedRecordSurvives(hosts: seq<Host>, ops: seq<Op<Challenge>>, ours: set<Challenge>, h: Host)
    requires Distinguished(ours) && Ours(ops, ours) && h in hosts && Unrelated(h, ours)
    ensures h in Exec(API, hosts, ops) || FillDefaults(h) in Exec(API, hosts, ops)
  {
    forall c | c in ours
      ensures !API.matches(h, c)
    {
      ChallengeIff(h, c);
    }
    ForeignHostsStay(hosts, ops, ours);
    ForeignMembers(API, ours, hosts, h);
    var was, now := Foreign(API, ours, hosts), Foreign(API, ours, Exec(API, hosts, ops));
    var i :| 0 <= i < |was| && was[i] == h;
    assert now[i] == h || now[i] == FillDefaults(h);
    ForeignMembers(API, ours, Exec(API, hosts, ops), now[i]);
  }

  /** Once every cleanup has applied the host set is back, up to filling; exactly, when
      no record had an empty field. */
  lemma {:induction false} CleanupsRestoreHosts(hosts: seq<Host>, ops: seq<Op<Challenge>>, ours: set<Challenge>)
    requires Distinguished(ours) && Ours(ops, ours)
    requires forall c :: c in ours ==> !Holds(API, hosts, c) && Settled(ops, c)
    ensures UpToFilling(API, hosts, Exec(API, hosts, ops))
    ensures (forall i :: 0 <= i < |hosts| ==> hosts[i].mxPref != "" && hosts[i].ttl != "") ==>
              Exec(API, hosts, ops) == hosts
  {
    ApiIsSane(ours);
    CleanupsRestore(API, ours, hosts, ops);
    if forall i :: 0 <= i < |hosts| ==> hosts[i].mxPref != "" && hosts[i].ttl != "" {
      assert Filled(API, hosts) == hosts;
    }
  }

  /** A publish and its cleanup bring the set back exactly when it held no such record:
      one that was there before is removed. */
  lemma {:induction false} RestoresHostsIff(hosts: seq<Host>, c: Challenge)
    requires Content(c.value) == c.value
    ensures UpToFilling(API, hosts, Withdrawn(API, Presented(API, hosts, c), c)) <==> !Holds(API, hosts, c)
  {
    ApiIsSane({c});
    RestoresIff(API, hosts, c);
  }
}
