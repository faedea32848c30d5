/** Text comparisons the DNS providers share, and how their API calls can end. */
module DnsText {

  /** TXT content without one pair of surrounding quotes. */
  function Content(v: string): string {
    if |v| >= 2 && v[0] == '"' && v[|v| - 1] == '"' then v[1..|v| - 1] else v
  }

  function Lower(c: char): char {
    if 'A' <= c <= 'Z' then (c as int + 32) as char else c
  }

  predicate EqualFold(a: string, b: string) {
    |a| == |b| && forall i :: 0 <= i < |a| ==> Lower(a[i]) == Lower(b[i])
  }

  /** Quoted and bare spellings of a value without quotes of its own are the same content,
      and nothing else is. */
  lemma {:induction false} SameContentIff(stored: string, value: string)
    requires !(|value| >= 2 && value[0] == '"' && value[|value| - 1] == '"')
    ensures Content(stored) == value <==> (stored == value || stored == "\"" + value + "\"")
  {
    if stored == "\"" + value + "\"" {
      assert stored[1..|stored| - 1] == value;
    }
    if |stored| >= 2 && stored[0] == '"' && stored[|stored| - 1] == '"' {
      assert stored == "\"" + stored[1..|stored| - 1] + "\"";
    }
  }

  /** Folding makes the two cases of an ASCII letter equal and nothing else. */
  lemma {:induction false} FoldsCaseOnly(a: string, b: string)
    ensures EqualFold(a, b) <==>
              |a| == |b| && forall i :: 0 <= i < |a| ==>
                || a[i] == b[i]
                || ('A' <= a[i] <= 'Z' && b[i] as int == a[i] as int + 32)
                || ('A' <= b[i] <= 'Z' && a[i] as int == b[i] as int + 32)
  {
    forall i | 0 <= i < |a| && i < |b|
      ensures Lower(a[i]) == Lower(b[i]) <==>
              || a[i] == b[i]
              || ('A' <= a[i] <= 'Z' && b[i] as int == a[i] as int + 32)
              || ('A' <= b[i] <= 'Z' && a[i] as int == b[i] as int + 32)
    {
    }
  }

  /** What the API call did: the read failed, the write applied, it applied and its
      answer was lost, or it never applied. */
  datatype Outcome = ReadFailed | Applied | AppliedUnreported | NotApplied

  predicate Took(o: Outcome) { o.Applied? || o.AppliedUnreported? }
}
