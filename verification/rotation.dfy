/** The ring of audit endpoints: each cycle that reaches the audit step takes
    the first site, removes it and appends it at the tail. */
module AuditRotation {

  /** The three audit servers, in their initial order. */
  const AuditSites: seq<string> := [
    "https://a.chainpoint.org/",
    "https://b.chainpoint.org/",
    "https://c.chainpoint.org/"
  ]

  /** `RemoveAt(0)` followed by `Add` of the removed site. */
  function Rotate<T>(sites: seq<T>): (r: seq<T>)
    requires |sites| > 0
    ensures |r| == |sites|
    ensures r[|r| - 1] == sites[0]
    ensures forall k | 0 <= k < |sites| - 1 :: r[k] == sites[k + 1]
  {
    sites[1..] + [sites[0]]
  }

  /** A rotation loses or duplicates no site. */
  lemma RotatePermutes<T>(sites: seq<T>)
    requires |sites| > 0
    ensures multiset(Rotate(sites)) == multiset(sites)
  {
    assert sites == [sites[0]] + sites[1..];
  }

  /** `n` rotations in a row. */
  function RotateTimes<T>(sites: seq<T>, n: nat): (r: seq<T>)
    requires |sites| > 0
    ensures |r| == |sites|
    decreases n
  {
    if n == 0 then sites else Rotate(RotateTimes(sites, n - 1))
  }

  /** Up to a full turn, `n` rotations move the first `n` sites behind the
      others, keeping both groups in order. */
  lemma {:induction false} RotateTimesShifts<T>(sites: seq<T>, n: nat)
    requires 0 < |sites| && n <= |sites|
    ensures RotateTimes(sites, n) == sites[n..] + sites[..n]
    decreases n
  {
    if n > 0 {
      RotateTimesShifts(sites, n - 1);
      var before := sites[n - 1..] + sites[..n - 1];
      assert before[0] == sites[n - 1];
      assert before[1..] == sites[n..] + sites[..n - 1];
      assert sites[..n] == sites[..n - 1] + [sites[n - 1]];
    }
  }

  /** A full turn of the ring restores the original order. */
  lemma FullTurnRestores<T>(sites: seq<T>)
    requires |sites| > 0
    ensures RotateTimes(sites, |sites|) == sites
  {
    RotateTimesShifts(sites, |sites|);
  }

  /** Rotations compose by adding their counts. */
  lemma {:induction false} RotateTimesAdd<T>(sites: seq<T>, m: nat, n: nat)
    requires |sites| > 0
    ensures RotateTimes(RotateTimes(sites, m), n) == RotateTimes(sites, m + n)
    decreases n
  {
    if n > 0 {
      RotateTimesAdd(sites, m, n - 1);
      calc {
        RotateTimes(RotateTimes(sites, m), n);
        Rotate(RotateTimes(RotateTimes(sites, m), n - 1));
        Rotate(RotateTimes(sites, m + n - 1));
        RotateTimes(sites, m + n);
      }
    }
  }

  /** A further full turn changes nothing. */
  lemma Periodic<T>(sites: seq<T>, n: nat)
    requires |sites| > 0
    ensures RotateTimes(sites, n + |sites|) == RotateTimes(sites, n)
  {
    RotateTimesAdd(sites, |sites|, n);
    FullTurnRestores(sites);
  }

  /** Any number of rotations leaves a permutation of the ring. */
  lemma {:induction false} RotateTimesPermutes<T>(sites: seq<T>, n: nat)
    requires |sites| > 0
    ensures multiset(RotateTimes(sites, n)) == multiset(sites)
    decreases n
  {
    if n > 0 {
      RotateTimesPermutes(sites, n - 1);
      RotatePermutes(RotateTimes(sites, n - 1));
    }
  }

  /** For the three audit servers only the number of rotations modulo 3
      matters. */
  lemma {:induction false} AuditSitesPeriod(n: nat)
    ensures RotateTimes(AuditSites, n) == RotateTimes(AuditSites, n % 3)
    decreases n
  {
    if n >= 3 {
      AuditSitesPeriod(n - 3);
      Periodic(AuditSites, n - 3);
    }
  }

  /** After `n` audit steps the site at the head of the ring, the one the
      next audit step queries, is site number `n` modulo 3: each of the three
      servers is queried once in every three audit steps, in the original
      order, and every third step restores the initial order. */
  lemma RoundRobin(n: nat)
    ensures RotateTimes(AuditSites, n)[0] == AuditSites[n % 3]
    ensures n % 3 == 0 ==> RotateTimes(AuditSites, n) == AuditSites
  {
    AuditSitesPeriod(n);
    RotateTimesShifts(AuditSites, n % 3);
  }

}
