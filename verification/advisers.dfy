/**
  `get_investment_advisers`: keep the companies whose lower-cased name holds
  one of 14 keywords, stopping as soon as the number kept reaches `limit`.
  The company listing itself is an input (fetching it is network I/O; a
  failed fetch gives the empty listing).
 */
module AdviserSearch {
  import opened Strings
  import opened Records

  const InvestmentKeywords: seq<string> := [
    "capital", "venture", "partners", "investment", "fund",
    "equity", "management", "advisors", "advisory", "holdings",
    "asset", "wealth", "family office", "trust"]

  /** `any(kw in name_lower for kw in investment_keywords)` */
  predicate IsAdviserName(name: string) {
    exists k :: 0 <= k < |InvestmentKeywords| && Contains(Lower(name), InvestmentKeywords[k])
  }

  /** Every company whose name matches, in listing order. */
  function Matching(companies: seq<Company>): (r: seq<Company>)
    ensures |r| <= |companies|
    ensures forall i :: 0 <= i < |r| ==> IsAdviserName(r[i].name)
  {
    if |companies| == 0 then []
    else if IsAdviserName(companies[0].name) then [companies[0]] + Matching(companies[1..])
    else Matching(companies[1..])
  }

  /** The record an accepted company becomes (the wall-clock stamp is not
      modelled). */
  function ToAdviser(c: Company): (a: Investor)
    ensures a.cik == c.cik && a.name == c.name && a.filingType.None?
  {
    NewInvestor(c.cik, c.name, Some(c.ticker), EdgarCompanyUrl + c.cik, None)
  }

  /** How many matches the loop can keep: the bound is tested only after an
      append, so a `limit` below 1 still keeps the first match. */
  function Cap(limit: int): nat {
    if limit < 1 then 1 else limit
  }

  function Min(a: nat, b: nat): nat {
    if a <= b then a else b
  }

  function ToAdvisers(cs: seq<Company>): (r: seq<Investor>)
    ensures |r| == |cs|
    ensures forall i :: 0 <= i < |cs| ==> r[i] == ToAdviser(cs[i])
  {
    seq(|cs|, i requires 0 <= i < |cs| => ToAdviser(cs[i]))
  }

  /** The scan over the listing, with its early exit: the first
      `max(limit, 1)` matches, or all of them when there are fewer. */
  method SelectAdvisers(companies: seq<Company>, limit: int) returns (advisers: seq<Investor>)
    ensures |advisers| == Min(|Matching(companies)|, Cap(limit))
    ensures advisers == ToAdvisers(Matching(companies)[..|advisers|])
  {
    advisers := [];
    var i := 0;
    while i < |companies|
      invariant 0 <= i <= |companies|
      invariant |Matching(companies[..i])| < Cap(limit)
      invariant advisers == ToAdvisers(Matching(companies[..i]))
    {
      MatchingExtend(companies, i);
      if IsAdviserName(companies[i].name) {
        ToAdvisersSnoc(Matching(companies[..i]), companies[i]);
        advisers := advisers + [ToAdviser(companies[i])];
        if |advisers| >= limit {
          SelectionStops(companies, limit, i + 1, advisers);
          return;
        }
      }
      i := i + 1;
    }
    SelectionStops(companies, limit, i, advisers);
  }

  lemma ToAdvisersSnoc(cs: seq<Company>, c: Company)
    ensures ToAdvisers(cs + [c]) == ToAdvisers(cs) + [ToAdviser(c)]
  {
    assert (cs + [c])[|cs|] == c;
  }

  /** The scan ends with the matches of the prefix read: either it has read
      the whole listing, or it has kept `max(limit, 1)` matches. */
  lemma SelectionStops(companies: seq<Company>, limit: int, n: nat, advisers: seq<Investor>)
    requires n <= |companies|
    requires advisers == ToAdvisers(Matching(companies[..n]))
    requires |advisers| <= Cap(limit)
    requires n == |companies| || (|advisers| >= limit && |advisers| > 0)
    ensures |advisers| == Min(|Matching(companies)|, Cap(limit))
    ensures advisers == ToAdvisers(Matching(companies)[..|advisers|])
  {
    var m := Matching(companies);
    MatchingPrefix(companies, n);
    if n == |companies| {
      assert companies[..n] == companies;
      assert m[..|m|] == m;
    } else {
      assert |advisers| == Cap(limit);
    }
  }

  lemma {:induction false} MatchingExtend(companies: seq<Company>, i: nat)
    requires i < |companies|
    ensures Matching(companies[..i + 1]) ==
              Matching(companies[..i]) + (if IsAdviserName(companies[i].name) then [companies[i]] else [])
  {
    if i > 0 {
      assert companies[..i + 1][1..] == companies[1..][..i];
      assert companies[..i][1..] == companies[1..][..i - 1];
      MatchingExtend(companies[1..], i - 1);
    } else {
      assert companies[..1][1..] == [];
    }
  }

  /** The matches of a prefix are a prefix of the matches. */
  lemma {:induction false} MatchingPrefix(companies: seq<Company>, i: nat)
    requires i <= |companies|
    ensures |Matching(companies[..i])| <= |Matching(companies)|
    ensures Matching(companies[..i]) == Matching(companies)[..|Matching(companies[..i])|]
  {
    if i > 0 {
      assert companies[..i][0] == companies[0];
      assert companies[..i][1..] == companies[1..][..i - 1];
      MatchingPrefix(companies[1..], i - 1);
    }
  }

  /** The kept advisers carry matching names and there are at most
      `max(limit, 1)` of them. */
  lemma SelectionBounded(companies: seq<Company>, limit: int, advisers: seq<Investor>)
    requires |advisers| == Min(|Matching(companies)|, Cap(limit))
    requires advisers == ToAdvisers(Matching(companies)[..|advisers|])
    ensures |advisers| <= Cap(limit)
    ensures limit >= 1 ==> |advisers| <= limit
    ensures forall i :: 0 <= i < |advisers| ==> IsAdviserName(advisers[i].name)
  {
    var m := Matching(companies);
    forall i | 0 <= i < |advisers|
      ensures IsAdviserName(advisers[i].name)
    {
      assert advisers[i].name == m[i].name;
    }
  }

  /** When fewer than `limit` advisers were kept, every matching company in
      the listing was kept. */
  lemma SelectionComplete(companies: seq<Company>, limit: int, advisers: seq<Investor>, c: Company)
    requires |advisers| == Min(|Matching(companies)|, Cap(limit))
    requires advisers == ToAdvisers(Matching(companies)[..|advisers|])
    requires |advisers| < limit
    requires c in companies && IsAdviserName(c.name)
    ensures ToAdviser(c) in advisers
  {
    var m := Matching(companies);
    MatchingComplete(companies, c);
    var i :| 0 <= i < |m| && m[i] == c;
    assert advisers[i] == ToAdviser(c);
  }

  /** The kept advisers are the records of an order-preserving subsequence
      of the listing. */
  lemma SelectionInListingOrder(companies: seq<Company>, limit: int, advisers: seq<Investor>)
    requires |advisers| == Min(|Matching(companies)|, Cap(limit))
    requires advisers == ToAdvisers(Matching(companies)[..|advisers|])
    ensures exists kept :: IsSubsequence(kept, companies) && advisers == ToAdvisers(kept)
  {
    var m := Matching(companies);
    var kept := m[..|advisers|];
    MatchingInOrder(companies);
    PrefixIsSubsequence(m, |advisers|);
    SubsequenceTransitive(kept, m, companies);
  }

  /** The matches keep the listing's order. */
  lemma {:induction false} MatchingInOrder(companies: seq<Company>)
    ensures IsSubsequence(Matching(companies), companies)
  {
    if |companies| > 0 {
      MatchingInOrder(companies[1..]);
      var m := Matching(companies);
      if IsAdviserName(companies[0].name) {
        assert m[0] == companies[0] && m[1..] == Matching(companies[1..]);
      }
    }
  }

  /** Every matching company is among the matches. */
  lemma {:induction false} MatchingComplete(companies: seq<Company>, c: Company)
    requires c in companies && IsAdviserName(c.name)
    ensures c in Matching(companies)
  {
    if companies[0] != c {
      MatchingComplete(companies[1..], c);
    }
  }
}
