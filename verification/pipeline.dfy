/**
  `main`: collect up to 150 advisers from the company listing and up to 100
  holders from the 13F feed, keep the first record seen for each CIK, then
  enrich every record with its details, a category and, when the details
  give none, a state read from the address. Printing, the DataFrame and the
  CSV file are outside the model.
 */
module Pipeline {
  import opened Strings
  import opened Records
  import opened Classifier
  import opened StateCodes
  import opened AdviserSearch
  import opened FilingFeed
  import opened AdviserDetails

  const AdviserLimit := 150
  const FilerLimit := 100

  predicate HasCik(xs: seq<Investor>, c: string) {
    exists i :: 0 <= i < |xs| && xs[i].cik == c
  }

  predicate DistinctCiks(xs: seq<Investor>) {
    forall i, j :: 0 <= i < j < |xs| ==> xs[i].cik != xs[j].cik
  }

  function CikSet(xs: seq<Investor>): set<string> {
    set i | 0 <= i < |xs| :: xs[i].cik
  }

  /** The records of `xs` whose CIK is neither in `seen` nor on an earlier
      record: the reference reading of `main`'s `seen_ciks` filter. */
  function Dedup(xs: seq<Investor>, seen: set<string>): (r: seq<Investor>)
    ensures |r| <= |xs|
    ensures forall k :: 0 <= k < |r| ==> r[k].cik !in seen
    decreases |xs|
  {
    if |xs| == 0 then []
    else if xs[0].cik in seen then Dedup(xs[1..], seen)
    else [xs[0]] + Dedup(xs[1..], seen + {xs[0].cik})
  }

  /** The filter keeps an order-preserving selection of its input whose
      CIKs are pairwise distinct. */
  lemma {:induction false} DedupShape(xs: seq<Investor>, seen: set<string>)
    ensures IsSubsequence(Dedup(xs, seen), xs)
    ensures DistinctCiks(Dedup(xs, seen))
    decreases |xs|
  {
    if |xs| > 0 {
      var r := Dedup(xs, seen);
      if xs[0].cik in seen {
        DedupShape(xs[1..], seen);
      } else {
        var seen' := seen + {xs[0].cik};
        var rest := Dedup(xs[1..], seen');
        DedupShape(xs[1..], seen');
        assert r == [xs[0]] + rest;
        assert r[1..] == rest;
        forall i, j | 0 <= i < j < |r|
          ensures r[i].cik != r[j].cik
        {
          assert r[j] == rest[j - 1];
          if i > 0 {
            assert r[i] == rest[i - 1];
          }
        }
      }
    }
  }

  lemma HasCikCons(x: Investor, tail: seq<Investor>, c: string)
    ensures HasCik([x] + tail, c) <==> x.cik == c || HasCik(tail, c)
  {
    var xs := [x] + tail;
    if HasCik(xs, c) && x.cik != c {
      var i :| 0 <= i < |xs| && xs[i].cik == c;
      assert tail[i - 1].cik == c;
    }
    if HasCik(tail, c) {
      var i :| 0 <= i < |tail| && tail[i].cik == c;
      assert xs[i + 1].cik == c;
    }
    assert xs[0] == x;
  }

  /** Exactly the CIKs of `xs` that are not in `seen` survive. */
  lemma {:induction false} DedupKeepsEveryCik(xs: seq<Investor>, seen: set<string>, c: string)
    ensures HasCik(Dedup(xs, seen), c) <==> HasCik(xs, c) && c !in seen
    decreases |xs|
  {
    if |xs| > 0 {
      assert xs == [xs[0]] + xs[1..];
      HasCikCons(xs[0], xs[1..], c);
      if xs[0].cik in seen {
        DedupKeepsEveryCik(xs[1..], seen, c);
      } else {
        var seen' := seen + {xs[0].cik};
        DedupKeepsEveryCik(xs[1..], seen', c);
        HasCikCons(xs[0], Dedup(xs[1..], seen'), c);
      }
    }
  }

  /** `x` is a record of `xs` and no earlier record has its CIK. */
  predicate IsFirstOfCik(xs: seq<Investor>, x: Investor) {
    exists i :: 0 <= i < |xs| && xs[i] == x && forall j :: 0 <= j < i ==> xs[j].cik != x.cik
  }

  lemma FirstOfCikCons(x: Investor, tail: seq<Investor>, v: Investor)
    requires IsFirstOfCik(tail, v) && x.cik != v.cik
    ensures IsFirstOfCik([x] + tail, v)
  {
    var i :| 0 <= i < |tail| && tail[i] == v && forall j :: 0 <= j < i ==> tail[j].cik != v.cik;
    var xs := [x] + tail;
    assert xs[i + 1] == v;
    forall j | 0 <= j < i + 1
      ensures xs[j].cik != v.cik
    {
      if j > 0 {
        assert xs[j] == tail[j - 1];
      }
    }
  }

  /** Every surviving record is the first record of `xs` with its CIK. */
  lemma {:induction false} DedupKeepsFirst(xs: seq<Investor>, seen: set<string>, k: nat)
    requires k < |Dedup(xs, seen)|
    ensures IsFirstOfCik(xs, Dedup(xs, seen)[k])
    decreases |xs|
  {
    var r := Dedup(xs, seen);
    assert xs == [xs[0]] + xs[1..];
    if xs[0].cik in seen {
      DedupKeepsFirst(xs[1..], seen, k);
      FirstOfCikCons(xs[0], xs[1..], r[k]);
    } else if k == 0 {
      assert xs[0] == r[0];
    } else {
      var seen' := seen + {xs[0].cik};
      assert r[k] == Dedup(xs[1..], seen')[k - 1];
      DedupKeepsFirst(xs[1..], seen', k - 1);
      FirstOfCikCons(xs[0], xs[1..], r[k]);
    }
  }

  /** Filtering a concatenation filters the front, then the back against
      the front's CIKs as well: `main`'s second loop continues the first. */
  lemma {:induction false} DedupAppend(a: seq<Investor>, b: seq<Investor>, seen: set<string>)
    ensures Dedup(a + b, seen) == Dedup(a, seen) + Dedup(b, seen + CikSet(a))
    decreases |a|
  {
    if |a| == 0 {
      assert a + b == b;
      assert CikSet(a) == {};
      assert seen + CikSet(a) == seen;
    } else {
      assert (a + b)[0] == a[0];
      assert (a + b)[1..] == a[1..] + b;
      assert CikSet(a) == {a[0].cik} + CikSet(a[1..]);
      if a[0].cik in seen {
        DedupAppend(a[1..], b, seen);
        assert seen + CikSet(a[1..]) == seen + CikSet(a);
      } else {
        DedupAppend(a[1..], b, seen + {a[0].cik});
        assert seen + {a[0].cik} + CikSet(a[1..]) == seen + CikSet(a);
      }
    }
  }

  /** Records with distinct CIKs none of which was seen all survive. */
  lemma {:induction false} DedupDistinct(xs: seq<Investor>, seen: set<string>)
    requires DistinctCiks(xs) && forall k :: 0 <= k < |xs| ==> xs[k].cik !in seen
    ensures Dedup(xs, seen) == xs
    decreases |xs|
  {
    if |xs| > 0 {
      DedupDistinct(xs[1..], seen + {xs[0].cik});
    }
  }

  /** One step of the filter: the first record is kept exactly when its CIK
      is new, and then joins the seen set. */
  lemma DedupStep(x: Investor, rest: seq<Investor>, seen: set<string>)
    ensures x.cik in seen ==> Dedup([x] + rest, seen) == Dedup(rest, seen)
    ensures x.cik !in seen ==> Dedup([x] + rest, seen) == [x] + Dedup(rest, seen + {x.cik})
  {
    assert ([x] + rest)[0] == x;
    assert ([x] + rest)[1..] == rest;
  }

  /** One iteration of the filter loop keeps its invariant: the records
      kept so far followed by the filter of what is left make up the whole
      filter. */
  lemma KeepStep(all: seq<Investor>, x: Investor, rest: seq<Investor>, seen: set<string>, goal: seq<Investor>)
    requires all + Dedup([x] + rest, seen) == goal
    ensures x.cik in seen ==> all + Dedup(rest, seen) == goal
    ensures x.cik !in seen ==> (all + [x]) + Dedup(rest, seen + {x.cik}) == goal
  {
    DedupStep(x, rest, seen);
    assert (all + [x]) + Dedup(rest, seen + {x.cik}) == all + ([x] + Dedup(rest, seen + {x.cik}));
  }

  lemma CikSetSnoc(xs: seq<Investor>, x: Investor)
    ensures CikSet(xs + [x]) == CikSet(xs) + {x.cik}
  {
    var ys := xs + [x];
    forall c | c in CikSet(ys)
      ensures c in CikSet(xs) + {x.cik}
    {
      var k :| 0 <= k < |ys| && ys[k].cik == c;
      if k < |xs| {
        assert xs[k].cik == c;
      }
    }
    forall c | c in CikSet(xs)
      ensures c in CikSet(ys)
    {
      var k :| 0 <= k < |xs| && xs[k].cik == c;
      assert ys[k].cik == c;
    }
    assert ys[|xs|].cik == x.cik;
  }

  /** One of `main`'s loops: append each record of `xs` whose CIK is not yet
      in `seen`, adding the CIK to `seen`. */
  method KeepFirst(xs: seq<Investor>, all0: seq<Investor>, seen0: set<string>)
    returns (all: seq<Investor>, seen: set<string>)
    ensures all == all0 + Dedup(xs, seen0)
    ensures seen == seen0 + CikSet(xs)
  {
    ghost var goal := all0 + Dedup(xs, seen0);
    all, seen := all0, seen0;
    for i := 0 to |xs|
      invariant all + Dedup(xs[i..], seen) == goal
      invariant seen == seen0 + CikSet(xs[..i])
    {
      assert xs[i..] == [xs[i]] + xs[i + 1..];
      assert xs[..i + 1] == xs[..i] + [xs[i]];
      CikSetSnoc(xs[..i], xs[i]);
      KeepStep(all, xs[i], xs[i + 1..], seen, goal);
      if xs[i].cik !in seen {
        seen := seen + {xs[i].cik};
        all := all + [xs[i]];
      }
    }
    assert xs[..|xs|] == xs;
    assert all + [] == all;
  }

  /** `main`'s two loops over the advisers and then the holders, sharing
      one `seen_ciks` set. */
  method Merge(advisers: seq<Investor>, holders: seq<Investor>) returns (all: seq<Investor>)
    ensures all == Dedup(advisers + holders, {})
  {
    var seen: set<string>;
    all, seen := KeepFirst(advisers, [], {});
    all, seen := KeepFirst(holders, all, seen);
    DedupAppend(advisers, holders, {});
    assert [] + Dedup(advisers, {}) == Dedup(advisers, {});
  }

  /** What the merge promises: one record per CIK, every CIK of either
      source present, each carried by its first record, in source order,
      with the advisers' records in front. */
  lemma MergeProperties(advisers: seq<Investor>, holders: seq<Investor>, all: seq<Investor>)
    requires all == Dedup(advisers + holders, {})
    ensures DistinctCiks(all)
    ensures IsSubsequence(all, advisers + holders)
    ensures forall c :: HasCik(all, c) <==> HasCik(advisers, c) || HasCik(holders, c)
    ensures forall k :: 0 <= k < |all| ==> IsFirstOfCik(advisers + holders, all[k])
    ensures |Dedup(advisers, {})| <= |all| && all[..|Dedup(advisers, {})|] == Dedup(advisers, {})
    ensures DistinctCiks(advisers) ==> |advisers| <= |all| && all[..|advisers|] == advisers
  {
    var xs := advisers + holders;
    DedupShape(xs, {});
    forall c
      ensures HasCik(all, c) <==> HasCik(advisers, c) || HasCik(holders, c)
    {
      DedupKeepsEveryCik(xs, {}, c);
      HasCikConcat(advisers, holders, c);
    }
    forall k | 0 <= k < |all|
      ensures IsFirstOfCik(xs, all[k])
    {
      DedupKeepsFirst(xs, {}, k);
    }
    MergeFront(advisers, holders);
  }

  lemma HasCikConcat(a: seq<Investor>, b: seq<Investor>, c: string)
    ensures HasCik(a + b, c) <==> HasCik(a, c) || HasCik(b, c)
  {
    var xs := a + b;
    if HasCik(a, c) {
      var i :| 0 <= i < |a| && a[i].cik == c;
      assert xs[i].cik == c;
    }
    if HasCik(b, c) {
      var i :| 0 <= i < |b| && b[i].cik == c;
      assert xs[|a| + i].cik == c;
    }
    if HasCik(xs, c) {
      var i :| 0 <= i < |xs| && xs[i].cik == c;
      if i < |a| {
        assert a[i].cik == c;
      } else {
        assert b[i - |a|].cik == c;
      }
    }
  }

  /** The advisers' surviving records come first, untouched by the
      holders; after them come the holders whose CIK no adviser has. */
  lemma MergeFront(advisers: seq<Investor>, holders: seq<Investor>)
    ensures var all := Dedup(advisers + holders, {});
            |Dedup(advisers, {})| <= |all| && all[..|Dedup(advisers, {})|] == Dedup(advisers, {})
            && all[|Dedup(advisers, {})|..] == Dedup(holders, CikSet(advisers))
    ensures var all := Dedup(advisers + holders, {});
            DistinctCiks(advisers) ==> |advisers| <= |all| && all[..|advisers|] == advisers
  {
    DedupAppend(advisers, holders, {});
    var front := Dedup(advisers, {});
    var all := Dedup(advisers + holders, {});
    assert all[..|front|] == front;
    assert {} + CikSet(advisers) == CikSet(advisers);
    if DistinctCiks(advisers) {
      DedupDistinct(advisers, {});
    }
  }

  /** When no CIK repeats, nothing is dropped. */
  lemma MergeKeepsDistinct(advisers: seq<Investor>, holders: seq<Investor>)
    requires DistinctCiks(advisers + holders)
    ensures Dedup(advisers + holders, {}) == advisers + holders
  {
    DedupDistinct(advisers + holders, {});
  }

  /** The reply to the details request for a CIK; a CIK with no reply is a
      transport error. */
  function ReplyFor(cik: string, replies: map<string, DetailResponse>): DetailResponse {
    if cik in replies then replies[cik] else DetailFailed
  }

  /** `investor.update(details)` when details were found. */
  function Update(inv: Investor, details: Option<Details>): (r: Investor)
    ensures details.None? ==> r == inv
    ensures r.cik == inv.cik && r.name == inv.name && r.ticker == inv.ticker
    ensures r.secUrl == inv.secUrl && r.filingType == inv.filingType && r.category == inv.category
  {
    match details
    case None => inv
    case Some(d) =>
      inv.(address := Some(d.address), city := d.city, state := d.state,
           phone := d.phone, sic := d.sic, sicDescription := d.sicDescription)
  }

  /** One iteration of the enrichment loop. */
  function Enrich(inv: Investor, details: Option<Details>): (r: Investor)
    ensures r.cik == inv.cik && r.name == inv.name && r.ticker == inv.ticker
    ensures r.secUrl == inv.secUrl && r.filingType == inv.filingType
    ensures r.category.Some? && r.category.value in Labels
    ensures r.sicDescription == Update(inv, details).sicDescription
    ensures r.address == Update(inv, details).address
  {
    var u := Update(inv, details);
    var typed := u.(category := Some(Classify(u.name, u.sicDescription.GetOr(""))));
    if typed.state.GetOr("") == "" then typed.(state := ExtractState(typed.address.GetOr("")))
    else typed
  }

  /** The category is computed from the name and the (possibly updated)
      SIC description. */
  lemma EnrichCategory(inv: Investor, details: Option<Details>)
    ensures Enrich(inv, details).category
            == Some(Classify(inv.name, Update(inv, details).sicDescription.GetOr("")))
  {
  }

  /** The state is the details' value when that is non-empty, and otherwise
      whatever the address yields, which is a known code or nothing; it is
      never left empty. */
  lemma EnrichState(inv: Investor, details: Option<Details>)
    ensures var u := Update(inv, details);
            var r := Enrich(inv, details);
            && (u.state.GetOr("") != "" ==> r.state == u.state)
            && (u.state.GetOr("") == "" ==> r.state == ExtractState(u.address.GetOr("")))
            && (r.state.Some? ==> r.state.value != "")
  {
    var u := Update(inv, details);
    var r := Enrich(inv, details);
    if u.state.GetOr("") == "" && r.state.Some? {
      var address := u.address.GetOr("");
      assert r.state == ExtractState(address);
      ExtractedIsKnownCode(address);
      CodesAreTwoLetters();
      assert |r.state.value| == 2;
    }
  }

  /** Found details replace the record's address, phone, SIC code, SIC
      description and city, whatever the record held before. */
  lemma EnrichCopiesDetails(inv: Investor, d: Details)
    ensures var r := Enrich(inv, Some(d));
            && r.address == Some(d.address) && r.phone == d.phone && r.sic == d.sic
            && r.city == d.city && r.sicDescription == d.sicDescription
  {
  }

  /** Enriching a record again with the same details changes nothing. */
  lemma EnrichIdempotent(inv: Investor, details: Option<Details>)
    ensures Enrich(Enrich(inv, details), details) == Enrich(inv, details)
  {
    var r := Enrich(inv, details);
    EnrichCategory(inv, details);
    EnrichState(inv, details);
    EnrichCategory(r, details);
    EnrichState(r, details);
  }

  /** One record enriched as `main` does: with the details reply for its
      CIK. */
  function Enriched(inv: Investor, replies: map<string, DetailResponse>): (r: Investor)
    ensures r.cik == inv.cik && r.name == inv.name
    ensures r.category.Some? && r.category.value in Labels
  {
    var details := GetAdviserDetails(ReplyFor(inv.cik, replies));
    EnrichCategory(inv, details);
    Enrich(inv, details)
  }

  /** The enrichment loop over the merged records. */
  method EnrichAll(xs: seq<Investor>, replies: map<string, DetailResponse>) returns (ys: seq<Investor>)
    ensures |ys| == |xs|
    ensures forall k :: 0 <= k < |xs| ==> ys[k].cik == xs[k].cik && ys[k].name == xs[k].name
    ensures forall k :: 0 <= k < |xs| ==> ys[k] == Enriched(xs[k], replies)
  {
    ys := [];
    for i := 0 to |xs|
      invariant |ys| == i
      invariant forall k :: 0 <= k < i ==> ys[k] == Enriched(xs[k], replies)
    {
      ys := ys + [Enriched(xs[i], replies)];
    }
  }

  /** Two runs of records with the same CIK at every index name the same
      CIKs, and one has duplicates exactly when the other does. */
  lemma SameCiks(xs: seq<Investor>, ys: seq<Investor>)
    requires |xs| == |ys|
    requires forall k :: 0 <= k < |xs| ==> xs[k].cik == ys[k].cik
    ensures forall c :: HasCik(xs, c) <==> HasCik(ys, c)
    ensures DistinctCiks(xs) <==> DistinctCiks(ys)
  {
    forall c ensures HasCik(xs, c) <==> HasCik(ys, c) {
      if HasCik(xs, c) {
        var i :| 0 <= i < |xs| && xs[i].cik == c;
        assert ys[i].cik == c;
      }
      if HasCik(ys, c) {
        var i :| 0 <= i < |ys| && ys[i].cik == c;
        assert xs[i].cik == c;
      }
    }
  }

  /** A record-for-record image of the merge of `advisers` and `holders`
      that keeps every CIK in place has the merge's CIKs: each gathered CIK
      once, the advisers' first. */
  lemma EnrichedMerge(advisers: seq<Investor>, holders: seq<Investor>, investors: seq<Investor>)
    requires var all := Dedup(advisers + holders, {});
             |investors| == |all| && forall k :: 0 <= k < |all| ==> investors[k].cik == all[k].cik
    ensures forall c :: HasCik(investors, c) <==> HasCik(advisers + holders, c)
    ensures var front := Dedup(advisers, {});
            |front| <= |investors| &&
            forall k :: 0 <= k < |front| ==> investors[k].cik == front[k].cik
    ensures |investors| <= |advisers| + |holders|
    ensures DistinctCiks(investors)
  {
    var all := Dedup(advisers + holders, {});
    var front := Dedup(advisers, {});
    assert DistinctCiks(all) && |front| <= |all| && all[..|front|] == front by {
      MergeProperties(advisers, holders, all);
    }
    forall c ensures HasCik(all, c) <==> HasCik(advisers + holders, c) {
      assert HasCik(all, c) <==> HasCik(advisers, c) || HasCik(holders, c) by {
        MergeProperties(advisers, holders, all);
      }
      HasCikConcat(advisers, holders, c);
    }
    SameCiks(investors, all);
  }

  /** The advisers `main` keeps: the first matching companies of the
      listing, up to the adviser cap. */
  function SelectedAdvisers(companies: seq<Company>): seq<Investor> {
    var matches := Matching(companies);
    ToAdvisers(matches[..Min(|matches|, Cap(AdviserLimit))])
  }

  /** Every record `main` gathers before merging: the selected advisers
      followed by the feed's holders. */
  function Candidates(companies: seq<Company>, feed: FeedResponse): seq<Investor> {
    SelectedAdvisers(companies) + Recent13FFilers(feed, FilerLimit)
  }

  /** The whole collection: advisers from the listing, holders from the
      feed, the merge and the enrichment. The result is, record for record,
      the first record gathered for each CIK, advisers first, enriched with
      the reply for that CIK. */
  method Run(companies: seq<Company>, feed: FeedResponse, replies: map<string, DetailResponse>)
    returns (investors: seq<Investor>)
    ensures var all := Dedup(Candidates(companies, feed), {});
            |investors| == |all| &&
            forall k :: 0 <= k < |all| ==> investors[k] == Enriched(all[k], replies)
    ensures forall c :: HasCik(investors, c) <==> HasCik(Candidates(companies, feed), c)
    ensures var front := Dedup(SelectedAdvisers(companies), {});
            |front| <= |investors| &&
            forall k :: 0 <= k < |front| ==> investors[k].cik == front[k].cik
    ensures |investors| <= AdviserLimit + FilerLimit
    ensures DistinctCiks(investors)
    ensures forall k :: 0 <= k < |investors| ==>
              investors[k].category.Some? && investors[k].category.value in Labels
  {
    var advisers := SelectAdvisers(companies, AdviserLimit);
    var holders := Recent13FFilers(feed, FilerLimit);
    assert advisers == SelectedAdvisers(companies);
    var all := Merge(advisers, holders);
    investors := EnrichAll(all, replies);
    EnrichedMerge(advisers, holders, investors);
  }
}
