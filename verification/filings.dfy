/**
  `get_recent_13f_filers`: the Atom feed body is cut into `<entry>` blocks,
  at most `limit` of them are examined, and an entry gives a holder record
  when both its title and a `CIK=` digit run are found. The title is then
  cleaned of its form-type suffix by two regular-expression substitutions.

  Each regular expression is modelled as an explicit string function that
  follows Python's `re` semantics for that one pattern: leftmost match,
  greedy and lazy repetition, `.` not matching a newline (except under
  `re.DOTALL`, as in `Entries`), `$` matching at the end or just before a
  final newline.
 */
module FilingFeed {
  import opened Strings
  import opened Records

  const FormType := "13F-HR"

  /** `re.findall(r'<entry>(.*?)</entry>', content, re.DOTALL)`: the text
      between each `<entry>` and the first `</entry>` after it, scanning on
      from the end of each match. */
  function Entries(content: string): seq<string>
    decreases |content|
  {
    match IndexOf(content, "<entry>")
    case None => []
    case Some(i) =>
      var rest := content[i + 7..];
      match IndexOf(rest, "</entry>")
      case None => []
      case Some(j) => [rest[..j]] + Entries(rest[j + 8..])
  }

  function Wrapped(e: string): string {
    "<entry>" + e + "</entry>"
  }

  lemma TagsLeadOnce()
    ensures LeadsOnce("<entry>") && LeadsOnce("</entry>")
  {
  }

  /** One step of the scan, from where the two searches stop. */
  lemma EntriesUnfold(content: string, i: nat, j: nat)
    requires IndexOf(content, "<entry>") == Some(i)
    requires IndexOf(content[i + 7..], "</entry>") == Some(j)
    ensures j + 8 <= |content[i + 7..]|
    ensures Entries(content) == [content[i + 7..][..j]] + Entries(content[i + 7..][j + 8..])
  {
    var rest := content[i + 7..];
    assert OccursAt(rest, "</entry>", j);
    assert j + 8 <= |rest|;
  }

  /** Text free of `<entry>`, then a block, then more text: the block's
      body is the first entry found, and the scan goes on with the text
      after it. */
  lemma EntriesCons(junk: string, e: string, rest: string)
    requires !Contains(junk, "<entry>") && !Contains(e, "</entry>")
    ensures Entries(junk + Wrapped(e) + rest) == [e] + Entries(rest)
  {
    var tail := e + ("</entry>" + rest);
    var content := junk + ("<entry>" + tail);
    assert junk + Wrapped(e) + rest == content;
    TagsLeadOnce();
    OpenFound(junk, tail);
    CloseFound(e, rest);
    EntriesUnfold(content, |junk|, |e|);
  }

  lemma OpenFound(junk: string, tail: string)
    requires LeadsOnce("<entry>") && !Contains(junk, "<entry>")
    ensures IndexOf(junk + ("<entry>" + tail), "<entry>") == Some(|junk|)
    ensures (junk + ("<entry>" + tail))[|junk| + 7..] == tail
  {
    assert StartsWith("<entry>" + tail, "<entry>");
    FirstAfter(junk, "<entry>", "<entry>" + tail);
  }

  lemma CloseFound(e: string, rest: string)
    requires LeadsOnce("</entry>") && !Contains(e, "</entry>")
    ensures IndexOf(e + ("</entry>" + rest), "</entry>") == Some(|e|)
    ensures (e + ("</entry>" + rest))[..|e|] == e
    ensures (e + ("</entry>" + rest))[|e| + 8..] == rest
  {
    assert StartsWith("</entry>" + rest, "</entry>");
    FirstAfter(e, "</entry>", "</entry>" + rest);
  }

  /** A text without `<entry>` has no entries. */
  lemma EntriesNone(content: string)
    requires !Contains(content, "<entry>")
    ensures Entries(content) == []
  {
  }

  /** A feed made of the given entry bodies, each wrapped in its tags. */
  function Feed(es: seq<string>): string {
    if |es| == 0 then "" else Wrapped(es[0]) + Feed(es[1..])
  }

  /** Extraction inverts `Feed`: every block is found, in order, whenever no
      body holds a `</entry>` of its own. */
  lemma {:induction false} EntriesOfFeed(es: seq<string>)
    requires forall k :: 0 <= k < |es| ==> !Contains(es[k], "</entry>")
    ensures Entries(Feed(es)) == es
  {
    if |es| == 0 {
      EntriesNone("");
    } else {
      var t := es[1..];
      assert forall k :: 0 <= k < |t| ==> !Contains(t[k], "</entry>") by {
        forall k | 0 <= k < |t|
          ensures !Contains(t[k], "</entry>")
        {
          assert t[k] == es[k + 1];
        }
      }
      EntriesOfFeed(t);
      FeedStep(es);
    }
  }

  /** One more block in front of a feed adds its body in front of the
      entries. */
  lemma FeedStep(es: seq<string>)
    requires |es| > 0 && !Contains(es[0], "</entry>") && Entries(Feed(es[1..])) == es[1..]
    ensures Entries(Feed(es)) == es
  {
    assert Feed(es) == Wrapped(es[0]) + Feed(es[1..]);
    BlockInFront(es[0], Feed(es[1..]), es[1..]);
    assert es == [es[0]] + es[1..];
  }

  /** A block in front of text whose entries are `tail` gives its body
      followed by `tail`. */
  lemma BlockInFront(e: string, rest: string, tail: seq<string>)
    requires !Contains(e, "</entry>") && Entries(rest) == tail
    ensures Entries(Wrapped(e) + rest) == [e] + tail
  {
    assert "" + Wrapped(e) + rest == Wrapped(e) + rest;
    assert !Contains("", "<entry>");
    EntriesCons("", e, rest);
  }

  /** The scan splits off its first entry `h` and goes on with a shorter
      text `after` that lies inside the content. */
  lemma EntriesSplit(content: string) returns (h: string, after: string)
    requires |Entries(content)| > 0
    ensures |after| < |content| && Entries(content) == [h] + Entries(after)
    ensures Contains(content, Wrapped(h)) && !Contains(h, "</entry>")
    ensures forall p :: Contains(after, p) ==> Contains(content, p)
  {
    EntriesFound(content);
    var i := IndexOf(content, "<entry>").value;
    var j := IndexOf(content[i + 7..], "</entry>").value;
    EntriesUnfold(content, i, j);
    EntryHead(content);
    var a := i + 7 + j + 8;
    assert content[i + 7..][j + 8..] == content[a..];
    h, after := Entries(content)[0], content[a..];
    forall p | Contains(after, p)
      ensures Contains(content, p)
    {
      ContainsSuffix(content, a, after, p);
    }
  }

  /** Text with an entry holds a `<entry>` and, after it, a `</entry>`. */
  lemma EntriesFound(content: string)
    requires |Entries(content)| > 0
    ensures IndexOf(content, "<entry>").Some?
    ensures var i := IndexOf(content, "<entry>").value;
            i + 7 <= |content| && IndexOf(content[i + 7..], "</entry>").Some?
  {
    match IndexOf(content, "<entry>")
    case None =>
    case Some(i) =>
      assert OccursAt(content, "<entry>", i);
  }

  /** The first entry found is delimited in the content and holds no closing
      tag of its own. */
  lemma EntryHead(content: string)
    requires |Entries(content)| > 0
    ensures Contains(content, Wrapped(Entries(content)[0]))
    ensures !Contains(Entries(content)[0], "</entry>")
  {
    var i := IndexOf(content, "<entry>").value;
    var rest := content[i + 7..];
    var j := IndexOf(rest, "</entry>").value;
    assert Entries(content)[0] == rest[..j];
    EntryFound(content, i, rest, j);
  }

  /** The `k`-th entry found, `e`, stands between `<entry>` and `</entry>`
      in the content and holds no `</entry>` of its own. */
  lemma EntryAt(content: string, k: nat, e: string)
    requires k < |Entries(content)| && e == Entries(content)[k]
    ensures Contains(content, Wrapped(e))
    ensures !Contains(e, "</entry>")
  {
    EntriesInside(content);
  }

  /** Every entry found is delimited in the content and free of `</entry>`,
      by induction on the scan. */
  lemma {:induction false} EntriesInside(content: string)
    ensures forall e :: e in Entries(content) ==> Contains(content, Wrapped(e)) && !Contains(e, "</entry>")
    decreases |content|
  {
    if |Entries(content)| > 0 {
      var h, after := EntriesSplit(content);
      EntriesInside(after);
    }
  }

  lemma ContainsSuffix(s: string, a: nat, after: string, p: string)
    requires a <= |s| && after == s[a..] && Contains(after, p)
    ensures Contains(s, p)
  {
    assert s[a..|s|] == after;
    ContainsSlice(s, p, a, |s|);
  }

  /** Every entry found stands between `<entry>` and `</entry>` in the
      content. */
  lemma EntriesDelimited(content: string)
    ensures forall k :: 0 <= k < |Entries(content)| ==> Contains(content, Wrapped(Entries(content)[k]))
  {
    forall k | 0 <= k < |Entries(content)|
      ensures Contains(content, Wrapped(Entries(content)[k]))
    {
      EntryAt(content, k, Entries(content)[k]);
    }
  }

  /** The repetition being lazy, no entry holds a `</entry>` of its own. */
  lemma EntriesLazy(content: string)
    ensures forall k :: 0 <= k < |Entries(content)| ==> !Contains(Entries(content)[k], "</entry>")
  {
    forall k | 0 <= k < |Entries(content)|
      ensures !Contains(Entries(content)[k], "</entry>")
    {
      EntryAt(content, k, Entries(content)[k]);
    }
  }

  /** The first entry found is delimited in the content and holds no closing
      tag of its own. */
  lemma EntryFound(content: string, i: nat, rest: string, j: nat)
    requires OccursAt(content, "<entry>", i) && rest == content[i + 7..]
    requires OccursAt(rest, "</entry>", j)
    requires forall k :: 0 <= k < j ==> !OccursAt(rest, "</entry>", k)
    ensures Contains(content, Wrapped(rest[..j]))
    ensures !Contains(rest[..j], "</entry>")
    ensures i + 7 + j + 8 <= |content| && rest[j + 8..] == content[i + 7 + j + 8..]
  {
    var e := rest[..j];
    assert content[i..i + 7 + j + 8] == "<entry>" + e + "</entry>";
    assert OccursAt(content, Wrapped(e), i);
    if Contains(e, "</entry>") {
      var k :| 0 <= k <= |e| - 8 && OccursAt(e, "</entry>", k);
      assert rest[k..k + 8] == e[k..k + 8];
      assert OccursAt(rest, "</entry>", k);
      assert false;
    }
  }

  /** One match of `<title[^>]*>([^<]+)</title>` spanning from `i` (the
      `<title`) over `g` (the `>`) to `k` (the `</title>`). */
  predicate TitleShape(e: string, i: int, g: int, k: int) {
    && OccursAt(e, "<title", i)
    && i + 6 <= g && g + 1 < k && k <= |e|
    && e[g] == '>'
    && (forall x :: i + 6 <= x < g ==> e[x] != '>')
    && (forall x :: g + 1 <= x < k ==> e[x] != '<')
    && OccursAt(e, "</title>", k)
  }

  /** The pattern tried at a `<title` found at `i`: `[^>]*` must run to the
      first `>`, and `[^<]+` to the first `<`, which must open `</title>`. */
  function TitleAt(e: string, i: nat): (r: Option<string>)
    requires OccursAt(e, "<title", i)
    ensures r.Some? ==> exists g, k :: TitleShape(e, i, g, k) && r.value == e[g + 1..k]
    ensures r.None? ==> forall g, k :: !TitleShape(e, i, g, k)
  {
    match IndexOfFrom(e, ">", i + 6)
    case None =>
      assert forall g, k :: !TitleShape(e, i, g, k) by {
        forall g, k | TitleShape(e, i, g, k) ensures false {
          CharOccurs(e, g);
        }
      }
      None
    case Some(g) =>
      FirstAngle(e, i, g);
      if g + 1 == |e| then
        assert forall g', k :: !TitleShape(e, i, g', k) by {
          forall g', k | TitleShape(e, i, g', k) ensures false {
            ShapeAngle(e, i, g', k, g);
          }
        }
        None
      else
        match IndexOfFrom(e, "<", g + 1)
        case None =>
          assert forall g', k :: !TitleShape(e, i, g', k) by {
            forall g', k | TitleShape(e, i, g', k) ensures false {
              assert e[k] == '<';
              CharOccurs(e, k);
              ShapeAngle(e, i, g', k, g);
            }
          }
          None
        case Some(k) =>
          FirstLess(e, g, k);
          if k > g + 1 && OccursAt(e, "</title>", k) then
            assert TitleShape(e, i, g, k);
            Some(e[g + 1..k])
          else
            assert forall g', k' :: !TitleShape(e, i, g', k') by {
              forall g', k' | TitleShape(e, i, g', k') ensures false {
                ShapeUnique(e, i, g', k', g, k);
              }
            }
            None
  }

  /** What `IndexOfFrom` says about the first `>` at or after `i + 6`. */
  lemma FirstAngle(e: string, i: nat, g: nat)
    requires i + 6 <= g && OccursAt(e, ">", g)
    requires forall x :: i + 6 <= x < g ==> !OccursAt(e, ">", x)
    ensures g < |e| && e[g] == '>'
    ensures forall x :: i + 6 <= x < g ==> e[x] != '>'
  {
    assert e[g..g + 1] == ">";
    forall x | i + 6 <= x < g
      ensures e[x] != '>'
    {
      CharOccurs(e, x);
    }
  }

  /** What `IndexOfFrom` says about the first `<` at or after `g + 1`. */
  lemma FirstLess(e: string, g: nat, k: nat)
    requires g + 1 <= k && OccursAt(e, "<", k)
    requires forall x :: g + 1 <= x < k ==> !OccursAt(e, "<", x)
    ensures k < |e| && e[k] == '<'
    ensures forall x :: g + 1 <= x < k ==> e[x] != '<'
  {
    assert e[k..k + 1] == "<";
    forall x | g + 1 <= x < k
      ensures e[x] != '<'
    {
      CharOccurs(e, x);
    }
  }

  /** The `>` of a title match is the first one after `<title`. */
  lemma ShapeAngle(e: string, i: int, g': int, k: int, g: nat)
    requires TitleShape(e, i, g', k)
    requires i + 6 <= g < |e| && e[g] == '>' && forall x :: i + 6 <= x < g ==> e[x] != '>'
    ensures g' == g
  {
  }

  /** A title match at `i` uses the first `>` and the first `<` after it. */
  lemma ShapeUnique(e: string, i: int, g': int, k': int, g: nat, k: nat)
    requires TitleShape(e, i, g', k')
    requires i + 6 <= g < |e| && e[g] == '>' && forall x :: i + 6 <= x < g ==> e[x] != '>'
    requires g + 1 <= k < |e| && e[k] == '<' && forall x :: g + 1 <= x < k ==> e[x] != '<'
    ensures g' == g && k' == k
  {
    ShapeAngle(e, i, g', k', g);
    assert e[k'] == '<';
  }

  /** No title match starts at an index in `[p, q)`. */
  ghost predicate NoTitleIn(e: string, p: int, q: int) {
    forall i, g, k :: p <= i < q ==> !TitleShape(e, i, g, k)
  }

  /** `re.search` for the title pattern from position `p` on: the capture
      of the leftmost match. */
  function TitleFrom(e: string, p: nat): (r: Option<string>)
    requires p <= |e|
    decreases |e| - p
    ensures r.Some? ==> exists i, g, k :: p <= i && TitleShape(e, i, g, k) && r.value == e[g + 1..k] && NoTitleIn(e, p, i)
    ensures r.None? ==> forall i, g, k :: p <= i ==> !TitleShape(e, i, g, k)
  {
    match IndexOfFrom(e, "<title", p)
    case None => None
    case Some(i) =>
      assert NoTitleIn(e, p, i);
      match TitleAt(e, i)
      case Some(t) => Some(t)
      case None =>
        if i + 1 <= |e| then
          NoTitleJoin(e, p, i);
          TitleFrom(e, i + 1)
        else None
  }

  /** A range free of title matches extends over an index where none
      starts. */
  lemma NoTitleJoin(e: string, p: int, i: int)
    requires NoTitleIn(e, p, i) && forall g, k :: !TitleShape(e, i, g, k)
    ensures forall q :: i < q && NoTitleIn(e, i + 1, q) ==> NoTitleIn(e, p, q)
  {
  }

  /** The captured title of an entry: the text between the `>` and the `<`
      of the leftmost match of the title pattern, if there is one. */
  function TitleOf(e: string): (r: Option<string>)
    ensures r.Some? ==> exists i, g, k :: TitleShape(e, i, g, k) && r.value == e[g + 1..k] && NoTitleIn(e, 0, i)
    ensures r.Some? ==> |r.value| > 0 && forall x :: 0 <= x < |r.value| ==> r.value[x] != '<'
    ensures r.None? <==> forall i, g, k :: !TitleShape(e, i, g, k)
  {
    TitleFrom(e, 0)
  }

  /** The end of the run of ASCII digits starting at `p`. */
  function DigitsEnd(e: string, p: nat): (q: nat)
    requires p <= |e|
    decreases |e| - p
    ensures p <= q <= |e| && AllDigits(e[p..q])
    ensures q == |e| || !IsDigit(e[q])
  {
    if p < |e| && IsDigit(e[p]) then DigitsEnd(e, p + 1) else p
  }

  /** `CIK=(\d+)` can match at `i`. */
  predicate CikAt(e: string, i: int) {
    OccursAt(e, "CIK=", i) && i + 4 < |e| && IsDigit(e[i + 4])
  }

  /** No `CIK=` followed by a digit starts at an index in `[p, q)`. */
  predicate NoCikIn(e: string, p: int, q: int) {
    forall i :: p <= i < q ==> !CikAt(e, i)
  }

  /** `re.search(r'CIK=(\d+)', e)` from position `p` on: the greedy digit
      run after the first `CIK=` that is followed by a digit. */
  function CikFrom(e: string, p: nat): (r: Option<string>)
    requires p <= |e|
    decreases |e| - p
    ensures r.Some? ==> exists i :: p <= i && CikAt(e, i) && NoCikIn(e, p, i) && r.value == e[i + 4..DigitsEnd(e, i + 4)]
    ensures r.None? ==> forall i :: p <= i ==> !CikAt(e, i)
  {
    match IndexOfFrom(e, "CIK=", p)
    case None => None
    case Some(i) =>
      assert NoCikIn(e, p, i);
      if i + 4 < |e| && IsDigit(e[i + 4]) then
        assert CikAt(e, i);
        Some(e[i + 4..DigitsEnd(e, i + 4)])
      else if i + 1 <= |e| then
        assert NoCikIn(e, p, i + 1);
        CikFrom(e, i + 1)
      else None
  }

  /** The CIK of an entry: the whole digit run after its first `CIK=` that
      is followed by a digit. */
  function CikOf(e: string): (r: Option<string>)
    ensures r.Some? ==> exists i :: CikAt(e, i) && NoCikIn(e, 0, i) && r.value == e[i + 4..DigitsEnd(e, i + 4)]
    ensures r.Some? ==> |r.value| > 0 && AllDigits(r.value) && Contains(e, "CIK=" + r.value)
    ensures r.None? <==> forall i :: !CikAt(e, i)
  {
    var r := CikFrom(e, 0);
    if r.Some? then
      var i :| 0 <= i && CikAt(e, i) && NoCikIn(e, 0, i) && r.value == e[i + 4..DigitsEnd(e, i + 4)];
      assert e[i..DigitsEnd(e, i + 4)] == "CIK=" + r.value;
      assert OccursAt(e, "CIK=" + r.value, i);
      r
    else r
  }

  /** The first index at or after `q` that is not whitespace. */
  function SkipSpace(s: string, q: nat): (r: nat)
    requires q <= |s|
    decreases |s| - q
    ensures q <= r <= |s| && AllSpace(s[q..r])
    ensures r == |s| || !IsSpace(s[r])
  {
    if q < |s| && IsSpace(s[q]) then SkipSpace(s, q + 1) else q
  }

  predicate NoNewline(s: string) {
    forall x :: 0 <= x < |s| ==> s[x] != '\n'
  }

  /** `\s*\(13F-HR.*?\)\s*$` matches from `q` (to the end of `s`): after the
      spaces comes `(13F-HR`, the last non-space character is a `)` after it,
      and no newline lies between. */
  predicate ParenSuffixAt(s: string, q: nat)
    requires q <= |s|
  {
    var r := SkipSpace(s, q);
    var t := TrimEnd(s);
    && OccursAt(s, "(13F-HR", r)
    && r + 8 <= |t| && t[|t| - 1] == ')'
    && NoNewline(s[r + 7..|t| - 1])
  }

  function ParenSuffixFrom(s: string, q: nat): (r: string)
    requires q <= |s|
    decreases |s| - q
    ensures StartsWith(s, r)
  {
    if ParenSuffixAt(s, q) then s[..q]
    else if q == |s| then s
    else ParenSuffixFrom(s, q + 1)
  }

  /** `re.sub(r'\s*\(13F-HR.*?\)\s*$', '', s)` */
  function StripParenSuffix(s: string): (r: string)
    ensures StartsWith(s, r)
  {
    ParenSuffixFrom(s, 0)
  }

  /** Where `.*` stops after `13F-HR` at `r`: the first newline, or the end. */
  function LineEnd(s: string, p: nat): (e: nat)
    requires p <= |s|
    decreases |s| - p
    ensures p <= e <= |s| && NoNewline(s[p..e])
    ensures e == |s| || s[e] == '\n'
  {
    if p < |s| && s[p] != '\n' then LineEnd(s, p + 1) else p
  }

  /** `\s*13F-HR.*$` matches from `q`: `$` holds where `.*` stops, at the
      end or before a final newline. */
  predicate BareSuffixAt(s: string, q: nat)
    requires q <= |s|
  {
    var r := SkipSpace(s, q);
    && OccursAt(s, FormType, r)
    && (LineEnd(s, r + 6) == |s| || LineEnd(s, r + 6) == |s| - 1)
  }

  /** What the bare substitution leaves when it matches at `q`: the text
      before the match and whatever follows the end of `.*`. */
  function BareCut(s: string, q: nat): string
    requires q <= |s| && BareSuffixAt(s, q)
  {
    s[..q] + s[LineEnd(s, SkipSpace(s, q) + 6)..]
  }

  function BareSuffixFrom(s: string, q: nat): (r: string)
    requires q <= |s|
    decreases |s| - q
  {
    if BareSuffixAt(s, q) then BareCut(s, q)
    else if q == |s| then s
    else BareSuffixFrom(s, q + 1)
  }

  /** `re.sub(r'\s*13F-HR.*$', '', s)` */
  function StripBareSuffix(s: string): string {
    BareSuffixFrom(s, 0)
  }

  /** The name the program stores for a captured title: strip, both
      substitutions in order, strip again. */
  function CleanTitle(raw: string): (name: string)
    ensures IsStripped(name)
  {
    Strip(StripBareSuffix(StripParenSuffix(Strip(raw))))
  }

  lemma {:induction false} SkipSpaceStops(s: string, q: nat, x: nat)
    requires q <= x < |s| && !IsSpace(s[x])
    ensures SkipSpace(s, q) <= x
    decreases x - q
  {
    if IsSpace(s[q]) {
      SkipSpaceStops(s, q + 1, x);
    }
  }

  lemma {:induction false} ParenFromNone(s: string, q: nat)
    requires q <= |s|
    requires forall q' :: q <= q' <= |s| ==> !ParenSuffixAt(s, q')
    ensures ParenSuffixFrom(s, q) == s
    decreases |s| - q
  {
    if q < |s| {
      ParenFromNone(s, q + 1);
    }
  }

  lemma {:induction false} ParenFromFirst(s: string, q: nat, qs: nat)
    requires q <= qs <= |s| && ParenSuffixAt(s, qs)
    requires forall q' :: q <= q' < qs ==> !ParenSuffixAt(s, q')
    ensures ParenSuffixFrom(s, q) == s[..qs]
    decreases qs - q
  {
    if q < qs {
      ParenFromFirst(s, q + 1, qs);
    }
  }

  lemma {:induction false} BareFromNone(s: string, q: nat)
    requires q <= |s|
    requires forall q' :: q <= q' <= |s| ==> !BareSuffixAt(s, q')
    ensures BareSuffixFrom(s, q) == s
    decreases |s| - q
  {
    if q < |s| {
      BareFromNone(s, q + 1);
    }
  }

  /** When the bare pattern matches at `r0`, the substitution cuts at some
      match position no later than `r0`. */
  lemma {:induction false} BareFromBounded(s: string, q: nat, r0: nat)
    requires q <= r0 <= |s| && BareSuffixAt(s, r0)
    ensures exists q' :: q <= q' <= r0 && BareSuffixAt(s, q') && BareSuffixFrom(s, q) == BareCut(s, q')
    decreases r0 - q
  {
    if BareSuffixAt(s, q) {
      assert BareSuffixFrom(s, q) == BareCut(s, q);
    } else {
      assert q < r0;
      BareFromBounded(s, q + 1, r0);
      var q' :| q + 1 <= q' <= r0 && BareSuffixAt(s, q') && BareSuffixFrom(s, q + 1) == BareCut(s, q');
      assert BareSuffixFrom(s, q) == BareSuffixFrom(s, q + 1);
    }
  }

  /** An occurrence of `(13F-HR` holds one of `13F-HR`. */
  lemma ParenHoldsFormType(s: string, r: nat)
    requires OccursAt(s, "(13F-HR", r)
    ensures OccursAt(s, FormType, r + 1)
  {
    assert s[r + 1..r + 7] == s[r..r + 7][1..];
  }

  /** Without `13F-HR` in it, neither substitution changes a string. */
  lemma SubstitutionsNeedFormType(s: string)
    requires !Contains(s, FormType)
    ensures StripParenSuffix(s) == s
    ensures StripBareSuffix(s) == s
  {
    forall q' | 0 <= q' <= |s|
      ensures !ParenSuffixAt(s, q')
    {
      var r := SkipSpace(s, q');
      if OccursAt(s, "(13F-HR", r) {
        ParenHoldsFormType(s, r);
      }
    }
    ParenFromNone(s, 0);
    BareFromNone(s, 0);
  }

  /** On a single line the bare pattern matches at the first `13F-HR`. */
  lemma BareMatchesFirst(s: string)
    requires NoNewline(s) && Contains(s, FormType)
    ensures IndexOf(s, FormType).Some?
    ensures BareSuffixAt(s, IndexOf(s, FormType).value)
  {
    var r0 := IndexOf(s, FormType).value;
    assert s[r0] == s[r0..r0 + 6][0];
    assert SkipSpace(s, r0) == r0;
  }

  /** On a single line, `.*$` runs to the end, so the bare substitution
      keeps only what precedes the match. */
  lemma BareCutOnLine(s: string, q: nat)
    requires NoNewline(s) && q <= |s| && BareSuffixAt(s, q)
    ensures BareCut(s, q) == s[..q]
  {
  }

  /** Nothing before the first occurrence of a pattern holds it. */
  lemma NoneBeforeFirst(s: string, p: string, q: nat)
    requires |p| > 0 && IndexOf(s, p).Some? && q <= IndexOf(s, p).value
    ensures !Contains(s[..q], p)
  {
    if Contains(s[..q], p) {
      var x :| 0 <= x <= q - |p| && OccursAt(s[..q], p, x);
      assert s[x..x + |p|] == s[..q][x..x + |p|];
      assert OccursAt(s, p, x);
      assert false;
    }
  }

  /** On a single line, the bare substitution removes every `13F-HR`. */
  lemma BareSuffixRemovesFormType(s: string)
    requires NoNewline(s)
    ensures !Contains(StripBareSuffix(s), FormType)
  {
    if !Contains(s, FormType) {
      SubstitutionsNeedFormType(s);
    } else {
      BareMatchesFirst(s);
      var r0 := IndexOf(s, FormType).value;
      BareFromBounded(s, 0, r0);
      var q' :| 0 <= q' <= r0 && BareSuffixAt(s, q') && BareSuffixFrom(s, 0) == BareCut(s, q');
      BareCutOnLine(s, q');
      NoneBeforeFirst(s, FormType, q');
    }
  }

  lemma NoNewlineSlice(s: string, i: nat, j: nat)
    requires NoNewline(s) && i <= j <= |s|
    ensures NoNewline(s[i..j])
  {
    assert forall x :: 0 <= x < j - i ==> s[i..j][x] == s[i + x];
  }

  /** A slice of a string without the pattern is without it too. */
  lemma MissingFromSlice(s: string, p: string, i: nat, j: nat)
    requires !Contains(s, p) && i <= j <= |s|
    ensures !Contains(s[i..j], p)
  {
    if Contains(s[i..j], p) {
      ContainsSlice(s, p, i, j);
    }
  }

  /** On a single-line title, the cleaned name holds no `13F-HR`. */
  lemma CleanTitleDropsFormType(raw: string)
    requires NoNewline(raw)
    ensures !Contains(CleanTitle(raw), FormType)
  {
    var s0 := Strip(raw);
    var i, j :| 0 <= i <= j <= |raw| && s0 == raw[i..j];
    NoNewlineSlice(raw, i, j);
    var s1 := StripParenSuffix(s0);
    NoNewlineSlice(s0, 0, |s1|);
    assert s1 == s0[0..|s1|];
    BareSuffixRemovesFormType(s1);
    var s2 := StripBareSuffix(s1);
    var i', j' :| 0 <= i' <= j' <= |s2| && Strip(s2) == s2[i'..j'];
    MissingFromSlice(s2, FormType, i', j');
  }

  /** A title without `13F-HR` is only stripped of surrounding whitespace. */
  lemma CleanTitleOnlyStrips(raw: string)
    requires !Contains(raw, FormType)
    ensures CleanTitle(raw) == Strip(raw)
  {
    var s0 := Strip(raw);
    var i, j :| 0 <= i <= j <= |raw| && s0 == raw[i..j];
    MissingFromSlice(raw, FormType, i, j);
    SubstitutionsNeedFormType(s0);
    StripIdempotent(raw);
  }

  /** `rstrip` removes a run of trailing whitespace and stops at a
      non-space character. */
  lemma {:induction false} TrimEndSpaces(core: string, trail: string)
    requires |core| > 0 && !IsSpace(core[|core| - 1]) && AllSpace(trail)
    ensures TrimEnd(core + trail) == core
    decreases |trail|
  {
    if |trail| == 0 {
      assert core + trail == core;
      TrimEndNoOp(core);
    } else {
      var t' := trail[..|trail| - 1];
      assert (core + trail)[..|core + trail| - 1] == core + t';
      assert AllSpace(t');
      TrimEndSpaces(core, t');
    }
  }

  /** The parenthesised note, as it follows a name. */
  function ParenNote(base: string, note: string): string {
    base + " (13F-HR" + note + ")"
  }

  lemma StripParenNote(base: string, note: string, trail: string)
    requires |base| > 0 && IsStripped(base) && AllSpace(trail)
    ensures Strip(ParenNote(base, note) + trail) == ParenNote(base, note)
  {
    var core := ParenNote(base, note);
    TrimStartNoOp(core + trail);
    TrimEndSpaces(core, trail);
  }

  lemma ParenNoteMatches(base: string, note: string)
    requires NoNewline(note)
    ensures ParenSuffixAt(ParenNote(base, note), |base|)
  {
    var core := ParenNote(base, note);
    var b := |base|;
    TrimEndNoOp(core);
    assert SkipSpace(core, b + 1) == b + 1;
    assert SkipSpace(core, b) == b + 1;
    assert core[b + 1..b + 8] == "(13F-HR";
    assert core[b + 8..|core| - 1] == note;
  }

  lemma ParenNoteNotEarlier(base: string, note: string, q: nat)
    requires |base| > 0 && IsStripped(base) && q < |base|
    requires forall x :: 0 <= x < |base| ==> base[x] != '('
    ensures !ParenSuffixAt(ParenNote(base, note), q)
  {
    var core := ParenNote(base, note);
    SkipSpaceStops(core, q, |base| - 1);
    var r := SkipSpace(core, q);
    assert core[r] == base[r];
    assert core[r..r + 7][0] == core[r];
  }

  /** The parenthesised substitution cuts exactly at the end of the name. */
  lemma ParenNoteCut(base: string, note: string)
    requires |base| > 0 && IsStripped(base)
    requires forall x :: 0 <= x < |base| ==> base[x] != '('
    requires NoNewline(note)
    ensures StripParenSuffix(ParenNote(base, note)) == base
  {
    var core := ParenNote(base, note);
    ParenNoteMatches(base, note);
    forall q' | 0 <= q' < |base|
      ensures !ParenSuffixAt(core, q')
    {
      ParenNoteNotEarlier(base, note, q');
    }
    ParenFromFirst(core, 0, |base|);
    assert core[..|base|] == base;
  }

  /** A name followed by a parenthesised form-type note loses the note. */
  lemma CleanTitleDropsParenNote(base: string, note: string, trail: string)
    requires |base| > 0 && IsStripped(base) && !Contains(base, FormType)
    requires forall x :: 0 <= x < |base| ==> base[x] != '('
    requires NoNewline(note) && AllSpace(trail)
    ensures CleanTitle(ParenNote(base, note) + trail) == base
  {
    StripParenNote(base, note, trail);
    ParenNoteCut(base, note);
    SubstitutionsNeedFormType(base);
    StripNoOp(base);
  }

  /** The cleanup example: `"Acme Capital Partners (13F-HR) "` becomes
      `"Acme Capital Partners"`. */
  lemma CleanTitleExample()
    ensures CleanTitle("Acme Capital Partners (13F-HR) ") == "Acme Capital Partners"
  {
    var base := "Acme Capital Partners";
    assert "Acme Capital Partners (13F-HR) " == ParenNote(base, "") + " ";
    assert FormType[0] !in base;
    MissingChar(base, FormType, 0);
    CleanTitleDropsParenNote(base, "", " ");
  }

  /** Python's `xs[:limit]`, including its reading of a negative bound. */
  function SliceTo<T>(xs: seq<T>, limit: int): (r: seq<T>)
    ensures |r| <= |xs| && r == xs[..|r|]
    ensures limit >= 0 ==> |r| == if limit < |xs| then limit else |xs|
    ensures limit < 0 ==> |r| == if |xs| + limit > 0 then |xs| + limit else 0
  {
    if limit >= 0 then (if limit < |xs| then xs[..limit] else xs)
    else (if |xs| + limit > 0 then xs[..|xs| + limit] else [])
  }

  function HolderUrl(cik: string): string {
    EdgarCompanyUrl + cik + "&type=" + FormType
  }

  /** The record one entry yields, when both patterns match. */
  function HolderOf(entry: string): (r: Option<Investor>)
    ensures r.Some? <==> TitleOf(entry).Some? && CikOf(entry).Some?
    ensures r.Some? ==> r.value.cik == CikOf(entry).value && r.value.name == CleanTitle(TitleOf(entry).value)
    ensures r.Some? ==> GoodHolder(r.value)
  {
    var title := TitleOf(entry);
    var cik := CikOf(entry);
    if title.Some? && cik.Some? then
      Some(NewInvestor(cik.value, CleanTitle(title.value), None, HolderUrl(cik.value), Some(FormType)))
    else None
  }

  /** A well-formed holder record: a CIK of digits, the form type, a stripped
      name. */
  predicate GoodHolder(h: Investor) {
    |h.cik| > 0 && AllDigits(h.cik) && h.filingType == Some(FormType) && IsStripped(h.name)
  }

  /** What each examined entry yields, entry by entry. */
  function Attempts(entries: seq<string>): seq<Option<Investor>> {
    Map(HolderOf, entries)
  }

  /** The holders of the examined entries, in entry order. */
  function Holders(entries: seq<string>): (r: seq<Investor>)
    ensures |r| <= |entries|
    ensures forall k :: 0 <= k < |r| ==> GoodHolder(r[k])
  {
    var found := Attempts(entries);
    var r := Somes(found);
    assert forall k :: 0 <= k < |r| ==> GoodHolder(r[k]) by {
      forall k | 0 <= k < |r| ensures GoodHolder(r[k]) {
        assert Some(r[k]) in found;
      }
    }
    r
  }

  /** The holders of two runs of entries are those of the first run
      followed by those of the second. */
  lemma HoldersAppend(a: seq<string>, b: seq<string>)
    ensures Holders(a + b) == Holders(a) + Holders(b)
  {
    MapAppend(HolderOf, a, b);
    SomesAppend(Attempts(a), Attempts(b));
  }

  /** A single entry gives its holder when it has one and nothing
      otherwise; with `HoldersAppend` this fixes the holders entry by
      entry, in entry order. */
  lemma HoldersOne(x: string)
    ensures Holders([x]) == if HolderOf(x).Some? then [HolderOf(x).value] else []
  {
    var found := Attempts([x]);
    assert found == [HolderOf(x)];
    assert found[1..] == [];
  }

  /** Every examined entry with both a title and a CIK is represented. */
  lemma HoldersComplete(entries: seq<string>, k: nat)
    requires k < |entries| && HolderOf(entries[k]).Some?
    ensures HolderOf(entries[k]).value in Holders(entries)
  {
    var found := Attempts(entries);
    assert found[k] == HolderOf(entries[k]);
    assert found[k].value in Somes(found);
  }

  /** Every holder comes from an examined entry. */
  lemma HolderSource(entries: seq<string>, h: Investor)
    requires h in Holders(entries)
    ensures exists k :: 0 <= k < |entries| && HolderOf(entries[k]) == Some(h)
  {
    var found := Attempts(entries);
    var r := Somes(found);
    var i :| 0 <= i < |r| && r[i] == h;
    assert Some(h) in found;
    var k :| 0 <= k < |found| && found[k] == Some(h);
    assert found[k] == HolderOf(entries[k]);
  }

  /** `holders` are exactly what the examined entries yield: each entry
      with both a title and a CIK is represented, and nothing else is. */
  predicate ExactlyMatched(entries: seq<string>, holders: seq<Investor>) {
    && (forall k :: 0 <= k < |entries| && HolderOf(entries[k]).Some? ==> HolderOf(entries[k]).value in holders)
    && (forall h :: h in holders ==> exists k :: 0 <= k < |entries| && HolderOf(entries[k]) == Some(h))
  }

  /** An entry yields a holder exactly when both its title and its CIK are
      found. */
  lemma HoldersExactlyMatched(entries: seq<string>)
    ensures ExactlyMatched(entries, Holders(entries))
  {
    forall k | 0 <= k < |entries| && HolderOf(entries[k]).Some?
      ensures HolderOf(entries[k]).value in Holders(entries)
    {
      HoldersComplete(entries, k);
    }
    forall h | h in Holders(entries)
      ensures exists k :: 0 <= k < |entries| && HolderOf(entries[k]) == Some(h)
    {
      HolderSource(entries, h);
    }
  }

  datatype FeedResponse = FeedFailed | FeedReply(status: int, body: string)

  /** The whole function: a non-200 reply or a transport error yields no
      holders. */
  function Recent13FFilers(response: FeedResponse, limit: int): (r: seq<Investor>)
    ensures response.FeedFailed? || response.status != 200 ==> r == []
    ensures limit >= 0 ==> |r| <= limit
    ensures forall k :: 0 <= k < |r| ==> GoodHolder(r[k])
  {
    if response.FeedReply? && response.status == 200
    then Holders(SliceTo(Entries(response.body), limit))
    else []
  }

  /** Only the first `limit` entries of a successful reply are examined:
      every holder comes from one of them, and every one of them with both
      a title and a CIK yields its holder. */
  lemma HoldersFromFirstEntries(body: string, limit: int)
    ensures ExactlyMatched(SliceTo(Entries(body), limit), Recent13FFilers(FeedReply(200, body), limit))
  {
    var examined := SliceTo(Entries(body), limit);
    assert Recent13FFilers(FeedReply(200, body), limit) == Holders(examined);
    HoldersExactlyMatched(examined);
  }
}
