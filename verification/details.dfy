/**
  `get_adviser_details`: pad the CIK to ten digits, fetch the company's
  submissions document, and read six values out of it. The fetch and the
  JSON decoding are outside the model: the reply arrives as a parameter,
  already decoded into the few keys the function reads.
 */
module AdviserDetails {
  import opened Strings
  import opened Records
  import opened StateCodes

  /** `n` zero characters. */
  function Zeros(n: nat): (z: string)
    ensures |z| == n && forall i :: 0 <= i < n ==> z[i] == '0'
  {
    seq(n, _ => '0')
  }

  predicate AllZeros(s: string) {
    forall i :: 0 <= i < |s| ==> s[i] == '0'
  }

  /** `zfill` keeps a leading sign in front of the padding. */
  predicate Signed(s: string) {
    |s| > 0 && (s[0] == '+' || s[0] == '-')
  }

  function Max(a: int, b: int): int {
    if a >= b then a else b
  }

  /** `str.zfill(width)`: zeros are inserted after any sign until the string
      is `width` long; a string at least that long is returned unchanged. */
  function ZFill(s: string, width: int): (r: string)
    ensures |r| == Max(|s|, width)
    ensures !Signed(s) ==> r[|r| - |s|..] == s && AllZeros(r[..|r| - |s|])
    ensures Signed(s) ==> r[0] == s[0] && r[|r| - |s| + 1..] == s[1..] && AllZeros(r[1..|r| - |s| + 1])
  {
    if |s| >= width then s
    else if Signed(s) then
      PadAfterSign(s, Zeros(width - |s|));
      [s[0]] + Zeros(width - |s|) + s[1..]
    else
      PadInFront(s, Zeros(width - |s|));
      Zeros(width - |s|) + s
  }

  lemma PadAfterSign(s: string, pad: string)
    requires |s| > 0 && AllZeros(pad)
    ensures var r := [s[0]] + pad + s[1..];
            |r| == |pad| + |s| && r[0] == s[0] && r[|r| - |s| + 1..] == s[1..] && AllZeros(r[1..|r| - |s| + 1])
  {
    var r := [s[0]] + pad + s[1..];
    assert r[1..|r| - |s| + 1] == pad;
    assert r[|r| - |s| + 1..] == s[1..];
  }

  lemma PadInFront(s: string, pad: string)
    requires AllZeros(pad)
    ensures var r := pad + s;
            |r| == |pad| + |s| && r[|r| - |s|..] == s && AllZeros(r[..|r| - |s|])
  {
    var r := pad + s;
    assert r[..|r| - |s|] == pad;
    assert r[|r| - |s|..] == s;
  }

  function DigitOf(c: char): int {
    c as int - '0' as int
  }

  /** The number a string of decimal digits denotes. */
  function Value(s: string): (n: nat)
    requires AllDigits(s)
  {
    if |s| == 0 then 0 else Value(s[..|s| - 1]) * 10 + DigitOf(s[|s| - 1])
  }

  lemma {:induction false} ZerosAreNothing(n: nat)
    ensures AllDigits(Zeros(n)) && Value(Zeros(n)) == 0
  {
    if n > 0 {
      assert Zeros(n)[..n - 1] == Zeros(n - 1);
      ZerosAreNothing(n - 1);
    }
  }

  /** Leading zeros do not change the value of a digit string. */
  lemma {:induction false} LeadingZeros(z: string, s: string)
    requires AllZeros(z) && AllDigits(s)
    ensures AllDigits(z + s) && Value(z + s) == Value(s)
    decreases |s|
  {
    if |s| == 0 {
      assert z + s == z;
      assert z == Zeros(|z|);
      ZerosAreNothing(|z|);
    } else {
      var s' := s[..|s| - 1];
      assert (z + s)[..|z + s| - 1] == z + s';
      LeadingZeros(z, s');
    }
  }

  /** Padding a digit string keeps it a digit string with the same value. */
  lemma ZFillKeepsValue(s: string, width: int)
    requires AllDigits(s)
    ensures AllDigits(ZFill(s, width)) && Value(ZFill(s, width)) == Value(s)
  {
    var r := ZFill(s, width);
    var z := r[..|r| - |s|];
    assert r == z + s;
    LeadingZeros(z, s);
  }

  /** Padding twice to the same width pads once. */
  lemma ZFillIdempotent(s: string, width: int)
    ensures ZFill(ZFill(s, width), width) == ZFill(s, width)
  {
  }

  /** Two digit strings of the same length are equal when their values are. */
  lemma {:induction false} SameLengthSameValue(a: string, b: string)
    requires AllDigits(a) && AllDigits(b) && |a| == |b| && Value(a) == Value(b)
    ensures a == b
    decreases |a|
  {
    if |a| > 0 {
      var a', b' := a[..|a| - 1], b[..|b| - 1];
      var da, db := DigitOf(a[|a| - 1]), DigitOf(b[|b| - 1]);
      assert Value(a') * 10 + da == Value(b') * 10 + db;
      assert da == db && Value(a') == Value(b');
      SameLengthSameValue(a', b');
      assert a == a' + [a[|a| - 1]] && b == b' + [b[|b| - 1]];
    }
  }

  const CikWidth := 10

  const UrlPrefix := "https://data.sec.gov/submissions/CIK"

  /** `f"https://data.sec.gov/submissions/CIK{cik.zfill(10)}.json"` */
  function DetailUrl(cik: string): string {
    UrlPrefix + ZFill(cik, CikWidth) + ".json"
  }

  /** A CIK of at most ten characters is padded to exactly ten, which stand
      right after the fixed prefix of the URL. */
  lemma PaddedInUrl(cik: string)
    requires |cik| <= CikWidth
    ensures |ZFill(cik, CikWidth)| == CikWidth
    ensures DetailUrl(cik)[|UrlPrefix|..|UrlPrefix| + CikWidth] == ZFill(cik, CikWidth)
  {
  }

  /** CIKs of at most ten digits name the same document exactly when they
      denote the same number: padding removes no information and adds
      none. */
  lemma DetailUrlIdentifiesCik(a: string, b: string)
    requires AllDigits(a) && AllDigits(b) && |a| <= CikWidth && |b| <= CikWidth
    ensures DetailUrl(a) == DetailUrl(b) <==> Value(a) == Value(b)
  {
    var pa, pb := ZFill(a, CikWidth), ZFill(b, CikWidth);
    ZFillKeepsValue(a, CikWidth);
    ZFillKeepsValue(b, CikWidth);
    PaddedInUrl(a);
    PaddedInUrl(b);
    if Value(a) == Value(b) {
      SameLengthSameValue(pa, pb);
    }
  }

  /** A JSON value as `dict.get` sees it: the key is absent, holds `null`,
      or holds a value. */
  datatype Slot<T> = Absent | Null | Present(value: T)

  datatype Business = Business(
    street1: Slot<string>,
    street2: Slot<string>,
    city: Slot<string>,
    stateOrCountry: Slot<string>,
    zipCode: Slot<string>)

  datatype Addresses = Addresses(business: Slot<Business>)

  /** The keys of the submissions document the function reads. */
  datatype Submission = Submission(
    addresses: Slot<Addresses>,
    phone: Slot<string>,
    sic: Slot<string>,
    sicDescription: Slot<string>)

  /** The outcome of the fetch: a transport error, or a status code and the
      decoded body (`None` when the body is not a JSON object). */
  datatype DetailResponse = DetailFailed | DetailReply(status: int, body: Option<Submission>)

  const NoBusiness := Business(Absent, Absent, Absent, Absent, Absent)

  /** `dict.get(key, '')`: the default for an absent key, `None` for a
      null. */
  function GetText(f: Slot<string>): (r: Option<string>)
    ensures r.None? <==> f.Null?
    ensures f.Present? ==> r == Some(f.value)
    ensures f.Absent? ==> r == Some("")
  {
    match f
    case Absent => Some("")
    case Null => None
    case Present(s) => Some(s)
  }

  /** `data.get('addresses', {}).get('business', {})`: a null `addresses`
      makes the second `.get` raise; a null `business` is returned, and the
      first `business.get` of the address then raises. Either way the
      function's handler turns the error into `None`. */
  function BusinessOf(d: Submission): (r: Option<Business>)
    ensures r.None? <==> d.addresses.Null? || (d.addresses.Present? && d.addresses.value.business.Null?)
  {
    match d.addresses
    case Absent => Some(NoBusiness)
    case Null => None
    case Present(a) =>
      match a.business
      case Absent => Some(NoBusiness)
      case Null => None
      case Present(b) => Some(b)
  }

  /** The five parts laid out as `"{s1} {s2}, {city}, {state} {zip}"`. */
  function AddressLine(s1: string, s2: string, city: string, state: string, zip: string): string {
    s1 + " " + s2 + ", " + city + ", " + state + " " + zip
  }

  /** How the f-string renders what `.get(key, '')` returned: a null prints
      as `None`. */
  function Render(f: Slot<string>): string {
    match GetText(f)
    case None => "None"
    case Some(s) => s
  }

  /** The address exactly as the program builds it. */
  function AddressAsWritten(b: Business): (address: string)
    ensures IsStripped(address)
  {
    Strip(AddressLine(Render(b.street1), Render(b.street2), Render(b.city), Render(b.stateOrCountry), Render(b.zipCode)))
  }

  /** A part of the address as intended: a null part is left empty, like
      an absent one. */
  function Part(f: Slot<string>): (s: string)
    ensures f.Present? ==> s == f.value
    ensures !f.Present? ==> s == ""
  {
    GetText(f).GetOr("")
  }

  /** The address with null parts left empty. */
  function Address(b: Business): (address: string)
    ensures IsStripped(address)
  {
    Strip(AddressLine(Part(b.street1), Part(b.street2), Part(b.city), Part(b.stateOrCountry), Part(b.zipCode)))
  }

  /** The business entry of the example: a street, no second street line
      (`null` in the document), a city, a state and a ZIP code. */
  const NullStreetEntry := Business(Present("1 Main St"), Null, Present("Boston"), Present("MA"), Present("02110"))

  /** A null `street2`, common in the submissions documents, puts the word
      `None` into the address the program builds. */
  lemma NullStreetPrintsNone()
    ensures AddressAsWritten(NullStreetEntry) == "1 Main St None, Boston, MA 02110"
  {
    assert Render(NullStreetEntry.street2) == "None";
    var line := AddressLine("1 Main St", "None", "Boston", "MA", "02110");
    assert line == "1 Main St None, Boston, MA 02110";
    StripNoOp(line);
  }

  /** The intended address leaves the gap an absent `street2` leaves. */
  lemma NullStreetLeavesGap()
    ensures Address(NullStreetEntry) == "1 Main St , Boston, MA 02110"
  {
    assert Part(NullStreetEntry.street2) == "";
    var line := AddressLine("1 Main St", "", "Boston", "MA", "02110");
    assert line == "1 Main St , Boston, MA 02110";
    StripNoOp(line);
  }

  /** A business entry with a null `street1` whose `street2` starts with a
      word that is also a state code, and no state. */
  const NullLeadEntry := Business(Null, Present("AL 1"), Present("Boston"), Absent, Present("02110"))

  /** The program's address for `NullLeadEntry` starts with "None". */
  lemma NullLeadPrintsNone()
    ensures AddressAsWritten(NullLeadEntry) == "None AL 1, Boston,  02110"
  {
    assert Render(NullLeadEntry.street1) == "None";
    var line := AddressLine("None", "AL 1", "Boston", "", "02110");
    assert line == "None AL 1, Boston,  02110";
    StripNoOp(line);
  }

  /** The intended address for `NullLeadEntry` starts with the street2
      text. */
  lemma NullLeadStartsWithCode()
    ensures Address(NullLeadEntry) == "AL 1, Boston,  02110"
  {
    var r := "AL 1, Boston,  02110";
    assert Part(NullLeadEntry.street1) == "" && Part(NullLeadEntry.stateOrCountry) == "";
    var line := AddressLine("", "AL 1", "Boston", "", "02110");
    assert line == " " + r;
    assert line[1..] == r && IsSpace(line[0]);
    TrimStartNoOp(r);
    assert TrimStart(line) == r;
    TrimEndNoOp(r);
  }

  /** A null part can change the state read from the address. The program's
      address has "None" in front, so "AL" stands as a separate word and is
      extracted; the intended address starts with "AL", which none of the
      three mention patterns matches. */
  lemma NullPartShiftsState()
    ensures ExtractState(AddressAsWritten(NullLeadEntry)) == Some("AL")
    ensures ExtractState(Address(NullLeadEntry)) != Some("AL")
  {
    NullLeadPrintsNone();
    WordAfterNone();
    NullLeadStartsWithCode();
    LeadingCodeMissed();
  }

  /** Null mapped to absent. */
  function Denull(f: Slot<string>): (g: Slot<string>)
    ensures !g.Null? && (f.Null? ==> g.Absent?) && (!f.Null? ==> g == f)
  {
    if f.Null? then Absent else f
  }

  function DenullAll(b: Business): Business {
    Business(Denull(b.street1), Denull(b.street2), Denull(b.city), Denull(b.stateOrCountry), Denull(b.zipCode))
  }

  predicate HasNull(b: Business) {
    b.street1.Null? || b.street2.Null? || b.city.Null? || b.stateOrCountry.Null? || b.zipCode.Null?
  }

  /** The intended address treats a null part exactly like an absent one,
      and it is what the program builds whenever no part is null. */
  lemma AddressIgnoresNulls(b: Business)
    ensures Address(b) == Address(DenullAll(b))
    ensures !HasNull(b) ==> Address(b) == AddressAsWritten(b)
  {
    assert Part(b.street1) == Part(Denull(b.street1));
    assert Part(b.street2) == Part(Denull(b.street2));
    assert Part(b.city) == Part(Denull(b.city));
    assert Part(b.stateOrCountry) == Part(Denull(b.stateOrCountry));
    assert Part(b.zipCode) == Part(Denull(b.zipCode));
  }

  lemma SpaceBefore(s: string, i: nat, x: nat)
    requires i <= |s| && AllSpace(s[..i]) && x < i
    ensures IsSpace(s[x])
  {
    assert s[..i][x] == s[x];
  }

  lemma SpaceAfter(s: string, j: nat, e: nat)
    requires j <= e < |s| && AllSpace(s[j..])
    ensures IsSpace(s[e])
  {
    assert s[j..][e - j] == s[e];
  }

  /** `strip` keeps every occurrence that starts and ends with a non-space
      character. */
  lemma StripKeeps(s: string, p: string, x: nat)
    requires |p| > 0 && !IsSpace(p[0]) && !IsSpace(p[|p| - 1]) && OccursAt(s, p, x)
    ensures Contains(Strip(s), p)
  {
    var i, j :| 0 <= i <= j <= |s| && Strip(s) == s[i..j] && AllSpace(s[..i]) && AllSpace(s[j..]);
    OccursFirstChar(s, p, x);
    if x < i {
      SpaceBefore(s, i, x);
      assert false;
    }
    var e := x + |p| - 1;
    assert s[e] == s[x..x + |p|][|p| - 1];
    if e >= j {
      SpaceAfter(s, j, e);
      assert false;
    }
    OccursInSlice(s, p, x, i, j);
  }

  /** The document's state or country code is always found after a comma,
      both in the address the program builds and in the intended one, so an
      address built from a business entry with a state code always yields a
      state. */
  lemma AddressMentionsState(b: Business)
    requires b.stateOrCountry.Present? && b.stateOrCountry.value in States
    ensures Mentions(AddressAsWritten(b), b.stateOrCountry.value)
    ensures ExtractState(AddressAsWritten(b)).Some?
    ensures Mentions(Address(b), b.stateOrCountry.value)
    ensures ExtractState(Address(b)).Some?
  {
    var code := b.stateOrCountry.value;
    assert |code| > 0 && !IsSpace(code[|code| - 1]) by {
      var k :| 0 <= k < |States| && States[k] == code;
      CodesAreTwoLetters();
      assert IsUpper(States[k][1]);
    }
    StateAfterComma(b);
    MentionedAfterComma(AddressAsWritten(b), code);
    MentionedAfterComma(Address(b), code);
  }

  /** Both addresses hold `", "` followed by a state part that does not end
      in whitespace. */
  lemma StateAfterComma(b: Business)
    requires b.stateOrCountry.Present?
    requires var code := b.stateOrCountry.value; |code| > 0 && !IsSpace(code[|code| - 1])
    ensures Contains(AddressAsWritten(b), ", " + b.stateOrCountry.value)
    ensures Contains(Address(b), ", " + b.stateOrCountry.value)
  {
    var code := b.stateOrCountry.value;
    assert Render(b.stateOrCountry) == code;
    LineMentionsCode(Render(b.street1), Render(b.street2), Render(b.city), code, Render(b.zipCode));
    LineMentionsCode(Part(b.street1), Part(b.street2), Part(b.city), code, Part(b.zipCode));
  }

  /** A listed code found after a comma is mentioned, so some state is
      extracted. */
  lemma MentionedAfterComma(address: string, code: string)
    requires code in States && Contains(address, ", " + code)
    ensures Mentions(address, code) && ExtractState(address).Some?
  {
    var k :| 0 <= k < |States| && States[k] == code;
    assert Mentions(address, States[k]);
  }

  /** The stripped address line holds `", " + code` whenever the code ends
      in a non-space character. */
  lemma LineMentionsCode(s1: string, s2: string, city: string, code: string, zip: string)
    requires |code| > 0 && !IsSpace(code[|code| - 1])
    ensures Contains(Strip(AddressLine(s1, s2, city, code, zip)), ", " + code)
  {
    var head := s1 + " " + s2 + ", " + city;
    var line := AddressLine(s1, s2, city, code, zip);
    assert line == head + (", " + code) + " " + zip;
    assert line[|head|..|head| + |code| + 2] == ", " + code;
    StripKeeps(line, ", " + code, |head|);
  }

  /** The six values the function returns, read from a business entry and
      the document. The address is the intended one: it is the program's
      whenever no part of the entry is null, and where a part is null it
      leaves that part empty instead of printing `None`. */
  function DetailsOf(d: Submission, b: Business): (r: Details)
    ensures r.address == Address(b) == Address(DenullAll(b))
    ensures !HasNull(b) ==> r.address == AddressAsWritten(b)
    ensures r.state.None? <==> b.stateOrCountry.Null?
    ensures r.sicDescription.None? <==> d.sicDescription.Null?
  {
    AddressIgnoresNulls(b);
    Details(Address(b), GetText(b.city), GetText(b.stateOrCountry),
            GetText(d.phone), GetText(d.sic), GetText(d.sicDescription))
  }

  /** The whole function: details only for a 200 reply whose body is a JSON
      object in which neither `addresses` nor `business` is null; every
      other outcome, including a raised exception, is `None`. */
  function GetAdviserDetails(response: DetailResponse): (r: Option<Details>)
    ensures r.Some? <==> response.DetailReply? && response.status == 200 && response.body.Some?
                         && BusinessOf(response.body.value).Some?
    ensures r.Some? ==> IsStripped(r.value.address)
    ensures r.Some? ==> var b := BusinessOf(response.body.value).value;
                        r.value.address == Address(b)
                        && (!HasNull(b) ==> r.value.address == AddressAsWritten(b))
  {
    if response.DetailReply? && response.status == 200 && response.body.Some? then
      match BusinessOf(response.body.value)
      case Some(b) => Some(DetailsOf(response.body.value, b))
      case None => None
    else None
  }
}
