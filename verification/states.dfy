/**
  `extract_state`: the first of 51 two-letter codes that appears in an
  address as a separate word, after a comma, or at the very end.
  The tests are case sensitive.
 */
module StateCodes {
  import opened Strings

  /** The 50 state postal codes and DC, in the order they are tried. */
  const States: seq<string> :=
    ["AL", "AK", "AZ", "AR", "CA", "CO", "CT", "DE", "FL", "GA"] +
    ["HI", "ID", "IL", "IN", "IA", "KS", "KY", "LA", "ME", "MD"] +
    ["MA", "MI", "MN", "MS", "MO", "MT", "NE", "NV", "NH", "NJ"] +
    ["NM", "NY", "NC", "ND", "OH", "OK", "OR", "PA", "RI", "SC"] +
    ["SD", "TN", "TX", "UT", "VT", "VA", "WA", "WV", "WI", "WY", "DC"]

  /** `' X '`, `', X'` occur in the address, or it ends with `' X'`. */
  predicate Mentions(address: string, code: string) {
    || Contains(address, " " + code + " ")
    || Contains(address, ", " + code)
    || EndsWith(address, " " + code)
  }

  /** The codes of `codes` from index `k` on, tried in order. */
  function FindFrom(address: string, codes: seq<string>, k: nat): (r: Option<nat>)
    requires k <= |codes|
    decreases |codes| - k
    ensures r.Some? ==> k <= r.value < |codes| && Mentions(address, codes[r.value])
    ensures r.Some? ==> forall j :: k <= j < r.value ==> !Mentions(address, codes[j])
    ensures r.None? ==> forall j :: k <= j < |codes| ==> !Mentions(address, codes[j])
  {
    if k == |codes| then None
    else if Mentions(address, codes[k]) then Some(k)
    else FindFrom(address, codes, k + 1)
  }

  /** The extractor; an empty address gives `None` before any code is tried. */
  function ExtractState(address: string): (r: Option<string>)
    ensures address == "" ==> r == None
    ensures r.None? <==> address == "" || forall j :: 0 <= j < |States| ==> !Mentions(address, States[j])
    ensures r.Some? ==> exists k :: 0 <= k < |States| && States[k] == r.value
                          && Mentions(address, r.value)
                          && forall j :: 0 <= j < k ==> !Mentions(address, States[j])
  {
    if address == "" then None
    else
      match FindFrom(address, States, 0)
      case None => None
      case Some(k) => Some(States[k])
  }

  predicate IsUpper(c: char) {
    'A' <= c <= 'Z'
  }

  /** Every code is two upper-case letters. */
  lemma CodesAreTwoLetters()
    ensures forall k :: 0 <= k < |States| ==> |States[k]| == 2 && IsUpper(States[k][0]) && IsUpper(States[k][1])
  {
  }

  /** Any extracted value is one of the 51 codes and is mentioned in the
      address. */
  lemma ExtractedIsKnownCode(address: string)
    requires ExtractState(address).Some?
    ensures ExtractState(address).value in States
    ensures Mentions(address, ExtractState(address).value)
  {
  }

  /** The first code in the list wins whenever it is mentioned. */
  lemma FirstCodeExample()
    ensures ExtractState("1 Commerce St, Montgomery, AL 36104") == Some("AL")
  {
    var a := "1 Commerce St, Montgomery, AL 36104";
    assert a[26..30] == " AL ";
    assert OccursAt(a, " " + "AL" + " ", 26);
    assert States[0] == "AL";
    assert Mentions(a, States[0]);
    assert FindFrom(a, States, 0) == Some(0);
  }

  /** Codes are tried in list order, not in the order they appear: an
      address that mentions AK before AL yields AL, the earlier code in the
      list. */
  lemma ListOrderWins()
    ensures var a := "PO Box 1, Juneau, AK 99801, Mobile, AL";
            Mentions(a, "AK") && Mentions(a, "AL") && ExtractState(a) == Some("AL")
  {
    var a := "PO Box 1, Juneau, AK 99801, Mobile, AL";
    assert a[16] == ',' && a[17] == ' ' && a[18] == 'A' && a[19] == 'K';
    assert a[16..20] == ", AK";
    assert OccursAt(a, ", " + "AK", 16);
    assert a[|a| - 3..] == " AL";
    assert States[0] == "AL";
    assert Mentions(a, States[0]);
    assert FindFrom(a, States, 0) == Some(0);
  }

  /** A code standing as a word after other text is found. */
  lemma WordAfterNone()
    ensures ExtractState("None AL 1, Boston,  02110") == Some("AL")
  {
    var a := "None AL 1, Boston,  02110";
    assert a[4..8] == " AL ";
    assert OccursAt(a, " " + "AL" + " ", 4);
    assert States[0] == "AL";
    assert Mentions(a, States[0]);
    assert FindFrom(a, States, 0) == Some(0);
  }

  /** A code at the very start of an address is not mentioned: each
      pattern needs a space or a comma in front of it. */
  lemma LeadingCodeMissed()
    ensures ExtractState("AL 1, Boston,  02110") != Some("AL")
  {
    var a := "AL 1, Boston,  02110";
    assert a[1..] == "L 1, Boston,  02110";
    assert 'A' !in a[1..];
    NotAfterLead(a, " " + "AL" + " ", 1);
    NotAfterLead(a, ", " + "AL", 2);
    assert a[|a| - 3..] == "110";
  }
}
